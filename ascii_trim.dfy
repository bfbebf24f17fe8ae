/**
 * Rust's `str::trim` restricted to ASCII text: it strips the bytes that
 * `char::is_whitespace` accepts below 0x80 (tab, line feed, vertical tab,
 * form feed, carriage return and space) from both ends of a line.
 */
module AsciiTrim {
  import opened Bytes

  predicate IsWhitespace(b: byte) {
    0x09 <= b <= 0x0D || b == 0x20
  }

  /** The number of whitespace bytes the line starts with. */
  function LeadingWhitespace(s: seq<byte>): (n: nat)
    ensures n <= |s|
    ensures forall k :: 0 <= k < n ==> IsWhitespace(s[k])
    ensures n < |s| ==> !IsWhitespace(s[n])
  {
    if s != [] && IsWhitespace(s[0]) then 1 + LeadingWhitespace(s[1..]) else 0
  }

  /** The number of whitespace bytes the line ends with. */
  function TrailingWhitespace(s: seq<byte>): (n: nat)
    ensures n <= |s|
    ensures forall k :: |s| - n <= k < |s| ==> IsWhitespace(s[k])
    ensures n < |s| ==> !IsWhitespace(s[|s| - n - 1])
  {
    if s != [] && IsWhitespace(s[|s| - 1]) then 1 + TrailingWhitespace(s[..|s| - 1]) else 0
  }

  /**
   * `trim`: the result is the slice of the line between its leading and its
   * trailing whitespace; it is empty exactly when the line is all
   * whitespace, and otherwise starts and ends with a byte that is not.
   */
  function Trim(s: seq<byte>): (r: seq<byte>)
    ensures exists i, j :: 0 <= i <= j <= |s| && r == s[i..j]
                           && (forall k :: 0 <= k < i ==> IsWhitespace(s[k]))
                           && (forall k :: j <= k < |s| ==> IsWhitespace(s[k]))
    ensures r == [] <==> forall k :: 0 <= k < |s| ==> IsWhitespace(s[k])
    ensures r != [] ==> r[0] == s[LeadingWhitespace(s)] && !IsWhitespace(r[0]) && !IsWhitespace(r[|r| - 1])
  {
    var i := LeadingWhitespace(s);
    if i == |s| then
      assert s[i..i] == [];
      []
    else
      var j := |s| - TrailingWhitespace(s);
      assert i < j;
      s[i..j]
  }

  /**
   * `trimmed_line.starts_with('$')`: the trimmed line begins with the
   * sentence start marker.
   */
  predicate StartsWithDollar(line: seq<byte>) {
    var t := Trim(line);
    |t| > 0 && t[0] == DOLLAR
  }

  /**
   * A line passes the check exactly when its first byte that is not
   * whitespace is `$`; a line with anything else before the `$` fails as a
   * whole (there is no search for a later `$`).
   */
  lemma StartsWithDollarIff(line: seq<byte>)
    ensures StartsWithDollar(line) <==>
      exists k :: 0 <= k < |line| && line[k] == DOLLAR
                  && forall j :: 0 <= j < k ==> IsWhitespace(line[j])
  {
    var k0 := LeadingWhitespace(line);
    if k0 < |line| {
      assert Trim(line) != [];
    }
  }

  /** Only the first byte that is not whitespace decides the check. */
  lemma FirstNonWhitespaceDecides(line: seq<byte>, k: nat)
    requires k < |line| && !IsWhitespace(line[k])
    requires forall j :: 0 <= j < k ==> IsWhitespace(line[j])
    ensures StartsWithDollar(line) <==> line[k] == DOLLAR
  {
    assert LeadingWhitespace(line) == k;
    assert Trim(line) != [];
  }
}
