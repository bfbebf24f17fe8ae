/**
 * The line framer of the laptop reader (laptop-interface/src/main.rs).
 *
 * Bytes read from the serial port are gathered in an unbounded
 * `line_buffer` that outlives each read. `\r` is dropped, every other byte
 * except `\n` is appended, and a `\n` ends the line: the line is trimmed,
 * handed to the NMEA parser when the trimmed text starts with `$`, and the
 * buffer is cleared either way. Here a hand-over to the parser is recorded
 * as an emitted candidate line; the parser itself is not modelled.
 */
module LineFraming {
  import opened Bytes
  import opened AsciiTrim

  /** The framer's state: the line being gathered and every candidate handed on so far. */
  datatype LineState = LineState(lineBuffer: seq<byte>, candidates: seq<seq<byte>>)

  /** The state when the program starts: an empty `Vec::new()` and nothing handed on. */
  const Start := LineState([], [])

  /** What one byte of a read does to the state (main.rs:85-108). */
  function LineStep(st: LineState, b: byte): LineState {
    if b == LF then
      var handedOn := if StartsWithDollar(st.lineBuffer) then [Trim(st.lineBuffer)] else [];
      LineState([], st.candidates + handedOn)
    else if b != CR then
      LineState(st.lineBuffer + [b], st.candidates)
    else
      st
  }

  /** The state after the bytes, in order, one step each. */
  function LineRun(st: LineState, bytes: seq<byte>): LineState
    decreases |bytes|
  {
    if bytes == [] then st
    else LineStep(LineRun(st, bytes[..|bytes| - 1]), bytes[|bytes| - 1])
  }

  /** The buffer never holds a line terminator or a carriage return. */
  ghost predicate CleanBuffer(buf: seq<byte>) {
    LF !in buf && CR !in buf
  }

  lemma {:induction false} RunKeepsBufferClean(st: LineState, bytes: seq<byte>)
    requires CleanBuffer(st.lineBuffer)
    ensures CleanBuffer(LineRun(st, bytes).lineBuffer)
    decreases |bytes|
  {
    if bytes != [] {
      RunKeepsBufferClean(st, bytes[..|bytes| - 1]);
    }
  }

  /**
   * Whatever came before, after the last `\n` the buffer holds exactly the
   * bytes that followed it, less any `\r`; in particular a `\n` always leaves
   * it empty, whether or not the line was handed on.
   */
  lemma {:induction false} BufferIsTailAfterLastNewline(st: LineState, bytes: seq<byte>, k: nat)
    requires k < |bytes| && bytes[k] == LF
    requires forall j :: k < j < |bytes| ==> bytes[j] != LF
    ensures LineRun(st, bytes).lineBuffer == StripCR(bytes[k + 1..])
    decreases |bytes|
  {
    var n := |bytes|;
    var init, b := bytes[..n - 1], bytes[n - 1];
    var before := LineRun(st, init);
    assert LineRun(st, bytes) == LineStep(before, b);
    if k < n - 1 {
      assert b != LF;
      BufferIsTailAfterLastNewline(st, init, k);
      var tail := init[k + 1..];
      assert before.lineBuffer == StripCR(tail);
      assert tail == bytes[k + 1..n - 1];
      assert bytes[k + 1..] == bytes[k + 1..n - 1] + [b];
      StripCRSnoc(tail, b);
    } else {
      assert bytes[k + 1..] == [];
    }
  }

  // ---------------------------------------------------------------------
  // Chunking does not matter.

  /** Running two pieces one after the other is running their concatenation. */
  lemma {:induction false} RunConcat(st: LineState, a: seq<byte>, b: seq<byte>)
    ensures LineRun(st, a + b) == LineRun(LineRun(st, a), b)
    decreases |b|
  {
    if b == [] {
      assert a + b == a;
    } else {
      assert (a + b)[..|a + b| - 1] == a + b[..|b| - 1];
      RunConcat(st, a, b[..|b| - 1]);
    }
  }

  /** The bytes of all chunks, in order. */
  function Flatten(chunks: seq<seq<byte>>): seq<byte> {
    if chunks == [] then []
    else Flatten(chunks[..|chunks| - 1]) + chunks[|chunks| - 1]
  }

  /** The state after feeding the chunks one read after another. */
  function FeedChunks(st: LineState, chunks: seq<seq<byte>>): LineState {
    if chunks == [] then st
    else LineRun(FeedChunks(st, chunks[..|chunks| - 1]), chunks[|chunks| - 1])
  }

  /**
   * However the stream is split into reads, the candidates and the final
   * buffer are those of the whole stream fed at once.
   */
  lemma {:induction false} ChunkingIndependence(st: LineState, chunks: seq<seq<byte>>)
    ensures FeedChunks(st, chunks) == LineRun(st, Flatten(chunks))
  {
    if chunks != [] {
      var init := chunks[..|chunks| - 1];
      ChunkingIndependence(st, init);
      RunConcat(st, Flatten(init), chunks[|chunks| - 1]);
    }
  }

  // ---------------------------------------------------------------------
  // Carriage returns do not matter.

  /** The bytes without any `\r`. */
  function StripCR(s: seq<byte>): (r: seq<byte>)
    ensures CR !in r
  {
    if s == [] then []
    else StripCR(s[..|s| - 1]) + (if s[|s| - 1] == CR then [] else [s[|s| - 1]])
  }

  /** A stream gives the same state with or without its carriage returns. */
  lemma {:induction false} CarriageReturnsIgnored(st: LineState, s: seq<byte>)
    ensures LineRun(st, StripCR(s)) == LineRun(st, s)
    decreases |s|
  {
    if s != [] {
      var init, last := s[..|s| - 1], s[|s| - 1];
      CarriageReturnsIgnored(st, init);
      if last != CR {
        var t := StripCR(init) + [last];
        assert StripCR(s) == t;
        assert t[..|t| - 1] == StripCR(init) && t[|t| - 1] == last;
        assert LineRun(st, t) == LineStep(LineRun(st, StripCR(init)), last);
      } else {
        assert StripCR(s) == StripCR(init) + [];
        assert StripCR(init) + [] == StripCR(init);
      }
    }
  }

  /** Within a line, every byte is appended and nothing is handed on. */
  lemma {:induction false} RunWithinLine(st: LineState, s: seq<byte>)
    requires LF !in s && CR !in s
    ensures LineRun(st, s) == LineState(st.lineBuffer + s, st.candidates)
    ensures StripCR(s) == s
    decreases |s|
  {
    if s != [] {
      var init := s[..|s| - 1];
      assert init + [s[|s| - 1]] == s;
      RunWithinLine(st, init);
    }
  }

  /**
   * A line ended by `\r\n` and the same line ended by `\n` leave the same
   * state: an empty buffer, and the trimmed line handed on if it starts with `$`.
   */
  lemma CrLfAndLfAgree(st: LineState, line: seq<byte>)
    requires LF !in line && CR !in line
    ensures var full := st.lineBuffer + line;
      LineRun(st, line + [CR, LF]) == LineRun(st, line + [LF])
      == LineState([], st.candidates + if StartsWithDollar(full) then [Trim(full)] else [])
  {
    var crlf := line + [CR, LF];
    var lf := line + [LF];
    RunWithinLine(st, line);
    assert crlf[..|crlf| - 1] == line + [CR] && (line + [CR])[..|line|] == line;
    assert lf[..|lf| - 1] == line;
  }

  /**
   * A line whose first byte that is not whitespace is something other than
   * `$` is dropped whole, even if a `$` follows later in it: at the start of
   * a line, it leaves the state exactly as it was.
   */
  lemma GarbageLineDropped(st: LineState, line: seq<byte>, k: nat)
    requires st.lineBuffer == []
    requires LF !in line && CR !in line
    requires k < |line| && !IsWhitespace(line[k]) && line[k] != DOLLAR
    requires forall j :: 0 <= j < k ==> IsWhitespace(line[j])
    ensures LineRun(st, line + [LF]) == st
  {
    CrLfAndLfAgree(st, line);
    assert st.lineBuffer + line == line;
    FirstNonWhitespaceDecides(line, k);
    assert st.candidates + [] == st.candidates;
  }

  // ---------------------------------------------------------------------
  // A reference definition: the stream split at every `\n`.

  /** The pieces of the stream between `\n` bytes, as `split(|b| *b == b'\n')` gives them. */
  function Split(s: seq<byte>): (pieces: seq<seq<byte>>)
    ensures |pieces| >= 1
    decreases |s|
  {
    if s == [] then [[]]
    else
      var rest := Split(s[1..]);
      if s[0] == LF then [[]] + rest
      else [[s[0]] + rest[0]] + rest[1..]
  }

  /** The pieces joined back with `\n` between them. */
  function Join(pieces: seq<seq<byte>>): seq<byte>
    requires |pieces| >= 1
  {
    if |pieces| == 1 then pieces[0]
    else pieces[0] + [LF] + Join(pieces[1..])
  }

  /** Split cuts the stream at every `\n` and nowhere else. */
  lemma {:induction false} SplitJoin(s: seq<byte>)
    ensures Join(Split(s)) == s
    ensures forall p :: p in Split(s) ==> LF !in p
    decreases |s|
  {
    if s != [] {
      var rest := Split(s[1..]);
      SplitJoin(s[1..]);
      if s[0] == LF {
        assert ([[]] + rest)[1..] == rest;
      } else {
        var pieces := [[s[0]] + rest[0]] + rest[1..];
        assert pieces[1..] == rest[1..];
        if |rest| > 1 {
          assert Join(rest) == rest[0] + [LF] + Join(rest[1..]);
        }
        assert forall p :: p in pieces ==> p == pieces[0] || p in rest;
      }
    }
  }

  /** The pieces after one more byte: a `\n` opens a new piece, any other byte extends the last. */
  function Extend(pieces: seq<seq<byte>>, b: byte): seq<seq<byte>>
    requires |pieces| >= 1
  {
    if b == LF then pieces + [[]]
    else pieces[..|pieces| - 1] + [pieces[|pieces| - 1] + [b]]
  }

  lemma ExtendAfterEmpty(rest: seq<seq<byte>>, b: byte)
    requires |rest| >= 1
    ensures Extend([[]] + rest, b) == [[]] + Extend(rest, b)
  {
    var p := [[]] + rest;
    if b != LF {
      assert p[..|p| - 1] == [[]] + rest[..|rest| - 1];
    }
  }

  lemma ExtendAfterHead(x: byte, rest: seq<seq<byte>>, b: byte)
    requires |rest| >= 1
    ensures var q := Extend(rest, b);
      Extend([[x] + rest[0]] + rest[1..], b) == [[x] + q[0]] + q[1..]
  {
    var n := |rest|;
    var q := Extend(rest, b);
    if b == LF {
      assert q[0] == rest[0] && q[1..] == rest[1..] + [[]];
    } else if n == 1 {
      assert q == [rest[0] + [b]];
      assert [x] + (rest[0] + [b]) == ([x] + rest[0]) + [b];
    } else {
      assert q[0] == rest[0] && q[1..] == rest[1..n - 1] + [rest[n - 1] + [b]];
    }
  }

  /** Appending one byte to the stream changes only the last piece, or opens a new one. */
  lemma {:induction false} SplitSnoc(s: seq<byte>, b: byte)
    ensures Split(s + [b]) == Extend(Split(s), b)
    decreases |s|
  {
    if s != [] {
      var x := s[0];
      assert (s + [b])[0] == x && (s + [b])[1..] == s[1..] + [b];
      SplitSnoc(s[1..], b);
      var rest := Split(s[1..]);
      if x == LF {
        ExtendAfterEmpty(rest, b);
      } else {
        ExtendAfterHead(x, rest, b);
      }
    } else {
      assert s + [b] == [b] && [b][1..] == [];
      var rest: seq<seq<byte>> := [[]];
      assert Split([]) == rest && rest[0] == [] && rest[1..] == [];
      assert [b] + rest[0] == [b];
    }
  }

  lemma {:induction false} SplitCount(s: seq<byte>)
    ensures |Split(s)| == Count(s, LF) + 1
    decreases |s|
  {
    if s != [] {
      var init := s[..|s| - 1];
      assert init + [s[|s| - 1]] == s;
      SplitSnoc(init, s[|s| - 1]);
      SplitCount(init);
    }
  }

  /** The candidates that the completed lines give: each one without `\r`, trimmed, if it starts with `$`. */
  function Candidates(lines: seq<seq<byte>>): (cs: seq<seq<byte>>)
    ensures |cs| <= |lines|
    ensures forall c :: c in cs ==> |c| > 0 && c[0] == DOLLAR
  {
    if lines == [] then []
    else
      var line := StripCR(lines[|lines| - 1]);
      Candidates(lines[..|lines| - 1]) + (if StartsWithDollar(line) then [Trim(line)] else [])
  }

  /**
   * From program start, the candidates are those of the completed pieces of
   * the stream, and the buffer is the unfinished last piece without `\r`.
   */
  lemma {:induction false} RunMatchesSplit(s: seq<byte>)
    ensures var p := Split(s);
      LineRun(Start, s) == LineState(StripCR(p[|p| - 1]), Candidates(p[..|p| - 1]))
    decreases |s|
  {
    if s != [] {
      var init, b := s[..|s| - 1], s[|s| - 1];
      assert init + [b] == s;
      RunMatchesSplit(init);
      SplitSnoc(init, b);
      assert LineRun(Start, s) == LineStep(LineRun(Start, init), b);
      StepMatchesExtend(LineRun(Start, init), Split(init), b);
    }
  }

  /** A non-empty sequence is its front followed by its last element. */
  lemma InitLast<T>(p: seq<T>)
    requires |p| > 0
    ensures p == p[..|p| - 1] + [p[|p| - 1]]
  {
  }

  /** One byte moves the state and the pieces in step. */
  lemma StepMatchesExtend(before: LineState, p: seq<seq<byte>>, b: byte)
    requires |p| >= 1
    requires before == LineState(StripCR(p[|p| - 1]), Candidates(p[..|p| - 1]))
    ensures var q := Extend(p, b);
      LineStep(before, b) == LineState(StripCR(q[|q| - 1]), Candidates(q[..|q| - 1]))
  {
    var n := |p|;
    var last, done := p[n - 1], p[..n - 1];
    if b == LF {
      var q := p + [[]];
      assert q[..|q| - 1] == p && q[|q| - 1] == [];
      InitLast(p);
      CandidatesSnoc(done, last);
    } else {
      var q := done + [last + [b]];
      assert q[..|q| - 1] == done && q[|q| - 1] == last + [b];
      StripCRSnoc(last, b);
    }
  }

  lemma CandidatesSnoc(lines: seq<seq<byte>>, l: seq<byte>)
    ensures var c := StripCR(l);
      Candidates(lines + [l]) == Candidates(lines) + if StartsWithDollar(c) then [Trim(c)] else []
  {
    assert (lines + [l])[..|lines|] == lines;
  }

  lemma StripCRSnoc(s: seq<byte>, b: byte)
    ensures StripCR(s + [b]) == StripCR(s) + if b == CR then [] else [b]
  {
    assert (s + [b])[..|s|] == s;
  }

  /** No more candidates than `\n` bytes are ever handed on. */
  lemma CandidatesAtMostNewlines(s: seq<byte>)
    ensures |LineRun(Start, s).candidates| <= Count(s, LF)
  {
    RunMatchesSplit(s);
    SplitCount(s);
  }

  // ---------------------------------------------------------------------
  // Reads from the serial port.

  /**
   * What one `sp_blocking_read` call gives: its return value (positive: that
   * many bytes were read, zero: timeout, negative: error) and the contents
   * of the 1024-byte read buffer after the call.
   */
  datatype ReadOutcome = ReadOutcome(bytesRead: int, readBuffer: seq<byte>)

  /** What the serial library promises: it never reports more bytes than the buffer holds. */
  predicate WithinReadBuffer(o: ReadOutcome) {
    o.bytesRead <= |o.readBuffer|
  }

  /** The bytes of one read that the framer processes: `&read_buffer[..bytes_read]`, or none. */
  function Received(o: ReadOutcome): seq<byte>
    requires WithinReadBuffer(o)
  {
    if o.bytesRead <= 0 then [] else o.readBuffer[..o.bytesRead]
  }

  /** The bytes the framer processes over a run of reads, which stops at the first failed read. */
  function Processed(outcomes: seq<ReadOutcome>): seq<byte>
    requires forall i :: 0 <= i < |outcomes| ==> WithinReadBuffer(outcomes[i])
  {
    if outcomes == [] || outcomes[0].bytesRead < 0 then []
    else Received(outcomes[0]) + Processed(outcomes[1..])
  }

  /** The bytes processed from read `i` on: none after a failed read, else that read's bytes and then the rest. */
  lemma ProcessedFrom(outcomes: seq<ReadOutcome>, i: nat)
    requires forall j :: 0 <= j < |outcomes| ==> WithinReadBuffer(outcomes[j])
    requires i < |outcomes|
    ensures Processed(outcomes[i..])
         == if outcomes[i].bytesRead < 0 then [] else Received(outcomes[i]) + Processed(outcomes[i + 1..])
  {
    assert outcomes[i..][0] == outcomes[i] && outcomes[i..][1..] == outcomes[i + 1..];
  }

  /** A read that timed out with zero bytes changes nothing; the loop simply reads again. */
  lemma {:induction false} TimeoutsChangeNothing(outcomes: seq<ReadOutcome>, i: nat)
    requires forall j :: 0 <= j < |outcomes| ==> WithinReadBuffer(outcomes[j])
    requires i < |outcomes| && outcomes[i].bytesRead == 0
    ensures Processed(outcomes[..i] + outcomes[i + 1..]) == Processed(outcomes)
  {
    if i > 0 {
      var rest := outcomes[1..];
      assert (outcomes[..i] + outcomes[i + 1..])[1..] == rest[..i - 1] + rest[i..];
      TimeoutsChangeNothing(rest, i - 1);
    } else {
      assert outcomes[..i] + outcomes[i + 1..] == outcomes[1..];
    }
  }

  /** A failed read ends the loop: nothing from it or from any later read is processed. */
  lemma {:induction false} ErrorEndsReading(outcomes: seq<ReadOutcome>, i: nat)
    requires forall j :: 0 <= j < |outcomes| ==> WithinReadBuffer(outcomes[j])
    requires i < |outcomes| && outcomes[i].bytesRead < 0
    ensures Processed(outcomes) == Processed(outcomes[..i])
  {
    if i > 0 && outcomes[0].bytesRead >= 0 {
      assert outcomes[..i][1..] == outcomes[1..][..i - 1];
      ErrorEndsReading(outcomes[1..], i - 1);
    }
  }

  /** With no failed read, exactly the first `bytes_read` bytes of each read are processed, read after read. */
  lemma {:induction false} ProcessedInOrder(outcomes: seq<ReadOutcome>)
    requires forall j :: 0 <= j < |outcomes| ==> WithinReadBuffer(outcomes[j]) && outcomes[j].bytesRead >= 0
    ensures Processed(outcomes) == Flatten(seq(|outcomes|, j requires 0 <= j < |outcomes| => outcomes[j].readBuffer[..outcomes[j].bytesRead]))
  {
    if outcomes != [] {
      var n := |outcomes|;
      var all := seq(n, j requires 0 <= j < n => outcomes[j].readBuffer[..outcomes[j].bytesRead]);
      var tail := outcomes[1..];
      var rest := seq(n - 1, j requires 0 <= j < n - 1 => tail[j].readBuffer[..tail[j].bytesRead]);
      ProcessedInOrder(tail);
      assert all == [all[0]] + rest;
      FlattenCons(all[0], rest);
    }
  }

  lemma {:induction false} FlattenCons(c: seq<byte>, chunks: seq<seq<byte>>)
    ensures Flatten([c] + chunks) == c + Flatten(chunks)
    decreases |chunks|
  {
    if chunks != [] {
      var all := [c] + chunks;
      assert all[..|all| - 1] == [c] + chunks[..|chunks| - 1];
      FlattenCons(c, chunks[..|chunks| - 1]);
    } else {
      assert [c] + chunks == [c];
      assert [c][..0] == [];
    }
  }

  // ---------------------------------------------------------------------
  // The reader loop of `main` (main.rs:63-110).

  class LineFramer {
    /** `line_buffer` of main.rs:63. */
    var lineBuffer: seq<byte>
    /** Every trimmed line handed to `nmea_parser.parse`, in order. */
    ghost var candidates: seq<seq<byte>>

    ghost predicate Valid()
      reads this
    {
      CleanBuffer(lineBuffer)
    }

    ghost function State(): LineState
      reads this
    {
      LineState(lineBuffer, candidates)
    }

    constructor ()
      ensures Valid() && State() == Start
    {
      lineBuffer := [];
      candidates := [];
    }

    /** The `for &b in data` loop over the bytes of one read (main.rs:84-109). */
    method Feed(data: seq<byte>)
      requires Valid()
      modifies this
      ensures Valid()
      ensures State() == LineRun(old(State()), data)
    {
      for i := 0 to |data|
        invariant Valid()
        invariant State() == LineRun(old(State()), data[..i])
      {
        var b := data[i];
        assert data[..i + 1][..i] == data[..i];
        if b == LF {
          if StartsWithDollar(lineBuffer) {
            candidates := candidates + [Trim(lineBuffer)];
          }
          lineBuffer := [];
        } else if b != CR {
          lineBuffer := lineBuffer + [b];
        }
      }
      assert data[..|data|] == data;
    }

    /**
     * The outer `loop` (main.rs:67-110), over a finite run of read outcomes:
     * a negative count ends it, a zero count reads again, and a positive
     * count feeds the bytes read. `failed` tells whether it ended on an error.
     */
    method Drive(outcomes: seq<ReadOutcome>) returns (failed: bool)
      requires Valid()
      requires forall j :: 0 <= j < |outcomes| ==> WithinReadBuffer(outcomes[j])
      modifies this
      ensures Valid()
      ensures failed <==> exists j :: 0 <= j < |outcomes| && outcomes[j].bytesRead < 0
      ensures State() == LineRun(old(State()), Processed(outcomes))
    {
      failed := false;
      var i := 0;
      assert outcomes[0..] == outcomes;
      while i < |outcomes|
        invariant 0 <= i <= |outcomes|
        invariant Valid()
        invariant forall j :: 0 <= j < i ==> outcomes[j].bytesRead >= 0
        invariant LineRun(old(State()), Processed(outcomes)) == LineRun(State(), Processed(outcomes[i..]))
        invariant !failed
      {
        var bytesRead := outcomes[i].bytesRead;
        ProcessedFrom(outcomes, i);
        if bytesRead < 0 {
          failed := true;
          break;
        } else if bytesRead == 0 {
          assert Received(outcomes[i]) == [];
          assert Processed(outcomes[i..]) == Processed(outcomes[i + 1..]);
          i := i + 1;
          continue;
        }
        var data := outcomes[i].readBuffer[..bytesRead];
        assert Processed(outcomes[i..]) == data + Processed(outcomes[i + 1..]);
        RunConcat(State(), data, Processed(outcomes[i + 1..]));
        Feed(data);
        i := i + 1;
      }
    }
  }
}
