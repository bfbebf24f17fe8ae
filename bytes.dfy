/** Bytes, the ASCII bytes both framers compare against, and counting. */
module Bytes {

  /** An unsigned 8-bit value, Rust's `u8`. */
  newtype byte = b: int | 0 <= b < 0x100

  const NUL: byte := 0x00     // the byte the Pico framer filters out of each chunk
  const LF: byte := 0x0A      // b'\n'
  const CR: byte := 0x0D      // b'\r'
  const DOLLAR: byte := 0x24  // b'$', the start of an NMEA-0183 sentence

  /** The number of occurrences of `b` in `s`. */
  function Count(s: seq<byte>, b: byte): (n: nat)
    ensures n <= |s|
    ensures n == 0 <==> b !in s
  {
    if s == [] then 0
    else Count(s[..|s| - 1], b) + (if s[|s| - 1] == b then 1 else 0)
  }
}
