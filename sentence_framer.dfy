/**
 * The sentence framer of the Pico firmware (pico-image/src/main.rs).
 *
 * Each time `usb_dev.poll` returns true, a 64-byte chunk is read from the
 * GNSS receiver over I2C. Its non-zero bytes go, in order, into a fixed-capacity
 * `heapless::Vec<u8, 256>`: a `$` first clears it, every byte (the `$`
 * included) is then pushed, a push into a full buffer fails and the failure
 * is ignored, and a `\n` makes the whole buffer be written to USB serial.
 * The buffer is not cleared after the write. Here a USB write is recorded as
 * an emitted byte sequence.
 */
module SentenceFraming {
  import opened Bytes

  /** The capacity of `nmea_buffer` (main.rs:86). */
  const CAPACITY: nat := 256

  /** `b"I2C Read Error\n"`, written to USB when an I2C read fails (main.rs:114). */
  const I2C_READ_ERROR: seq<byte> :=
    [0x49, 0x32, 0x43, 0x20, 0x52, 0x65, 0x61, 0x64, 0x20, 0x45, 0x72, 0x72, 0x6F, 0x72, 0x0A]

  /** The framer's state: the buffer contents and every USB write so far. */
  datatype SentenceState = SentenceState(buffer: seq<byte>, writes: seq<seq<byte>>)

  /** The state when the main loop starts: an empty `Vec::new()` and nothing written. */
  const Boot := SentenceState([], [])

  /** `Vec::push` whose `Err` is discarded: the byte is appended only when there is room. */
  function PushOrDrop(buf: seq<byte>, b: byte): seq<byte> {
    if |buf| < CAPACITY then buf + [b] else buf
  }

  /** What one non-zero byte does to the state (main.rs:98-110). */
  function SentenceStep(st: SentenceState, b: byte): SentenceState {
    var cleared := if b == DOLLAR then [] else st.buffer;
    var pushed := PushOrDrop(cleared, b);
    SentenceState(pushed, if b == LF then st.writes + [pushed] else st.writes)
  }

  /** The state after the bytes, in order, one step each. */
  function SentenceRun(st: SentenceState, bytes: seq<byte>): SentenceState
    decreases |bytes|
  {
    if bytes == [] then st
    else SentenceStep(SentenceRun(st, bytes[..|bytes| - 1]), bytes[|bytes| - 1])
  }

  /** The chunk without its zero bytes: `chunk.iter().filter(|&&b| b != 0)`. */
  function NonZero(chunk: seq<byte>): (r: seq<byte>)
    ensures NUL !in r
    ensures |r| <= |chunk|
  {
    if chunk == [] then []
    else NonZero(chunk[..|chunk| - 1]) + (if chunk[|chunk| - 1] == NUL then [] else [chunk[|chunk| - 1]])
  }

  /** What one successfully read chunk does to the state (main.rs:96-111). */
  function ChunkStep(st: SentenceState, chunk: seq<byte>): SentenceState {
    SentenceRun(st, NonZero(chunk))
  }

  /** What one pass of the main loop meets (main.rs:90-116). */
  datatype PollOutcome =
    | Idle                      // `usb_dev.poll` returned false: nothing is read
    | ReadOk(chunk: seq<byte>)  // the I2C read filled the chunk
    | ReadFailed                // the I2C read returned `Err`

  function PollStep(st: SentenceState, p: PollOutcome): SentenceState {
    match p
    case Idle => st
    case ReadOk(chunk) => ChunkStep(st, chunk)
    case ReadFailed => SentenceState(st.buffer, st.writes + [I2C_READ_ERROR])
  }

  function PollRun(st: SentenceState, polls: seq<PollOutcome>): SentenceState {
    if polls == [] then st
    else PollStep(PollRun(st, polls[..|polls| - 1]), polls[|polls| - 1])
  }

  // ---------------------------------------------------------------------
  // The buffer's contents.

  /** The first `CAPACITY` bytes of `s`: what pushing `s` byte by byte into an empty buffer keeps. */
  function Capped(s: seq<byte>): (r: seq<byte>)
    ensures |r| <= CAPACITY && r <= s
    ensures |s| <= CAPACITY ==> r == s
    ensures |s| > CAPACITY ==> |r| == CAPACITY
  {
    if |s| <= CAPACITY then s else s[..CAPACITY]
  }

  lemma PushOrDropCapped(s: seq<byte>, b: byte)
    ensures PushOrDrop(Capped(s), b) == Capped(s + [b])
  {
    if |s| >= CAPACITY {
      assert (s + [b])[..CAPACITY] == s[..CAPACITY];
    }
  }

  /**
   * With no `$` among the bytes, everything is appended to what the buffer
   * held until it is full, and the rest is dropped.
   */
  lemma {:induction false} BufferWithoutDollar(st: SentenceState, bytes: seq<byte>)
    requires |st.buffer| <= CAPACITY
    requires DOLLAR !in bytes
    ensures SentenceRun(st, bytes).buffer == Capped(st.buffer + bytes)
    decreases |bytes|
  {
    if bytes == [] {
      assert st.buffer + bytes == st.buffer;
    } else {
      var init, b := bytes[..|bytes| - 1], bytes[|bytes| - 1];
      BufferWithoutDollar(st, init);
      PushOrDropCapped(st.buffer + init, b);
      assert st.buffer + init + [b] == st.buffer + bytes;
    }
  }

  /**
   * After the last `$` among the bytes, the buffer is that `$` followed by
   * what came after it, up to the capacity: every `$` restarts the buffer.
   */
  lemma {:induction false} BufferAfterLastDollar(st: SentenceState, bytes: seq<byte>, k: nat)
    requires k < |bytes| && bytes[k] == DOLLAR
    requires forall j :: k < j < |bytes| ==> bytes[j] != DOLLAR
    ensures SentenceRun(st, bytes).buffer == Capped(bytes[k..])
    decreases |bytes|
  {
    var n := |bytes|;
    var init, b := bytes[..n - 1], bytes[n - 1];
    var before := SentenceRun(st, init);
    assert SentenceRun(st, bytes) == SentenceStep(before, b);
    if k == n - 1 {
      assert bytes[k..] == [DOLLAR];
    } else {
      assert b != DOLLAR;
      BufferAfterLastDollar(st, init, k);
      var tail := init[k..];
      assert before.buffer == Capped(tail);
      PushOrDropCapped(tail, b);
      assert tail == bytes[k..n - 1];
      assert bytes[k..] == bytes[k..n - 1] + [b];
    }
  }

  /** A `$` always leaves exactly `[$]` in the buffer, whatever it held. */
  lemma DollarRestarts(st: SentenceState)
    ensures SentenceStep(st, DOLLAR).buffer == [DOLLAR]
  {
  }

  /** Once a `$` has been seen, the buffer starts with `$` from then on. */
  lemma {:induction false} StartsWithDollarOnceSeen(st: SentenceState, bytes: seq<byte>)
    requires DOLLAR in bytes || (st.buffer != [] && st.buffer[0] == DOLLAR)
    ensures var buf := SentenceRun(st, bytes).buffer;
      buf != [] && buf[0] == DOLLAR
    decreases |bytes|
  {
    if bytes != [] {
      var init, b := bytes[..|bytes| - 1], bytes[|bytes| - 1];
      if b != DOLLAR {
        assert bytes == init + [b];
        StartsWithDollarOnceSeen(st, init);
      }
    }
  }

  /** The buffer never holds more than `CAPACITY` bytes. */
  lemma {:induction false} RunWithinCapacity(st: SentenceState, bytes: seq<byte>)
    requires |st.buffer| <= CAPACITY
    ensures |SentenceRun(st, bytes).buffer| <= CAPACITY
    decreases |bytes|
  {
    if bytes != [] {
      RunWithinCapacity(st, bytes[..|bytes| - 1]);
    }
  }

  /**
   * A full buffer stays as it is until the next `$`: every other byte,
   * `\n` included, is dropped, and each `\n` writes the full buffer again.
   */
  lemma {:induction false} FullBufferFrozen(st: SentenceState, bytes: seq<byte>)
    requires |st.buffer| == CAPACITY && DOLLAR !in bytes
    ensures var r := SentenceRun(st, bytes);
      r.buffer == st.buffer
      && r.writes == st.writes + seq(Count(bytes, LF), _ => st.buffer)
    decreases |bytes|
  {
    if bytes != [] {
      var init, b := bytes[..|bytes| - 1], bytes[|bytes| - 1];
      assert bytes == init + [b];
      FullBufferFrozen(st, init);
      var m := Count(init, LF);
      if b == LF {
        assert seq(m + 1, _ => st.buffer) == seq(m, _ => st.buffer) + [st.buffer];
      }
    }
  }

  // ---------------------------------------------------------------------
  // The writes to USB.

  /** Each `\n` causes exactly one write, and nothing else writes. */
  lemma {:induction false} OneWritePerNewline(st: SentenceState, bytes: seq<byte>)
    ensures |SentenceRun(st, bytes).writes| == |st.writes| + Count(bytes, LF)
    ensures SentenceRun(st, bytes).writes[..|st.writes|] == st.writes
    decreases |bytes|
  {
    if bytes != [] {
      OneWritePerNewline(st, bytes[..|bytes| - 1]);
    }
  }

  /** The zero filter keeps every `\n`, so each `\n` of a chunk causes exactly one write. */
  lemma {:induction false} OneWritePerNewlineInChunk(st: SentenceState, chunk: seq<byte>)
    ensures |ChunkStep(st, chunk).writes| == |st.writes| + Count(chunk, LF)
  {
    NonZeroKeepsOtherBytes(chunk, LF);
    OneWritePerNewline(st, NonZero(chunk));
  }

  /** The filter keeps every byte that is not zero, as many times as it occurs. */
  lemma {:induction false} NonZeroKeepsOtherBytes(chunk: seq<byte>, x: byte)
    requires x != NUL
    ensures Count(NonZero(chunk), x) == Count(chunk, x)
    decreases |chunk|
  {
    if chunk != [] {
      var init, b := chunk[..|chunk| - 1], chunk[|chunk| - 1];
      NonZeroKeepsOtherBytes(init, x);
      var r := NonZero(chunk);
      if b != NUL {
        assert r[..|r| - 1] == NonZero(init);
      } else {
        assert r == NonZero(init) + [] == NonZero(init);
      }
    }
  }

  /** The filter works byte by byte: filtering two pieces is filtering their concatenation. */
  lemma {:induction false} NonZeroConcat(a: seq<byte>, b: seq<byte>)
    ensures NonZero(a + b) == NonZero(a) + NonZero(b)
    decreases |b|
  {
    if b == [] {
      assert a + b == a;
    } else {
      var init := b[..|b| - 1];
      assert (a + b)[..|a + b| - 1] == a + init && (a + b)[|a + b| - 1] == b[|b| - 1];
      NonZeroConcat(a, init);
    }
  }

  /**
   * A `\n` writes the whole buffer, itself included when there was room:
   * a `\r` just before it stays in the written sentence.
   */
  lemma NewlineWritesWholeBuffer(st: SentenceState)
    requires |st.buffer| < CAPACITY
    ensures var r := SentenceStep(st, LF);
      r.buffer == st.buffer + [LF] && r.writes == st.writes + [st.buffer + [LF]]
  {
  }

  /**
   * Nothing clears the buffer after a write: until the next `$`, every later
   * write starts with what the buffer held, so an old sentence is sent again.
   */
  lemma {:induction false} OldSentenceResent(st: SentenceState, bytes: seq<byte>)
    requires |st.buffer| <= CAPACITY && DOLLAR !in bytes
    ensures var r := SentenceRun(st, bytes);
      forall i :: |st.writes| <= i < |r.writes| ==> st.buffer <= r.writes[i]
    decreases |bytes|
  {
    if bytes != [] {
      var init, b := bytes[..|bytes| - 1], bytes[|bytes| - 1];
      assert bytes == init + [b];
      OldSentenceResent(st, init);
      OneWritePerNewline(st, init);
      BufferWithoutDollar(st, bytes);
    }
  }

  /** Feeding one more byte is one more step. */
  lemma RunSnoc(st: SentenceState, bytes: seq<byte>, b: byte)
    ensures SentenceRun(st, bytes + [b]) == SentenceStep(SentenceRun(st, bytes), b)
  {
    assert (bytes + [b])[..|bytes|] == bytes;
  }

  /** Five bytes are five steps. */
  lemma RunOfFive(st: SentenceState, b0: byte, b1: byte, b2: byte, b3: byte, b4: byte)
    ensures SentenceRun(st, [b0, b1, b2, b3, b4])
         == SentenceStep(SentenceStep(SentenceStep(SentenceStep(SentenceStep(st, b0), b1), b2), b3), b4)
  {
    var e: seq<byte> := [];
    RunSnoc(st, e, b0);
    assert e + [b0] == [b0];
    RunSnoc(st, [b0], b1);
    assert [b0] + [b1] == [b0, b1];
    RunSnoc(st, [b0, b1], b2);
    assert [b0, b1] + [b2] == [b0, b1, b2];
    RunSnoc(st, [b0, b1, b2], b3);
    assert [b0, b1, b2] + [b3] == [b0, b1, b2, b3];
    RunSnoc(st, [b0, b1, b2, b3], b4);
    assert [b0, b1, b2, b3] + [b4] == [b0, b1, b2, b3, b4];
  }

  /** The five steps of `$A\n` then `B\n` from boot, one by one. */
  lemma ResendSteps()
    ensures SentenceStep(SentenceStep(SentenceStep(SentenceStep(SentenceStep(Boot, DOLLAR), 0x41), LF), 0x42), LF).writes
         == [[DOLLAR, 0x41, LF], [DOLLAR, 0x41, LF, 0x42, LF]]
  {
    var w1: seq<byte> := [DOLLAR, 0x41, LF];
    var none: seq<seq<byte>> := [];
    var s1 := SentenceStep(Boot, DOLLAR);
    assert s1 == SentenceState([DOLLAR], none);
    var s2 := SentenceStep(s1, 0x41);
    assert s2 == SentenceState([DOLLAR, 0x41], none);
    var s3 := SentenceStep(s2, LF);
    assert [DOLLAR, 0x41] + [LF] == w1 && none + [w1] == [w1];
    assert s3 == SentenceState(w1, [w1]);
    var s4 := SentenceStep(s3, 0x42);
    assert s4 == SentenceState(w1 + [0x42], [w1]);
    var w2: seq<byte> := [DOLLAR, 0x41, LF, 0x42, LF];
    assert (w1 + [0x42]) + [LF] == w2;
  }

  /** `$A\n` then `B\n`: the second write is `$A\nB\n`, the first sentence sent again. */
  lemma ResendExample()
    ensures ChunkStep(Boot, [DOLLAR, 0x41, LF, 0x42, LF]).writes
         == [[DOLLAR, 0x41, LF], [DOLLAR, 0x41, LF, 0x42, LF]]
  {
    NonZeroWithoutZeros([DOLLAR, 0x41, LF, 0x42, LF]);
    RunOfFive(Boot, DOLLAR, 0x41, LF, 0x42, LF);
    ResendSteps();
  }

  /** Bytes before the first `$` are stored too, and a `\n` sends them. */
  lemma {:induction false} StrayBytesSent(bytes: seq<byte>)
    requires |bytes| < CAPACITY && DOLLAR !in bytes && LF !in bytes
    ensures SentenceRun(Boot, bytes + [LF]).writes == [bytes + [LF]]
  {
    BufferWithoutDollar(Boot, bytes);
    OneWritePerNewline(Boot, bytes);
    assert Boot.buffer + bytes == bytes;
    assert (bytes + [LF])[..|bytes|] == bytes;
  }

  // ---------------------------------------------------------------------
  // Zero bytes.

  lemma {:induction false} NonZeroWithoutZeros(chunk: seq<byte>)
    requires NUL !in chunk
    ensures NonZero(chunk) == chunk
    decreases |chunk|
  {
    if chunk != [] {
      NonZeroWithoutZeros(chunk[..|chunk| - 1]);
      assert chunk[..|chunk| - 1] + [chunk[|chunk| - 1]] == chunk;
    }
  }

  /** No zero byte from a chunk ever enters the buffer or a write. */
  lemma {:induction false} ZeroBytesNeverStored(st: SentenceState, bytes: seq<byte>)
    requires NUL !in bytes && NUL !in st.buffer
    ensures var r := SentenceRun(st, bytes);
      NUL !in r.buffer && forall i :: |st.writes| <= i < |r.writes| ==> NUL !in r.writes[i]
    decreases |bytes|
  {
    if bytes != [] {
      var init := bytes[..|bytes| - 1];
      assert forall x :: x in init ==> x in bytes;
      ZeroBytesNeverStored(st, init);
      OneWritePerNewline(st, init);
    }
  }

  /** Whatever the I2C reads return, no zero byte is ever written to USB. */
  lemma {:induction false} NoZeroByteWritten(polls: seq<PollOutcome>)
    ensures var r := PollRun(Boot, polls);
      NUL !in r.buffer && forall w :: w in r.writes ==> NUL !in w
  {
    if polls != [] {
      var init := polls[..|polls| - 1];
      NoZeroByteWritten(init);
      var st := PollRun(Boot, init);
      match polls[|polls| - 1]
      case Idle =>
      case ReadFailed =>
        assert forall w :: w in st.writes + [I2C_READ_ERROR] ==> w in st.writes || w == I2C_READ_ERROR;
      case ReadOk(chunk) =>
        ZeroBytesNeverStored(st, NonZero(chunk));
        OneWritePerNewline(st, NonZero(chunk));
        var r := ChunkStep(st, chunk);
        forall w | w in r.writes ensures NUL !in w {
          var i :| 0 <= i < |r.writes| && r.writes[i] == w;
          if i < |st.writes| {
            assert r.writes[i] == st.writes[i];
          }
        }
    }
  }

  // ---------------------------------------------------------------------
  // Polls that read nothing.

  /** The polls whose I2C read succeeded. */
  function Successful(polls: seq<PollOutcome>): (r: seq<PollOutcome>)
    ensures |r| <= |polls|
    ensures forall p :: p in r ==> p.ReadOk?
  {
    if polls == [] then []
    else Successful(polls[..|polls| - 1]) + (if polls[|polls| - 1].ReadOk? then [polls[|polls| - 1]] else [])
  }

  /**
   * Idle polls and failed reads never touch the buffer: it ends as if only
   * the successful reads had happened.
   */
  lemma {:induction false} OnlySuccessfulReadsFill(st: SentenceState, polls: seq<PollOutcome>)
    ensures PollRun(st, polls).buffer == PollRun(st, Successful(polls)).buffer
  {
    if polls != [] {
      var init, p := polls[..|polls| - 1], polls[|polls| - 1];
      OnlySuccessfulReadsFill(st, init);
      var good := Successful(init);
      if p.ReadOk? {
        var t := good + [p];
        assert t[..|t| - 1] == good;
        ChunkFromBufferOnly(PollRun(st, init), PollRun(st, good), NonZero(p.chunk));
      } else {
        assert good + [] == good;
      }
    }
  }

  /**
   * An idle poll changes nothing; a failed read writes `I2C Read Error\n`
   * and leaves the buffer as it was.
   */
  lemma IdleAndFailedPolls(st: SentenceState, polls: seq<PollOutcome>)
    ensures PollRun(st, polls + [Idle]) == PollRun(st, polls)
    ensures var before := PollRun(st, polls);
      PollRun(st, polls + [ReadFailed]) == SentenceState(before.buffer, before.writes + [I2C_READ_ERROR])
  {
    assert (polls + [Idle])[..|polls|] == polls;
    assert (polls + [ReadFailed])[..|polls|] == polls;
  }

  /** The buffer after some bytes depends on the buffer before them, not on the writes. */
  lemma {:induction false} ChunkFromBufferOnly(a: SentenceState, b: SentenceState, bytes: seq<byte>)
    requires a.buffer == b.buffer
    ensures SentenceRun(a, bytes).buffer == SentenceRun(b, bytes).buffer
    decreases |bytes|
  {
    if bytes != [] {
      ChunkFromBufferOnly(a, b, bytes[..|bytes| - 1]);
    }
  }

  // ---------------------------------------------------------------------
  // The main loop (main.rs:86-118).

  class SentenceFramer {
    /** The storage of `nmea_buffer`; its first `len` bytes are the contents. */
    const data: array<byte>
    var len: nat
    /** Every `serial.write`, in order. */
    ghost var writes: seq<seq<byte>>

    ghost predicate Valid()
      reads this
    {
      data.Length == CAPACITY && len <= CAPACITY
    }

    ghost function State(): SentenceState
      reads this, data
      requires Valid()
    {
      SentenceState(data[..len], writes)
    }

    constructor ()
      ensures Valid() && fresh(data)
      ensures State() == Boot
    {
      data := new byte[CAPACITY];
      len := 0;
      writes := [];
    }

    /** `nmea_buffer.clear()`. */
    method Clear()
      requires Valid()
      modifies this
      ensures Valid()
      ensures State() == SentenceState([], old(writes))
    {
      len := 0;
    }

    /** `nmea_buffer.push(byte)`: `pushed` is false, and nothing changes, when the buffer is full. */
    method Push(b: byte) returns (pushed: bool)
      requires Valid()
      modifies this, data
      ensures Valid()
      ensures pushed <==> old(len) < CAPACITY
      ensures State() == SentenceState(PushOrDrop(old(data[..len]), b), old(writes))
    {
      pushed := len < data.Length;
      if pushed {
        data[len] := b;
        len := len + 1;
      }
    }

    /** The handling of one non-zero byte (main.rs:98-110). */
    method FeedByte(b: byte)
      requires Valid()
      modifies this, data
      ensures Valid()
      ensures State() == SentenceStep(old(State()), b)
    {
      if b == DOLLAR {
        Clear();
      }
      var _ := Push(b);
      if b == LF {
        writes := writes + [data[..len]];
      }
    }

    /** The loop over the non-zero bytes of one chunk (main.rs:96-111). */
    method Feed(chunk: seq<byte>)
      requires Valid()
      modifies this, data
      ensures Valid()
      ensures State() == ChunkStep(old(State()), chunk)
    {
      ghost var start := State();
      for i := 0 to |chunk|
        invariant Valid()
        invariant State() == SentenceRun(start, NonZero(chunk[..i]))
      {
        var b := chunk[i];
        assert chunk[..i + 1][..i] == chunk[..i];
        if b != NUL {
          RunSnoc(start, NonZero(chunk[..i]), b);
          FeedByte(b);
        } else {
          assert NonZero(chunk[..i + 1]) == NonZero(chunk[..i]) + [];
          assert NonZero(chunk[..i]) + [] == NonZero(chunk[..i]);
        }
      }
      assert chunk[..|chunk|] == chunk;
    }

    /** The `loop` of `main` over a finite run of polls (main.rs:88-118). */
    method Run(polls: seq<PollOutcome>)
      requires Valid()
      modifies this, data
      ensures Valid()
      ensures State() == PollRun(old(State()), polls)
    {
      for i := 0 to |polls|
        invariant Valid()
        invariant State() == PollRun(old(State()), polls[..i])
      {
        assert polls[..i + 1][..i] == polls[..i];
        match polls[i]
        case Idle =>
        case ReadOk(chunk) =>
          Feed(chunk);
        case ReadFailed =>
          writes := writes + [I2C_READ_ERROR];
      }
      assert polls[..|polls|] == polls;
    }
  }
}
