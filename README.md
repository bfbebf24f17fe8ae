# NMEA-0183 byte-stream framers

This project is a Dafny model of the two hand-written framers in the pico-gps-networking repository. Each one turns a stream of byte chunks from a GNSS receiver into NMEA-0183 sentences.

- **Laptop line framer** (`laptop-interface/src/main.rs`). Bytes come from `sp_blocking_read` into an unbounded `line_buffer`. `\r` is dropped. `\n` ends a line. The line is trimmed and handed to the `nmea` parser if the trimmed text starts with `$`. The buffer is cleared after every `\n`. Module `LineFraming` (file `line_framer.dfy`) holds this framer. Module `AsciiTrim` (file `ascii_trim.dfy`) holds `trim`.
- **Pico sentence framer** (`pico-image/src/main.rs`). Each time `usb_dev.poll` returns true, a 64-byte I2C chunk is read, and its non-zero bytes go into a `heapless::Vec<u8, 256>`. A `$` clears the buffer before it is pushed. A push into a full buffer is silently lost. A `\n` writes the whole buffer to USB serial, and the buffer is not cleared afterwards. An I2C read error writes `I2C Read Error\n`. Module `SentenceFraming` (file `sentence_framer.dfy`) holds this framer.

Module `Bytes` (file `bytes.dfy`) defines the `byte` type, the bytes `\0`, `\n`, `\r` and `$`, and `Count`.

Each framer is modelled twice:

- **As a specification.** A pure step function per byte (`LineStep`, `SentenceStep`) and a run over a byte sequence (`LineRun`, `SentenceRun`). The state has two parts: the buffer, and the output so far (candidate lines handed to the parser, or USB writes). The lemmas are stated over these functions.
- **As the source's loops.** A class per framer (`LineFramer`, `SentenceFramer`) with the buffer as a field. `Feed` has a loop invariant. A driver method (`Drive`, `Run`) takes the transport outcomes as an abstract input. Each method's `ensures` ties the new state to the specification. The Pico buffer is an `array<byte>` of capacity 256 with a length, like `heapless::Vec`. The emitted output is a ghost sequence.

The laptop framer also has an independent reference: `Split` cuts the stream at every `\n`, and `RunMatchesSplit` shows the framer's state from program start equals "the completed pieces, without `\r`, trimmed, kept if they start with `$`", plus "the last unfinished piece, without `\r`".

These framers are simpler than a typical NMEA framer, and the model follows the code as written:

- The laptop buffer has no size bound.
- A `$` in the middle of a laptop line does not restart the line. A line with non-whitespace before its `$` is dropped whole.
- The Pico framer keeps the bytes before the first `$`. It also stores `\r` and `\n`, so a written sentence ends with them, unless the buffer was full and the `\n` was dropped.
- The Pico framer does not clear or resynchronise on overflow: further bytes are dropped until the next `$`, and a `\n` still writes the full buffer.
- The Pico framer does not clear the buffer after a write. Bytes between a `\n` and the next `$` are appended to the old sentence, and the next `\n` sends the old sentence again.
- Neither framer checks the `*HH` checksum, the characters of the sentence, or its fields.

## Model

| member | source | states |
|---|---|---|
| AsciiTrim.IsWhitespace | laptop-interface/src/main.rs:88 | the definition of the bytes `trim` strips: tab, line feed, vertical tab, form feed, carriage return and space |
| AsciiTrim.LeadingWhitespace | laptop-interface/src/main.rs:88 | the count of bytes `trim` cuts from the front: all of them are whitespace, and the byte after them, if any, is not |
| AsciiTrim.TrailingWhitespace | laptop-interface/src/main.rs:88 | the count of bytes `trim` cuts from the back: all of them are whitespace, and the byte before them, if any, is not |
| AsciiTrim.Trim | laptop-interface/src/main.rs:88 | `trim` gives a slice of the line with only whitespace outside it, starting and ending with non-whitespace; it is empty exactly when the line is all whitespace |
| AsciiTrim.StartsWithDollar | laptop-interface/src/main.rs:88-91 | the definition of the check `trimmed_line.starts_with('$')`; its meaning is stated by `StartsWithDollarIff` |
| AsciiTrim.StartsWithDollarIff | laptop-interface/src/main.rs:88-91 | a line passes `trim().starts_with('$')` if and only if its first non-whitespace byte is `$` |
| AsciiTrim.FirstNonWhitespaceDecides | laptop-interface/src/main.rs:88-91 | the first byte of a line that is not whitespace decides the check alone: the line passes exactly when that byte is `$` |
| LineFraming.LineStep | laptop-interface/src/main.rs:85-108 | the definition of one byte of the `for &b in data` loop: `\n` hands on the trimmed line if it starts with `$` and clears the buffer, `\r` is ignored, any other byte is pushed |
| LineFraming.LineRun | laptop-interface/src/main.rs:84-109 | the definition of the loop over a byte sequence, one `LineStep` per byte in order |
| LineFraming.RunKeepsBufferClean | laptop-interface/src/main.rs:85-108 | `line_buffer` never holds a `\n` or a `\r` |
| LineFraming.BufferIsTailAfterLastNewline | laptop-interface/src/main.rs:85-108 | after the last `\n`, from any state, the buffer is exactly the bytes after it without `\r`; so every `\n` empties it, whether or not the line was handed on |
| LineFraming.RunConcat | laptop-interface/src/main.rs:63-109 | feeding `a` then `b` gives the same state as feeding `a + b`, because the buffer lives outside the read loop |
| LineFraming.StripCR | laptop-interface/src/main.rs:105-107 | the bytes without `\r`: no `\r` remains |
| LineFraming.ChunkingIndependence | laptop-interface/src/main.rs:63-110 | feeding a stream in any split into reads gives the same candidates and final buffer as feeding it at once |
| LineFraming.CarriageReturnsIgnored | laptop-interface/src/main.rs:105-107 | a stream and the same stream without its `\r` bytes give the same state |
| LineFraming.RunWithinLine | laptop-interface/src/main.rs:105-108 | bytes other than `\n` and `\r` are appended in order, and nothing is handed on |
| LineFraming.CrLfAndLfAgree | laptop-interface/src/main.rs:84-108 | a line ended by `\r\n` and by `\n` give the same state: empty buffer, the trimmed line handed on exactly when it starts with `$` |
| LineFraming.GarbageLineDropped | laptop-interface/src/main.rs:88-91 | at the start of a line, a line whose first non-whitespace byte is not `$` leaves the state unchanged: it is not handed on, even with a later `$` |
| LineFraming.SplitJoin | laptop-interface/src/main.rs:85-104 | the reference `Split` is faithful: joining its pieces with `\n` gives the stream back, and no piece holds a `\n` |
| LineFraming.SplitSnoc | laptop-interface/src/main.rs:85-108 | one more byte either opens a new piece (a `\n`) or extends the last piece, leaving the completed pieces unchanged |
| LineFraming.SplitCount | laptop-interface/src/main.rs:85-104 | a stream has one more piece than it has `\n` bytes |
| LineFraming.Candidates | laptop-interface/src/main.rs:88-91 | at most one candidate per completed line, and every candidate is non-empty and starts with `$` |
| LineFraming.RunMatchesSplit | laptop-interface/src/main.rs:84-109 | from program start, the candidates are the `\r`-free, trimmed, `$`-starting pieces between `\n` bytes; the buffer is the unfinished last piece without `\r` |
| LineFraming.CandidatesAtMostNewlines | laptop-interface/src/main.rs:84-104 | no more candidates are handed on than `\n` bytes were fed |
| LineFraming.Received | laptop-interface/src/main.rs:74-83 | the definition of the bytes one read yields: `read_buffer[..bytes_read]` for a positive count, nothing otherwise |
| LineFraming.Processed | laptop-interface/src/main.rs:67-84 | the definition of the bytes the outer `loop` processes: each read's bytes in order, up to the first negative count |
| LineFraming.TimeoutsChangeNothing | laptop-interface/src/main.rs:77-80 | a read returning zero bytes contributes nothing, so removing it changes nothing |
| LineFraming.ErrorEndsReading | laptop-interface/src/main.rs:74-76 | a negative read ends the loop: neither it nor any later read is processed |
| LineFraming.ProcessedInOrder | laptop-interface/src/main.rs:83-84 | without errors, exactly the first `bytes_read` bytes of each read buffer are processed, read after read |
| LineFraming.LineFramer.constructor | laptop-interface/src/main.rs:63 | the framer starts with an empty line buffer and no candidates |
| LineFraming.LineFramer.Feed | laptop-interface/src/main.rs:84-109 | afterwards the buffer and the candidates are those of the specification run over the bytes, and the buffer stays free of `\n` and `\r` |
| LineFraming.LineFramer.Drive | laptop-interface/src/main.rs:67-110 | the loop stops with `failed` exactly when some read was negative, and its final state is the specification run over the bytes processed before the first failed read |
| SentenceFraming.PushOrDrop | pico-image/src/main.rs:103 | the definition of `let _ = nmea_buffer.push(byte)`: the byte is appended when fewer than 256 are held, and lost otherwise |
| SentenceFraming.SentenceStep | pico-image/src/main.rs:98-110 | the definition of one non-zero byte: `$` clears, the byte is pushed or dropped, and `\n` writes the buffer as it then is |
| SentenceFraming.SentenceRun | pico-image/src/main.rs:97-111 | the definition of the bytes fed in order, one `SentenceStep` each |
| SentenceFraming.ChunkStep | pico-image/src/main.rs:96-111 | the definition of one successful read: the run over the chunk's non-zero bytes |
| SentenceFraming.PollStep | pico-image/src/main.rs:90-116 | the definition of one pass of the main loop: an idle poll does nothing, a read feeds its chunk, a failed read writes `I2C Read Error\n` |
| SentenceFraming.PollRun | pico-image/src/main.rs:88-118 | the definition of the main loop over a finite sequence of polls, one `PollStep` each |
| SentenceFraming.NonZero | pico-image/src/main.rs:96 | the filtered chunk has no zero byte and is no longer than the chunk |
| SentenceFraming.NonZeroKeepsOtherBytes | pico-image/src/main.rs:96 | the filter keeps every byte that is not zero, as often as it occurs in the chunk (so every `\n`) |
| SentenceFraming.NonZeroConcat | pico-image/src/main.rs:96 | the filter works byte by byte: filtering `a + b` is filtering `a`, then `b` |
| SentenceFraming.NonZeroWithoutZeros | pico-image/src/main.rs:96 | a chunk with no zero byte passes the filter unchanged |
| SentenceFraming.Capped | pico-image/src/main.rs:86 | what a 256-byte `heapless::Vec` keeps of a byte sequence pushed into it empty: a prefix of it, the whole sequence when it fits, and exactly 256 bytes when it does not |
| SentenceFraming.BufferWithoutDollar | pico-image/src/main.rs:103 | with no `$`, the buffer becomes the first 256 bytes of its old contents followed by the new bytes; pushes into a full buffer are lost |
| SentenceFraming.BufferAfterLastDollar | pico-image/src/main.rs:98-103 | after the last `$`, the buffer is the first 256 bytes of that `$` and everything after it, whatever it held before |
| SentenceFraming.DollarRestarts | pico-image/src/main.rs:98-103 | a `$` leaves exactly `[$]` in the buffer |
| SentenceFraming.StartsWithDollarOnceSeen | pico-image/src/main.rs:98-103 | once a `$` has been seen, the buffer starts with `$` from then on |
| SentenceFraming.RunWithinCapacity | pico-image/src/main.rs:86-103 | the buffer never holds more than 256 bytes |
| SentenceFraming.FullBufferFrozen | pico-image/src/main.rs:103-110 | a full buffer stays unchanged until the next `$`, and each `\n` meanwhile writes the same full buffer |
| SentenceFraming.ChunkFromBufferOnly | pico-image/src/main.rs:96-110 | the buffer after some bytes depends only on the buffer before them, not on what was written to USB |
| SentenceFraming.OneWritePerNewline | pico-image/src/main.rs:106-110 | each `\n` causes exactly one write, nothing else writes, and earlier writes are kept |
| SentenceFraming.OneWritePerNewlineInChunk | pico-image/src/main.rs:96-110 | a chunk causes exactly as many writes as it has `\n` bytes |
| SentenceFraming.NewlineWritesWholeBuffer | pico-image/src/main.rs:103-110 | when the buffer is not full, a `\n` is pushed and the write is the whole buffer ending in `\n`, with any `\r` before it kept |
| SentenceFraming.OldSentenceResent | pico-image/src/main.rs:98-110 | the buffer is not cleared after a write: until the next `$`, every later write starts with what the buffer held |
| SentenceFraming.ResendExample | pico-image/src/main.rs:98-110 | the chunk `$A\nB\n` writes `$A\n` and then `$A\nB\n` |
| SentenceFraming.StrayBytesSent | pico-image/src/main.rs:86-108 | from boot, bytes with no `$` before a `\n` are stored and sent |
| SentenceFraming.ZeroBytesNeverStored | pico-image/src/main.rs:96-103 | a zero-free buffer stays zero-free, and no new write holds a zero byte |
| SentenceFraming.NoZeroByteWritten | pico-image/src/main.rs:90-116 | from boot, whatever the polls return, no zero byte is ever written to USB or stored |
| SentenceFraming.IdleAndFailedPolls | pico-image/src/main.rs:90-115 | a poll returning false changes nothing; a failed read writes `I2C Read Error\n` and leaves the buffer unchanged |
| SentenceFraming.OnlySuccessfulReadsFill | pico-image/src/main.rs:90-116 | the buffer ends as if only the successful I2C reads had happened |
| SentenceFraming.SentenceFramer.constructor | pico-image/src/main.rs:86 | the buffer is a fresh 256-byte store with length 0, and nothing is written |
| SentenceFraming.SentenceFramer.Clear | pico-image/src/main.rs:100 | the contents become empty and the writes are kept |
| SentenceFraming.SentenceFramer.Push | pico-image/src/main.rs:103 | the byte is appended exactly when the buffer is not full; otherwise nothing changes and `pushed` is false |
| SentenceFraming.SentenceFramer.FeedByte | pico-image/src/main.rs:98-110 | one non-zero byte changes the state as the specification step does |
| SentenceFraming.SentenceFramer.Feed | pico-image/src/main.rs:96-111 | one chunk changes the state as the specification does on its non-zero bytes |
| SentenceFraming.SentenceFramer.Run | pico-image/src/main.rs:88-118 | a run of polls changes the state as the specification does, poll by poll |

## Left out

- Serial-port access is not modelled: `open_port`, `sp_get_port_by_name`, `sp_open`, `sp_blocking_read`, `sp_close` and `sp_free_port` are foreign calls. A read is only an abstract outcome: the returned count and the read buffer's contents.
- LineFraming.LineFramer.Drive: requires that a read never reports more bytes than the read buffer holds. `sp_blocking_read` guarantees this for the 1024-byte buffer, so the slice in main.rs:83 cannot panic.
- The `nmea` parser (`nmea_parser.parse`), its latitude and longitude, and the printing of results or parse errors are not modelled. They are an external crate with floating-point values. A line handed to the parser is recorded as a candidate, and nothing is decoded.
- `String::from_utf8_lossy` is modelled as the identity on ASCII bytes, and `trim` strips only ASCII whitespace. Invalid UTF-8 replaced by U+FFFD and non-ASCII Unicode whitespace (such as U+00A0) are not modelled.
- The `loop`s of both programs never end except on a serial read error. The drivers take a finite sequence of outcomes, and their states are those after that prefix of the run.
- Pico hardware bring-up is not modelled: clocks, GPIO, I2C, the USB bus and device, and `usb_dev.poll` internals. `usb_dev.poll` is only the `Idle` outcome or a read.
- The one-shot UBX configuration writes (`UBX_CFG_MSG`, `UBX_CFG_RATE`) are not modelled.
- SentenceFraming.SentenceFramer.Run: a USB write is recorded as the whole byte sequence passed to `serial.write`. A partial or failed write (the ignored `Result`) and `flush` are not modelled.
- SentenceFraming.SentenceFramer.Feed: accepts a chunk of any length. The source always reads exactly 64 bytes, and the model's properties hold for every length.
- No checksum check, sentence-type table or degrees-and-minutes conversion is modelled, because neither program contains one.
