# tboard-rs record framing, in Dafny

This project models the record layer of `tboard-rs`. That layer reads and
writes TensorBoard event files in the TFRecord layout. Each record is:

    LE64(n) ++ LE32(masked_crc(LE64(n))) ++ payload[n] ++ LE32(masked_crc(payload))

Here `masked_crc` is CRC-32C (the iSCSI digest of section 12.1 of RFC 3720),
rotated right by 15 bits, plus `0xA282EAD8` modulo 2^32. The payload is a
protobuf-encoded `tensorboard.Event`.

The model covers:

- the checksum;
- the two identical `SummaryReader` iterators (the crate root's and `src/reader.rs`);
- the crate root's `SummaryWriter`;
- the `tboard` crate's `EventWriter`, with its uid counter and file name;
- the library's error type.

One `next` call is specified by the function `Framing.Next`, over a byte
stream and the reader's state (stream position, `buf_len`, `buf`). The
reader classes are proved to follow it step for step. The writers are
classes over a byte sink. Each of their methods is proved against a
function that says what bytes end up in the sink, what the call returns,
and what the scratch buffers hold afterwards.

The protobuf codec is a parameter, `Proto.Codec`: `encode`, `encoded_len`
and `decode`. The laws of a correct codec are stated one event at a time:
`Proto.LengthAgrees(codec, e)` says that `encoded_len(e)` is the length of
the encoding of `e`, and `Proto.LawfulFor(codec, e)` adds that decoding the
encoding gives `e` back (`Proto.LawfulOn` for every event of a sequence).
No codec can obey them on every event at once: `encoded_len` returns a
`u64`, so there are finitely many encodings it can describe but infinitely
many events. Round-trip lemmas therefore require the laws only for the
events they write. The framing lemmas are
stated for any checksum function (`Framing.Checksum`). The readers and
writers use `Crc.MaskedCrc`, which is defined bit by bit.

Modules:

- `Bytes`: `u8`/`u32`/`u64`, little-endian byte order, `Vec::resize`.
- `Crc`: CRC-32C and the mask.
- `Decimal`: `{}` and `{:010}` formatting.
- `Errors`: `src/error.rs`.
- `Proto`: the event message and the codec.
- `ByteInput`: `read_exact` and `read_u32` over a stream.
- `ByteOutput`: `write_all` and `write_u32` into a sink.
- `Framing`: the record layout and `next` as a function.
- `Lib`: `src/lib.rs`.
- `Reader`: `src/reader.rs`.
- `Writer`: `src/writer.rs`.
- `TboardWriter`: `tboard/src/writer.rs`.

## Model

| member | source | states |
|---|---|---|
| Crc.Crc32c | src/lib.rs:15-16 | the `CRC_32_ISCSI` checksum, bit by bit: register `0xFFFFFFFF`, each byte shifted in least significant bit first against the reflected polynomial `0x82F63B78`, result complemented (its check value is proved in `Crc.CheckValue`) |
| Crc.MaskedCrc | src/lib.rs:14-18 | `masked_crc(buf)` is `Mask(Crc32c(buf))` read as an unsigned 32-bit number; its properties are stated by `Crc.Mask`, `Crc.MaskInjective`, `Crc.UnmaskMask` and `Crc.MaskedCrcEqualIffCrcEqual` |
| Crc.MaskedCrcEqualIffCrcEqual | src/lib.rs:14-18 | two buffers have the same masked checksum exactly when they have the same CRC-32C, so the mask hides no checksum mismatch |
| Crc.WordValueInjective | src/lib.rs:17 | reading the masked word as a `u32` loses nothing: two words give the same number exactly when they are equal |
| Crc.Mask | src/lib.rs:17 | `(c >> 15 \| c << 17) + 0xa282ead8` is a rotation right by 15 followed by a wrapping add of the constant |
| Crc.MaskInjective | src/lib.rs:17 | the mask is a bijection: two words have the same mask exactly when they are equal |
| Crc.UnmaskMask | src/lib.rs:17 | subtracting the constant and rotating left by 15 undoes the mask |
| Crc.MaskUnmask | src/lib.rs:17 | the mask undoes the unmask, so every 32-bit value is the mask of some checksum |
| Crc.CheckValue | src/lib.rs:15-16 | CRC-32C of the ASCII digits "123456789" is 0xE3069283, the check value of the `CRC_32_ISCSI` parameters |
| Crc.MaskOfEmptyCrc | src/lib.rs:15-17 | the masked checksum of an empty buffer is the mask constant 0xA282EAD8 |
| Crc.BitStepShifts | src/lib.rs:15-16 | one register step shifts right and xors in the polynomial exactly when the bit shifted out is set |
| Bytes.LeBytesDigits | src/lib.rs:46-47 | byte `i` of the little-endian encoding of `n` is the `i`-th base-256 digit of `n`, `n / 256^i % 256` |
| Bytes.Le64 | tboard/src/writer.rs:54 | `write_u64` gives 8 bytes; byte `i` is digit `i` of the number in base 256 (`Bytes.LeBytesDigits`) |
| Bytes.Le32 | tboard/src/writer.rs:57 | `write_u32` gives 4 bytes; byte `i` is digit `i` of the number in base 256 (`Bytes.LeBytesDigits`) |
| Bytes.ReadLe64 | src/lib.rs:46 | `read_u64` is the sum of byte `i` times 256^i over the 8 bytes; it inverts `Le64` (`Bytes.Le64RoundTrip`, `Bytes.ReadLe64Inverse`) |
| Bytes.ReadLe32 | src/lib.rs:47 | `read_u32` is the sum of byte `i` times 256^i over the 4 bytes; it inverts `Le32` (`Bytes.Le32RoundTrip`, `Bytes.ReadLe32Inverse`) |
| Bytes.Le64RoundTrip | src/lib.rs:46 | `read_u64` of the little-endian 8 bytes of `n` gives `n` back |
| Bytes.Le32RoundTrip | src/lib.rs:47 | `read_u32` of the little-endian 4 bytes of `n` gives `n` back |
| Bytes.ReadLe64Inverse | src/lib.rs:46 | every 8-byte length field is the little-endian encoding of the number read from it |
| Bytes.ReadLe32Inverse | src/lib.rs:47 | four bytes that read as `v` are the little-endian encoding of `v` |
| Bytes.WriteLe64 | tboard/src/writer.rs:54 | writing a u64 into the 8-byte `buf_len` array leaves exactly its little-endian bytes |
| Bytes.Resize | src/lib.rs:54 | `resize(n, 0)` gives length `n`, keeps the first `min(n, old length)` bytes and pads the rest with zeros |
| ByteInput.ReadExact | src/lib.rs:36 | `read_exact` succeeds exactly when enough bytes remain and then consumes exactly the buffer's length; otherwise it consumes what is left and fails with the stream's end error (`UnexpectedEof` at a clean end) |
| ByteInput.ReadWord | src/lib.rs:47 | `read_u32` succeeds exactly when 4 bytes remain and yields their little-endian value; otherwise it fails like `read_exact` |
| ByteInput.ByteSource.ReadExactInto | src/lib.rs:36 | the array loop fills `buf_len` and moves the position as `ReadExact` says |
| ByteInput.ByteSource.ReadExactVec | src/lib.rs:55 | the loop fills the payload vector and moves the position as `ReadExact` says |
| ByteInput.ByteSource.ReadU32 | src/lib.rs:47 | reads a stored checksum as `ReadWord` says |
| Framing.Frame | tboard/src/writer.rs:52-64 | a frame around `p` is `16 + \|p\|` bytes long |
| Framing.Next | src/lib.rs:35-72 | one `next` call, as a function of the stream and the reader state; it keeps the state well formed |
| Framing.Header | src/lib.rs:45-54 | after the length field: read the stored length checksum, compare it with the computed one, resize the buffer |
| Framing.Body | src/lib.rs:55-62 | fill the resized buffer and decode it, returning I/O and decode errors |
| Framing.Trailer | src/lib.rs:63-71 | read the payload checksum and compare it with the checksum of the buffer; the buffer keeps the payload |
| Framing.NoneIffShortTail | src/lib.rs:36-41 | `next` yields `None` exactly when fewer than 8 bytes remain and the stream ends cleanly; a partial length field is swallowed |
| Framing.LengthReadErrorReported | src/lib.rs:42 | any other error while reading the length field is returned as `Io` |
| Framing.LengthCrcMismatch | src/lib.rs:45-53 | a wrong length checksum gives `LenCrcMismatch` with the stored and computed values, after consuming exactly 12 bytes and before the payload buffer changes |
| Framing.TruncatedRecordIsIoError | src/lib.rs:47-66 | a stream that ends inside a record, after the length field, never gives `None`; it gives an I/O error when it ends inside the length checksum, or inside the payload after a matching length checksum, or inside the payload checksum after a payload that decodes (a payload that does not decode is reported as `ProstDecode` first, since lines 59-62 run before 63-66) |
| Framing.ThroughBody | src/lib.rs:45-62 | once the header checks, the buffer holds the `n` payload bytes and the result depends only on decoding them |
| Framing.DecodeErrorBeforePayloadCrc | src/lib.rs:59-62 | a payload that fails to decode is reported as `ProstDecode` before its checksum is read |
| Framing.PayloadCrcMismatch | src/lib.rs:63-70 | a wrong payload checksum gives `CrcMismatch` with the stored value and the checksum of exactly the payload |
| Framing.FrameFields | src/lib.rs:45-67 | the bytes at a position are a frame around `p` exactly when they hold its length, length checksum, payload and payload checksum |
| Framing.EventNeedsChecks | src/lib.rs:51-71 | an event is yielded only when both checksums match, the payload decodes to it, and the next call starts right after the record |
| Framing.EventAfterChecks | src/lib.rs:51-71 | conversely, a header that checks, a complete payload that decodes and a matching payload checksum make the call yield the event and stop right after the record |
| Framing.ChecksGiveFrame | src/lib.rs:45-67 | bytes whose length checksum and payload checksum both check are exactly the frame around the payload they hold |
| Framing.EventOnlyFromFrame | src/lib.rs:35-71 | an event is yielded only from a complete, well-formed frame around a payload that decodes to it |
| Framing.FrameReads | src/lib.rs:45-67 | in a frame around `p`, the stored length checksum matches, the length read is `\|p\|`, the payload is `p`, and the stored payload checksum is the checksum of `p` |
| Framing.ReadFrame | src/lib.rs:35-71 | on a well-formed frame, `next` yields what the decoder makes of the payload (both checks pass) and consumes the whole record when it decodes |
| Framing.EmptyStreamIsEmpty | src/lib.rs:27-29 | a fresh reader over an empty stream yields `None` and keeps its state |
| Framing.ReadRecords | src/lib.rs:35-72 | when the codec's laws hold for every event of `events`, after any bytes already consumed, the frames of the encodings of `events` read back as exactly `events`, in order, and then `None` |
| Framing.ReadBack | src/lib.rs:27-72 | when the codec's laws hold for those events, a fresh reader over the frames of `events` yields exactly `events`, then `None` |
| Lib.SummaryReader.constructor | src/lib.rs:27-29 | the new reader has a zeroed length buffer and the payload buffer `[0, 128]` |
| Lib.SummaryReader.Next | src/lib.rs:35-72 | the method's item and new state are those of `Framing.Next` with `masked_crc` |
| Reader.SummaryReader.constructor | src/reader.rs:13-15 | as in the crate root: zeroed length buffer, payload buffer `[0, 128]` |
| Reader.SummaryReader.Next | src/reader.rs:21-58 | the method's item and new state are those of `Framing.Next` with `masked_crc` |
| Reader.ReadBoth | src/reader.rs:21-58 | the two iterators, started on the same stream, yield the same `k` items, call for call |
| ByteOutput.WriteAll | tboard/src/writer.rs:56 | `write_all` succeeds exactly when the sink has room; otherwise it writes the bytes that fit and fails with the sink's error |
| ByteOutput.WriteAllThen | tboard/src/writer.rs:56-62 | two `write_all` calls, the second only after the first succeeds, leave what one call with both buffers would |
| ByteOutput.ByteSink.WriteAllBytes | tboard/src/writer.rs:56 | the sink's new contents and the result are those of `WriteAll` |
| ByteOutput.ByteSink.WriteU32 | tboard/src/writer.rs:57 | `write_u32::<LittleEndian>` is `WriteAll` of the 4 little-endian bytes |
| TboardWriter.UidCounter.GlobalUid | tboard/src/writer.rs:5-10 | returns the counter's old value and increments it, wrapping at 2^64 |
| TboardWriter.UidCounter.constructor | tboard/src/writer.rs:8 | the counter starts at 1 |
| TboardWriter.FirstUids | tboard/src/writer.rs:5-10 | the first `k` uids are `1..k`, all distinct |
| TboardWriter.Join | tboard/src/writer.rs:38 | `Path::join` of a relative name adds one separator, none after an empty or slash-terminated directory |
| TboardWriter.EventFileName | tboard/src/writer.rs:38 | the name `events.out.tfevents.{now:010}.{hostname}.{pid}.{uid}` ends with the uid in decimal |
| TboardWriter.EventFilePath | tboard/src/writer.rs:38 | `logdir.join(name)` ends with the file name |
| TboardWriter.FileNameLayout | tboard/src/writer.rs:38 | the name starts with `events.out.tfevents.` and the seconds zero-padded to at least 10 digits (never truncated, denoting the seconds), then a dot |
| TboardWriter.FileNameFields | tboard/src/writer.rs:38 | the name is the prefix, the padded seconds, and a dot starting the rest |
| TboardWriter.FilePathsDistinct | tboard/src/writer.rs:37-38 | for the same directory, time, host and pid, two paths are equal exactly when their uids are |
| TboardWriter.LengthHeader | tboard/src/writer.rs:54-57 | the length field and its masked checksum are 12 bytes |
| TboardWriter.Record | tboard/src/writer.rs:52-64 | what `write_event(e)` writes: the length field, its masked checksum, the encoding and its masked checksum, 16 bytes more than the encoding |
| TboardWriter.RecordIsFrame | tboard/src/writer.rs:52-64 | when `encoded_len(e)` is the length of the encoding, `write_event(e)` writes the frame around the encoding of `e` |
| TboardWriter.RecordsAreFrames | tboard/src/writer.rs:52-64 | when `encoded_len` agrees with the encodings of the events, their records are the frames of their encodings, back to back |
| TboardWriter.RecordReadsBack | tboard/src/writer.rs:52-64 | when the codec's laws hold for the event, whatever precedes and follows it, `next` reads a written record back as its event and stops right after it, with the encoding in its buffer |
| TboardWriter.FileReadsBack | tboard/src/writer.rs:52-64 | when the codec's laws hold for the events written, a reader over their records yields exactly `events`, then `None` |
| TboardWriter.StepEvent | tboard/src/writer.rs:70-75 | the event of `write` has the clock's wall time, the step, no source metadata and the payload |
| TboardWriter.ScalarSummary | tboard/src/writer.rs:79-85 | `write_scalar` writes one summary value with an empty node name, the name as tag, no metadata and the simple value |
| TboardWriter.WriteEventOutcome | tboard/src/writer.rs:52-64 | `write_event` succeeds exactly when the whole record fits; then the sink holds the old bytes and the record; otherwise the prefix that fits, and an `Io` error |
| TboardWriter.WriteOutcome | tboard/src/writer.rs:66-76 | a clock before the epoch gives `SystemTime` and writes nothing; otherwise `write_event` of the stamped event |
| TboardWriter.BufferHoldsEncoding | tboard/src/writer.rs:58-59 | after a successful `write_event(e)` the scratch buffer is exactly the encoding of `e` |
| TboardWriter.EventWriter.constructor | tboard/src/writer.rs:46 | zeroed length buffer, scratch buffer `[0, 128]`, the given file name |
| TboardWriter.EventWriter.Filename | tboard/src/writer.rs:94-96 | returns the file name the writer was made with |
| TboardWriter.EventWriter.WriteEvent | tboard/src/writer.rs:52-64 | the sink and result are those of `WriteEventOutcome`; `buf_len` holds the length; the scratch buffer is the encoding once the header is written |
| TboardWriter.EventWriter.Write | tboard/src/writer.rs:66-76 | the sink and result are those of `WriteOutcome`; the buffers are unchanged when the clock fails |
| TboardWriter.EventWriter.WriteScalar | tboard/src/writer.rs:78-87 | `Write` of `ScalarSummary(name, value)` |
| TboardWriter.FromWriter | tboard/src/writer.rs:45-49 | writes the `FileVersion` `brain.Event:2` event at step 0; fails with that write's error, or returns a writer on the sink with the given name and the encoding in its buffer |
| TboardWriter.Create | tboard/src/writer.rs:22-41 | a clock before the epoch fails with `SystemTime` before a uid is taken and writes nothing; otherwise one uid is taken and the new file receives what `write` of the `FileVersion` event at step 0 writes (`WriteOutcome`); the call fails exactly when that write fails (an I/O error, or `SystemTime` when `write`'s own clock reading is before the epoch), with its error; on success the writer is on the path `EventFilePath(logdir, secs, host, pid, uid)`, with that event's length in `buf_len` and its encoding in the buffer |
| Writer.StaleRecord | src/writer.rs:19-30 | what this `write_event(e)` writes: the length field `encoded_len(e)`, its checksum, the old buffer resized to that length and its checksum, 16 bytes more than `encoded_len(e)` |
| Writer.StaleRecordIsFrame | src/writer.rs:19-30 | what `write_event(e)` writes is a well-formed frame around the old buffer resized to `encoded_len(e)`, for any codec |
| Writer.StaleRecordReadsAsBuffer | src/writer.rs:19-30 | reading such a record passes both checksums and yields the decoder's result on the stale buffer |
| Writer.StaleRecordIgnoresEvent | src/writer.rs:25-26 | two events with the same encoded length produce byte-identical records |
| Writer.StaleRecordLosesAnEvent | src/writer.rs:25-26 | for any codec, of two distinct events of the same encoded length at least one does not read back as itself |
| Writer.StaleEventOutcome | src/writer.rs:19-30 | `write_event` succeeds exactly when the whole record fits; then the sink holds the old bytes and the record; otherwise the prefix that fits, and an `Io` error |
| Writer.StaleBufferKeepsOldBytes | src/writer.rs:25 | after a successful `write_event(e)` the scratch buffer has length `encoded_len(e)`, keeps its earlier bytes and is padded with zeros |
| Writer.StaleWriteOutcome | src/writer.rs:32-42 | a clock before the epoch gives `SystemTime` and writes nothing; otherwise `write_event` of the stamped event |
| Writer.ScalarSummary | src/writer.rs:44-53 | `write_scalar` writes one summary value with the name as node name, an empty tag, no metadata and the simple value |
| Writer.ScalarFieldsSwapped | src/writer.rs:45-50 | this writer puts the name in the node name and the `tboard` writer puts it in the tag; the values agree |
| Writer.SummaryWriter.constructor | src/writer.rs:13 | zeroed length buffer, scratch buffer `[0, 128]` |
| Writer.SummaryWriter.WriteEvent | src/writer.rs:19-30 | the sink and result are those of `StaleEventOutcome` on the old buffer; `buf_len` holds the length; the buffer is resized once the header is written |
| Writer.SummaryWriter.Write | src/writer.rs:32-42 | the sink and result are those of `StaleWriteOutcome`; the buffers are unchanged when the clock fails |
| Writer.SummaryWriter.WriteScalar | src/writer.rs:44-53 | `Write` of `ScalarSummary(name, value)` |
| Writer.New | src/writer.rs:12-16 | writes the record for the `FileVersion` event at step 0 from the buffer `[0, 128]`; fails with that write's error, or returns a writer whose buffer is `[0, 128]` resized to that event's length |
| Errors.Display | src/error.rs:3-29 | the transparent variants show their source's text, `Msg` its string, and both checksum variants the shared template |
| Errors.CrcVariantsRenderAlike | src/error.rs:16-20 | `LenCrcMismatch` and `CrcMismatch` with the same values render the same text, though they are different errors |
| Errors.CrcMessageIdentifiesValues | src/error.rs:16-17 | the text `crc mismatch, file: {file_crc} computed: {computed_crc}` determines both values |
| Errors.Wrap | src/error.rs:45-47 | `wrap` makes a `Wrapped` error that displays as the wrapped error |
| Errors.MsgOf | src/error.rs:49-51 | `msg` keeps only the error's text, as a `Msg` |
| Decimal.DigitsInjective | tboard/src/writer.rs:38 | `{}` prints distinct numbers differently |
| Decimal.PaddedValue | tboard/src/writer.rs:38 | `{:010}` output is all digits and denotes the number, whatever the width |
| Proto.EncodeInjective | tboard/src/writer.rs:59 | two events for which the codec's laws hold have equal encodings exactly when they are equal |

## Left out

- The protobuf codec (`prost`) is a parameter with laws stated per event. Message encoding itself is not modelled. `encode` into a `Vec` cannot fail, so `write_event`'s `?` on it has no error path here.
- The `crc` crate is replaced by a bit-by-bit CRC-32C. It is tied to the crate's parameters by the standard check value (`Crc.CheckValue`). The crate's table-driven implementation is not modelled.
- The framing lemmas take the checksum as a parameter. The readers and writers use `Crc.MaskedCrc`.
- The clock is a parameter (`Proto.Clock`): whole seconds and the `f64` wall time, or the error of a clock before the epoch. The computation `as_secs() as f64 + subsec_nanos() as f64 / 1e9` is floating point and is left out. The wall time is taken as given.
- Floating-point fields (`wall_time`, scalar values) are carried as bit patterns. Nested messages the core never inspects are opaque bytes.
- I/O is modelled as a stream: bytes, then a clean end or an error. `read_exact`, on a short read, is modelled as consuming everything left and copying it into the front of the buffer (std leaves that content unspecified). A sink accepts a fixed number of bytes and then fails; a failed `write_all` is modelled as writing the bytes that fit. Interrupted and partial writes that later succeed are not modelled.
- TboardWriter.Create: the filesystem checks (`is_file`, `canonicalize`, the `bail!` message, `exists`, `create_dir_all`) and `File::create` are left out. The host name (`hostname::get`, lossily converted) and `process::id` are parameters. The newly created file is given as a sink.
- TboardWriter.UidCounter: models `COUNTER` as one sequential counter. Atomicity across threads and the `Relaxed` ordering are not modelled.
- `EventWriter::flush` and `read_file` are I/O wrappers with no logic of their own and are left out. So are `examples/read.rs`, the Python bindings and `basics.py`.
- The `bail!` macro's `.bt()` backtrace call and `Error` values other than their variant and display text are not modelled.
- Lib.SummaryReader.Next: `event_len as usize` and the allocation of `resize` are taken as lossless. A length beyond the address space is not modelled.
- What an iterator does after it has returned an error (the stream position is then mid-record) is stated by `Framing.Next` but is not given a meaning.

## Findings

| source | as written | input that shows it | evidently intended | confidence | as-written member | corrected member |
|---|---|---|---|---|---|---|
| src/writer.rs:25-26 | `write_event` resizes `buf` to `encoded_len` and writes `buf`, but never encodes the event into it. The record carries the old buffer's bytes padded with zeros, with checksums that match | `write_scalar(1, "loss", 0.5)` then `write_scalar(2, "loss", 0.5)`: the two events have equal encoded lengths, so the two records are byte-identical. The first record of `new` carries `[0, 128, 0, ...]` rather than the `FileVersion` event | encode the event into the buffer after truncating it, as `tboard/src/writer.rs:58-59` does, so that every record reads back as its event | high, not executed | Writer.StaleRecordLosesAnEvent | TboardWriter.RecordReadsBack |
| src/writer.rs:46-47 | `write_scalar` puts the scalar's name in `node_name` and leaves `tag` empty | `write_scalar(0, "loss", 1.0)` yields a value with tag `""` | the name as tag and an empty node name, as `tboard/src/writer.rs:80-81` writes it; TensorBoard groups scalars by tag | medium, not executed | Writer.ScalarFieldsSwapped | TboardWriter.ScalarSummary |
