/**
 * The record layout and the behaviour of one `SummaryReader::next` call,
 * as functions of the input stream and the reader's state. Each record is
 *
 *   LE64(n) ++ LE32(masked_crc(LE64(n))) ++ payload[n] ++ LE32(masked_crc(payload))
 *
 * Both reader classes are proved to follow `Next`; the lemmas below state
 * what `Next` does on every kind of input.
 */
module Framing {
  import opened Wrappers
  import opened Bytes
  import opened Crc
  import opened Errors
  import opened Proto
  import opened ByteInput

  /** A checksum over a byte buffer; the readers and writers use `Crc.MaskedCrc`. */
  type Checksum = seq<u8> -> u32

  /** One framed record around `payload`, checksummed with `crc`. */
  function Frame(payload: seq<u8>, crc: Checksum): (r: seq<u8>)
    requires |payload| < TWO_64
    ensures |r| == 16 + |payload|
  {
    var lenField := Le64(|payload|);
    lenField + Le32(crc(lenField)) + payload + Le32(crc(payload))
  }

  /** The records around `payloads`, back to back. */
  function Frames(payloads: seq<seq<u8>>, crc: Checksum): seq<u8>
    requires forall i :: 0 <= i < |payloads| ==> |payloads[i]| < TWO_64
  {
    if payloads == [] then [] else Frame(payloads[0], crc) + Frames(payloads[1..], crc)
  }

  /** What the reader keeps between calls: the stream position and its two scratch buffers. */
  datatype ReaderState = ReaderState(pos: nat, bufLen: seq<u8>, buf: seq<u8>)

  /** The state `SummaryReader::new` starts from: `buf_len` zeroed, `buf` the two bytes `[0, 128]`. */
  const INITIAL: ReaderState := ReaderState(0, [0, 0, 0, 0, 0, 0, 0, 0], [0, 128])

  ghost predicate Fits(s: Stream, st: ReaderState) {
    st.pos <= |s.data| && |st.bufLen| == 8
  }

  /** The item one `next` call yields, and the state it leaves. */
  datatype Pull = Pull(item: Option<Result<Event, Error>>, state: ReaderState)

  /**
   * `next`: read the length, check its checksum, read the payload, decode
   * it, then read and check the payload checksum, returning at the first
   * failure. Only an `UnexpectedEof` while reading the length ends the
   * iteration. The four steps are `Next`, `Header`, `Body` and `Trailer`.
   */
  function Next(s: Stream, st: ReaderState, codec: Codec, crc: Checksum): (p: Pull)
    requires Fits(s, st)
    ensures Fits(s, p.state)
  {
    var len := ReadExact(s, st.pos, st.bufLen);
    if len.result.Err? then
      var err := len.result.error;
      Pull(if err.kind == UnexpectedEof then None else Some(Err(Io(err))), ReaderState(len.pos, len.contents, st.buf))
    else
      Header(s, len.contents, len.pos, st.buf, codec, crc)
  }

  /** After the length field: read its stored checksum and compare. */
  function Header(s: Stream, lenField: seq<u8>, pos: nat, buf: seq<u8>, codec: Codec, crc: Checksum): (p: Pull)
    requires |lenField| == 8 && pos <= |s.data|
    ensures Fits(s, p.state) && p.state.bufLen == lenField
  {
    var lenCrc := crc(lenField);
    var stored := ReadWord(s, pos);
    if stored.result.Err? then
      Pull(Some(Err(Io(stored.result.error))), ReaderState(stored.pos, lenField, buf))
    else if stored.result.value != lenCrc then
      Pull(Some(Err(LenCrcMismatch(stored.result.value, lenCrc))), ReaderState(stored.pos, lenField, buf))
    else
      Body(s, lenField, stored.pos, Resize(buf, ReadLe64(lenField)), codec, crc)
  }

  /** After a matching header: fill the resized payload buffer and decode it. */
  function Body(s: Stream, lenField: seq<u8>, pos: nat, buf: seq<u8>, codec: Codec, crc: Checksum): (p: Pull)
    requires |lenField| == 8 && pos <= |s.data|
    ensures Fits(s, p.state) && p.state.bufLen == lenField
  {
    var payload := ReadExact(s, pos, buf);
    if payload.result.Err? then
      Pull(Some(Err(Io(payload.result.error))), ReaderState(payload.pos, lenField, payload.contents))
    else
      match codec.decode(payload.contents)
      case Err(d) => Pull(Some(Err(ProstDecode(d))), ReaderState(payload.pos, lenField, payload.contents))
      case Ok(event) => Trailer(s, lenField, payload.pos, payload.contents, event, crc)
  }

  /** After a payload that decodes: read its stored checksum and compare. */
  function Trailer(s: Stream, lenField: seq<u8>, pos: nat, payload: seq<u8>, event: Event, crc: Checksum): (p: Pull)
    requires |lenField| == 8 && pos <= |s.data|
    ensures Fits(s, p.state) && p.state.bufLen == lenField && p.state.buf == payload
  {
    var stored := ReadWord(s, pos);
    var after := ReaderState(stored.pos, lenField, payload);
    if stored.result.Err? then
      Pull(Some(Err(Io(stored.result.error))), after)
    else
      var sum := crc(payload);
      if stored.result.value != sum then Pull(Some(Err(CrcMismatch(stored.result.value, sum))), after)
      else Pull(Some(Ok(event)), after)
  }

  /** The items of `k` successive `next` calls. */
  function Pulls(s: Stream, st: ReaderState, codec: Codec, crc: Checksum, k: nat): seq<Option<Result<Event, Error>>>
    requires Fits(s, st)
    decreases k
  {
    if k == 0 then []
    else
      var p := Next(s, st, codec, crc);
      [p.item] + Pulls(s, p.state, codec, crc, k - 1)
  }

  // ---- Views of the stream at a record boundary, used to state the lemmas.

  /** The stored length checksum agrees with the one computed over the length field. */
  predicate HeaderOk(s: Stream, pos: nat, crc: Checksum) {
    pos + 12 <= |s.data| && ReadLe32(s.data[pos + 8..pos + 12]) == crc(s.data[pos..pos + 8])
  }

  function PayloadLen(s: Stream, pos: nat): u64
    requires pos + 8 <= |s.data|
  {
    ReadLe64(s.data[pos..pos + 8])
  }

  /** The payload is all there. */
  predicate PayloadPresent(s: Stream, pos: nat, crc: Checksum) {
    HeaderOk(s, pos, crc) && pos + 12 + PayloadLen(s, pos) <= |s.data|
  }

  function PayloadAt(s: Stream, pos: nat): seq<u8>
    requires pos + 8 <= |s.data| && pos + 12 + PayloadLen(s, pos) <= |s.data|
  {
    s.data[pos + 12..pos + 12 + PayloadLen(s, pos)]
  }

  /** The item a record around `payload` yields, its checksums being right. */
  function DecodedItem(r: Result<Event, DecodeError>): Option<Result<Event, Error>> {
    match r
    case Ok(e) => Some(Ok(e))
    case Err(d) => Some(Err(ProstDecode(d)))
  }

  // ---- One step of `next` at a time.

  lemma NextStep(s: Stream, st: ReaderState, codec: Codec, crc: Checksum)
    requires Fits(s, st) && st.pos + 8 <= |s.data|
    ensures Next(s, st, codec, crc) == Header(s, s.data[st.pos..st.pos + 8], st.pos + 8, st.buf, codec, crc)
  {}

  lemma HeaderStep(s: Stream, lenField: seq<u8>, pos: nat, buf: seq<u8>, codec: Codec, crc: Checksum)
    requires |lenField| == 8 && pos + 4 <= |s.data|
    requires ReadLe32(s.data[pos..pos + 4]) == crc(lenField)
    ensures Header(s, lenField, pos, buf, codec, crc) == Body(s, lenField, pos + 4, Resize(buf, ReadLe64(lenField)), codec, crc)
  {}

  lemma BodyStep(s: Stream, lenField: seq<u8>, pos: nat, buf: seq<u8>, codec: Codec, crc: Checksum)
    requires |lenField| == 8 && pos + |buf| <= |s.data|
    ensures var p := s.data[pos..pos + |buf|];
      Body(s, lenField, pos, buf, codec, crc) ==
        match codec.decode(p)
        case Err(d) => Pull(Some(Err(ProstDecode(d))), ReaderState(pos + |buf|, lenField, p))
        case Ok(event) => Trailer(s, lenField, pos + |buf|, p, event, crc)
  {}

  lemma TrailerStep(s: Stream, lenField: seq<u8>, pos: nat, payload: seq<u8>, event: Event, crc: Checksum)
    requires |lenField| == 8 && pos + 4 <= |s.data|
    ensures var stored := ReadLe32(s.data[pos..pos + 4]);
      Trailer(s, lenField, pos, payload, event, crc) ==
        Pull(Some(if stored == crc(payload) then Ok(event) else Err(CrcMismatch(stored, crc(payload)))),
             ReaderState(pos + 4, lenField, payload))
  {}

  // ---- Lemmas about one call.

  /**
   * `next` yields `None` exactly when fewer than 8 bytes remain and the
   * stream then ends with an end of file: a partial length field ends the
   * iteration exactly like an empty tail, and is not reported.
   */
  lemma NoneIffShortTail(s: Stream, st: ReaderState, codec: Codec, crc: Checksum)
    requires Fits(s, st)
    ensures Next(s, st, codec, crc).item == None <==> |s.data| < st.pos + 8 && EndError(s).kind == UnexpectedEof
    ensures Next(s, st, codec, crc).item == None ==> Next(s, st, codec, crc).state.pos == |s.data|
  {}

  /** Another I/O error while reading the length field is reported, not swallowed. */
  lemma LengthReadErrorReported(s: Stream, st: ReaderState, codec: Codec, crc: Checksum)
    requires Fits(s, st)
    requires |s.data| < st.pos + 8 && EndError(s).kind != UnexpectedEof
    ensures Next(s, st, codec, crc).item == Some(Err(Io(EndError(s))))
  {}

  /**
   * A length checksum that does not match is reported with both values,
   * after reading exactly the 12 header bytes and before touching the payload buffer.
   */
  lemma LengthCrcMismatch(s: Stream, st: ReaderState, codec: Codec, crc: Checksum)
    requires Fits(s, st) && st.pos + 12 <= |s.data|
    requires ReadLe32(s.data[st.pos + 8..st.pos + 12]) != crc(s.data[st.pos..st.pos + 8])
    ensures Next(s, st, codec, crc) ==
      Pull(Some(Err(LenCrcMismatch(ReadLe32(s.data[st.pos + 8..st.pos + 12]), crc(s.data[st.pos..st.pos + 8])))),
           ReaderState(st.pos + 12, s.data[st.pos..st.pos + 8], st.buf))
  {}

  /**
   * A stream that ends inside a record once the length field is complete
   * gives an I/O error, never `None`: inside the length checksum, inside the
   * payload, or inside the payload checksum of a payload that decodes.
   */
  lemma TruncatedRecordIsIoError(s: Stream, st: ReaderState, codec: Codec, crc: Checksum)
    requires Fits(s, st) && st.pos + 8 <= |s.data|
    ensures Next(s, st, codec, crc).item != None
    ensures |s.data| < st.pos + 12 ==> Next(s, st, codec, crc).item == Some(Err(Io(EndError(s))))
    ensures HeaderOk(s, st.pos, crc) && !PayloadPresent(s, st.pos, crc) ==>
      Next(s, st, codec, crc).item == Some(Err(Io(EndError(s))))
    ensures PayloadPresent(s, st.pos, crc) && |s.data| < st.pos + 16 + PayloadLen(s, st.pos)
            && codec.decode(PayloadAt(s, st.pos)).Ok? ==>
      Next(s, st, codec, crc).item == Some(Err(Io(EndError(s))))
  {
    var pos := st.pos;
    if PayloadPresent(s, pos, crc) {
      ThroughBody(s, st, codec, crc);
    } else if HeaderOk(s, pos, crc) {
      NextStep(s, st, codec, crc);
      HeaderStep(s, s.data[pos..pos + 8], pos + 8, st.buf, codec, crc);
    }
  }

  /**
   * Once the header checks, the payload buffer is resized to the length
   * field and filled from the stream, and what follows depends only on the
   * decoded payload.
   */
  lemma ThroughBody(s: Stream, st: ReaderState, codec: Codec, crc: Checksum)
    requires Fits(s, st) && PayloadPresent(s, st.pos, crc)
    ensures var lenField, n, p := s.data[st.pos..st.pos + 8], PayloadLen(s, st.pos), PayloadAt(s, st.pos);
      Next(s, st, codec, crc) ==
        match codec.decode(p)
        case Err(d) => Pull(Some(Err(ProstDecode(d))), ReaderState(st.pos + 12 + n, lenField, p))
        case Ok(event) => Trailer(s, lenField, st.pos + 12 + n, p, event, crc)
  {
    var pos := st.pos;
    var lenField := s.data[pos..pos + 8];
    NextStep(s, st, codec, crc);
    HeaderStep(s, lenField, pos + 8, st.buf, codec, crc);
    var buf := Resize(st.buf, PayloadLen(s, pos));
    BodyStep(s, lenField, pos + 12, buf, codec, crc);
  }

  /**
   * A payload that does not decode is reported before its checksum is read:
   * the 4 checksum bytes are not consumed, whatever they hold or if they are missing.
   */
  lemma DecodeErrorBeforePayloadCrc(s: Stream, st: ReaderState, codec: Codec, crc: Checksum, d: DecodeError)
    requires Fits(s, st) && PayloadPresent(s, st.pos, crc)
    requires codec.decode(PayloadAt(s, st.pos)) == Err(d)
    ensures Next(s, st, codec, crc) ==
      Pull(Some(Err(ProstDecode(d))),
           ReaderState(st.pos + 12 + PayloadLen(s, st.pos), s.data[st.pos..st.pos + 8], PayloadAt(s, st.pos)))
  {
    ThroughBody(s, st, codec, crc);
  }

  /** A payload checksum that does not match is reported with the checksum of exactly the `n` payload bytes. */
  lemma PayloadCrcMismatch(s: Stream, st: ReaderState, codec: Codec, crc: Checksum)
    requires Fits(s, st) && PayloadPresent(s, st.pos, crc)
    requires st.pos + 16 + PayloadLen(s, st.pos) <= |s.data|
    requires codec.decode(PayloadAt(s, st.pos)).Ok?
    requires var at := st.pos + 12 + PayloadLen(s, st.pos);
      ReadLe32(s.data[at..at + 4]) != crc(PayloadAt(s, st.pos))
    ensures var at := st.pos + 12 + PayloadLen(s, st.pos);
      Next(s, st, codec, crc).item == Some(Err(CrcMismatch(ReadLe32(s.data[at..at + 4]), crc(PayloadAt(s, st.pos)))))
  {
    ThroughBody(s, st, codec, crc);
    var at := st.pos + 12 + PayloadLen(s, st.pos);
    TrailerStep(s, s.data[st.pos..st.pos + 8], at, PayloadAt(s, st.pos), codec.decode(PayloadAt(s, st.pos)).value, crc);
  }

  lemma SliceOfSlice(d: seq<u8>, a: nat, b: nat, i: nat, j: nat)
    requires a <= b <= |d| && i <= j <= b - a
    ensures d[a..b][i..j] == d[a + i..a + j]
  {
    assert forall k | 0 <= k < j - i :: d[a..b][i..j][k] == d[a + i + k];
  }

  /**
   * The four fields of a record: the bytes at `pos` are the record around
   * `payload` exactly when they hold its length, the length checksum, the
   * payload and the payload checksum, in that order.
   */
  lemma FrameFields(d: seq<u8>, pos: nat, payload: seq<u8>, crc: Checksum)
    requires |payload| < TWO_64 && pos + 16 + |payload| <= |d|
    ensures var n, lenField := |payload|, Le64(|payload|);
      d[pos..pos + 16 + n] == Frame(payload, crc) <==>
        && d[pos..pos + 8] == lenField
        && d[pos + 8..pos + 12] == Le32(crc(lenField))
        && d[pos + 12..pos + 12 + n] == payload
        && d[pos + 12 + n..pos + 16 + n] == Le32(crc(payload))
  {
    var n := |payload|;
    var w := d[pos..pos + 16 + n];
    SliceOfSlice(d, pos, pos + 16 + n, 0, 8);
    SliceOfSlice(d, pos, pos + 16 + n, 8, 12);
    SliceOfSlice(d, pos, pos + 16 + n, 12, 12 + n);
    SliceOfSlice(d, pos, pos + 16 + n, 12 + n, 16 + n);
    assert w == w[0..8] + w[8..12] + w[12..12 + n] + w[12 + n..16 + n];
  }

  /**
   * An event is yielded only after both checksums passed: the header
   * checks, the payload and its checksum are all there, the stored payload
   * checksum is the one computed over the payload, the payload decodes to the
   * event, and the next call starts right after the record.
   */
  lemma EventNeedsChecks(s: Stream, st: ReaderState, codec: Codec, crc: Checksum, e: Event)
    requires Fits(s, st)
    requires Next(s, st, codec, crc).item == Some(Ok(e))
    ensures PayloadPresent(s, st.pos, crc)
    ensures var n := PayloadLen(s, st.pos);
      && st.pos + 16 + n <= |s.data|
      && ReadLe32(s.data[st.pos + 12 + n..st.pos + 16 + n]) == crc(PayloadAt(s, st.pos))
      && codec.decode(PayloadAt(s, st.pos)) == Ok(e)
      && Next(s, st, codec, crc).state == ReaderState(st.pos + 16 + n, s.data[st.pos..st.pos + 8], PayloadAt(s, st.pos))
  {
    var pos := st.pos;
    NoneIffShortTail(s, st, codec, crc);
    TruncatedRecordIsIoError(s, st, codec, crc);
    if !HeaderOk(s, pos, crc) {
      NextStep(s, st, codec, crc);
      assert false;
    }
    ThroughBody(s, st, codec, crc);
    var n := PayloadLen(s, pos);
    TrailerStep(s, s.data[pos..pos + 8], pos + 12 + n, PayloadAt(s, pos), e, crc);
  }

  /**
   * The converse of `EventNeedsChecks`: when the header checks, the payload
   * and its checksum are there, the checksum matches and the payload decodes,
   * the call yields the event and stops right after the record.
   */
  lemma EventAfterChecks(s: Stream, st: ReaderState, codec: Codec, crc: Checksum, e: Event)
    requires Fits(s, st) && PayloadPresent(s, st.pos, crc)
    requires var n := PayloadLen(s, st.pos);
      && st.pos + 16 + n <= |s.data|
      && ReadLe32(s.data[st.pos + 12 + n..st.pos + 16 + n]) == crc(PayloadAt(s, st.pos))
      && codec.decode(PayloadAt(s, st.pos)) == Ok(e)
    ensures Next(s, st, codec, crc) ==
      Pull(Some(Ok(e)), ReaderState(st.pos + 16 + PayloadLen(s, st.pos), s.data[st.pos..st.pos + 8], PayloadAt(s, st.pos)))
  {
    ThroughBody(s, st, codec, crc);
    var n := PayloadLen(s, st.pos);
    TrailerStep(s, s.data[st.pos..st.pos + 8], st.pos + 12 + n, PayloadAt(s, st.pos), e, crc);
  }

  /**
   * An event is yielded only from a complete, well-formed record: the bytes
   * consumed are exactly `Frame(payload, crc)` for a payload of the length the
   * header gives, the payload decodes to the event, the payload buffer holds
   * exactly those bytes, and the next call starts right after the record.
   */
  lemma EventOnlyFromFrame(s: Stream, st: ReaderState, codec: Codec, crc: Checksum, e: Event)
    requires Fits(s, st)
    requires Next(s, st, codec, crc).item == Some(Ok(e))
    ensures PayloadPresent(s, st.pos, crc)
    ensures var n := PayloadLen(s, st.pos);
      && st.pos + 16 + n <= |s.data|
      && s.data[st.pos..st.pos + 16 + n] == Frame(PayloadAt(s, st.pos), crc)
      && codec.decode(PayloadAt(s, st.pos)) == Ok(e)
      && Next(s, st, codec, crc).state == ReaderState(st.pos + 16 + n, s.data[st.pos..st.pos + 8], PayloadAt(s, st.pos))
  {
    EventNeedsChecks(s, st, codec, crc, e);
    ChecksGiveFrame(s, st.pos, crc);
  }

  /** Bytes whose header and payload checksum both check are the frame around their payload. */
  lemma ChecksGiveFrame(s: Stream, pos: nat, crc: Checksum)
    requires PayloadPresent(s, pos, crc)
    requires var n := PayloadLen(s, pos);
      pos + 16 + n <= |s.data| && ReadLe32(s.data[pos + 12 + n..pos + 16 + n]) == crc(PayloadAt(s, pos))
    ensures s.data[pos..pos + 16 + PayloadLen(s, pos)] == Frame(PayloadAt(s, pos), crc)
  {
    var n, p := PayloadLen(s, pos), PayloadAt(s, pos);
    var lenField := s.data[pos..pos + 8];
    ReadLe64Inverse(lenField);
    ReadLe32Inverse(s.data[pos + 8..pos + 12], crc(lenField));
    ReadLe32Inverse(s.data[pos + 12 + n..pos + 16 + n], crc(p));
    FrameFields(s.data, pos, p, crc);
  }

  /**
   * Reading a record the writers framed around `payload`: both checksums
   * pass, and the call yields what the codec makes of the payload. A payload
   * that decodes consumes exactly the `16 + n` bytes of the record.
   */
  lemma ReadFrame(s: Stream, st: ReaderState, codec: Codec, crc: Checksum, payload: seq<u8>)
    requires Fits(s, st) && |payload| < TWO_64
    requires st.pos + 16 + |payload| <= |s.data|
    requires s.data[st.pos..st.pos + 16 + |payload|] == Frame(payload, crc)
    ensures Next(s, st, codec, crc).item == DecodedItem(codec.decode(payload))
    ensures Next(s, st, codec, crc).state ==
      ReaderState(st.pos + 12 + |payload| + (if codec.decode(payload).Ok? then 4 else 0), Le64(|payload|), payload)
  {
    FrameReads(s, st.pos, payload, crc);
    match codec.decode(payload)
    case Err(d) => DecodeErrorBeforePayloadCrc(s, st, codec, crc, d);
    case Ok(e) => EventAfterChecks(s, st, codec, crc, e);
  }

  /** The fields of a frame, as the reader reads them: the header checks and gives back the payload and its checksum. */
  lemma FrameReads(s: Stream, pos: nat, payload: seq<u8>, crc: Checksum)
    requires |payload| < TWO_64 && pos + 16 + |payload| <= |s.data|
    requires s.data[pos..pos + 16 + |payload|] == Frame(payload, crc)
    ensures var n := |payload|;
      && HeaderOk(s, pos, crc) && PayloadLen(s, pos) == n && PayloadAt(s, pos) == payload
      && s.data[pos..pos + 8] == Le64(n)
      && ReadLe32(s.data[pos + 12 + n..pos + 16 + n]) == crc(payload)
  {
    var n := |payload|;
    FrameFields(s.data, pos, payload, crc);
    Le64RoundTrip(n);
    Le32RoundTrip(crc(Le64(n)));
    Le32RoundTrip(crc(payload));
  }

  // ---- Lemmas about a whole stream.

  /** An empty stream yields no record: the first call ends the iteration. */
  lemma EmptyStreamIsEmpty(codec: Codec, crc: Checksum)
    ensures Next(Stream([], None), INITIAL, codec, crc) == Pull(None, INITIAL)
  {}

  /** The items yielded by reading records whose payloads are the encodings of `events`. */
  function Yielded(events: seq<Event>): (r: seq<Option<Result<Event, Error>>>)
    ensures |r| == |events| && forall i :: 0 <= i < |events| ==> r[i] == Some(Ok(events[i]))
  {
    if events == [] then [] else [Some(Ok(events[0]))] + Yielded(events[1..])
  }

  function Encodings(codec: Codec, events: seq<Event>): (r: seq<seq<u8>>)
    requires forall i :: 0 <= i < |events| ==> LengthAgrees(codec, events[i])
    ensures |r| == |events|
    ensures forall i :: 0 <= i < |r| ==> r[i] == codec.encode(events[i]) && |r[i]| < TWO_64
  {
    if events == [] then []
    else
      assert LengthAgrees(codec, events[0]);
      [codec.encode(events[0])] + Encodings(codec, events[1..])
  }

  /**
   * Round trip of a whole stream: after any bytes already consumed, the
   * records of `events` read back as exactly `events`, in order, and the
   * next call then ends the iteration.
   */
  lemma {:induction false} ReadRecords(prefix: seq<u8>, events: seq<Event>, codec: Codec, crc: Checksum, st: ReaderState)
    requires LawfulOn(codec, events) && |st.bufLen| == 8 && st.pos == |prefix|
    ensures var s := Stream(prefix + Frames(Encodings(codec, events), crc), None);
      Fits(s, st) && Pulls(s, st, codec, crc, |events| + 1) == Yielded(events) + [None]
    decreases |events|
  {
    var payloads := Encodings(codec, events);
    var s := Stream(prefix + Frames(payloads, crc), None);
    if events == [] {
      assert s.data == prefix;
      NoneIffShortTail(s, st, codec, crc);
    } else {
      var p := payloads[0];
      assert Encodings(codec, events[1..]) == payloads[1..];
      FirstFrame(prefix, payloads, crc);
      assert LawfulFor(codec, events[0]);
      assert LawfulOn(codec, events[1..]) by {
        assert forall i :: 0 <= i < |events| - 1 ==> events[1..][i] == events[i + 1];
      }
      ReadFrame(s, st, codec, crc, p);
      var next := Next(s, st, codec, crc).state;
      ReadRecords(prefix + Frame(p, crc), events[1..], codec, crc, next);
      var x, rest := Some(Ok(events[0])), Yielded(events[1..]);
      assert Pulls(s, st, codec, crc, |events| + 1) == [x] + Pulls(s, next, codec, crc, |events|);
      assert Yielded(events) == [x] + rest;
      ConsAppend(x, rest, [None]);
    }
  }

  lemma ConsAppend<T>(x: T, r: seq<T>, t: seq<T>)
    ensures ([x] + r) + t == [x] + (r + t)
  {}

  /** The first frame of a non-empty run of frames, after a prefix, and what follows it. */
  lemma FirstFrame(prefix: seq<u8>, payloads: seq<seq<u8>>, crc: Checksum)
    requires payloads != [] && forall i :: 0 <= i < |payloads| ==> |payloads[i]| < TWO_64
    ensures var d, p := prefix + Frames(payloads, crc), payloads[0];
      && |prefix| + 16 + |p| <= |d|
      && d[|prefix|..|prefix| + 16 + |p|] == Frame(p, crc)
      && d == (prefix + Frame(p, crc)) + Frames(payloads[1..], crc)
  {
    var p, rest := payloads[0], Frames(payloads[1..], crc);
    assert Frames(payloads, crc) == Frame(p, crc) + rest;
    assert prefix + (Frame(p, crc) + rest) == (prefix + Frame(p, crc)) + rest;
  }

  /** The stream a fresh reader is given: the records of `events` and a clean end. */
  lemma ReadBack(events: seq<Event>, codec: Codec, crc: Checksum)
    requires LawfulOn(codec, events)
    ensures Pulls(Stream(Frames(Encodings(codec, events), crc), None), INITIAL, codec, crc, |events| + 1) == Yielded(events) + [None]
  {
    ReadRecords([], events, codec, crc, INITIAL);
    assert [] + Frames(Encodings(codec, events), crc) == Frames(Encodings(codec, events), crc);
  }
}
