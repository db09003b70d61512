/**
 * `SummaryWriter` of the crate root. It frames records like the `tboard`
 * crate's `EventWriter`, with one difference: `write_event` resizes its
 * scratch buffer to the event's encoded length and writes that buffer, and
 * it never encodes the event into it. So a record depends on the event only
 * through `encoded_len`.
 */
module Writer {
  import opened Wrappers
  import opened Bytes
  import opened Crc
  import opened Errors
  import opened Proto
  import opened ByteInput
  import opened ByteOutput
  import opened Framing
  import TboardWriter

  // ---- What `write_event` writes

  /**
   * What `write_event(e)` writes when the scratch buffer holds `buf`. The
   * length field is `encoded_len(e)`. The payload is `buf` resized to that
   * length. Each of the two is followed by its masked checksum.
   */
  function StaleRecord(codec: Codec, e: Event, buf: seq<u8>): (r: seq<u8>)
    ensures |r| == 16 + codec.encodedLen(e)
  {
    var payload := Resize(buf, codec.encodedLen(e));
    TboardWriter.LengthHeader(codec.encodedLen(e)) + payload + Le32(MaskedCrc(payload))
  }

  /**
   * The record is a well-formed frame around the resized buffer, whatever
   * the codec: both checksums match the bytes they cover.
   */
  lemma StaleRecordIsFrame(codec: Codec, e: Event, buf: seq<u8>)
    ensures StaleRecord(codec, e, buf) == Frame(Resize(buf, codec.encodedLen(e)), MaskedCrc)
  {}

  /**
   * Reading such a record back: `next` accepts both checksums and hands
   * the stale buffer to the decoder. The item is whatever the decoder makes
   * of that buffer, and never a checksum error.
   */
  lemma StaleRecordReadsAsBuffer(codec: Codec, e: Event, buf: seq<u8>, before: seq<u8>, after: seq<u8>,
                                 fault: Option<IoError>, st: ReaderState)
    requires |st.bufLen| == 8 && st.pos == |before|
    ensures var s := Stream(before + StaleRecord(codec, e, buf) + after, fault);
      Framing.Fits(s, st) &&
      Next(s, st, codec, MaskedCrc).item == DecodedItem(codec.decode(Resize(buf, codec.encodedLen(e))))
  {
    StaleRecordIsFrame(codec, e, buf);
    var s := Stream(before + StaleRecord(codec, e, buf) + after, fault);
    var p := Resize(buf, codec.encodedLen(e));
    assert s.data[st.pos..st.pos + 16 + |p|] == Frame(p, MaskedCrc);
    ReadFrame(s, st, codec, MaskedCrc, p);
  }

  /**
   * Two events with the same encoded length give the same record, byte for
   * byte. An example is two scalars of the same name and value at steps 1
   * and 2.
   */
  lemma StaleRecordIgnoresEvent(codec: Codec, e1: Event, e2: Event, buf: seq<u8>)
    requires codec.encodedLen(e1) == codec.encodedLen(e2)
    ensures StaleRecord(codec, e1, buf) == StaleRecord(codec, e2, buf)
  {}

  /**
   * Whatever the codec, some event cannot be read back. Take two
   * distinct events of the same encoded length, in the same place of the
   * same file. `next` returns the same item for both, so at most one of
   * them comes back.
   */
  lemma StaleRecordLosesAnEvent(codec: Codec, e1: Event, e2: Event, buf: seq<u8>, before: seq<u8>, after: seq<u8>,
                                fault: Option<IoError>, st: ReaderState)
    requires e1 != e2 && codec.encodedLen(e1) == codec.encodedLen(e2)
    requires |st.bufLen| == 8 && st.pos == |before|
    ensures var s1 := Stream(before + StaleRecord(codec, e1, buf) + after, fault);
      var s2 := Stream(before + StaleRecord(codec, e2, buf) + after, fault);
      Next(s1, st, codec, MaskedCrc).item != Some(Ok(e1)) || Next(s2, st, codec, MaskedCrc).item != Some(Ok(e2))
  {
    StaleRecordIgnoresEvent(codec, e1, e2, buf);
  }

  /** `write_event(e)` after `data`: every record byte there is room for, and an I/O error if some did not fit. */
  function StaleEventOutcome(k: Sink, data: seq<u8>, codec: Codec, e: Event, buf: seq<u8>): (o: TboardWriter.Outcome)
    requires HasRoom(k, data)
    ensures o.result.Ok? <==> HasRoom(k, data + StaleRecord(codec, e, buf))
    ensures o.result.Ok? ==> o.data == data + StaleRecord(codec, e, buf)
    ensures o.result.Err? ==> o.result.error == Io(k.fault) && o.data == (data + StaleRecord(codec, e, buf))[..k.room.value]
  {
    var w := WriteAll(k, data, StaleRecord(codec, e, buf));
    TboardWriter.Outcome(w.data, if w.result.Ok? then Ok(()) else Err(Io(w.result.error)))
  }

  /**
   * The scratch buffer after `write_event(e)`. Once the length header is
   * written, it is the old buffer resized to `encoded_len(e)`. When a header
   * write failed, it is unchanged.
   */
  function StaleBufferAfter(k: Sink, data: seq<u8>, codec: Codec, e: Event, buf: seq<u8>): seq<u8> {
    if HasRoom(k, data + TboardWriter.LengthHeader(codec.encodedLen(e))) then Resize(buf, codec.encodedLen(e)) else buf
  }

  /**
   * Once a record is written in full, this writer's scratch buffer keeps
   * its earlier bytes and is padded with zeros. It is never the encoding of
   * the event, as it is in the `tboard` writer.
   */
  lemma StaleBufferKeepsOldBytes(k: Sink, data: seq<u8>, codec: Codec, e: Event, buf: seq<u8>)
    requires HasRoom(k, data) && StaleEventOutcome(k, data, codec, e, buf).result.Ok?
    ensures var b := StaleBufferAfter(k, data, codec, e, buf);
      |b| == codec.encodedLen(e) && forall i :: 0 <= i < |b| ==> b[i] == if i < |buf| then buf[i] else 0
  {
    assert |data + TboardWriter.LengthHeader(codec.encodedLen(e))| <= |data + StaleRecord(codec, e, buf)|;
  }

  /** `write(step, what)`: a clock before the epoch fails before anything is written. */
  function StaleWriteOutcome(k: Sink, data: seq<u8>, codec: Codec, step: i64, what: What, now: Clock, buf: seq<u8>)
    : (o: TboardWriter.Outcome)
    requires HasRoom(k, data)
    ensures now.BeforeEpoch? ==> o == TboardWriter.Outcome(data, Err(SystemTime(now.err)))
    ensures now.SinceEpoch? ==> o == StaleEventOutcome(k, data, codec, TboardWriter.StepEvent(now.wallTime, step, what), buf)
  {
    match now
    case BeforeEpoch(err) => TboardWriter.Outcome(data, Err(SystemTime(err)))
    case SinceEpoch(_, wallTime) => StaleEventOutcome(k, data, codec, TboardWriter.StepEvent(wallTime, step, what), buf)
  }

  /** The summary `write_scalar(step, name, value)` writes. It has one value, with node name `name` and no tag. */
  function ScalarSummary(name: string, value: F32): (w: What)
    ensures w.SummaryWhat? && |w.summary.value| == 1
    ensures w.summary.value[0] == SummaryValue(name, "", None, Some(SimpleValue(value)))
  {
    SummaryWhat(Summary([SummaryValue(name, "", None, Some(SimpleValue(value)))]))
  }

  /**
   * The two writers file a scalar under opposite fields. This one puts the
   * name in the node name. The `tboard` writer puts it in the tag.
   */
  lemma ScalarFieldsSwapped(name: string, value: F32)
    ensures var mine, theirs := ScalarSummary(name, value).summary.value[0],
                                TboardWriter.ScalarSummary(name, value).summary.value[0];
      mine.nodeName == theirs.tag == name && mine.tag == theirs.nodeName == ""
      && mine.value == theirs.value == Some(SimpleValue(value))
  {}

  class SummaryWriter {
    const writer: ByteSink
    /** The 8-byte buffer the length field is encoded into. */
    const bufLen: array<u8>
    /** The scratch buffer, resized for every event and never filled. */
    var buf: seq<u8>
    /** `encoded_len` (and the encoder and decoder it agrees with). */
    const codec: Codec

    ghost predicate Valid()
      reads this, writer, bufLen
    {
      writer.Valid() && bufLen.Length == 8
    }

    /** The struct literal of `new`: zeroed length buffer, scratch buffer `[0, 128]`. */
    constructor (writer: ByteSink, codec: Codec)
      requires writer.Valid()
      ensures Valid() && fresh(bufLen)
      ensures this.writer == writer && this.codec == codec
      ensures bufLen[..] == Zeros(8) && buf == [0, 128]
    {
      this.writer := writer;
      bufLen := new u8[8](_ => 0);
      buf := [0, 128];
      this.codec := codec;
    }

    /**
     * `write_event`: the length and its checksum, then the resized scratch
     * buffer and its checksum. It stops at the first write that fails.
     */
    method WriteEvent(e: Event) returns (r: Result<(), Error>)
      requires Valid()
      modifies this, writer, bufLen
      ensures Valid()
      ensures TboardWriter.Outcome(writer.data, r) == StaleEventOutcome(writer.sink, old(writer.data), codec, e, old(buf))
      ensures bufLen[..] == Le64(codec.encodedLen(e))
      ensures buf == StaleBufferAfter(writer.sink, old(writer.data), codec, e, old(buf))
    {
      ghost var data0, k := writer.data, writer.sink;
      var eventLen := codec.encodedLen(e);
      WriteLe64(bufLen, eventLen);
      var lenField := bufLen[..];
      var bufLenCrc := MaskedCrc(lenField);
      ghost var payload := Resize(buf, eventLen);
      ghost var lenCrc, trailer := Le32(bufLenCrc), Le32(MaskedCrc(payload));
      assert StaleRecord(codec, e, old(buf)) == lenField + lenCrc + payload + trailer;
      FourParts(data0, lenField, lenCrc, payload, trailer);
      var w := writer.WriteAllBytes(lenField);
      WriteAllThen(k, data0, lenField, lenCrc + (payload + trailer));
      if w.Err? {
        return Err(Io(w.error));
      }
      w := writer.WriteU32(bufLenCrc);
      WriteAllThen(k, data0 + lenField, lenCrc, payload + trailer);
      if w.Err? {
        return Err(Io(w.error));
      }
      buf := Resize(buf, eventLen);
      w := writer.WriteAllBytes(buf);
      WriteAllThen(k, data0 + lenField + lenCrc, payload, trailer);
      if w.Err? {
        return Err(Io(w.error));
      }
      var eventCrc := MaskedCrc(buf);
      w := writer.WriteU32(eventCrc);
      if w.Err? {
        return Err(Io(w.error));
      }
      return Ok(());
    }

    /** `write(step, what)`: stamp the event with the clock and write it. */
    method Write(step: i64, what: What, now: Clock) returns (r: Result<(), Error>)
      requires Valid()
      modifies this, writer, bufLen
      ensures Valid()
      ensures TboardWriter.Outcome(writer.data, r) == StaleWriteOutcome(writer.sink, old(writer.data), codec, step, what, now, old(buf))
      ensures now.BeforeEpoch? ==> bufLen[..] == old(bufLen[..]) && buf == old(buf)
      ensures now.SinceEpoch? ==> var e := TboardWriter.StepEvent(now.wallTime, step, what);
        bufLen[..] == Le64(codec.encodedLen(e)) && buf == StaleBufferAfter(writer.sink, old(writer.data), codec, e, old(buf))
    {
      match now
      case BeforeEpoch(err) =>
        return Err(SystemTime(err));
      case SinceEpoch(_, wallTime) =>
        r := WriteEvent(TboardWriter.StepEvent(wallTime, step, what));
    }

    /** `write_scalar(step, name, value)`. */
    method WriteScalar(step: i64, name: string, value: F32, now: Clock) returns (r: Result<(), Error>)
      requires Valid()
      modifies this, writer, bufLen
      ensures Valid()
      ensures TboardWriter.Outcome(writer.data, r)
        == StaleWriteOutcome(writer.sink, old(writer.data), codec, step, ScalarSummary(name, value), now, old(buf))
      ensures now.BeforeEpoch? ==> bufLen[..] == old(bufLen[..]) && buf == old(buf)
      ensures now.SinceEpoch? ==> var e := TboardWriter.StepEvent(now.wallTime, step, ScalarSummary(name, value));
        bufLen[..] == Le64(codec.encodedLen(e)) && buf == StaleBufferAfter(writer.sink, old(writer.data), codec, e, old(buf))
    {
      r := Write(step, ScalarSummary(name, value), now);
    }
  }

  /**
   * `new`: a writer whose first record is meant to be the `FileVersion`
   * event `"brain.Event:2"` at step 0. What it writes is the frame around
   * `[0, 128]` resized to that event's encoded length. A failed first write
   * is returned instead.
   */
  method New(writer: ByteSink, codec: Codec, now: Clock) returns (r: Result<SummaryWriter, Error>)
    requires writer.Valid()
    modifies writer
    ensures writer.Valid()
    ensures var o := StaleWriteOutcome(writer.sink, old(writer.data), codec, 0, FileVersion(FILE_VERSION), now, [0, 128]);
      writer.data == o.data && (r.Ok? <==> o.result.Ok?) && (r.Err? ==> r.error == o.result.error)
    ensures r.Ok? ==>
      && fresh(r.value) && fresh(r.value.bufLen) && r.value.Valid()
      && r.value.writer == writer && r.value.codec == codec
    ensures r.Ok? ==> now.SinceEpoch? && var e := TboardWriter.StepEvent(now.wallTime, 0, FileVersion(FILE_VERSION));
      r.value.bufLen[..] == Le64(codec.encodedLen(e)) && r.value.buf == Resize([0, 128], codec.encodedLen(e))
  {
    ghost var data0 := writer.data;
    var w := new SummaryWriter(writer, codec);
    var res := w.Write(0, FileVersion(FILE_VERSION), now);
    if res.Err? {
      return Err(res.error);
    }
    StaleBufferKeepsOldBytes(writer.sink, data0, codec, TboardWriter.StepEvent(now.wallTime, 0, FileVersion(FILE_VERSION)), [0, 128]);
    return Ok(w);
  }
}
