/**
 * The `tboard` crate's `EventWriter` (an `EventFileWriter`-like writer): the
 * process-wide uid counter, the event-file name, and record writing, which
 * encodes every event into a freshly truncated buffer.
 */
module TboardWriter {
  import opened Wrappers
  import opened Bytes
  import opened Crc
  import opened Errors
  import opened Proto
  import opened ByteOutput
  import opened Framing
  import Decimal

  // ---- global_uid

  /** The static `COUNTER` behind `global_uid`, as a sequential counter. */
  class UidCounter {
    var next: u64

    constructor ()
      ensures next == 1
    {
      next := 1;
    }

    /** `global_uid`: `fetch_add(1)`, which returns the old value and wraps at 2^64. */
    method GlobalUid() returns (uid: u64)
      modifies this
      ensures uid == old(next) && next == (old(next) + 1) % TWO_64
    {
      uid := next;
      next := (next + 1) % TWO_64;
    }
  }

  /** The first `k` uids a process hands out are `1, 2, ..., k`, all distinct. */
  method FirstUids(k: nat) returns (uids: seq<u64>)
    requires k < TWO_64
    ensures |uids| == k && forall i :: 0 <= i < k ==> uids[i] == i + 1
    ensures forall i, j :: 0 <= i < j < k ==> uids[i] != uids[j]
  {
    var counter := new UidCounter();
    uids := [];
    for i := 0 to k
      invariant |uids| == i && counter.next == (i + 1) % TWO_64
      invariant forall j :: 0 <= j < i ==> uids[j] == j + 1
    {
      var uid := counter.GlobalUid();
      uids := uids + [uid];
    }
  }

  // ---- The event-file name

  /** `Path::join` of a relative file name: one separator between the two, none after an empty directory. */
  function Join(dir: string, name: string): (r: string)
    ensures dir == [] ==> r == name
    ensures dir != [] && dir[|dir| - 1] == '/' ==> r == dir + name
    ensures dir != [] && dir[|dir| - 1] != '/' ==> r == dir + "/" + name
  {
    if dir == [] || dir[|dir| - 1] == '/' then dir + name else dir + "/" + name
  }

  const FILE_PREFIX: string := "events.out.tfevents."

  /** The file name `events.out.tfevents.{secs:010}.{host}.{pid}.{uid}`. */
  function EventFileName(secs: u64, host: string, pid: u32, uid: u64): (name: string)
    ensures |name| > |Decimal.Digits(uid)| && name[|name| - |Decimal.Digits(uid)|..] == Decimal.Digits(uid)
  {
    SuffixSlice(FILE_PREFIX + Decimal.Pad0(Decimal.Digits(secs), 10) + "." + host + "." + Decimal.Digits(pid) + ".", Decimal.Digits(uid));
    FILE_PREFIX + Decimal.Pad0(Decimal.Digits(secs), 10) + "." + host + "." + Decimal.Digits(pid) + "." + Decimal.Digits(uid)
  }

  /** The path `create` opens: the log directory joined with the event-file name, which ends the path. */
  function EventFilePath(logdir: string, secs: u64, host: string, pid: u32, uid: u64): (path: string)
    ensures var name := EventFileName(secs, host, pid, uid);
      |path| >= |name| && path[|path| - |name|..] == name
  {
    var name := EventFileName(secs, host, pid, uid);
    var lead := if logdir == [] || logdir[|logdir| - 1] == '/' then logdir else logdir + "/";
    SuffixSlice(lead, name);
    Join(logdir, name)
  }

  /** The width of the seconds field: ten digits, or more when the number needs them. */
  function SecondsWidth(secs: u64): nat {
    if |Decimal.Digits(secs)| >= 10 then |Decimal.Digits(secs)| else 10
  }

  /**
   * The name starts with the prefix and the seconds, zero-padded to at least
   * ten digits and never truncated, followed by a dot.
   */
  lemma FileNameLayout(secs: u64, host: string, pid: u32, uid: u64)
    ensures var name, p, w := EventFileName(secs, host, pid, uid), |FILE_PREFIX|, SecondsWidth(secs);
      && |name| > p + w
      && name[..p] == FILE_PREFIX
      && Decimal.AllDigits(name[p..p + w]) && Decimal.Value(name[p..p + w]) == secs
      && name[p + w] == '.'
  {
    FileNameFields(secs, host, pid, uid);
    Decimal.PaddedValue(secs, 10);
  }

  /** The name is the prefix, the padded seconds, and the rest from the first dot on. */
  lemma FileNameFields(secs: u64, host: string, pid: u32, uid: u64)
    ensures var name, p, w := EventFileName(secs, host, pid, uid), |FILE_PREFIX|, SecondsWidth(secs);
      && |name| > p + w
      && name[..p] == FILE_PREFIX
      && name[p..p + w] == Decimal.Pad0(Decimal.Digits(secs), 10)
      && name[p + w] == '.'
  {
    var rest := "." + host + "." + Decimal.Digits(pid) + "." + Decimal.Digits(uid);
    assert EventFileName(secs, host, pid, uid) == FILE_PREFIX + Decimal.Pad0(Decimal.Digits(secs), 10) + rest;
    ThreePartSlices(FILE_PREFIX, Decimal.Pad0(Decimal.Digits(secs), 10), rest);
  }

  lemma ThreePartSlices(a: string, b: string, c: string)
    ensures (a + b + c)[..|a|] == a && (a + b + c)[|a|..|a| + |b|] == b
    ensures |c| > 0 ==> (a + b + c)[|a| + |b|] == c[0]
  {
    assert (a + b + c)[|a|..|a| + |b|] == b by {
      assert forall k | 0 <= k < |b| :: (a + b + c)[|a|..|a| + |b|][k] == b[k];
    }
  }

  lemma SuffixSlice(a: string, b: string)
    ensures (a + b)[|a + b| - |b|..] == b
  {
    assert (a + b)[|a + b| - |b|..] == (a + b)[|a|..];
  }

  /**
   * Two names for the same directory, time, host and process are equal
   * exactly when their uids are; so the distinct uids of `global_uid` give
   * distinct files.
   */
  lemma FilePathsDistinct(logdir: string, secs: u64, host: string, pid: u32, u1: u64, u2: u64)
    ensures EventFilePath(logdir, secs, host, pid, u1) == EventFilePath(logdir, secs, host, pid, u2) <==> u1 == u2
  {
    PathEndsWithUid(logdir, secs, host, pid, u1);
    PathEndsWithUid(logdir, secs, host, pid, u2);
    if EventFilePath(logdir, secs, host, pid, u1) == EventFilePath(logdir, secs, host, pid, u2) {
      Errors.CancelPrefix(PathStem(logdir, secs, host, pid), Decimal.Digits(u1), Decimal.Digits(u2));
      Decimal.DigitsInjective(u1, u2);
    }
  }

  /** Everything of the path before the uid. */
  function PathStem(logdir: string, secs: u64, host: string, pid: u32): string {
    var lead := if logdir == [] || logdir[|logdir| - 1] == '/' then logdir else logdir + "/";
    lead + (FILE_PREFIX + Decimal.Pad0(Decimal.Digits(secs), 10) + "." + host + "." + Decimal.Digits(pid) + ".")
  }

  lemma PathEndsWithUid(logdir: string, secs: u64, host: string, pid: u32, uid: u64)
    ensures EventFilePath(logdir, secs, host, pid, uid) == PathStem(logdir, secs, host, pid) + Decimal.Digits(uid)
  {}

  // ---- Records

  /**
   * What `write_event(e)` writes: the length `encoded_len(e)`, its masked
   * checksum, the encoding of `e`, and the masked checksum of the encoding.
   */
  function Record(codec: Codec, e: Event): (r: seq<u8>)
    ensures |r| == 16 + |codec.encode(e)|
  {
    LengthHeader(codec.encodedLen(e)) + codec.encode(e) + Le32(MaskedCrc(codec.encode(e)))
  }

  /** The first twelve bytes of a record: the length field and its masked checksum. */
  function LengthHeader(n: u64): (h: seq<u8>)
    ensures |h| == 12
  {
    Le64(n) + Le32(MaskedCrc(Le64(n)))
  }

  /** When `encoded_len(e)` is the length of the encoding, the record is the frame around the encoding. */
  lemma RecordIsFrame(codec: Codec, e: Event)
    requires LengthAgrees(codec, e)
    ensures |codec.encode(e)| < TWO_64 && Record(codec, e) == Frame(codec.encode(e), MaskedCrc)
  {}

  /** The records of `events`, back to back. */
  function Records(codec: Codec, events: seq<Event>): seq<u8> {
    if events == [] then [] else Record(codec, events[0]) + Records(codec, events[1..])
  }

  lemma {:induction false} RecordsAreFrames(codec: Codec, events: seq<Event>)
    requires forall i :: 0 <= i < |events| ==> LengthAgrees(codec, events[i])
    ensures Records(codec, events) == Frames(Encodings(codec, events), MaskedCrc)
  {
    if events != [] {
      RecordIsFrame(codec, events[0]);
      assert Encodings(codec, events)[1..] == Encodings(codec, events[1..]);
      RecordsAreFrames(codec, events[1..]);
    }
  }

  /**
   * Round trip of one record: whatever was read before and whatever follows,
   * `next` on the bytes `write_event(e)` appended yields `e` and stops right
   * after the record, with the encoding in its payload buffer.
   */
  lemma RecordReadsBack(codec: Codec, e: Event, before: seq<u8>, after: seq<u8>, fault: Option<IoError>, st: ReaderState)
    requires LawfulFor(codec, e) && |st.bufLen| == 8 && st.pos == |before|
    ensures var s := ByteInput.Stream(before + Record(codec, e) + after, fault);
      Framing.Fits(s, st) &&
      Next(s, st, codec, MaskedCrc) ==
        Pull(Some(Ok(e)), ReaderState(|before| + |Record(codec, e)|, Le64(codec.encodedLen(e)), codec.encode(e)))
  {
    RecordIsFrame(codec, e);
    var s := ByteInput.Stream(before + Record(codec, e) + after, fault);
    var p := codec.encode(e);
    assert s.data[st.pos..st.pos + 16 + |p|] == Frame(p, MaskedCrc);
    ReadFrame(s, st, codec, MaskedCrc, p);
  }

  /**
   * Round trip of a whole file: a fresh reader over the records of `events`
   * yields exactly `events`, in order, and then ends the iteration.
   */
  lemma FileReadsBack(codec: Codec, events: seq<Event>)
    requires LawfulOn(codec, events)
    ensures Pulls(ByteInput.Stream(Records(codec, events), None), INITIAL, codec, MaskedCrc, |events| + 1)
      == Yielded(events) + [None]
  {
    RecordsAreFrames(codec, events);
    ReadBack(events, codec, MaskedCrc);
  }

  // ---- Values the writer builds

  /** The event `write(step, what)` writes for a clock reading of `wallTime`. */
  function StepEvent(wallTime: F64, step: i64, what: What): (e: Event)
    ensures e.wallTime == wallTime && e.step == step && e.sourceMetadata == None && e.what == Some(what)
  {
    Event(wallTime, step, None, Some(what))
  }

  /** The summary `write_scalar(step, name, value)` writes: one value, tagged `name`, with no node name. */
  function ScalarSummary(name: string, value: F32): (w: What)
    ensures w.SummaryWhat? && |w.summary.value| == 1
    ensures w.summary.value[0] == SummaryValue("", name, None, Some(SimpleValue(value)))
  {
    SummaryWhat(Summary([SummaryValue("", name, None, Some(SimpleValue(value)))]))
  }

  /** The bytes a writer holds after a `write`-like call, and what the call returns. */
  datatype Outcome = Outcome(data: seq<u8>, result: Result<(), Error>)

  /** `write_event(e)` after `data`: every record byte there is room for, and an I/O error if some did not fit. */
  function WriteEventOutcome(k: Sink, data: seq<u8>, codec: Codec, e: Event): (o: Outcome)
    requires HasRoom(k, data)
    ensures o.result.Ok? <==> HasRoom(k, data + Record(codec, e))
    ensures o.result.Ok? ==> o.data == data + Record(codec, e)
    ensures o.result.Err? ==> o.result.error == Io(k.fault) && o.data == (data + Record(codec, e))[..k.room.value]
  {
    var w := WriteAll(k, data, Record(codec, e));
    Outcome(w.data, if w.result.Ok? then Ok(()) else Err(Io(w.result.error)))
  }

  /** `write(step, what)`: a clock before the epoch fails before anything is written. */
  function WriteOutcome(k: Sink, data: seq<u8>, codec: Codec, step: i64, what: What, now: Clock): (o: Outcome)
    requires HasRoom(k, data)
    ensures now.BeforeEpoch? ==> o == Outcome(data, Err(SystemTime(now.err)))
    ensures now.SinceEpoch? ==> o == WriteEventOutcome(k, data, codec, StepEvent(now.wallTime, step, what))
  {
    match now
    case BeforeEpoch(err) => Outcome(data, Err(SystemTime(err)))
    case SinceEpoch(_, wallTime) => WriteEventOutcome(k, data, codec, StepEvent(wallTime, step, what))
  }

  /**
   * The scratch buffer after `write_event(e)`: the encoding of `e` once the
   * length header is written, the old contents when a header write failed.
   */
  function BufferAfter(k: Sink, data: seq<u8>, codec: Codec, e: Event, buf: seq<u8>): seq<u8> {
    if HasRoom(k, data + LengthHeader(codec.encodedLen(e))) then codec.encode(e) else buf
  }

  /** After a successful `write_event(e)` the scratch buffer holds exactly the encoding of `e`. */
  lemma BufferHoldsEncoding(k: Sink, data: seq<u8>, codec: Codec, e: Event, buf: seq<u8>)
    requires HasRoom(k, data) && WriteEventOutcome(k, data, codec, e).result.Ok?
    ensures BufferAfter(k, data, codec, e, buf) == codec.encode(e)
  {
    assert |data + LengthHeader(codec.encodedLen(e))| <= |data + Record(codec, e)|;
  }

  class EventWriter {
    const writer: ByteSink
    /** The 8-byte buffer the length field is encoded into. */
    const bufLen: array<u8>
    /** The scratch buffer events are encoded into. */
    var buf: seq<u8>
    const filename: Option<string>
    /** `Message::encode` and `encoded_len` (and the decoder they agree with). */
    const codec: Codec

    ghost predicate Valid()
      reads this, writer, bufLen
    {
      writer.Valid() && bufLen.Length == 8
    }

    /** The struct literal of `from_writer`: zeroed length buffer, scratch buffer `[0, 128]`. */
    constructor (writer: ByteSink, filename: Option<string>, codec: Codec)
      requires writer.Valid()
      ensures Valid() && fresh(bufLen)
      ensures this.writer == writer && this.filename == filename && this.codec == codec
      ensures bufLen[..] == Zeros(8) && buf == [0, 128]
    {
      this.writer := writer;
      bufLen := new u8[8](_ => 0);
      buf := [0, 128];
      this.filename := filename;
      this.codec := codec;
    }

    /** `filename()`: the path given when the writer was made. */
    function Filename(): (r: Option<string>)
      ensures r == filename
    {
      filename
    }

    /**
     * `write_event`: the length and its checksum, then the encoding of the
     * event in the truncated scratch buffer and its checksum, stopping at the
     * first failed write. The scratch buffer then holds exactly the encoding.
     */
    method WriteEvent(e: Event) returns (r: Result<(), Error>)
      requires Valid()
      modifies this, writer, bufLen
      ensures Valid()
      ensures Outcome(writer.data, r) == WriteEventOutcome(writer.sink, old(writer.data), codec, e)
      ensures bufLen[..] == Le64(codec.encodedLen(e))
      ensures buf == BufferAfter(writer.sink, old(writer.data), codec, e, old(buf))
    {
      ghost var data0, k := writer.data, writer.sink;
      var eventLen := codec.encodedLen(e);
      WriteLe64(bufLen, eventLen);
      var lenField := bufLen[..];
      var bufLenCrc := MaskedCrc(lenField);
      var payload := codec.encode(e);
      ghost var lenCrc, trailer := Le32(bufLenCrc), Le32(MaskedCrc(payload));
      assert Record(codec, e) == lenField + lenCrc + payload + trailer;
      FourParts(data0, lenField, lenCrc, payload, trailer);
      var w := writer.WriteAllBytes(lenField);
      WriteAllThen(k, data0, lenField, lenCrc + (payload + trailer));
      if w.Err? {
        return Err(Io(w.error));
      }
      w := writer.WriteU32(bufLenCrc);
      WriteAllThen(k, data0 + lenField, lenCrc, payload + trailer);
      if w.Err? {
        return Err(Io(w.error));
      }
      buf := [];
      buf := buf + payload;
      assert buf == payload;
      w := writer.WriteAllBytes(buf);
      WriteAllThen(k, data0 + lenField + lenCrc, payload, trailer);
      if w.Err? {
        return Err(Io(w.error));
      }
      var eventCrc := MaskedCrc(buf);
      w := writer.WriteU32(eventCrc);
      if w.Err? {
        return Err(Io(w.error));
      }
      return Ok(());
    }

    /** `write(step, what)`: stamp the event with the clock and write it. */
    method Write(step: i64, what: What, now: Clock) returns (r: Result<(), Error>)
      requires Valid()
      modifies this, writer, bufLen
      ensures Valid()
      ensures Outcome(writer.data, r) == WriteOutcome(writer.sink, old(writer.data), codec, step, what, now)
      ensures now.BeforeEpoch? ==> bufLen[..] == old(bufLen[..]) && buf == old(buf)
      ensures now.SinceEpoch? ==> var e := StepEvent(now.wallTime, step, what);
        bufLen[..] == Le64(codec.encodedLen(e)) && buf == BufferAfter(writer.sink, old(writer.data), codec, e, old(buf))
    {
      match now
      case BeforeEpoch(err) =>
        return Err(SystemTime(err));
      case SinceEpoch(_, wallTime) =>
        r := WriteEvent(StepEvent(wallTime, step, what));
    }

    /** `write_scalar(step, name, value)`. */
    method WriteScalar(step: i64, name: string, value: F32, now: Clock) returns (r: Result<(), Error>)
      requires Valid()
      modifies this, writer, bufLen
      ensures Valid()
      ensures Outcome(writer.data, r) == WriteOutcome(writer.sink, old(writer.data), codec, step, ScalarSummary(name, value), now)
      ensures now.BeforeEpoch? ==> bufLen[..] == old(bufLen[..]) && buf == old(buf)
      ensures now.SinceEpoch? ==> var e := StepEvent(now.wallTime, step, ScalarSummary(name, value));
        bufLen[..] == Le64(codec.encodedLen(e)) && buf == BufferAfter(writer.sink, old(writer.data), codec, e, old(buf))
    {
      r := Write(step, ScalarSummary(name, value), now);
    }
  }

  /**
   * `from_writer`: a writer whose first record is the `FileVersion` event
   * `"brain.Event:2"` at step 0; a failed first write is returned instead.
   */
  method FromWriter(writer: ByteSink, filename: Option<string>, codec: Codec, now: Clock) returns (r: Result<EventWriter, Error>)
    requires writer.Valid()
    modifies writer
    ensures writer.Valid()
    ensures var o := WriteOutcome(writer.sink, old(writer.data), codec, 0, FileVersion(FILE_VERSION), now);
      writer.data == o.data && (r.Ok? <==> o.result.Ok?) && (r.Err? ==> r.error == o.result.error)
    ensures r.Ok? ==>
      && fresh(r.value) && fresh(r.value.bufLen) && r.value.Valid()
      && r.value.writer == writer && r.value.Filename() == filename && r.value.codec == codec
    ensures r.Ok? ==> now.SinceEpoch? && var e := StepEvent(now.wallTime, 0, FileVersion(FILE_VERSION));
      r.value.bufLen[..] == Le64(codec.encodedLen(e)) && r.value.buf == codec.encode(e)
  {
    ghost var data0 := writer.data;
    var w := new EventWriter(writer, filename, codec);
    var res := w.Write(0, FileVersion(FILE_VERSION), now);
    if res.Err? {
      return Err(res.error);
    }
    BufferHoldsEncoding(writer.sink, data0, codec, StepEvent(now.wallTime, 0, FileVersion(FILE_VERSION)), [0, 128]);
    return Ok(w);
  }

  /**
   * The part of `create` after the directory checks: read the clock, take a
   * uid, and open a writer on the event file at that path. `file` is the
   * newly created file; `host` and `pid` are the host name and process id.
   * A clock before the epoch fails before a uid is taken.
   */
  method Create(logdir: string, created: Clock, host: string, pid: u32, counter: UidCounter,
                file: ByteSink, codec: Codec, now: Clock)
    returns (r: Result<EventWriter, Error>)
    requires file.Valid()
    modifies counter, file
    ensures file.Valid()
    ensures created.BeforeEpoch? ==> r == Err(SystemTime(created.err)) && counter.next == old(counter.next) && file.data == old(file.data)
    ensures created.SinceEpoch? ==> counter.next == (old(counter.next) + 1) % TWO_64
    ensures created.SinceEpoch? ==> var o := WriteOutcome(file.sink, old(file.data), codec, 0, FileVersion(FILE_VERSION), now);
      file.data == o.data && (r.Ok? <==> o.result.Ok?) && (r.Err? ==> r.error == o.result.error)
    ensures r.Ok? ==>
      && created.SinceEpoch? && fresh(r.value) && r.value.Valid() && r.value.writer == file
      && r.value.Filename() == Some(EventFilePath(logdir, created.secs, host, pid, old(counter.next)))
    ensures r.Ok? ==> now.SinceEpoch? && var e := StepEvent(now.wallTime, 0, FileVersion(FILE_VERSION));
      r.value.bufLen[..] == Le64(codec.encodedLen(e)) && r.value.buf == codec.encode(e)
  {
    if created.BeforeEpoch? {
      return Err(SystemTime(created.err));
    }
    var uid := counter.GlobalUid();
    var filename := EventFilePath(logdir, created.secs, host, pid, uid);
    r := FromWriter(file, Some(filename), codec, now);
  }
}
