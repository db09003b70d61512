/**
 * The `reader` module's `SummaryReader`, a second copy of the crate root's
 * reader with the same fields and the same `next`, and a proof that the two
 * yield the same items from the same stream.
 */
module Reader {
  import opened Wrappers
  import opened Bytes
  import opened Crc
  import opened Errors
  import opened Proto
  import opened ByteInput
  import opened Framing
  import Lib

  class SummaryReader {
    /** The reader the iterator owns. */
    const reader: ByteSource
    /** The 8-byte buffer the length field is read into. */
    const bufLen: array<u8>
    /** The payload buffer, resized for every record and kept between calls. */
    var buf: seq<u8>
    /** `Event::decode` (and the encoder it inverts). */
    const codec: Codec

    ghost predicate Valid()
      reads this, reader, bufLen
    {
      reader.Valid() && bufLen.Length == 8
    }

    /** The reader's position and both buffers. */
    ghost function State(): ReaderState
      reads this, reader, bufLen
      requires Valid()
    {
      ReaderState(reader.pos, bufLen[..], buf)
    }

    /** `SummaryReader::new`: a zeroed length buffer and the payload buffer `[0, 128]`. */
    constructor (stream: Stream, codec: Codec)
      ensures Valid() && fresh(reader) && fresh(bufLen)
      ensures reader.stream == stream && this.codec == codec
      ensures State() == INITIAL
    {
      reader := new ByteSource(stream);
      bufLen := new u8[8](_ => 0);
      buf := [0, 128];
      this.codec := codec;
    }

    /** `next`: one record, an error, or `None` at the end of the stream. */
    method Next() returns (item: Option<Result<Event, Error>>)
      requires Valid()
      modifies this, reader, bufLen
      ensures Valid()
      ensures Pull(item, State()) == Framing.Next(reader.stream, old(State()), codec, MaskedCrc)
    {
      var len := reader.ReadExactInto(bufLen);
      if len.Err? {
        if len.error.kind == UnexpectedEof {
          return None;
        }
        return Some(Err(Io(len.error)));
      }
      var computedCrc := MaskedCrc(bufLen[..]);
      var eventLen := ReadLe64(bufLen[..]);
      var fileCrc := reader.ReadU32();
      if fileCrc.Err? {
        return Some(Err(Io(fileCrc.error)));
      }
      if fileCrc.value != computedCrc {
        return Some(Err(LenCrcMismatch(fileCrc.value, computedCrc)));
      }
      buf := Resize(buf, eventLen);
      var filled;
      buf, filled := reader.ReadExactVec(buf);
      if filled.Err? {
        return Some(Err(Io(filled.error)));
      }
      var decoded := codec.decode(buf);
      if decoded.Err? {
        return Some(Err(ProstDecode(decoded.error)));
      }
      var event := decoded.value;
      var payloadCrc := reader.ReadU32();
      if payloadCrc.Err? {
        return Some(Err(Io(payloadCrc.error)));
      }
      var computed := MaskedCrc(buf);
      if payloadCrc.value != computed {
        return Some(Err(CrcMismatch(payloadCrc.value, computed)));
      }
      return Some(Ok(event));
    }
  }

  /**
   * Both readers, started on the same stream, yield the same `k` items and
   * keep the same state after every call.
   */
  method ReadBoth(stream: Stream, codec: Codec, k: nat) returns (xs: seq<Option<Result<Event, Error>>>, ys: seq<Option<Result<Event, Error>>>)
    ensures |xs| == k && xs == ys
  {
    var a := new Lib.SummaryReader(stream, codec);
    var b := new SummaryReader(stream, codec);
    xs, ys := [], [];
    for i := 0 to k
      invariant a.Valid() && b.Valid() && a.State() == b.State()
      invariant a.reader.stream == b.reader.stream == stream && a.codec == b.codec == codec
      invariant a.reader != b.reader && a.bufLen != b.bufLen
      invariant fresh(a) && fresh(a.reader) && fresh(a.bufLen) && fresh(b) && fresh(b.reader) && fresh(b.bufLen)
      invariant |xs| == i && xs == ys
    {
      var x := a.Next();
      var y := b.Next();
      xs, ys := xs + [x], ys + [y];
    }
  }
}
