/**
 * `SummaryReader` of the crate root: an iterator over the records of a byte
 * stream. Each `Next` call follows `Framing.Next` with the masked CRC-32C.
 */
module Lib {
  import opened Wrappers
  import opened Bytes
  import opened Crc
  import opened Errors
  import opened Proto
  import opened ByteInput
  import opened Framing

  class SummaryReader {
    /** The reader the iterator owns. */
    const reader: ByteSource
    /** The 8-byte buffer the length field is read into. */
    const bufLen: array<u8>
    /** The payload buffer, resized for every record and kept between calls. */
    var buf: seq<u8>
    /** `Event::decode` (and the encoder it inverts). */
    const codec: Codec

    ghost predicate Valid()
      reads this, reader, bufLen
    {
      reader.Valid() && bufLen.Length == 8
    }

    /** The reader's position and both buffers. */
    ghost function State(): ReaderState
      reads this, reader, bufLen
      requires Valid()
    {
      ReaderState(reader.pos, bufLen[..], buf)
    }

    /** `SummaryReader::new`: a zeroed length buffer and the payload buffer `[0, 128]`. */
    constructor (stream: Stream, codec: Codec)
      ensures Valid() && fresh(reader) && fresh(bufLen)
      ensures reader.stream == stream && this.codec == codec
      ensures State() == INITIAL
    {
      reader := new ByteSource(stream);
      bufLen := new u8[8](_ => 0);
      buf := [0, 128];
      this.codec := codec;
    }

    /** `next`: one record, an error, or `None` at the end of the stream. */
    method Next() returns (item: Option<Result<Event, Error>>)
      requires Valid()
      modifies this, reader, bufLen
      ensures Valid()
      ensures Pull(item, State()) == Framing.Next(reader.stream, old(State()), codec, MaskedCrc)
    {
      var len := reader.ReadExactInto(bufLen);
      if len.Err? {
        if len.error.kind == UnexpectedEof {
          return None;
        }
        return Some(Err(Io(len.error)));
      }
      var computedCrc := MaskedCrc(bufLen[..]);
      var eventLen := ReadLe64(bufLen[..]);
      var fileCrc := reader.ReadU32();
      if fileCrc.Err? {
        return Some(Err(Io(fileCrc.error)));
      }
      if fileCrc.value != computedCrc {
        return Some(Err(LenCrcMismatch(fileCrc.value, computedCrc)));
      }
      buf := Resize(buf, eventLen);
      var filled;
      buf, filled := reader.ReadExactVec(buf);
      if filled.Err? {
        return Some(Err(Io(filled.error)));
      }
      var decoded := codec.decode(buf);
      if decoded.Err? {
        return Some(Err(ProstDecode(decoded.error)));
      }
      var event := decoded.value;
      var payloadCrc := reader.ReadU32();
      if payloadCrc.Err? {
        return Some(Err(Io(payloadCrc.error)));
      }
      var computed := MaskedCrc(buf);
      if payloadCrc.value != computed {
        return Some(Err(CrcMismatch(payloadCrc.value, computed)));
      }
      return Some(Ok(event));
    }
  }
}
