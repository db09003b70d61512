/**
 * The output side of `std::io::Write` as the writers use it: `write_all` of
 * a buffer and `WriteBytesExt::write_u32::<LittleEndian>`.
 */
module ByteOutput {
  import opened Wrappers
  import opened Bytes
  import opened Errors

  /**
   * What a writer accepts: every byte while `room` is `None`, otherwise at
   * most `room` bytes in all, after which writing fails with `fault`.
   */
  datatype Sink = Sink(room: Option<nat>, fault: IoError)

  /** The bytes a writer holds and the outcome of the last `write_all`. */
  datatype Written = Written(data: seq<u8>, result: Result<(), IoError>)

  predicate HasRoom(k: Sink, data: seq<u8>) {
    k.room.None? || |data| <= k.room.value
  }

  /**
   * `write_all(bytes)` after `data`: everything is written, or as much as
   * there is room for and then the sink's error.
   */
  function WriteAll(k: Sink, data: seq<u8>, bytes: seq<u8>): (w: Written)
    requires HasRoom(k, data)
    ensures HasRoom(k, w.data)
    ensures w.result.Ok? <==> HasRoom(k, data + bytes)
    ensures w.result.Ok? ==> w.data == data + bytes
    ensures w.result.Err? ==> w.result.error == k.fault && |w.data| == k.room.value
    ensures w.data == (data + bytes)[..|w.data|]
  {
    if HasRoom(k, data + bytes) then Written(data + bytes, Ok(()))
    else Written(data + bytes[..k.room.value - |data|], Err(k.fault))
  }

  /**
   * Two `write_all` calls, the second made only when the first succeeds,
   * leave what one `write_all` of both buffers would.
   */
  lemma WriteAllThen(k: Sink, data: seq<u8>, a: seq<u8>, b: seq<u8>)
    requires HasRoom(k, data)
    ensures var w := WriteAll(k, data, a);
      (if w.result.Err? then w else WriteAll(k, w.data, b)) == WriteAll(k, data, a + b)
  {
    var w := WriteAll(k, data, a);
    assert data + (a + b) == (data + a) + b;
    if w.result.Err? {
      assert (data + a + b)[..k.room.value] == (data + a)[..k.room.value];
    } else if !HasRoom(k, data + a + b) {
      assert (data + a + b)[..k.room.value] == data + a + b[..k.room.value - |data + a|];
    }
  }

  /** The regroupings of four buffers written one after another. */
  lemma FourParts(data: seq<u8>, a: seq<u8>, b: seq<u8>, c: seq<u8>, d: seq<u8>)
    ensures a + b + c + d == a + (b + (c + d))
    ensures data + (a + b) == data + a + b
    ensures data + (a + b + c + d) == data + a + b + c + d
  {}

  /** The writer a writer struct owns. */
  class ByteSink {
    const sink: Sink
    var data: seq<u8>

    ghost predicate Valid()
      reads this
    {
      HasRoom(sink, data)
    }

    constructor (sink: Sink)
      ensures Valid() && this.sink == sink && data == []
    {
      this.sink := sink;
      data := [];
    }

    /** `write_all`. */
    method WriteAllBytes(bytes: seq<u8>) returns (r: Result<(), IoError>)
      requires Valid()
      modifies this
      ensures Valid()
      ensures Written(data, r) == WriteAll(sink, old(data), bytes)
    {
      if HasRoom(sink, data + bytes) {
        data := data + bytes;
        r := Ok(());
      } else {
        data := data + bytes[..sink.room.value - |data|];
        r := Err(sink.fault);
      }
    }

    /** `write_u32::<LittleEndian>`. */
    method WriteU32(v: u32) returns (r: Result<(), IoError>)
      requires Valid()
      modifies this
      ensures Valid()
      ensures Written(data, r) == WriteAll(sink, old(data), Le32(v))
    {
      r := WriteAllBytes(Le32(v));
    }
  }
}
