/**
 * The input side of `std::io::Read` as the reader uses it: a byte stream
 * consumed front to back, `read_exact` into a buffer, and
 * `ReadBytesExt::read_u32::<LittleEndian>`.
 */
module ByteInput {
  import opened Wrappers
  import opened Bytes
  import opened Errors

  /**
   * What a reader will deliver: `data`, then either a clean end of file
   * (`fault == None`) or the I/O error `fault`.
   */
  datatype Stream = Stream(data: seq<u8>, fault: Option<IoError>)

  /** The error `read_exact` makes of an end of file before the buffer is full. */
  const FILL_ERROR: IoError := IoError(UnexpectedEof, "failed to fill whole buffer")

  /** The error a read past the last byte of `s` runs into. */
  function EndError(s: Stream): IoError {
    match s.fault
    case None => FILL_ERROR
    case Some(e) => e
  }

  /** A `read_exact`: the buffer's new contents, the outcome, and the new stream position. */
  datatype Filled = Filled(contents: seq<u8>, result: Result<(), IoError>, pos: nat)

  /**
   * `read_exact(dst)` at position `pos`. When too few bytes remain, the ones
   * that do are copied into the front of the buffer and consumed, and the
   * read fails with the stream's end error.
   */
  function ReadExact(s: Stream, pos: nat, dst: seq<u8>): (r: Filled)
    requires pos <= |s.data|
    ensures r.pos <= |s.data| && |r.contents| == |dst|
    ensures r.result.Ok? <==> pos + |dst| <= |s.data|
    ensures r.result.Ok? ==> r.contents == s.data[pos..pos + |dst|] && r.pos == pos + |dst|
    ensures r.result.Err? ==> r.result.error == EndError(s) && r.pos == |s.data|
  {
    if pos + |dst| <= |s.data| then Filled(s.data[pos..pos + |dst|], Ok(()), pos + |dst|)
    else Filled(s.data[pos..] + dst[|s.data| - pos..], Err(EndError(s)), |s.data|)
  }

  /** A `read_u32` and the new stream position. */
  datatype Word = Word(result: Result<u32, IoError>, pos: nat)

  /** `read_u32::<LittleEndian>`: a `read_exact` of four bytes, read little-endian. */
  function ReadWord(s: Stream, pos: nat): (r: Word)
    requires pos <= |s.data|
    ensures r.pos <= |s.data|
    ensures r.result.Ok? <==> pos + 4 <= |s.data|
    ensures r.result.Ok? ==> r.result.value == ReadLe32(s.data[pos..pos + 4]) && r.pos == pos + 4
    ensures r.result.Err? ==> r.result.error == EndError(s) && r.pos == |s.data|
  {
    var f := ReadExact(s, pos, [0, 0, 0, 0]);
    if f.result.Ok? then Word(Ok(ReadLe32(f.contents)), f.pos) else Word(Err(f.result.error), f.pos)
  }

  /** The reader a `SummaryReader` owns: a stream and how far it has been consumed. */
  class ByteSource {
    const stream: Stream
    var pos: nat

    ghost predicate Valid()
      reads this
    {
      pos <= |stream.data|
    }

    constructor (stream: Stream)
      ensures Valid() && this.stream == stream && pos == 0
    {
      this.stream := stream;
      pos := 0;
    }

    /** `read_exact` into a fixed-size array. */
    method ReadExactInto(dst: array<u8>) returns (r: Result<(), IoError>)
      requires Valid()
      modifies this, dst
      ensures Valid()
      ensures Filled(dst[..], r, pos) == ReadExact(stream, old(pos), old(dst[..]))
    {
      ghost var before := dst[..];
      var start, n := pos, dst.Length;
      var avail := if start + n <= |stream.data| then n else |stream.data| - start;
      for i := 0 to avail
        invariant pos == start
        invariant forall k :: 0 <= k < i ==> dst[k] == stream.data[start + k]
        invariant forall k :: i <= k < n ==> dst[k] == before[k]
      {
        dst[i] := stream.data[start + i];
      }
      assert dst[..] == stream.data[start..start + avail] + before[avail..];
      if avail == n {
        r := Ok(());
      } else {
        r := Err(EndError(stream));
      }
      pos := start + avail;
    }

    /** `read_exact` into a vector; returns the vector's new contents. */
    method ReadExactVec(dst: seq<u8>) returns (contents: seq<u8>, r: Result<(), IoError>)
      requires Valid()
      modifies this
      ensures Valid()
      ensures Filled(contents, r, pos) == ReadExact(stream, old(pos), dst)
    {
      var start, n := pos, |dst|;
      var avail := if start + n <= |stream.data| then n else |stream.data| - start;
      contents := dst;
      for i := 0 to avail
        invariant |contents| == n
        invariant forall k :: 0 <= k < i ==> contents[k] == stream.data[start + k]
        invariant forall k :: i <= k < n ==> contents[k] == dst[k]
      {
        contents := contents[i := stream.data[start + i]];
      }
      assert contents == stream.data[start..start + avail] + dst[avail..];
      if avail == n {
        r := Ok(());
      } else {
        r := Err(EndError(stream));
      }
      pos := start + avail;
    }

    /** `read_u32::<LittleEndian>`. */
    method ReadU32() returns (r: Result<u32, IoError>)
      requires Valid()
      modifies this
      ensures Valid()
      ensures Word(r, pos) == ReadWord(stream, old(pos))
    {
      var word := new u8[4](_ => 0);
      var res := ReadExactInto(word);
      if res.Ok? {
        r := Ok(ReadLe32(word[..]));
      } else {
        r := Err(res.error);
      }
    }
  }
}
