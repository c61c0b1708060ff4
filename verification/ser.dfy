/** The serialisation collaborator the storage layer relies on (core::ser is
    not part of this model). A Writeable/Readable type is represented by a
    Codec: a pair of function values, one that writes a value to bytes and may
    fail, and one that reads a value from the front of a byte string and
    returns the bytes it did not consume. The primitive writer and reader
    operations used by the Tip encoding (8-byte big-endian integers and
    fixed-width byte strings) are given concretely. */
module Ser {
  import opened BigEndian

  /** The serialiser's failure kinds, kept opaque beyond running out of input. */
  datatype SerError = UnexpectedEof | CorruptedData | IOErr(msg: string)

  datatype WriteResult = Written(bytes: seq<byte>) | WriteFailed(error: SerError)

  datatype ReadResult<T> = Parsed(value: T, rest: seq<byte>) | ReadFailed(error: SerError)

  datatype Codec<!T> = Codec(write: T -> WriteResult, read: seq<byte> -> ReadResult<T>)

  /** What every Writeable/Readable pair is assumed to promise: reading back
      the bytes a successful write produced, followed by anything at all,
      yields the value and leaves exactly the trailing bytes. */
  ghost predicate Lossless<T(!new)>(c: Codec<T>)
  {
    forall x: T, tail: seq<byte> {:trigger c.read(c.write(x).bytes + tail)} ::
      c.write(x).Written? ==> c.read(c.write(x).bytes + tail) == Parsed(x, tail)
  }

  /** Writer::write_u64: appends the 8-byte big-endian form of n. */
  function WriteU64(sink: seq<byte>, n: u64): (r: seq<byte>)
    ensures |r| == |sink| + 8 && r[..|sink|] == sink && FromBE(r[|sink|..]) == n
  {
    FromToBE(n, 8);
    assert (sink + ToBE(n, 8))[|sink|..] == ToBE(n, 8);
    sink + ToBE(n, 8)
  }

  /** Writer::write_fixed_bytes: appends the bytes verbatim, without a length. */
  function WriteFixed(sink: seq<byte>, bytes: seq<byte>): (r: seq<byte>)
    ensures |r| == |sink| + |bytes| && r[..|sink|] == sink && r[|sink|..] == bytes
  {
    sink + bytes
  }

  /** Reader::read_u64: takes 8 bytes as a big-endian number, or fails on a
      shorter input. */
  function ReadU64(s: seq<byte>): (r: ReadResult<u64>)
    ensures r.ReadFailed? <==> |s| < 8
    ensures r.Parsed? ==> r.rest == s[8..] && ToBE(r.value, 8) == s[..8]
  {
    if |s| < 8 then ReadFailed(UnexpectedEof)
    else
      Pow256Eight();
      ToFromBE(s[..8]);
      Parsed(FromBE(s[..8]), s[8..])
  }
}
