/**
 * Chunks/Chunk.cs: how every chunk writes itself (RFC 2083 section 3.2):
 * a big-endian length, four type bytes, the data, and a big-endian CRC-32 of
 * the type and data. The CRC routine is a parameter of the model.
 */
module Chunks {
  import opened Base
  import opened ByteOrder
  import Streams
  import Buffers

  /**
   * A chunk as the writer sees it: its `Name`, the outcome of
   * `GetChunkDataAsync`, and the `Length` it reports once that call has
   * returned (the writer reads Length after the data, so a chunk that
   * memoises its data can report the right length).
   */
  datatype ChunkSource = ChunkSource(name: string, data: Result<seq<byte>>, length: int32)

  /** `(byte)Name[0] .. (byte)Name[3]`: the low byte of each of the first four characters. */
  function ChunkType(name: string): (r: Result<seq<byte>>)
    ensures r.Ok? <==> |name| >= 4
    ensures r.Err? ==> r.error == IndexOutOfRange
    ensures r.Ok? ==> |r.value| == 4 && forall k | 0 <= k < 4 :: r.value[k] as int == name[k] as int % 0x100
  {
    if |name| < 4 then Err(IndexOutOfRange)
    else Ok([Wrap(name[0] as int), Wrap(name[1] as int), Wrap(name[2] as int), Wrap(name[3] as int)])
  }

  /** The bytes of one chunk on the wire. */
  function Frame(chunkType: seq<byte>, data: seq<byte>, crc: seq<byte> -> uint32): (r: seq<byte>)
    requires |data| < 0x1_0000_0000
  {
    BigEndian32(|data|) + chunkType + data + BigEndian32(crc(chunkType + data) as nat)
  }

  /**
   * What WriteSelfToStreamAsync writes, or the exception it throws: a short
   * name fails first, then a failing payload, then a Length that does not
   * match the payload.
   */
  function Framed(c: ChunkSource, crc: seq<byte> -> uint32): (r: Result<seq<byte>>)
  {
    var chunkType :- ChunkType(c.name);
    var data :- c.data;
    if c.length as int != |data| then Err(LengthMismatch)
    else Ok(Frame(chunkType, data, crc))
  }

  /**
   * A frame is read back field by field: the length field is the payload's
   * length, then come the type and the payload, and the last four bytes are
   * the CRC of the type and payload only.
   */
  lemma FrameLayout(chunkType: seq<byte>, data: seq<byte>, crc: seq<byte> -> uint32)
    requires |chunkType| == 4 && |data| < 0x1_0000_0000
    ensures var f := Frame(chunkType, data, crc);
      && |f| == 12 + |data|
      && FromBigEndian32(f[..4]) == |data|
      && f[4..8] == chunkType
      && f[8..8 + |data|] == data
      && FromBigEndian32(f[8 + |data|..]) == crc(chunkType + data) as nat
  {
    var f := Frame(chunkType, data, crc);
    BigEndian32Decodes(|data|);
    BigEndian32Decodes(crc(chunkType + data) as nat);
    assert f[..4] == BigEndian32(|data|);
    assert f[8 + |data|..] == BigEndian32(crc(chunkType + data) as nat);
  }

  /**
   * The writer succeeds exactly when the name has four characters, the
   * payload is produced and the claimed length is the payload's; then it
   * writes 12 more bytes than the payload.
   */
  lemma FramedOutcome(c: ChunkSource, crc: seq<byte> -> uint32)
    ensures Framed(c, crc).Ok? <==> |c.name| >= 4 && c.data.Ok? && c.length as int == |c.data.value|
    ensures Framed(c, crc).Ok? ==> |Framed(c, crc).value| == 12 + |c.data.value|
    ensures |c.name| >= 4 && c.data.Ok? && c.length as int != |c.data.value| ==> Framed(c, crc) == Err(LengthMismatch)
  {
  }

  /** `CalculateCrc32`: the CRC, cast to `int`, in big-endian order. */
  method CalculateCrc32(data: seq<byte>, crc: seq<byte> -> uint32, littleEndian: bool) returns (r: seq<byte>)
    ensures r == BigEndian32(crc(data) as nat)
  {
    var value := Wrap32(crc(data) as int);
    Bits32Wrap32(crc(data) as int);
    r := GetBytesForInteger(Bits32(value), littleEndian);
  }

  /**
   * `WriteSelfToStreamAsync`: on success the stream gets the frame, in the
   * order length, type, data, CRC; on an exception nothing is written.
   */
  method WriteSelfToStream(c: ChunkSource, stream: Streams.Stream, crc: seq<byte> -> uint32, littleEndian: bool)
    returns (r: Result<()>)
    modifies stream
    ensures Framed(c, crc).Ok? ==> r == Ok(()) && stream.written == old(stream.written) + Framed(c, crc).value
    ensures Framed(c, crc).Err? ==> r == Err(Framed(c, crc).error) && stream.written == old(stream.written)
  {
    if |c.name| < 4 {
      return Err(IndexOutOfRange);
    }
    var chunkType := ChunkType(c.name).value;
    if c.data.Err? {
      return Err(c.data.error);
    }
    var data := c.data.value;
    var length := GetBytesForInteger(Bits32(c.length), littleEndian);
    if c.length as int != |data| {
      return Err(LengthMismatch);
    }
    var chunkTypeAndData := Buffers.Concat(chunkType, data);
    var crc32 := CalculateCrc32(chunkTypeAndData, crc, littleEndian);
    assert Framed(c, crc).value == length + chunkType + data + crc32;
    ghost var start := stream.written;
    stream.Write(length);
    stream.Write(chunkType);
    stream.Write(data);
    stream.Write(crc32);
    assert stream.written == start + length + chunkType + data + crc32;
    AppendAssoc(start, length + chunkType + data, crc32);
    AppendAssoc(start, length + chunkType, data);
    AppendAssoc(start, length, chunkType);
    r := Ok(());
  }
}
