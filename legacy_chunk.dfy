/**
 * Chunk.cs: the older chunk writer. The type is the ASCII encoding of the
 * whole name, and the CRC bytes are produced by BitConverter and then
 * reversed whatever the host's byte order.
 */
module LegacyChunks {
  import opened Base
  import opened ByteOrder
  import Streams
  import Buffers

  /** `Encoding.ASCII.GetBytes(name)`: every character outside ASCII becomes '?'. */
  function Ascii(name: string): (r: seq<byte>)
    ensures |r| == |name|
    ensures forall k | 0 <= k < |name| :: r[k] as int == if name[k] as int < 0x80 then name[k] as int else 0x3F
  {
    if |name| == 0 then []
    else [if name[0] as int < 0x80 then name[0] as int as byte else 0x3F] + Ascii(name[1..])
  }

  /** `BitConverter.GetBytes(crc)` followed by `Array.Reverse`, as the writer does it. */
  function CrcBytesAsWritten(value: uint32, littleEndian: bool): (r: seq<byte>)
  {
    Reversed(GetBytes(value as nat, littleEndian))
  }

  /** `CalculateCRC32Async` and the `Array.Reverse` after it. */
  method CalculateCrc32(data: seq<byte>, crc: seq<byte> -> uint32, littleEndian: bool) returns (r: seq<byte>)
    ensures r == CrcBytesAsWritten(crc(data), littleEndian)
  {
    var host := GetBytes(crc(data) as nat, littleEndian);
    var crc32 := new byte[4](i requires 0 <= i < 4 => host[i]);
    Reverse(crc32);
    r := crc32[..];
  }

  /** The bytes the writer puts on the stream, or its exception. */
  function FramedAsWritten(name: string, data: Result<seq<byte>>, length: int32, crc: seq<byte> -> uint32, littleEndian: bool)
    : (r: Result<seq<byte>>)
  {
    var d :- data;
    if length as int != |d| then Err(LengthMismatch)
    else Ok(BigEndian32(|d|) + Ascii(name) + d + CrcBytesAsWritten(crc(Ascii(name) + d), littleEndian))
  }

  /**
   * The frame RFC 2083 section 3.2 asks for, with the CRC big-endian like
   * the length: the writer's evident intent, and what the newer writer does.
   */
  function Framed(name: string, data: Result<seq<byte>>, length: int32, crc: seq<byte> -> uint32): (r: Result<seq<byte>>)
  {
    var d :- data;
    if length as int != |d| then Err(LengthMismatch)
    else Ok(BigEndian32(|d|) + Ascii(name) + d + BigEndian32(crc(Ascii(name) + d) as nat))
  }

  /** On a little-endian host the writer produces the intended frame, for every chunk, and it is 12 bytes longer than the data. */
  lemma LittleEndianHostIsCorrect(name: string, data: Result<seq<byte>>, length: int32, crc: seq<byte> -> uint32)
    requires |name| == 4
    ensures FramedAsWritten(name, data, length, crc, true) == Framed(name, data, length, crc)
    ensures Framed(name, data, length, crc).Ok? <==> data.Ok? && length as int == |data.value|
    ensures Framed(name, data, length, crc).Ok? ==> |Framed(name, data, length, crc).value| == 12 + |data.value|
  {
    if data.Ok? && length as int == |data.value| {
      var u := crc(Ascii(name) + data.value) as nat;
      assert Reversed(Reversed(BigEndian32(u))) == BigEndian32(u);
    }
  }

  /** A CRC routine that returns 0x01020304 for every input, for the example below. */
  function SampleCrc(data: seq<byte>): uint32
  {
    0x0102_0304
  }

  /**
   * On a big-endian host the unconditional reversal turns the CRC around:
   * an IEND chunk whose CRC is 0x01020304 ends in 04 03 02 01 where the
   * format wants 01 02 03 04.
   */
  lemma BigEndianHostReversesCrc()
    ensures FramedAsWritten("IEND", Ok([]), 0, SampleCrc, false) == Ok([0, 0, 0, 0, 0x49, 0x45, 0x4E, 0x44, 4, 3, 2, 1])
    ensures Framed("IEND", Ok([]), 0, SampleCrc) == Ok([0, 0, 0, 0, 0x49, 0x45, 0x4E, 0x44, 1, 2, 3, 4])
  {
    var name: seq<byte> := [0x49, 0x45, 0x4E, 0x44];
    var zero: seq<byte> := [0, 0, 0, 0];
    var be: seq<byte> := [1, 2, 3, 4];
    var rev: seq<byte> := [4, 3, 2, 1];
    SampleFields(name, zero, be, rev);
    var empty: seq<byte> := [];
    assert name + empty == name;
    assert FramedAsWritten("IEND", Ok(empty), 0, SampleCrc, false) == Ok(zero + name + empty + rev);
    assert Framed("IEND", Ok(empty), 0, SampleCrc) == Ok(zero + name + empty + be);
    assert zero + name + empty + rev == [0, 0, 0, 0, 0x49, 0x45, 0x4E, 0x44, 4, 3, 2, 1];
    assert zero + name + empty + be == [0, 0, 0, 0, 0x49, 0x45, 0x4E, 0x44, 1, 2, 3, 4];
  }

  /** The fields of the example: the IEND type, a zero length, the sample CRC in both byte orders. */
  lemma SampleFields(name: seq<byte>, zero: seq<byte>, be: seq<byte>, rev: seq<byte>)
    requires name == [0x49, 0x45, 0x4E, 0x44] && zero == [0, 0, 0, 0] && be == [1, 2, 3, 4] && rev == [4, 3, 2, 1]
    ensures Ascii("IEND") == name && BigEndian32(0) == zero && BigEndian32(0x0102_0304) == be
    ensures GetBytes(0x0102_0304, false) == be && Reversed(be) == rev
  {
    assert Reversed(be)[0] == 4 && Reversed(be)[1] == 3 && Reversed(be)[2] == 2 && Reversed(be)[3] == 1;
  }

  /**
   * `WriteSelfToStreamAsync` as written: a length mismatch writes nothing;
   * otherwise length, type, data and the reversed host-order CRC follow one
   * another on the stream.
   */
  method WriteSelfToStream(name: string, data: Result<seq<byte>>, length: int32, stream: Streams.Stream,
                           crc: seq<byte> -> uint32, littleEndian: bool) returns (r: Result<()>)
    modifies stream
    ensures FramedAsWritten(name, data, length, crc, littleEndian).Ok? ==>
      r == Ok(()) && stream.written == old(stream.written) + FramedAsWritten(name, data, length, crc, littleEndian).value
    ensures FramedAsWritten(name, data, length, crc, littleEndian).Err? ==>
      r == Err(FramedAsWritten(name, data, length, crc, littleEndian).error) && stream.written == old(stream.written)
  {
    var chunkType := Ascii(name);
    if data.Err? {
      return Err(data.error);
    }
    var d := data.value;
    var lengthBytes := GetBytesForInteger(Bits32(length), littleEndian);
    if length as int != |d| {
      return Err(LengthMismatch);
    }
    var chunkTypeAndData := Buffers.Concat(chunkType, d);
    var crc32 := CalculateCrc32(chunkTypeAndData, crc, littleEndian);
    assert FramedAsWritten(name, data, length, crc, littleEndian).value == lengthBytes + chunkType + d + crc32;
    ghost var start := stream.written;
    stream.Write(lengthBytes);
    stream.Write(chunkType);
    stream.Write(d);
    stream.Write(crc32);
    assert stream.written == start + lengthBytes + chunkType + d + crc32;
    AppendAssoc(start, lengthBytes + chunkType + d, crc32);
    AppendAssoc(start, lengthBytes + chunkType, d);
    AppendAssoc(start, lengthBytes, chunkType);
    r := Ok(());
  }
}
