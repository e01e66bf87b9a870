/**
 * IendChunk.cs: the end marker (RFC 2083 section 4.1.4). It derives from
 * the older chunk writer, reports length 0 and has no data.
 */
module IendChunks {
  import opened Base
  import opened ByteOrder
  import LegacyChunks

  const Name: string := "IEND"
  const Length: int32 := 0
  const Data: seq<byte> := []

  /** The type bytes of "IEND". */
  const IendType: seq<byte> := [0x49, 0x45, 0x4E, 0x44]

  /**
   * The chunk always passes the length check and is twelve bytes: a zero
   * length, "IEND" and the CRC of "IEND" alone, in the byte order the older
   * writer leaves it; on a little-endian host that is the big-endian CRC
   * the format asks for.
   */
  lemma Frames(crc: seq<byte> -> uint32, littleEndian: bool)
    ensures LegacyChunks.FramedAsWritten(Name, Ok(Data), Length, crc, littleEndian)
            == Ok([0, 0, 0, 0] + IendType + LegacyChunks.CrcBytesAsWritten(crc(IendType), littleEndian))
    ensures |LegacyChunks.FramedAsWritten(Name, Ok(Data), Length, crc, littleEndian).value| == 12
    ensures littleEndian ==>
      LegacyChunks.FramedAsWritten(Name, Ok(Data), Length, crc, littleEndian) == Ok([0, 0, 0, 0] + IendType + BigEndian32(crc(IendType) as nat))
  {
    assert LegacyChunks.Ascii(Name) == IendType;
    assert BigEndian32(0) == [0, 0, 0, 0];
    assert IendType + Data == IendType;
    var c := LegacyChunks.CrcBytesAsWritten(crc(IendType), littleEndian);
    assert BigEndian32(|Data|) + LegacyChunks.Ascii(Name) + Data + c == [0, 0, 0, 0] + IendType + c;
    LegacyChunks.LittleEndianHostIsCorrect(Name, Ok(Data), Length, crc);
    var b := BigEndian32(crc(IendType) as nat);
    assert BigEndian32(|Data|) + LegacyChunks.Ascii(Name) + Data + b == [0, 0, 0, 0] + IendType + b;
  }
}
