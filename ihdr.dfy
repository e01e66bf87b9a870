/**
 * Chunks/IhdrChunk.cs: the image header (RFC 2083 section 4.1.1). Only the
 * width, the height and the bit depth vary; the colour type is 6 (truecolour
 * with alpha) and the compression, filter and interlace methods are 0.
 */
module IhdrChunks {
  import opened Base
  import opened ByteOrder
  import Buffers
  import Chunks

  /** The header fields the IDAT writers read: `Width`, `Height`, `BitDepth` and `ColorType`. */
  datatype ImageInfo = ImageInfo(width: int32, height: int32, bitDepth: byte, colorType: byte)

  /** `ColorType.Truecolor` and `ColorType.TruecolorAlpha`. */
  const Truecolor: byte := 2
  const TruecolorAlpha: byte := 6

  /** What the constructor's checks let through. */
  predicate ValidHeader(h: ImageInfo)
  {
    (h.bitDepth == 8 || h.bitDepth == 16) && h.width > 0 && h.height > 0
  }

  /** A header that has passed the constructor's checks. */
  type Header = h: ImageInfo | ValidHeader(h) witness ImageInfo(1, 1, 8, TruecolorAlpha)

  /**
   * `new IhdrChunk(width, height, bitDepth)`: the bit depth is checked first,
   * then the width, then the height; the colour type is always 6.
   */
  function NewIhdr(width: int32, height: int32, bitDepth: byte): (r: Result<Header>)
    ensures r.Ok? <==> ValidHeader(ImageInfo(width, height, bitDepth, TruecolorAlpha))
    ensures r.Ok? ==> r.value == ImageInfo(width, height, bitDepth, TruecolorAlpha)
    ensures bitDepth != 8 && bitDepth != 16 ==> r == Err(ArgumentOutOfRange("bitDepth"))
    ensures (bitDepth == 8 || bitDepth == 16) && width <= 0 ==> r == Err(ArgumentOutOfRange("width"))
    ensures (bitDepth == 8 || bitDepth == 16) && width > 0 && height <= 0 ==> r == Err(ArgumentOutOfRange("height"))
  {
    if bitDepth != 8 && bitDepth != 16 then Err(ArgumentOutOfRange("bitDepth"))
    else if width <= 0 then Err(ArgumentOutOfRange("width"))
    else if height <= 0 then Err(ArgumentOutOfRange("height"))
    else Ok(ImageInfo(width, height, bitDepth, TruecolorAlpha))
  }

  /** The `Length` the chunk reports. */
  const Length: int32 := 13

  /** The thirteen bytes of the header: width and height big-endian, then the five one-byte fields. */
  function Payload(h: ImageInfo): (r: seq<byte>)
    ensures |r| == 13
  {
    BigEndian32(Bits32(h.width)) + BigEndian32(Bits32(h.height)) + [h.bitDepth, h.colorType, 0, 0, 0]
  }

  /**
   * Reading thirteen header bytes back: a header whose fields pass the
   * constructor's checks and whose three methods are 0, or nothing.
   */
  function Decode(s: seq<byte>): (r: Nullable<ImageInfo>)
    ensures r.NotNull? ==> ValidHeader(r.value)
  {
    if |s| != 13 || s[10] != 0 || s[11] != 0 || s[12] != 0 then Null
    else
      var w, h := FromBigEndian32(s[..4]), FromBigEndian32(s[4..8]);
      var info := ImageInfo(Wrap32(w), Wrap32(h), s[8], s[9]);
      if 0 < w <= INT32_MAX && 0 < h <= INT32_MAX && ValidHeader(info) then NotNull(info) else Null
  }

  /** Every header the constructor builds is read back from its payload. */
  lemma DecodePayload(h: Header)
    ensures Decode(Payload(h)) == NotNull(h)
  {
    var s := Payload(h);
    BigEndian32Decodes(Bits32(h.width));
    BigEndian32Decodes(Bits32(h.height));
    assert s[..4] == BigEndian32(Bits32(h.width));
    assert s[4..8] == BigEndian32(Bits32(h.height));
  }

  /** Whatever is read back was written from exactly that header: no two headers share a payload. */
  lemma PayloadDecode(s: seq<byte>)
    requires Decode(s).NotNull?
    ensures Payload(Decode(s).value) == s
  {
    var info := Decode(s).value;
    BigEndian32Encodes(s[..4]);
    BigEndian32Encodes(s[4..8]);
    assert s == s[..4] + s[4..8] + s[8..];
  }

  /**
   * `GetChunkDataAsync`: a 13-byte array, the two integers block-copied in
   * at 0 and 4, then the five single bytes.
   */
  method GetChunkData(h: ImageInfo, littleEndian: bool) returns (r: seq<byte>)
    ensures r == Payload(h)
  {
    var chunkData := new byte[13];
    var widthBytes := GetBytesForInteger(Bits32(h.width), littleEndian);
    var heightBytes := GetBytesForInteger(Bits32(h.height), littleEndian);
    Buffers.BlockCopy(widthBytes, 0, chunkData, 0, |widthBytes|);
    Buffers.BlockCopy(heightBytes, 0, chunkData, 4, |heightBytes|);
    chunkData[8] := h.bitDepth;
    chunkData[9] := h.colorType;
    chunkData[10] := 0;
    chunkData[11] := 0;
    chunkData[12] := 0;
    r := chunkData[..];
    assert r == Payload(h) by {
      forall k | 0 <= k < 13
        ensures r[k] == Payload(h)[k]
      {
        if k < 4 {
          assert r[k] == widthBytes[k];
        } else if k < 8 {
          assert r[k] == heightBytes[k - 4];
        }
      }
    }
  }

  /** The header as the chunk writer sees it. */
  function Source(h: ImageInfo): Chunks.ChunkSource
  {
    Chunks.ChunkSource("IHDR", Ok(Payload(h)), Length)
  }

  /** An IHDR chunk always frames: 25 bytes, the length 13, the type "IHDR", then the payload. */
  lemma SourceFrames(h: ImageInfo, crc: seq<byte> -> uint32)
    ensures Chunks.Framed(Source(h), crc).Ok?
    ensures var f := Chunks.Framed(Source(h), crc).value;
      && |f| == 25 && f[..8] == [0, 0, 0, 13, 0x49, 0x48, 0x44, 0x52] && f[8..21] == Payload(h)
  {
    var t: seq<byte> := [0x49, 0x48, 0x44, 0x52];
    assert Chunks.ChunkType("IHDR") == Ok(t);
    assert BigEndian32(13) == [0, 0, 0, 13];
    Chunks.FrameLayout(t, Payload(h), crc);
    var f := Chunks.Frame(t, Payload(h), crc);
    assert f[..8] == BigEndian32(13) + t;
  }
}
