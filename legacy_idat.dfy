/**
 * IdatChunk.cs: the older image data chunk. It checks nothing when built;
 * on the first request it reads the raw data row by row through a
 * MemoryStream, prefixes every row with filter type 0 (None), compresses the
 * lot and wraps it in zlib with the default-compression header.
 */
module LegacyIdatChunks {
  import opened Base
  import opened IhdrChunks
  import opened Scanlines
  import FilterTypes
  import FilterSpec
  import DefaultFilters
  import Adler32Spec
  import LegacyAdler32
  import ByteOrder
  import Streams
  import LegacyChunks
  import Zlib
  import Buffers

  /** The colour-type switch: 3 bytes for truecolour, 4 with alpha; any other type is refused. */
  function PixelWidthOf(colorType: byte): (r: Result<nat>)
    ensures r.Ok? <==> colorType == 2 || colorType == 6
    ensures r.Ok? ==> r.value == if colorType == 2 then 3 else 4
    ensures r.Err? ==> r.error == UnknownColorType(colorType)
  {
    if colorType == 2 then Ok(3)
    else if colorType == 6 then Ok(4)
    else Err(UnknownColorType(colorType))
  }

  function Min(x: int, y: int): int
  {
    if x <= y then x else y
  }

  /** A MemoryStream over a byte array, as far as reading goes. */
  class MemoryReader {
    const data: seq<byte>
    var position: nat

    ghost predicate Valid()
      reads this
    {
      position <= |data|
    }

    constructor (data: seq<byte>)
      ensures Valid() && this.data == data && position == 0
    {
      this.data := data;
      position := 0;
    }

    /**
     * `ReadAsync(buffer, offset, count)`: as many of the remaining bytes as
     * fit, copied to the buffer; the rest of the buffer keeps what it held.
     */
    method Read(buffer: array<byte>, offset: nat, count: nat) returns (n: nat)
      requires Valid() && offset + count <= buffer.Length
      modifies this, buffer
      ensures Valid() && n == Min(count, |data| - old(position)) && position == old(position) + n
      ensures buffer[..] == Splice(old(buffer[..]), offset, data[old(position)..position])
    {
      n := if count <= |data| - position then count else |data| - position;
      Buffers.BlockCopy(data, position, buffer, offset, n);
      SpliceExt(buffer[..], old(buffer[..]), offset, data[position..position + n]);
      position := position + n;
    }
  }

  /**
   * The scanline buffer after k reads of l bytes each: zeros at first, then
   * every read copies the next bytes of the raw data over its front, and a
   * short read leaves the tail of the earlier row in place.
   */
  function ScanlineAfter(raw: seq<byte>, l: nat, k: nat): (r: seq<byte>)
    ensures |r| == l
    decreases k
  {
    if k == 0 then seq(l, _ => 0)
    else
      var lo, hi := Min((k - 1) * l, |raw|), Min(k * l, |raw|);
      MulSucc(k - 1, l);
      Splice(ScanlineAfter(raw, l, k - 1), 0, raw[lo..hi])
  }

  /** The scanline stream after n iterations: a 0 tag and the scanline buffer, n times. */
  function LegacyStream(raw: seq<byte>, l: nat, n: nat): (r: seq<byte>)
    decreases n
  {
    if n == 0 then [] else LegacyStream(raw, l, n - 1) + [0] + ScanlineAfter(raw, l, n)
  }

  /** The stream always holds n rows of 1 + l bytes, whatever the length of the raw data. */
  lemma {:induction false} LegacyStreamLength(raw: seq<byte>, l: nat, n: nat)
    ensures |LegacyStream(raw, l, n)| == n * (1 + l)
    decreases n
  {
    if n > 0 {
      LegacyStreamLength(raw, l, n - 1);
      MulSucc(n - 1, 1 + l);
    }
  }

  /** With enough raw data, read k holds exactly row k - 1. */
  lemma ScanlineAfterFull(raw: seq<byte>, l: nat, k: nat)
    requires k > 0 && k * l <= |raw|
    ensures (k - 1) * l + l <= |raw|
    ensures ScanlineAfter(raw, l, k) == Row(raw, l, k - 1)
  {
    MulSucc(k - 1, l);
    SpliceAll(ScanlineAfter(raw, l, k - 1), Row(raw, l, k - 1));
  }

  /** Once the raw data is used up, every further read leaves the buffer as it was. */
  lemma StaleRowRepeats(raw: seq<byte>, l: nat, k: nat)
    requires k * l >= |raw|
    ensures ScanlineAfter(raw, l, k + 1) == ScanlineAfter(raw, l, k)
  {
    MulSucc(k, l);
    var s := ScanlineAfter(raw, l, k);
    assert Splice(s, 0, []) == s by {
      assert s[..0] + [] + s[0..] == s;
    }
  }

  /**
   * With at least n rows of raw data the stream is the one the newer writer
   * builds with filter None, so it unfilters back to those rows.
   */
  lemma {:induction false} LegacyStreamIsNoneFiltered(raw: seq<byte>, l: nat, bpp: nat, n: nat)
    requires n * l <= |raw|
    ensures FilteredStream(FilterTypes.None, raw, l, bpp, n) == Ok(LegacyStream(raw, l, n))
    decreases n
  {
    if n > 0 {
      MulMono(n - 1, n, l);
      LegacyStreamIsNoneFiltered(raw, l, bpp, n - 1);
      var p, row := LegacyStream(raw, l, n - 1), ScanlineAfter(raw, l, n);
      ScanlineAfterFull(raw, l, n);
      FilteredStreamStep(FilterTypes.None, raw, l, bpp, n - 1, p);
      NoneEncoded(row, Previous(raw, l, n - 1), bpp);
      AppendAssoc(p, [0], row);
    }
  }

  /** Filter None writes tag 0 and the row unchanged. */
  lemma NoneEncoded(row: seq<byte>, prev: Nullable<seq<byte>>, bpp: nat)
    ensures Encoded(FilterTypes.None, row, prev, bpp) == [0] + row
  {
    FilterSpec.NoneCopies(row, prev, bpp);
  }

  /**
   * The stream with the data length checked that the newer writer builds
   * for filter None: it exists exactly when the raw data holds all n rows,
   * then it is the older writer's stream and unfilters to those rows.
   */
  lemma CorrectedRoundTrip(raw: seq<byte>, l: nat, bpp: nat, n: nat)
    requires n > 0
    ensures FilteredStream(FilterTypes.None, raw, l, bpp, n).Ok? <==> n * l <= |raw|
    ensures n * l <= |raw| ==>
      && FilteredStream(FilterTypes.None, raw, l, bpp, n) == Ok(LegacyStream(raw, l, n))
      && Unfiltered(LegacyStream(raw, l, n), l, bpp, n) == NotNull(raw[..n * l])
  {
    FilteredStreamOutcome(FilterTypes.None, raw, l, bpp, n);
    if n * l <= |raw| {
      LegacyStreamIsNoneFiltered(raw, l, bpp, n);
      StreamDecodes(FilterTypes.None, raw, l, bpp, n);
    }
  }

  /**
   * Raw data of a single row for an image of two rows (three bytes for one
   * truecolour pixel, say): the second read finds nothing and the writer
   * repeats the first row instead of failing.
   */
  lemma ShortDataRepeatsRow(raw: seq<byte>, bpp: nat)
    requires |raw| > 0
    ensures LegacyStream(raw, |raw|, 2) == [0] + raw + [0] + raw
    ensures FilteredStream(FilterTypes.None, raw, |raw|, bpp, 2) == Err(BlockCopyRange)
  {
    var l := |raw|;
    ScanlineAfterFull(raw, l, 1);
    assert Row(raw, l, 0) == raw;
    StaleRowRepeats(raw, l, 1);
    assert LegacyStream(raw, l, 1) == [0] + raw;
    FilteredStreamOutcome(FilterTypes.None, raw, l, bpp, 2);
  }

  /** A read of up to l bytes at the end of row i - 1 ends at the end of row i, or of the data. */
  lemma ReadAdvances(raw: seq<byte>, l: nat, i: nat, pos: nat, n: nat)
    requires pos == Min(i * l, |raw|) && n == Min(l, |raw| - pos)
    ensures pos + n == Min((i + 1) * l, |raw|)
    ensures ScanlineAfter(raw, l, i + 1) == Splice(ScanlineAfter(raw, l, i), 0, raw[pos..pos + n])
  {
    MulSucc(i, l);
  }

  /** The rows the loop runs: none for a height that is not positive. */
  function Rows(info: ImageInfo): nat
  {
    if info.height < 0 then 0 else info.height as nat
  }

  /**
   * The chunk data, or the exception: a missing header fails on its colour
   * type, then an unknown colour type, then missing raw data in the
   * MemoryStream constructor, then a row length that wrapped negative in the
   * array allocation.
   */
  function LegacyCompressedData(info: Nullable<ImageInfo>, raw: Nullable<seq<byte>>, deflate: seq<byte> -> seq<byte>)
    : (r: Result<seq<byte>>)
    ensures info.Null? ==> r == Err(NullReference)
    ensures info.NotNull? && info.value.colorType !in {2, 6} ==> r == Err(UnknownColorType(info.value.colorType))
    ensures info.NotNull? && info.value.colorType in {2, 6} && raw.Null? ==> r == Err(ArgumentNull("buffer"))
    ensures r.Ok? ==> |r.value| >= 6
  {
    if info.Null? then Err(NullReference)
    else
      var pw :- PixelWidthOf(info.value.colorType);
      if raw.Null? then Err(ArgumentNull("buffer"))
      else
        var l := Wrap32(info.value.width as int * pw);
        if l < 0 then Err(Overflow)
        else
          var s := LegacyStream(raw.value, l as nat, Rows(info.value));
          Ok(Zlib.Stream(Zlib.DefaultHeader, deflate(s), s))
  }

  /**
   * What the older writer promises once the header and the data are there:
   * a negative row length fails in the allocation; one that fits gives a zlib stream with the default header around a
   * stream of one None-tagged row per line of the image, which unfilters
   * to the raw data when that holds every row.
   */
  lemma LegacyCompressedDataMeaning(info: ImageInfo, raw: seq<byte>, deflate: seq<byte> -> seq<byte>)
    requires info.colorType in {2, 6}
    ensures var l := info.width as int * PixelWidthOf(info.colorType).value;
      INT32_MIN <= l < 0 ==> LegacyCompressedData(NotNull(info), NotNull(raw), deflate) == Err(Overflow)
    ensures var pw := PixelWidthOf(info.colorType).value; var l := info.width as int * pw;
      0 <= l <= INT32_MAX ==>
        var s := LegacyStream(raw, l, Rows(info));
        && LegacyCompressedData(NotNull(info), NotNull(raw), deflate) == Ok(Zlib.Stream(Zlib.DefaultHeader, deflate(s), s))
        && |s| == Rows(info) * (1 + l)
        && (0 < Rows(info) && Rows(info) * l <= |raw| ==> FullRows(s, raw, l, pw, Rows(info)))
  {
    var pw := PixelWidthOf(info.colorType).value;
    var l := info.width as int * pw;
    if 0 <= l <= INT32_MAX {
      assert Wrap32(l) as int == l;
      var n := Rows(info);
      LegacyStreamLength(raw, l, n);
      if 0 < n && n * l <= |raw| {
        CorrectedRoundTrip(raw, l, pw, n);
      }
    }
  }

  /** The success path of LegacyCompressedData, for the pixel width and row length the writer computed. */
  lemma LegacyDataOk(info: ImageInfo, raw: seq<byte>, deflate: seq<byte> -> seq<byte>, pw: nat, l: int32)
    requires PixelWidthOf(info.colorType) == Ok(pw) && l == Wrap32(info.width as int * pw) && l >= 0
    requires Zlib.Bounded(deflate)
    ensures var s := LegacyStream(raw, l as nat, Rows(info));
      && LegacyCompressedData(NotNull(info), NotNull(raw), deflate) == Ok(Zlib.Stream(Zlib.DefaultHeader, deflate(s), s))
      && |Zlib.Stream(Zlib.DefaultHeader, deflate(s), s)| <= INT32_MAX
  {
    var s := LegacyStream(raw, l as nat, Rows(info));
    assert |deflate(s)| <= INT32_MAX - 6;
  }

  /** The stream s of n rows of l bytes unfilters to the first n rows of `raw`. */
  predicate FullRows(s: seq<byte>, raw: seq<byte>, l: nat, pw: nat, n: nat)
  {
    n * l <= |raw| && Unfiltered(s, l, pw, n) == NotNull(raw[..n * l])
  }

  /** One `ReadAsync(scanline, 0, scanline.Length)` of the row loop: read i + 1 leaves the buffer ScanlineAfter says. */
  method ReadRow(readerStream: MemoryReader, scanline: array<byte>, raw: seq<byte>, l: nat, i: nat)
    requires readerStream.Valid() && readerStream.data == raw && scanline.Length == l
    requires readerStream.position == Min(i * l, |raw|) && scanline[..] == ScanlineAfter(raw, l, i)
    modifies readerStream, scanline
    ensures readerStream.Valid() && readerStream.position == Min((i + 1) * l, |raw|)
    ensures scanline[..] == ScanlineAfter(raw, l, i + 1)
  {
    ghost var pos := readerStream.position;
    var read := readerStream.Read(scanline, 0, l);
    ReadAdvances(raw, l, i, pos, read);
  }

  /**
   * The row loop of `GetCompressedDataAsync`: `height` reads of l bytes
   * from a MemoryStream over the raw data into one scanline buffer, each
   * written to the scanline stream after a 0 byte.
   */
  method ReadRows(raw: seq<byte>, l: nat, height: int32) returns (data: seq<byte>)
    ensures data == LegacyStream(raw, l, if height < 0 then 0 else height as nat)
  {
    var readerStream := new MemoryReader(raw);
    var scanlineStream: seq<byte> := [];
    var scanline := new byte[l](_ => 0);
    assert scanline[..] == ScanlineAfter(raw, l, 0);
    var rows := if height < 0 then 0 else height as nat;
    var i := 0;
    while i < rows
      invariant 0 <= i <= rows
      invariant readerStream.Valid() && readerStream.data == raw
      invariant readerStream.position == Min(i * l, |raw|)
      invariant scanline[..] == ScanlineAfter(raw, l, i)
      invariant scanlineStream == LegacyStream(raw, l, i)
    {
      ReadRow(readerStream, scanline, raw, l, i);
      scanlineStream := scanlineStream + [0] + scanline[..];
      i := i + 1;
    }
    data := scanlineStream;
  }

  /**
   * The end of `GetCompressedDataAsync`: the header 78 9C, the scanline
   * stream copied through the DeflateStream, and the stream's Adler-32.
   */
  method WrapStream(data: seq<byte>, deflate: seq<byte> -> seq<byte>, littleEndian: bool) returns (stream: seq<byte>)
    ensures stream == Zlib.Stream(Zlib.DefaultHeader, deflate(data), data)
  {
    var compressed := deflate(data);
    var adler := LegacyAdler32.ComputeBytes(data);
    var adlerBytes := ByteOrder.GetBytesForInteger(Bits32(adler), littleEndian);
    stream := Zlib.DefaultHeader + compressed + adlerBytes;
    Zlib.StreamParts(Zlib.DefaultHeader, compressed, data, adlerBytes);
  }

  /**
   * The body of `GetCompressedDataAsync` after the check for kept data:
   * the colour-type switch, the row loop, the deflated stream after the
   * header 78 9C, and the stream's Adler-32 after it.
   */
  method ComputeCompressedData(imageInfo: Nullable<ImageInfo>, rawRgbData: Nullable<seq<byte>>,
                               deflate: seq<byte> -> seq<byte>, littleEndian: bool) returns (r: Result<seq<byte>>)
    requires Zlib.Bounded(deflate)
    ensures r == LegacyCompressedData(imageInfo, rawRgbData, deflate)
    ensures r.Ok? ==> |r.value| <= INT32_MAX
  {
    if imageInfo.Null? {
      return Err(NullReference);
    }
    var info := imageInfo.value;
    var switched := PixelWidthOf(info.colorType);
    if switched.Err? {
      return Err(switched.error);
    }
    var pixelWidth := switched.value;
    if rawRgbData.Null? {
      return Err(ArgumentNull("buffer"));
    }
    var length := Wrap32(info.width as int * pixelWidth);
    if length < 0 {
      return Err(Overflow);
    }
    var data := ReadRows(rawRgbData.value, length as nat, info.height);
    var stream := WrapStream(data, deflate, littleEndian);
    LegacyDataOk(info, rawRgbData.value, deflate, pixelWidth, length);
    r := Ok(stream);
  }

  class LegacyIdatChunk {
    const imageInfo: Nullable<ImageInfo>
    const rawRgbData: Nullable<seq<byte>>
    /** The DeflateStream the chunk compresses with. */
    const deflate: seq<byte> -> seq<byte>
    var compressedData: Nullable<seq<byte>>
    var compressedLength: int32

    /** Once the data has been computed it is kept with its length; before that the length is 0. */
    ghost predicate Valid()
      reads this
    {
      && Zlib.Bounded(deflate)
      && (compressedData.Null? ==> compressedLength == 0)
      && (compressedData.NotNull? ==>
            && LegacyCompressedData(imageInfo, rawRgbData, deflate) == Ok(compressedData.value)
            && compressedLength as int == |compressedData.value|)
    }

    /** `new IdatChunk(imageInfo, rawRgbData)`: both are kept unchecked. */
    constructor (imageInfo: Nullable<ImageInfo>, rawRgbData: Nullable<seq<byte>>, deflate: seq<byte> -> seq<byte>)
      requires Zlib.Bounded(deflate)
      ensures Valid() && compressedData.Null?
      ensures this.imageInfo == imageInfo && this.rawRgbData == rawRgbData && this.deflate == deflate
    {
      this.imageInfo := imageInfo;
      this.rawRgbData := rawRgbData;
      this.deflate := deflate;
      compressedData := Null;
      compressedLength := 0;
    }

    /** `Length`: 0 until the data has been computed, then its length. */
    function Length(): (r: int32)
      reads this
      ensures Valid() && compressedData.NotNull? ==> r as int == |compressedData.value|
    {
      compressedLength
    }

    /** `GetCompressedDataAsync`: the kept data if there is any; otherwise the data computed and kept. */
    method GetCompressedData(littleEndian: bool) returns (r: Result<seq<byte>>)
      requires Valid()
      modifies this
      ensures Valid()
      ensures r == LegacyCompressedData(imageInfo, rawRgbData, deflate)
      ensures r.Ok? ==> compressedData == NotNull(r.value)
      ensures r.Err? ==> compressedData == old(compressedData) && compressedLength == old(compressedLength)
    {
      if compressedData.NotNull? {
        return Ok(compressedData.value);
      }
      var data := ComputeCompressedData(imageInfo, rawRgbData, deflate, littleEndian);
      if data.Ok? {
        compressedData := NotNull(data.value);
        compressedLength := |data.value| as int32;
      }
      r := data;
    }

    /**
     * `WriteSelfToStreamAsync` through the older chunk writer: the data is
     * computed before `Length` is read, so the claimed length matches.
     */
    method WriteSelfToStream(stream: Streams.Stream, crc: seq<byte> -> uint32, littleEndian: bool) returns (r: Result<()>)
      requires Valid()
      modifies this, stream
      ensures Valid()
      ensures var c := LegacyCompressedData(imageInfo, rawRgbData, deflate);
        && (c.Ok? ==> r == Ok(()) && stream.written == old(stream.written)
                               + LegacyChunks.FramedAsWritten("IDAT", c, |c.value| as int32, crc, littleEndian).value)
        && (c.Err? ==> r == Err(c.error) && stream.written == old(stream.written))
    {
      var data := GetCompressedData(littleEndian);
      r := LegacyChunks.WriteSelfToStream("IDAT", data, Length(), stream, crc, littleEndian);
    }
  }
}
