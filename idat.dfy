/**
 * Chunks/IdatChunk.cs: the image data chunk of the newer writer. Each
 * scanline of the raw truecolour data passes through the chosen filter into
 * one stream, which is compressed and wrapped in zlib; the result is
 * computed once and kept.
 */
module IdatChunks {
  import opened Base
  import opened FilterTypes
  import opened IhdrChunks
  import opened Scanlines
  import FilterSpec
  import DefaultFilters
  import Adler32Spec
  import Checksums
  import ByteOrder
  import Buffers
  import Chunks
  import Streams
  import Zlib

  /**
   * The constructor's checks, in order: the raw data, then the header, then
   * a filter-type byte that names a member of the enumeration, then a colour
   * type the writer handles (truecolour, with or without alpha).
   */
  function Validate(imageInfo: Nullable<Header>, rawRgbData: Nullable<seq<byte>>, filterType: byte): (r: Result<FilterType>)
    ensures r.Ok? <==> rawRgbData.NotNull? && imageInfo.NotNull? && FromTag(filterType).NotNull?
                        && imageInfo.value.colorType in {Truecolor, TruecolorAlpha}
    ensures r.Ok? ==> Tag(r.value) == filterType
    ensures rawRgbData.Null? ==> r == Err(ArgumentNull("rawRgbData"))
    ensures rawRgbData.NotNull? && imageInfo.Null? ==> r == Err(ArgumentNull("imageInfo"))
    ensures rawRgbData.NotNull? && imageInfo.NotNull? && FromTag(filterType).Null? ==> r == Err(ArgumentOutOfRange("filterType"))
    ensures r.Err? && rawRgbData.NotNull? && imageInfo.NotNull? && FromTag(filterType).NotNull? ==> r == Err(Argument(""))
  {
    if rawRgbData.Null? then Err(ArgumentNull("rawRgbData"))
    else if imageInfo.Null? then Err(ArgumentNull("imageInfo"))
    else if FromTag(filterType).Null? then Err(ArgumentOutOfRange("filterType"))
    else if imageInfo.value.colorType != Truecolor && imageInfo.value.colorType != TruecolorAlpha then Err(Argument(""))
    else Ok(FromTag(filterType).value)
  }

  /** `pixelWidth`: bytes per pixel, three or four samples of BitDepth bits. */
  function PixelWidth(info: ImageInfo): nat
  {
    (if info.colorType == Truecolor then 3 else 4) * info.bitDepth as nat / 8
  }

  /** For a header the constructor accepts, a pixel is 3, 4, 6 or 8 bytes. */
  lemma PixelWidthValues(info: Header)
    ensures PixelWidth(info) in {3, 4, 6, 8}
    ensures info.colorType == Truecolor ==> PixelWidth(info) == 3 * info.bitDepth as nat / 8
  {
  }

  /** `imageInfo.Width * pixelWidth`: the bytes of one raw scanline. */
  function ScanlineLength(info: ImageInfo): nat
    requires info.width >= 0
  {
    info.width as nat * PixelWidth(info)
  }

  /** The scanline buffers fit the 32-bit lengths of the source. */
  predicate Fits(info: Header)
  {
    1 + ScanlineLength(info) <= INT32_MAX
  }

  /** The chunk data: the filtered stream of all rows, compressed and wrapped, or the exception on the way. */
  function CompressedData(info: Header, raw: seq<byte>, t: FilterType, deflate: seq<byte> -> seq<byte>): Result<seq<byte>>
  {
    var pw := PixelWidth(info);
    var s :- FilteredStream(t, raw, ScanlineLength(info), pw, info.height as nat);
    Ok(Zlib.Stream(Zlib.OptimalHeader, deflate(s), s))
  }

  /** The filtered stream s of n rows of l bytes unfilters to the first n rows of `raw`. */
  predicate DecodesTo(s: seq<byte>, raw: seq<byte>, l: nat, pw: nat, n: nat)
  {
    n * l <= |raw| && Unfiltered(s, l, pw, n) == NotNull(raw[..n * l])
  }

  /**
   * What the chunk data holds: a zlib stream with the newer header, whose
   * compressed part is the compressor's output on a stream that decodes back
   * to the whole raw image, and whose trailer is that stream's Adler-32; it
   * fails only on short raw data or on Average and Paeth.
   */
  lemma CompressedDataMeaning(info: Header, raw: seq<byte>, t: FilterType, deflate: seq<byte> -> seq<byte>)
    ensures var l, h := ScanlineLength(info), info.height as nat;
      CompressedData(info, raw, t, deflate).Ok? <==> h * l <= |raw| && t != Average && t != Paeth
    ensures var l, h, pw := ScanlineLength(info), info.height as nat, PixelWidth(info);
      var s := FilteredStream(t, raw, l, pw, h);
      s.Ok? ==>
        && CompressedData(info, raw, t, deflate) == Ok(Zlib.Stream(Zlib.OptimalHeader, deflate(s.value), s.value))
        && |s.value| == h * (1 + l)
        && DecodesTo(s.value, raw, l, pw, h)
  {
    var l, h, pw := ScanlineLength(info), info.height as nat, PixelWidth(info);
    FilteredStreamOutcome(t, raw, l, pw, h);
    if FilteredStream(t, raw, l, pw, h).Ok? {
      StreamDecodes(t, raw, l, pw, h);
    }
  }

  /** With a bounded compressor the chunk data always fits an `int` length. */
  lemma CompressedDataFits(info: Header, raw: seq<byte>, t: FilterType, deflate: seq<byte> -> seq<byte>)
    requires Zlib.Bounded(deflate) && CompressedData(info, raw, t, deflate).Ok?
    ensures |CompressedData(info, raw, t, deflate).value| <= INT32_MAX
  {
    var s := FilteredStream(t, raw, ScanlineLength(info), PixelWidth(info), info.height as nat).value;
    assert |deflate(s)| <= INT32_MAX - 6;
  }

  /** The type bytes of "IDAT". */
  const IdatType: seq<byte> := [0x49, 0x44, 0x41, 0x54]

  /** An IDAT chunk with its length right frames its data; with the data missing it fails as the data did. */
  lemma IdatFramed(data: Result<seq<byte>>, length: int32, crc: seq<byte> -> uint32)
    requires data.Ok? ==> length as int == |data.value|
    ensures data.Ok? ==> Chunks.Framed(Chunks.ChunkSource("IDAT", data, length), crc) == Ok(Chunks.Frame(IdatType, data.value, crc))
    ensures data.Err? ==> Chunks.Framed(Chunks.ChunkSource("IDAT", data, length), crc) == Err(data.error)
  {
    assert Chunks.ChunkType("IDAT") == Ok(IdatType);
  }

  /**
   * The private `FilterInto`: the filter object for the chunk's type writes
   * its tag before the row and filters the row after it; Average and Paeth
   * have no object and fail before anything is written.
   */
  method FilterScanline(t: FilterType, target: array<byte>, off: nat, raw: seq<byte>, prev: Nullable<seq<byte>>, pw: nat)
    returns (r: Result<()>)
    requires 1 <= off && DefaultFilters.CanFilter(t, target.Length, off, raw, prev, pw)
    modifies target
    ensures r.Err? <==> t == Average || t == Paeth
    ensures r.Err? ==> r.error == NotImplemented && target[..] == old(target[..])
    ensures r.Ok? ==> target[..] == DefaultFilters.Applied(t, old(target[..])[off - 1 := Tag(t)], off, raw, prev, pw)
  {
    var filter := DefaultFilters.GetFilterForType(Tag(t));
    DefaultFilters.GetFilterForTypeMembers(t, Tag(t));
    if filter.Err? {
      return Err(filter.error);
    }
    target[off - 1] := Tag(filter.value);
    DefaultFilters.FilterInto(filter.value, target, off, raw, prev, pw);
    r := Ok(());
  }

  /**
   * One pass of the row loop: the BlockCopy of row i into `scanline`, then
   * the filter into `scanlineToWrite` after its tag byte.
   */
  method EncodeRow(t: FilterType, raw: seq<byte>, l: nat, pw: nat, i: nat,
                   scanline: array<byte>, scanlineToWrite: array<byte>, prev: Nullable<seq<byte>>)
    returns (r: Result<()>)
    requires 0 < pw <= l && scanline.Length == l && scanlineToWrite.Length == 1 + l && scanline != scanlineToWrite
    requires i * l + l <= |raw| && prev == Previous(raw, l, i)
    modifies scanline, scanlineToWrite
    ensures scanline[..] == Row(raw, l, i)
    ensures r.Err? <==> t == Average || t == Paeth
    ensures r.Err? ==> r.error == NotImplemented
    ensures r.Ok? ==> scanlineToWrite[..] == Encoded(t, Row(raw, l, i), prev, pw)
  {
    CopyRow(raw, l, i, scanline);
    var row := scanline[..];
    PreviousLength(raw, l, i);
    r := FilterTagged(t, scanlineToWrite, row, prev, pw);
  }

  /** `Buffer.BlockCopy(rawRgbData, i * scanlineLength, scanline, 0, scanlineLength)`. */
  method CopyRow(raw: seq<byte>, l: nat, i: nat, scanline: array<byte>)
    requires scanline.Length == l && i * l + l <= |raw|
    modifies scanline
    ensures scanline[..] == Row(raw, l, i)
  {
    Buffers.BlockCopy(raw, i * l, scanline, 0, l);
    assert scanline[..] == Row(raw, l, i);
  }

  /** The scanline above row i, when there is one, is as long as a row. */
  lemma PreviousLength(raw: seq<byte>, l: nat, i: nat)
    requires i * l + l <= |raw|
    ensures Previous(raw, l, i).NotNull? ==> |Previous(raw, l, i).value| == l
  {
  }

  /** The filter of type t into `scanlineToWrite` after its tag byte: the scanline as encoded. */
  method FilterTagged(t: FilterType, scanlineToWrite: array<byte>, row: seq<byte>, prev: Nullable<seq<byte>>, pw: nat)
    returns (r: Result<()>)
    requires 0 < pw <= |row| && scanlineToWrite.Length == 1 + |row| && (prev.NotNull? ==> |prev.value| == |row|)
    modifies scanlineToWrite
    ensures r.Err? <==> t == Average || t == Paeth
    ensures r.Err? ==> r.error == NotImplemented
    ensures r.Ok? ==> scanlineToWrite[..] == Encoded(t, row, prev, pw)
  {
    ghost var before := scanlineToWrite[..];
    r := FilterScanline(t, scanlineToWrite, 1, row, prev, pw);
    if r.Ok? {
      DefaultFilters.AppliedToScanline(t, before[0 := Tag(t)], row, prev, pw);
    }
  }

  /** `Buffer.BlockCopy(scanline, 0, previousScanline, 0, scanline.Length)`. */
  method CopyScanline(scanline: array<byte>, previousScanline: array<byte>)
    requires scanline != previousScanline && scanline.Length == previousScanline.Length
    modifies previousScanline
    ensures previousScanline[..] == scanline[..]
  {
    Buffers.BlockCopy(scanline[..], 0, previousScanline, 0, scanline.Length);
    assert previousScanline[..] == scanline[..];
  }

  /**
   * The row loop of `GetCompressedDataAsync`: copy row i of the raw data
   * into `scanline`, filter it into `scanlineToWrite` after its tag byte,
   * append that to the stream, and keep the row as the previous one.
   */
  method FilterRows(raw: seq<byte>, l: nat, pw: nat, height: nat, t: FilterType) returns (r: Result<seq<byte>>)
    requires 0 < pw <= l
    ensures r == FilteredStream(t, raw, l, pw, height)
  {
    var scanline := new byte[l];
    var scanlineToWrite := new byte[1 + l];
    var previousScanline: array?<byte> := null;
    var tempStream: seq<byte> := [];
    var i := 0;
    while i < height
      invariant 0 <= i <= height
      invariant FilteredStream(t, raw, l, pw, i) == Ok(tempStream)
      invariant i * l <= |raw|
      invariant previousScanline == null <==> i == 0
      invariant previousScanline != null ==>
        && fresh(previousScanline) && previousScanline != scanline && previousScanline != scanlineToWrite
        && previousScanline.Length == l && NotNull(previousScanline[..]) == Previous(raw, l, i)
    {
      if i * l + l > |raw| {
        RowLoopFails(t, raw, l, pw, i, tempStream, height);
        return Err(BlockCopyRange);
      }
      var prev := if previousScanline == null then Null else NotNull(previousScanline[..]);
      var filtered := EncodeRow(t, raw, l, pw, i, scanline, scanlineToWrite, prev);
      if filtered.Err? {
        RowLoopFails(t, raw, l, pw, i, tempStream, height);
        return Err(filtered.error);
      }
      var next := i + 1;
      ghost var row := scanline[..];
      RowLoopStep(t, raw, l, pw, i, next, tempStream, scanlineToWrite[..]);
      tempStream := tempStream + scanlineToWrite[..];
      if previousScanline == null {
        previousScanline := new byte[l];
      }
      CopyScanline(scanline, previousScanline);
      assert previousScanline[..] == row;
      i := next;
    }
    r := Ok(tempStream);
  }

  /** A row the loop cannot copy, or a filter it has no object for, is the loop's result. */
  lemma RowLoopFails(t: FilterType, raw: seq<byte>, l: nat, pw: nat, i: nat, p: seq<byte>, height: nat)
    requires i < height && FilteredStream(t, raw, l, pw, i) == Ok(p)
    requires i * l + l > |raw| || t == Average || t == Paeth
    ensures i * l + l > |raw| ==> FilteredStream(t, raw, l, pw, height) == Err(BlockCopyRange)
    ensures i * l + l <= |raw| ==> FilteredStream(t, raw, l, pw, height) == Err(NotImplemented)
  {
    FilteredStreamStep(t, raw, l, pw, i, p);
    FilteredStreamSticky(t, raw, l, pw, i + 1, height);
  }

  /** A pass that filters row i appends its encoded scanline, which becomes the previous one. */
  lemma RowLoopStep(t: FilterType, raw: seq<byte>, l: nat, pw: nat, i: nat, next: nat, p: seq<byte>, e: seq<byte>)
    requires FilteredStream(t, raw, l, pw, i) == Ok(p) && i * l + l <= |raw| && t != Average && t != Paeth
    requires next == i + 1 && e == Encoded(t, Row(raw, l, i), Previous(raw, l, i), pw)
    ensures FilteredStream(t, raw, l, pw, next) == Ok(p + e)
    ensures next * l <= |raw| && Previous(raw, l, next) == NotNull(Row(raw, l, i))
  {
    FilteredStreamStep(t, raw, l, pw, i, p);
    MulSucc(i, l);
  }

  class IdatChunk {
    const imageInfo: Header
    const rawRgbData: seq<byte>
    const filterType: FilterType
    /** The DeflateStream the chunk compresses with. */
    const deflate: seq<byte> -> seq<byte>
    var compressedData: Nullable<seq<byte>>
    var compressedLength: int32

    /**
     * The colour type was checked, and once the data has been computed it
     * is kept together with its length; before that the length is 0.
     */
    ghost predicate Valid()
      reads this
    {
      && imageInfo.colorType in {Truecolor, TruecolorAlpha}
      && Zlib.Bounded(deflate)
      && (compressedData.Null? ==> compressedLength == 0)
      && (compressedData.NotNull? ==>
            && CompressedData(imageInfo, rawRgbData, filterType, deflate) == Ok(compressedData.value)
            && compressedLength as int == |compressedData.value|)
    }

    constructor (imageInfo: Header, rawRgbData: seq<byte>, filterType: FilterType, deflate: seq<byte> -> seq<byte>)
      requires imageInfo.colorType in {Truecolor, TruecolorAlpha} && Zlib.Bounded(deflate)
      ensures Valid() && compressedData.Null?
      ensures this.imageInfo == imageInfo && this.rawRgbData == rawRgbData && this.filterType == filterType
      ensures this.deflate == deflate
    {
      this.imageInfo := imageInfo;
      this.rawRgbData := rawRgbData;
      this.filterType := filterType;
      this.deflate := deflate;
      compressedData := Null;
      compressedLength := 0;
    }

    /** `Length`: 0 until the data has been computed, then its length. */
    function Length(): (r: int32)
      reads this
      ensures Valid() && compressedData.NotNull? ==> r as int == |compressedData.value|
    {
      compressedLength
    }

    /**
     * `GetCompressedDataAsync`: the kept data if there is any; otherwise the
     * filtered stream of all rows, its Adler-32 fed in one block, and the
     * zlib stream around the compressed stream, which is then kept. An
     * exception keeps nothing.
     */
    method GetCompressedData(littleEndian: bool) returns (r: Result<seq<byte>>)
      requires Valid() && Fits(imageInfo)
      modifies this
      ensures Valid()
      ensures r == CompressedData(imageInfo, rawRgbData, filterType, deflate)
      ensures r.Ok? ==> compressedData == NotNull(r.value)
      ensures r.Err? ==> compressedData == old(compressedData) && compressedLength == old(compressedLength)
    {
      if compressedData.NotNull? {
        return Ok(compressedData.value);
      }
      var pixelWidth := PixelWidth(imageInfo);
      PixelWidthValues(imageInfo);
      var l := imageInfo.width as nat * pixelWidth;
      var data := FilterRows(rawRgbData, l, pixelWidth, imageInfo.height as nat, filterType);
      if data.Err? {
        return Err(data.error);
      }
      var adler := new Checksums.Adler32();
      adler.FeedAll(data.value);
      var compressed := deflate(data.value);
      var adlerBytes := ByteOrder.GetBytesForInteger(Bits32(adler.Hash()), littleEndian);
      var stream := Zlib.OptimalHeader + compressed + adlerBytes;
      compressedData := NotNull(stream);
      compressedLength := |stream| as int32;
      r := Ok(stream);
    }

    /**
     * `WriteSelfToStreamAsync` on this chunk: the data is computed (or taken
     * from the kept copy) before `Length` is read, so the claimed length
     * matches and the frame holds the zlib stream.
     */
    method WriteSelfToStream(stream: Streams.Stream, crc: seq<byte> -> uint32, littleEndian: bool) returns (r: Result<()>)
      requires Valid() && Fits(imageInfo)
      modifies this, stream
      ensures Valid()
      ensures var c := CompressedData(imageInfo, rawRgbData, filterType, deflate);
        && (c.Ok? ==> |c.value| <= INT32_MAX && r == Ok(()) && stream.written == old(stream.written) + Chunks.Frame(IdatType, c.value, crc))
        && (c.Err? ==> r == Err(c.error) && stream.written == old(stream.written))
    {
      var data := GetCompressedData(littleEndian);
      var source := Chunks.ChunkSource("IDAT", data, Length());
      IdatFramed(data, Length(), crc);
      r := Chunks.WriteSelfToStream(source, stream, crc, littleEndian);
    }
  }

  /** `new IdatChunk(imageInfo, rawRgbData, filterType)`: a chunk, or the constructor's exception. */
  method New(imageInfo: Nullable<Header>, rawRgbData: Nullable<seq<byte>>, filterType: byte, deflate: seq<byte> -> seq<byte>)
    returns (r: Result<IdatChunk>)
    requires Zlib.Bounded(deflate)
    ensures r.Err? <==> Validate(imageInfo, rawRgbData, filterType).Err?
    ensures r.Err? ==> r.error == Validate(imageInfo, rawRgbData, filterType).error
    ensures r.Ok? ==> && fresh(r.value) && r.value.Valid() && r.value.compressedData.Null?
                      && r.value.imageInfo == imageInfo.value && r.value.rawRgbData == rawRgbData.value
                      && Tag(r.value.filterType) == filterType && r.value.deflate == deflate
  {
    var t := Validate(imageInfo, rawRgbData, filterType);
    if t.Err? {
      return Err(t.error);
    }
    var chunk := new IdatChunk(imageInfo.value, rawRgbData.value, t.value, deflate);
    r := Ok(chunk);
  }
}
