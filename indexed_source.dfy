/**
 * IndexedImageSource.cs: an image of palette indices, packed MSB first at
 * 1, 2, 4 or 8 bits per pixel with no padding at row ends, together with
 * the palette and the transparency map the indices select from. Its
 * conversions unpack the indices eight pixels at a time and write each
 * pixel's color and alpha in the target layout.
 */
module IndexedImageSources {
  import opened Base
  import opened Bits
  import opened PixelBits
  import opened PixelLayouts
  import opened ImageSources
  import opened ColorHelpers
  import Colors
  import Pallettes
  import TransparencyMaps

  /** The bit depths the constructor accepts. */
  predicate IndexedDepth(bitDepth: int32)
  {
    bitDepth == 1 || bitDepth == 2 || bitDepth == 4 || bitDepth == 8
  }

  /**
   * The constructor's checks as written: the depth, the width, then the
   * height, which is reported under the name of the width; then null data,
   * a null palette, and empty data (an ArgumentException naming no
   * parameter, written with the empty name).
   */
  function ValidateAsWritten(bitDepth: int32, rawData: Nullable<seq<byte>>, width: int32, height: int32,
                             pallette: Pallettes.Pallette?): (r: Result<()>)
    ensures r.Ok? <==> IndexedDepth(bitDepth) && width > 0 && height > 0 && rawData.NotNull? && pallette != null
                       && |rawData.value| > 0
  {
    if !IndexedDepth(bitDepth) then Err(ArgumentOutOfRange("bitDepth"))
    else if width <= 0 then Err(ArgumentOutOfRange("width"))
    else if height <= 0 then Err(ArgumentOutOfRange("width"))
    else if rawData.Null? then Err(ArgumentNull("rawData"))
    else if pallette == null then Err(ArgumentNull("pallette"))
    else if |rawData.value| == 0 then Err(Argument(""))
    else Ok(())
  }

  /** A zero height with a good width is blamed on the width. */
  lemma HeightBlamesWidth(pallette: Pallettes.Pallette)
    ensures ValidateAsWritten(1, NotNull([0]), 1, 0, pallette) == Err(ArgumentOutOfRange("width"))
  {
  }

  /**
   * The same checks with the height reported under its own name. Every
   * range error names an argument that is out of range, the checks are made
   * in the source's order, and only good arguments pass.
   */
  function Validate(bitDepth: int32, rawData: Nullable<seq<byte>>, width: int32, height: int32,
                    pallette: Pallettes.Pallette?): (r: Result<()>)
    ensures r.Ok? <==> IndexedDepth(bitDepth) && width > 0 && height > 0 && rawData.NotNull? && pallette != null
                       && |rawData.value| > 0
    ensures r == Err(ArgumentOutOfRange("bitDepth")) <==> !IndexedDepth(bitDepth)
    ensures r == Err(ArgumentOutOfRange("width")) <==> IndexedDepth(bitDepth) && width <= 0
    ensures r == Err(ArgumentOutOfRange("height")) <==> IndexedDepth(bitDepth) && width > 0 && height <= 0
    ensures r.Err? && r.error.ArgumentNull? ==> IndexedDepth(bitDepth) && width > 0 && height > 0
    ensures r == Err(ArgumentNull("rawData")) <==> IndexedDepth(bitDepth) && width > 0 && height > 0 && rawData.Null?
    ensures r == Err(ArgumentNull("pallette")) ==> pallette == null
    ensures ValidateAsWritten(bitDepth, rawData, width, height, pallette) == r
            <==> !(IndexedDepth(bitDepth) && width > 0 && height <= 0)
  {
    if !IndexedDepth(bitDepth) then Err(ArgumentOutOfRange("bitDepth"))
    else if width <= 0 then Err(ArgumentOutOfRange("width"))
    else if height <= 0 then Err(ArgumentOutOfRange("height"))
    else if rawData.Null? then Err(ArgumentNull("rawData"))
    else if pallette == null then Err(ArgumentNull("pallette"))
    else if |rawData.value| == 0 then Err(Argument(""))
    else Ok(())
  }

  /**
   * The constructor's default map for a null transparency map: a new map
   * for the image's depth with alpha 0xff added at every palette index. A
   * palette larger than the map makes the add at the first index past the
   * map throw ArgumentOutOfRangeException("palletteIndex").
   */
  method DefaultTransparencyMap(bitDepth: int32, pallette: Pallettes.Pallette) returns (r: Result<TransparencyMaps.TransparencyMap>)
    requires IndexedDepth(bitDepth) && pallette.Valid()
    ensures r.Ok? <==> pallette.PalletteSize <= Pallettes.TableSize(bitDepth)
    ensures r.Err? ==> r.error == ArgumentOutOfRange("palletteIndex")
    ensures r.Ok? ==> && fresh(r.value) && fresh(r.value.transparencyMapEntries) && r.value.Valid()
                      && r.value.TransparencyMapSize == Pallettes.TableSize(bitDepth)
                      && r.value.transparencyMapEntries[..] == OpaqueUpTo(pallette.PalletteSize as nat, Pallettes.TableSize(bitDepth) as nat)
  {
    IndexedTableSize(bitDepth);
    var tmap := new TransparencyMaps.TransparencyMap(bitDepth);
    var size := tmap.TransparencyMapSize;
    var i: int32 := 0;
    while i < pallette.PalletteSize
      invariant 0 <= i <= size && i as int <= pallette.PalletteSize as int
      invariant fresh(tmap) && fresh(tmap.transparencyMapEntries) && tmap.Valid()
      invariant tmap.transparencyMapEntries[..] == OpaqueUpTo(i as nat, size as nat)
      decreases pallette.PalletteSize - i
    {
      var added := tmap.AddTransparencyToMap(i, 0xff);
      if added.Err? {
        return Err(added.error);
      }
      assert OpaqueUpTo(i as nat, size as nat)[i := 0xff] == OpaqueUpTo(i as nat + 1, size as nat);
      i := i + 1;
    }
    r := Ok(tmap);
  }

  /** A palette or a transparency map for an indexed depth has 2, 4, 16 or 256 entries. */
  lemma IndexedTableSize(bitDepth: int32)
    requires IndexedDepth(bitDepth)
    ensures 2 <= Pallettes.TableSize(bitDepth) <= 256
  {
    Pow2Values();
  }

  /** n entries of alpha 0xff followed by zeros, size entries in all. */
  function OpaqueUpTo(n: nat, size: nat): (s: seq<byte>)
    ensures |s| == size
    ensures forall k | 0 <= k < size :: s[k] == if k < n then 0xff else 0
  {
    seq(size, k => if k < n then 0xff else 0)
  }

  /**
   * `new IndexedImageSource(...)`: the checks as written, then the default
   * map when none is given. On success the source holds the arguments
   * unchanged; a bad height is reported under the width's name.
   */
  method NewIndexedImageSource(bitDepth: int32, rawData: Nullable<seq<byte>>, width: int32, height: int32,
                               pallette: Pallettes.Pallette?, transparencyMap: TransparencyMaps.TransparencyMap?)
    returns (r: Result<IndexedImageSource>)
    requires pallette != null ==> pallette.Valid()
    requires transparencyMap != null ==> transparencyMap.Valid()
    ensures ValidateAsWritten(bitDepth, rawData, width, height, pallette).Err? ==>
              r == Err(ValidateAsWritten(bitDepth, rawData, width, height, pallette).error)
    ensures ValidateAsWritten(bitDepth, rawData, width, height, pallette).Ok? ==>
              (r.Ok? <==> transparencyMap != null || pallette.PalletteSize <= Pallettes.TableSize(bitDepth))
    ensures r.Err? && ValidateAsWritten(bitDepth, rawData, width, height, pallette).Ok? ==>
              r.error == ArgumentOutOfRange("palletteIndex")
    ensures IndexedDepth(bitDepth) && width > 0 && height <= 0 ==> r == Err(ArgumentOutOfRange("width"))
    ensures r.Ok? ==> && fresh(r.value) && r.value.Valid()
                      && r.value.BitDepth == bitDepth && r.value.RawData == rawData.value
                      && r.value.Width == width && r.value.Height == height && r.value.Pallette == pallette
                      && (transparencyMap != null ==> r.value.TransparencyMap == transparencyMap)
                      && (transparencyMap == null ==>
                            && fresh(r.value.TransparencyMap)
                            && r.value.TransparencyMap.transparencyMapEntries[..]
                               == OpaqueUpTo(pallette.PalletteSize as nat, Pallettes.TableSize(bitDepth) as nat))
  {
    var checked := ValidateAsWritten(bitDepth, rawData, width, height, pallette);
    if checked.Err? {
      return Err(checked.error);
    }
    var tmap := transparencyMap;
    if tmap == null {
      var made := DefaultTransparencyMap(bitDepth, pallette);
      if made.Err? {
        return Err(made.error);
      }
      tmap := made.value;
    }
    var source := new IndexedImageSource(bitDepth, rawData.value, width, height, pallette, tmap);
    r := Ok(source);
  }

  class IndexedImageSource {
    const RawData: seq<byte>
    const BitDepth: int32
    const Width: int32
    const Height: int32
    const Pallette: Pallettes.Pallette
    const TransparencyMap: TransparencyMaps.TransparencyMap

    /** What the constructor's checks establish, and the palette's and the map's own invariants. */
    ghost predicate Valid()
      reads Pallette, Pallette.palletteEntries, TransparencyMap
    {
      && IndexedDepth(BitDepth) && Width > 0 && Height > 0 && |RawData| > 0
      && Pallette.Valid() && TransparencyMap.Valid()
    }

    /** The stores of the constructor, for arguments that passed its checks. */
    constructor (bitDepth: int32, rawData: seq<byte>, width: int32, height: int32,
                 pallette: Pallettes.Pallette, transparencyMap: TransparencyMaps.TransparencyMap)
      requires IndexedDepth(bitDepth) && width > 0 && height > 0 && |rawData| > 0
      requires pallette.Valid() && transparencyMap.Valid()
      ensures Valid()
      ensures BitDepth == bitDepth && RawData == rawData && Width == width && Height == height
      ensures Pallette == pallette && TransparencyMap == transparencyMap
    {
      BitDepth := bitDepth;
      RawData := rawData;
      Pallette := pallette;
      TransparencyMap := transparencyMap;
      Width := width;
      Height := height;
    }

    /** `Format`: always Indexed, which no other source reports. */
    function Format(): (f: ImageFormat)
      ensures f == Indexed
      ensures forall s: ImageSource | !s.TruecolorAlphaImageSource? :: s.Format() != f
    {
      Indexed
    }

    /**
     * `ConvertToIndexedImageSource`: the image's own depth gives the source
     * itself; a lower one an ArgumentException, one above 8 an
     * ArgumentOutOfRangeException, both naming `targetBitDepth`; a higher
     * depth up to 8 is not implemented.
     */
    function ConvertToIndexedImageSource(targetBitDepth: int32): (r: Result<IndexedImageSource>)
      requires IndexedDepth(BitDepth)
      ensures r.Ok? <==> targetBitDepth == BitDepth
      ensures r.Ok? ==> r.value == this
      ensures targetBitDepth < BitDepth ==> r == Err(Argument("targetBitDepth"))
      ensures targetBitDepth > 8 ==> r == Err(ArgumentOutOfRange("targetBitDepth"))
      ensures BitDepth < targetBitDepth <= 8 ==> r == Err(NotImplemented)
    {
      if targetBitDepth == BitDepth then Ok(this)
      else if targetBitDepth < BitDepth then Err(Argument("targetBitDepth"))
      else if targetBitDepth > 8 then Err(ArgumentOutOfRange("targetBitDepth"))
      else Err(NotImplemented)
    }

    /** The depth check of `ConvertToGrayscaleImageSource`: 1, 2, 4, 8 and 16 pass, any other depth is out of range. */
    function CheckGrayscaleDepth(targetBitDepth: int32): (r: Result<()>)
      ensures r.Ok? <==> targetBitDepth in {1, 2, 4, 8, 16}
      ensures r.Err? ==> r.error == ArgumentOutOfRange("targetBitDepth")
    {
      if targetBitDepth != 1 && targetBitDepth != 2 && targetBitDepth != 4 && targetBitDepth != 8 && targetBitDepth != 16 then
        Err(ArgumentOutOfRange("targetBitDepth"))
      else
        Ok(())
    }

    /**
     * The first loop of UnpackPixels: `bytesToRead` bytes from `src` or-ed
     * into a long, byte i shifted left by `56 - i * 8`; also returns the
     * advanced `src`.
     */
    method GatherGroup(src: nat, bytesToRead: nat) returns (packedColors: nat, p: nat)
      requires bytesToRead <= 8 && src + bytesToRead <= |RawData|
      ensures p == src + bytesToRead
      ensures packedColors == PackedColors(RawData[src..p])
    {
      packedColors := 0;
      p := src;
      var i := 0;
      while i < bytesToRead
        invariant 0 <= i <= bytesToRead && p == src + i
        invariant packedColors == PackedColors(RawData[src..p])
      {
        PackedColorsNext(RawData, src, p, i);
        packedColors := Or(Shl(RawData[p] as nat, 56 - i * 8), packedColors, 64);
        p := p + 1;
        i := i + 1;
      }
    }

    /**
     * The shift and mask of the second loop of UnpackPixels: pixel i of the
     * group is `(packedColors << i * bitDepth) & mask` shifted down unsigned
     * by `64 - bitDepth`, which `indices` say is palette index `indices[i]`.
     */
    method CutPixel(ghost indices: seq<nat>, packedColors: nat, d: nat, i: nat) returns (pixel: int32)
      requires d <= 64 && i < |indices|
      requires forall k {:trigger PixelOf(packedColors, k, d)} | 0 <= k < |indices| :: PixelOf(packedColors, k, d) == indices[k] < 0x100
      ensures pixel as int == indices[i] && 0 <= pixel < 0x100
    {
      pixel := PixelOf(packedColors, i, d) as int32;
    }

    /**
     * The second loop of UnpackPixels: pixel i of the group, cut out of
     * `packedColors`, looked up in the palette and the transparency map and
     * stored in slot i; `indices` are those pixels.
     */
    method LookUpGroup(ghost indices: seq<nat>, packedColors: nat, n: nat, d: nat, colors: array<int32>, alphas: array<byte>)
      returns (r: Result<()>)
      requires Pallette.Valid() && TransparencyMap.Valid() && d <= 64 && |indices| == n <= 8
      requires forall k {:trigger PixelOf(packedColors, k, d)} | 0 <= k < |indices| :: PixelOf(packedColors, k, d) == indices[k] < 0x100
      requires colors.Length == 8 && alphas.Length == 8
      requires colors != Pallette.palletteEntries && alphas != TransparencyMap.transparencyMapEntries
      modifies colors, alphas
      ensures r.Ok? <==> InTables(indices, Pallette.PalletteSize as int, TransparencyMap.TransparencyMapSize as int)
      ensures r.Err? ==> r.error == IndexOutOfRange
      ensures r.Ok? ==> LookedUp(indices, colors[..], alphas[..], Pallette.palletteEntries[..], TransparencyMap.transparencyMapEntries[..])
    {
      ghost var entries, alphaTable := Pallette.palletteEntries[..], TransparencyMap.transparencyMapEntries[..];
      ghost var ps, ms := Pallette.PalletteSize as int, TransparencyMap.TransparencyMapSize as int;
      var j := 0;
      while j < n
        invariant 0 <= j <= n
        invariant Pallette.palletteEntries[..] == entries && TransparencyMap.transparencyMapEntries[..] == alphaTable
        invariant InTables(indices[..j], ps, ms)
        invariant LookedUp(indices[..j], colors[..], alphas[..], entries, alphaTable)
      {
        var pixel := CutPixel(indices, packedColors, d, j);
        var color := Pallette.GetPackedColor(pixel);
        if color.Err? {
          NotInTables(indices, j, ps, ms);
          return Err(color.error);
        }
        var alpha := TransparencyMap.Get(pixel);
        if alpha.Err? {
          NotInTables(indices, j, ps, ms);
          return Err(alpha.error);
        }
        ghost var c0, a0 := colors[..], alphas[..];
        colors[j] := color.value;
        alphas[j] := alpha.value;
        assert colors[..] == c0[j := color.value];
        assert alphas[..] == a0[j := alpha.value];
        LookUpStep(indices, j, ps, ms, c0, a0, entries, alphaTable);
        j := j + 1;
      }
      assert indices[..j] == indices;
      r := Ok(());
    }

    /**
     * `UnpackPixels`: reads the bytes of the next `pixelsToUnpack` pixels
     * from byte `src` into a long, most significant byte first, then cuts
     * pixel i out of it with a shift and a mask and looks its index up in
     * the palette and the transparency map. Returns where the next group
     * starts (the advanced `ref src`), or the lookup's exception.
     */
    method UnpackPixels(bitDepth: int32, src: nat, pixelsToUnpack: int32, colors: array<int32>, alphas: array<byte>)
      returns (r: Result<nat>)
      requires Valid() && IndexedDepth(bitDepth) && 1 <= pixelsToUnpack <= 8
      requires src + BytesFor(pixelsToUnpack as nat, bitDepth as nat) <= |RawData|
      requires colors.Length == 8 && alphas.Length == 8
      requires colors != Pallette.palletteEntries && alphas != TransparencyMap.transparencyMapEntries
      modifies colors, alphas
      ensures Pallette.palletteEntries[..] == old(Pallette.palletteEntries[..])
      ensures TransparencyMap.transparencyMapEntries[..] == old(TransparencyMap.transparencyMapEntries[..])
      ensures r.Ok? <==> InTables(GroupIndices(RawData, src, pixelsToUnpack as nat, bitDepth as nat, pixelsToUnpack as nat),
                                  Pallette.PalletteSize as int, TransparencyMap.TransparencyMapSize as int)
      ensures r.Err? ==> r.error == IndexOutOfRange
      ensures r.Ok? ==> r.value == src + BytesFor(pixelsToUnpack as nat, bitDepth as nat)
      ensures r.Ok? ==> LookedUp(GroupIndices(RawData, src, pixelsToUnpack as nat, bitDepth as nat, pixelsToUnpack as nat),
                                 colors[..], alphas[..], Pallette.palletteEntries[..], TransparencyMap.transparencyMapEntries[..])
    {
      var d, n := bitDepth as nat, pixelsToUnpack as nat;
      var bytesToRead := BytesFor(n, d);
      GroupBounds(n, d, 0);
      var packedColors, p := GatherGroup(src, bytesToRead);
      ghost var indices := GroupIndices(RawData, src, n, d, n);
      forall i | 0 <= i < n
        ensures PixelOf(packedColors, i, d) == indices[i] < 0x100
      {
        ExtractIsGroupPixel(RawData, src, p, n, d, i, packedColors);
      }
      var found := LookUpGroup(indices, packedColors, n, d, colors, alphas);
      if found.Err? {
        return Err(found.error);
      }
      r := Ok(p);
    }

    /**
     * The start shared by `ConvertToGrayscaleAlphaImageSource` and
     * `ConvertToTruecolor`: a zeroed `byte[Width * Height * bytesPerPixel]`
     * and the eight-slot `colors` and `alphas`, filled in by the loop over
     * the groups; an exception of that loop ends the conversion.
     */
    method ConvertPixels(l: Layout) returns (r: Result<seq<byte>>)
      requires Valid() && Supported(l) && Fits(l)
      ensures r == Output(l)
    {
      var d, n := BitDepth as nat, Width as nat * Height as nat;
      var target := new byte[n * BytesPerPixel(l)](_ => 0);
      var colors := new int32[8](_ => 0);
      var alphas := new byte[8](_ => 0);
      var written := ConvertGroups(l, d, n, target, colors, alphas);
      if written.Err? {
        return Err(written.error);
      }
      r := Ok(target[..]);
    }

    /**
     * One round of the `while (remainder > 0)` loop: the next group of at
     * most eight pixels, the pixels from number c == 8 * g on, unpacked at
     * byte `src` == g * d and written from offset `at` of the target. Returns
     * the loop's variables advanced past the group, for which the loop's
     * invariant holds again; a failed lookup is the conversion's exception.
     */
    method ConvertGroup(l: Layout, bytesPerPixel: nat, d: nat, n: nat, ghost c: nat, ghost g: nat,
                        remainder: nat, src: nat, at: nat, target: array<byte>, colors: array<int32>, alphas: array<byte>,
                        ghost entries: seq<int32>, ghost alphaTable: seq<byte>)
      returns (r: Result<()>, remainderNext: nat, srcNext: nat, atNext: nat, ghost cNext: nat, ghost gNext: nat)
      requires Valid() && Supported(l) && d == BitDepth as nat && BytesFor(n, d) <= |RawData| && remainder > 0
      requires colors.Length == 8 && alphas.Length == 8 && target != alphas
      requires colors != Pallette.palletteEntries && alphas != TransparencyMap.transparencyMapEntries
      requires target != TransparencyMap.transparencyMapEntries
      requires Pallette.palletteEntries[..] == entries && TransparencyMap.transparencyMapEntries[..] == alphaTable
      requires Progress(l, RawData, d, n, c, g, remainder, src, at, bytesPerPixel, entries, alphaTable, target[..])
      modifies target, colors, alphas
      ensures Pallette.palletteEntries[..] == entries && TransparencyMap.transparencyMapEntries[..] == alphaTable
      ensures r.Err? ==> Converted(l, RawData, d, n, entries, alphaTable) == Err(r.error)
      ensures r.Ok? ==> && remainderNext == remainder - (if remainder >= 8 then 8 else remainder)
                        && cNext == c + (if remainder >= 8 then 8 else remainder)
                        && gNext == g + 1
                        && Progress(l, RawData, d, n, cNext, gNext, remainderNext, srcNext, atNext, bytesPerPixel,
                                    entries, alphaTable, target[..])
    {
      var pixelsToUnpack := if remainder >= 8 then 8 else remainder;
      cNext, gNext := c + pixelsToUnpack, g + 1;
      GroupSpan(g, pixelsToUnpack, d, n);
      var unpacked := UnpackPixels(BitDepth, src, pixelsToUnpack as int32, colors, alphas);
      if unpacked.Err? {
        GroupMissing(RawData, d, n, g, c, src, pixelsToUnpack, entries, alphaTable);
        return Err(unpacked.error), remainder, src, at, cNext, gNext;
      }
      GroupFound(RawData, d, n, g, c, cNext, src, pixelsToUnpack, colors[..], alphas[..], entries, alphaTable);
      remainderNext, srcNext, atNext := StoreGroup(l, bytesPerPixel, RawData, d, n, c, g, remainder, src, at, cNext, gNext, unpacked.value,
                                                   target, colors[..], alphas[..], entries, alphaTable);
      r := Ok(());
    }

    /**
     * The `while (remainder > 0)` loop of a conversion: the n pixels unpacked
     * in groups of up to eight, each group's pixels written one after the
     * other into the zeroed target; the first failed lookup ends it with its
     * exception.
     */
    method ConvertGroups(l: Layout, d: nat, n: nat, target: array<byte>, colors: array<int32>, alphas: array<byte>)
      returns (r: Result<()>)
      requires Valid() && Supported(l) && d == BitDepth as nat && BytesFor(n, d) <= |RawData|
      requires target.Length == n * BytesPerPixel(l) && forall k | 0 <= k < target.Length :: target[k] == 0
      requires colors.Length == 8 && alphas.Length == 8 && target != alphas
      requires colors != Pallette.palletteEntries && alphas != TransparencyMap.transparencyMapEntries
      requires target != TransparencyMap.transparencyMapEntries
      modifies target, colors, alphas
      ensures Converted(l, RawData, d, n, Pallette.palletteEntries[..], TransparencyMap.transparencyMapEntries[..])
              == if r.Ok? then Ok(target[..]) else Err(r.error)
    {
      ghost var entries, alphaTable := Pallette.palletteEntries[..], TransparencyMap.transparencyMapEntries[..];
      var bytesPerPixel := BytesPerPixel(l);
      ConvertStart(l, bytesPerPixel, RawData, d, n, entries, alphaTable, target[..]);
      var remainder: nat, src: nat, at: nat := n, 0, 0;
      ghost var c: nat, g: nat := 0, 0;
      while remainder > 0
        invariant Pallette.palletteEntries[..] == entries && TransparencyMap.transparencyMapEntries[..] == alphaTable
        invariant Progress(l, RawData, d, n, c, g, remainder, src, at, bytesPerPixel, entries, alphaTable, target[..])
      {
        var unpacked, remainderNext, srcNext, atNext, cNext, gNext :=
          ConvertGroup(l, bytesPerPixel, d, n, c, g, remainder, src, at, target, colors, alphas, entries, alphaTable);
        if unpacked.Err? {
          return Err(unpacked.error);
        }
        remainder, src, at := remainderNext, srcNext, atNext;
        c, g := cNext, gNext;
      }
      ConvertEnd(l, bytesPerPixel, RawData, d, n, c, g, src, at, entries, alphaTable, target[..]);
      r := Ok(());
    }

    /**
     * What the caller must guarantee before converting to a layout: `Width *
     * Height * bytesPerPixel` within `int`, whose product the source does not
     * check, and image data covering every pixel, which the source reads
     * through a raw pointer without a bound.
     */
    predicate Fits(l: Layout)
      requires Supported(l) && IndexedDepth(BitDepth) && Width > 0 && Height > 0
    {
      && Width as int * Height as int * BytesPerPixel(l) <= INT32_MAX
      && BytesFor(Width as nat * Height as nat, BitDepth as nat) <= |RawData|
    }

    /** The bytes a conversion to l produces from this image's pixels, palette and transparency map. */
    ghost function Output(l: Layout): Result<seq<byte>>
      reads Pallette, Pallette.palletteEntries, TransparencyMap, TransparencyMap.transparencyMapEntries
      requires Valid() && Supported(l)
      requires Fits(l)
    {
      Converted(l, RawData, BitDepth as nat, Width as nat * Height as nat,
                Pallette.palletteEntries[..], TransparencyMap.transparencyMapEntries[..])
    }

    /**
     * `ConvertToGrayscaleAlphaImageSource`: a depth other than 8 or 16 is out
     * of range; otherwise the conversion's bytes in a new grayscale-alpha
     * source of that depth, or the exception of a failed lookup.
     */
    method ConvertToGrayscaleAlphaImageSource(targetBitDepth: int32, gray: (byte, byte, byte) -> byte)
      returns (r: Result<ImageSource>)
      requires Valid()
      requires Supported(GrayscaleAlphaLayout(targetBitDepth, gray)) ==> Fits(GrayscaleAlphaLayout(targetBitDepth, gray))
      ensures targetBitDepth != 8 && targetBitDepth != 16 ==> r == Err(ArgumentOutOfRange("targetBitDepth"))
      ensures targetBitDepth == 8 || targetBitDepth == 16 ==>
                var out := Output(GrayscaleAlphaLayout(targetBitDepth, gray));
                && (r.Ok? <==> out.Ok?)
                && (r.Ok? ==> r.value == GrayscaleAlphaImageSource(targetBitDepth, out.value))
                && (r.Err? ==> r.error == out.error)
    {
      if targetBitDepth != 8 && targetBitDepth != 16 {
        return Err(ArgumentOutOfRange("targetBitDepth"));
      }
      var targetData := ConvertPixels(GrayscaleAlphaLayout(targetBitDepth, gray));
      if targetData.Err? {
        return Err(targetData.error);
      }
      r := Ok(GrayscaleAlphaImageSource(targetBitDepth, targetData.value));
    }

    /**
     * `ConvertToTruecolor`: a depth other than 8 or 16 is out of range;
     * otherwise the conversion's bytes in a new truecolor source of that
     * depth, with alpha or without, or the exception of a failed lookup.
     */
    method ConvertToTruecolor(targetBitDepth: int32, includeAlpha: bool, fromPacked: (int32, byte) -> Colors.Color)
      returns (r: Result<ImageSource>)
      requires Valid()
      requires Supported(TruecolorLayout(targetBitDepth, includeAlpha, fromPacked)) ==>
                 Fits(TruecolorLayout(targetBitDepth, includeAlpha, fromPacked))
      ensures targetBitDepth != 8 && targetBitDepth != 16 ==> r == Err(ArgumentOutOfRange("targetBitDepth"))
      ensures targetBitDepth == 8 || targetBitDepth == 16 ==>
                var out := Output(TruecolorLayout(targetBitDepth, includeAlpha, fromPacked));
                && (r.Ok? <==> out.Ok?)
                && (r.Ok? && !includeAlpha ==> r.value == TruecolorImageSource(targetBitDepth, out.value))
                && (r.Ok? && includeAlpha ==> r.value == TruecolorAlphaImageSource(targetBitDepth, out.value))
                && (r.Err? ==> r.error == out.error)
    {
      if targetBitDepth != 8 && targetBitDepth != 16 {
        return Err(ArgumentOutOfRange("targetBitDepth"));
      }
      var targetData := ConvertPixels(TruecolorLayout(targetBitDepth, includeAlpha, fromPacked));
      if targetData.Err? {
        return Err(targetData.error);
      }
      if !includeAlpha {
        r := Ok(TruecolorImageSource(targetBitDepth, targetData.value));
      } else {
        r := Ok(TruecolorAlphaImageSource(targetBitDepth, targetData.value));
      }
    }

    /** `ConvertToTruecolorImageSource`: ConvertToTruecolor without alpha. */
    method ConvertToTruecolorImageSource(targetBitDepth: int32, fromPacked: (int32, byte) -> Colors.Color)
      returns (r: Result<ImageSource>)
      requires Valid()
      requires Supported(TruecolorLayout(targetBitDepth, false, fromPacked)) ==> Fits(TruecolorLayout(targetBitDepth, false, fromPacked))
      ensures targetBitDepth != 8 && targetBitDepth != 16 ==> r == Err(ArgumentOutOfRange("targetBitDepth"))
      ensures targetBitDepth == 8 || targetBitDepth == 16 ==>
                var out := Output(TruecolorLayout(targetBitDepth, false, fromPacked));
                && (r.Ok? <==> out.Ok?)
                && (r.Ok? ==> r.value == TruecolorImageSource(targetBitDepth, out.value))
                && (r.Err? ==> r.error == out.error)
    {
      r := ConvertToTruecolor(targetBitDepth, false, fromPacked);
    }

    /** `ConvertToTruecolorAlphaImageSource`: ConvertToTruecolor with alpha. */
    method ConvertToTruecolorAlphaImageSource(targetBitDepth: int32, fromPacked: (int32, byte) -> Colors.Color)
      returns (r: Result<ImageSource>)
      requires Valid()
      requires Supported(TruecolorLayout(targetBitDepth, true, fromPacked)) ==> Fits(TruecolorLayout(targetBitDepth, true, fromPacked))
      ensures targetBitDepth != 8 && targetBitDepth != 16 ==> r == Err(ArgumentOutOfRange("targetBitDepth"))
      ensures targetBitDepth == 8 || targetBitDepth == 16 ==>
                var out := Output(TruecolorLayout(targetBitDepth, true, fromPacked));
                && (r.Ok? <==> out.Ok?)
                && (r.Ok? ==> r.value == TruecolorAlphaImageSource(targetBitDepth, out.value))
                && (r.Err? ==> r.error == out.error)
    {
      r := ConvertToTruecolor(targetBitDepth, true, fromPacked);
    }
  }

  /**
   * The invariant of the `while (remainder > 0)` loop: c of the n pixels
   * done and `remainder` left, `at` the offset of pixel c in the target and,
   * while pixels are left, `src` the byte of group g, where pixel c == 8 * g
   * starts; the first c indices found in both tables, and the target
   * holding their bytes followed by the zeros `new byte[…]` left.
   */
  ghost predicate Progress(l: Layout, raw: seq<byte>, d: nat, n: nat, c: nat, g: nat, remainder: nat, src: nat, at: int, b: nat,
                           entries: seq<int32>, alphaTable: seq<byte>, t: seq<byte>)
    requires Supported(l) && IsDepth(d) && BytesFor(n, d) <= |raw|
  {
    && b == BytesPerPixel(l) && c + remainder == n && at == c * b
    && (remainder > 0 ==> c == 8 * g && src == g * d)
    && FoundUpTo(raw, d, n, c, entries, alphaTable)
    && t == Expand(l, Pixels(raw, d, n, c, entries, alphaTable)) + Zeros(remainder * b)
  }

  /**
   * The rest of a round once a group is looked up: its pixels written one
   * after the other from offset `at`, then `remainder` and the target offset
   * advanced past them, `src` already advanced by UnpackPixels.
   */
  method StoreGroup(l: Layout, b: nat, raw: seq<byte>, d: nat, n: nat, ghost c: nat, ghost g: nat, remainder: nat, src: nat, at: nat,
                    ghost cNext: nat, ghost gNext: nat, next: nat, target: array<byte>, colors: seq<int32>, alphas: seq<byte>,
                    ghost entries: seq<int32>, ghost alphaTable: seq<byte>)
    returns (remainderNext: nat, srcNext: nat, atNext: nat)
    requires Supported(l) && IsDepth(d) && BytesFor(n, d) <= |raw| && remainder > 0
    requires Progress(l, raw, d, n, c, g, remainder, src, at, b, entries, alphaTable, target[..])
    requires cNext == c + (if remainder >= 8 then 8 else remainder) && gNext == g + 1
    requires next == src + BytesFor(if remainder >= 8 then 8 else remainder, d)
    requires |colors| == 8 && |alphas| == 8
    requires FoundUpTo(raw, d, n, cNext, entries, alphaTable)
    requires Pixels(raw, d, n, cNext, entries, alphaTable)
             == Pixels(raw, d, n, c, entries, alphaTable) + Group(colors, alphas, if remainder >= 8 then 8 else remainder)
    modifies target
    ensures remainderNext == remainder - (if remainder >= 8 then 8 else remainder)
    ensures Progress(l, raw, d, n, cNext, gNext, remainderNext, srcNext, atNext, b, entries, alphaTable, target[..])
  {
    var pixelsToUnpack := if remainder >= 8 then 8 else remainder;
    var group := Group(colors, alphas, pixelsToUnpack);
    ghost var done := Expand(l, Pixels(raw, d, n, c, entries, alphaTable));
    remainderNext := remainder - pixelsToUnpack;
    ReadyToWrite(l, raw, d, n, c, g, remainder, remainderNext, src, at, b, entries, alphaTable, target[..], group);
    WriteGroup(l, target, at, group, done, remainder * b, remainderNext * b);
    MulLe(0, pixelsToUnpack, b);
    srcNext, atNext := next, at + pixelsToUnpack * b;
    NextProgress(l, raw, d, n, c, g, gNext, remainder, src, at, b, pixelsToUnpack,
                 cNext, remainderNext, srcNext, atNext, entries, alphaTable, group, target[..]);
  }

  /** Where the group's bytes go: right after those of the c pixels done, over the zeros left for the rest. */
  lemma ReadyToWrite(l: Layout, raw: seq<byte>, d: nat, n: nat, c: nat, g: nat, remainder: nat, remainderNext: nat,
                     src: nat, at: int, b: nat, entries: seq<int32>, alphaTable: seq<byte>, t: seq<byte>, group: seq<PackedPixel>)
    requires Supported(l) && IsDepth(d) && BytesFor(n, d) <= |raw| && |group| <= remainder && remainderNext == remainder - |group|
    requires Progress(l, raw, d, n, c, g, remainder, src, at, b, entries, alphaTable, t)
    ensures |Expand(l, Pixels(raw, d, n, c, entries, alphaTable))| == at && at + remainder * b == |t|
    ensures |group| * BytesPerPixel(l) <= remainder * b
    ensures remainderNext * b == remainder * b - |group| * BytesPerPixel(l)
    ensures t == Expand(l, Pixels(raw, d, n, c, entries, alphaTable)) + Zeros(remainder * b)
  {
    GroupWindow(c, remainder, n, |group|, b);
    DoneLength(l, raw, d, n, c, entries, alphaTable, remainder);
  }

  /** The invariant again after the m pixels of a group are written. */
  lemma NextProgress(l: Layout, raw: seq<byte>, d: nat, n: nat, c: nat, g: nat, gNext: nat, remainder: nat, src: nat, at: int, b: nat,
                     m: nat, cNext: nat, remainderNext: nat, srcNext: nat, atNext: int,
                     entries: seq<int32>, alphaTable: seq<byte>, group: seq<PackedPixel>, t: seq<byte>)
    requires Supported(l) && IsDepth(d) && BytesFor(n, d) <= |raw|
    requires b == BytesPerPixel(l) && c + remainder == n && at == c * b && c == 8 * g && src == g * d && gNext == g + 1
    requires remainder > 0 && m == (if remainder >= 8 then 8 else remainder)
    requires cNext == c + m && remainderNext == remainder - m && srcNext == src + BytesFor(m, d) && atNext == at + m * b
    requires FoundUpTo(raw, d, n, c, entries, alphaTable) && FoundUpTo(raw, d, n, cNext, entries, alphaTable)
    requires Pixels(raw, d, n, cNext, entries, alphaTable) == Pixels(raw, d, n, c, entries, alphaTable) + group
    requires t == Expand(l, Pixels(raw, d, n, c, entries, alphaTable)) + Expand(l, group) + Zeros(remainderNext * b)
    ensures Progress(l, raw, d, n, cNext, gNext, remainderNext, srcNext, atNext, b, entries, alphaTable, t)
  {
    NextCounters(d, n, c, g, gNext, remainder, src, at, b, m, cNext, remainderNext, srcNext, atNext);
    NextTarget(l, Pixels(raw, d, n, c, entries, alphaTable), group, remainderNext * b, t);
  }

  /** The counters of the next round: the pixels done and left, and where the next group starts. */
  lemma NextCounters(d: nat, n: nat, c: nat, g: nat, gNext: nat, remainder: nat, src: nat, at: int, b: nat,
                     m: nat, cNext: nat, remainderNext: nat, srcNext: nat, atNext: int)
    requires IsDepth(d) && c + remainder == n && at == c * b && c == 8 * g && src == g * d && gNext == g + 1
    requires remainder > 0 && m == (if remainder >= 8 then 8 else remainder)
    requires cNext == c + m && remainderNext == remainder - m && srcNext == src + BytesFor(m, d) && atNext == at + m * b
    ensures cNext + remainderNext == n && atNext == cNext * b
    ensures remainderNext > 0 ==> cNext == 8 * gNext && srcNext == gNext * d
  {
    if m == 8 {
      NextGroupStart(g, d, src);
    }
    NextOffset(at, c, m, cNext, b);
  }

  /** The group's bytes after those of the pixels done are the bytes of both. */
  lemma NextTarget(l: Layout, done: seq<PackedPixel>, group: seq<PackedPixel>, rest: int, t: seq<byte>)
    requires Supported(l) && t == Expand(l, done) + Expand(l, group) + Zeros(rest)
    ensures t == Expand(l, done + group) + Zeros(rest)
  {
    ExpandAppend(l, done, group);
  }

  /** The offset of pixel c, moved on by m pixels of b bytes, is the offset of pixel c + m. */
  lemma NextOffset(at: int, c: nat, m: nat, cNext: nat, b: nat)
    requires at == c * b && cNext == c + m
    ensures at + m * b == cNext * b
  {
  }

  /** Before the first group: nothing found, and the target all zeros. */
  lemma ConvertStart(l: Layout, b: nat, raw: seq<byte>, d: nat, n: nat, entries: seq<int32>, alphaTable: seq<byte>, t: seq<byte>)
    requires Supported(l) && b == BytesPerPixel(l) && IsDepth(d) && BytesFor(n, d) <= |raw|
    requires |t| == n * b && forall k | 0 <= k < |t| :: t[k] == 0
    ensures Progress(l, raw, d, n, 0, 0, n, 0, 0, b, entries, alphaTable, t)
  {
    AllZeros(t);
    assert Pixels(raw, d, n, 0, entries, alphaTable) == [];
  }

  /** After the last group: every pixel found, and the target holds the conversion. */
  lemma ConvertEnd(l: Layout, b: nat, raw: seq<byte>, d: nat, n: nat, c: nat, g: nat, src: nat, at: int,
                   entries: seq<int32>, alphaTable: seq<byte>, t: seq<byte>)
    requires Supported(l) && IsDepth(d) && BytesFor(n, d) <= |raw|
    requires Progress(l, raw, d, n, c, g, 0, src, at, b, entries, alphaTable, t)
    ensures Converted(l, raw, d, n, entries, alphaTable) == Ok(t)
  {
    NoZeros(0, b);
    assert c == n;
    var e := Expand(l, Pixels(raw, d, n, n, entries, alphaTable));
    assert t == e + [];
    assert t == e;
    assert Converted(l, raw, d, n, entries, alphaTable) == Ok(e);
  }

  lemma NoZeros(k: nat, b: nat)
    requires k == 0
    ensures Zeros(k * b) == []
  {
  }

  /** Every index is an entry of both tables. */
  predicate InTables(indices: seq<nat>, palletteSize: int, mapSize: int)
  {
    forall k | 0 <= k < |indices| :: indices[k] < palletteSize && indices[k] < mapSize
  }

  /** Slot k of `colors` and `alphas` holds what the palette and the map store at index k. */
  predicate LookedUp(indices: seq<nat>, colors: seq<int32>, alphas: seq<byte>, entries: seq<int32>, alphaTable: seq<byte>)
  {
    && |indices| <= |colors| && |indices| <= |alphas|
    && forall k | 0 <= k < |indices| ::
         indices[k] < |entries| && indices[k] < |alphaTable|
         && colors[k] == entries[indices[k]] && alphas[k] == alphaTable[indices[k]]
  }

  /** One more index found in both tables, and its slot filled in. */
  lemma LookUpStep(indices: seq<nat>, j: nat, ps: int, ms: int, colors: seq<int32>, alphas: seq<byte>,
                   entries: seq<int32>, alphaTable: seq<byte>)
    requires j < |indices| && j < |colors| && j < |alphas|
    requires indices[j] < ps && indices[j] < ms && indices[j] < |entries| && indices[j] < |alphaTable|
    requires InTables(indices[..j], ps, ms) && LookedUp(indices[..j], colors, alphas, entries, alphaTable)
    ensures InTables(indices[..j + 1], ps, ms)
    ensures LookedUp(indices[..j + 1], colors[j := entries[indices[j]]], alphas[j := alphaTable[indices[j]]], entries, alphaTable)
  {
    assert forall k | 0 <= k < j :: indices[..j + 1][k] == indices[..j][k];
  }

  /** An index missing from either table makes the whole group fail. */
  lemma NotInTables(indices: seq<nat>, j: nat, ps: int, ms: int)
    requires j < |indices| && !(indices[j] < ps && indices[j] < ms)
    ensures !InTables(indices, ps, ms)
  {
  }

  /** The palette indices of the first `count` pixels of a group of n unpacked at byte `src`. */
  function GroupIndices(raw: seq<byte>, src: nat, n: nat, d: nat, count: nat): (s: seq<nat>)
    requires IsDepth(d) && 1 <= n <= 8 && count <= n && src + BytesFor(n, d) <= |raw|
    ensures |s| == count
  {
    if count == 0 then [] else GroupIndices(raw, src, n, d, count - 1) + [GroupPixel(raw, src, n, d, count - 1)]
  }

  lemma {:induction false} GroupIndexAt(raw: seq<byte>, src: nat, n: nat, d: nat, count: nat, i: nat)
    requires IsDepth(d) && 1 <= n <= 8 && i < count <= n && src + BytesFor(n, d) <= |raw|
    ensures GroupIndices(raw, src, n, d, count)[i] == GroupPixel(raw, src, n, d, i)
    decreases count
  {
    if i < count - 1 {
      GroupIndexAt(raw, src, n, d, count - 1, i);
    }
  }

  /** Pixel p of an image of n pixels lies inside the bytes those n pixels take. */
  lemma PixelInData(p: nat, n: nat, d: nat)
    requires IsDepth(d) && p < n
    ensures (p * d) / 8 < BytesFor(n, d)
  {
    MulLe(p + 1, n, d);
    assert (p + 1) * d == p * d + d;
  }

  /** The palette index of pixel p of an image of n pixels whose data covers them all. */
  function PixelIndex(raw: seq<byte>, d: nat, n: nat, p: nat): nat
    requires IsDepth(d) && p < n && BytesFor(n, d) <= |raw|
  {
    PixelInData(p, n, d);
    PixelAt(raw, p, d)
  }

  /** The first k pixel indices are entries of both tables. */
  predicate FoundUpTo(raw: seq<byte>, d: nat, n: nat, k: nat, entries: seq<int32>, alphaTable: seq<byte>)
    requires IsDepth(d) && k <= n && BytesFor(n, d) <= |raw|
  {
    forall p | 0 <= p < k :: PixelIndex(raw, d, n, p) < |entries| && PixelIndex(raw, d, n, p) < |alphaTable|
  }

  /** The color and alpha of each of the first k pixels, looked up in the palette and the transparency map. */
  function Pixels(raw: seq<byte>, d: nat, n: nat, k: nat, entries: seq<int32>, alphaTable: seq<byte>): (ps: seq<PackedPixel>)
    requires IsDepth(d) && k <= n && BytesFor(n, d) <= |raw| && FoundUpTo(raw, d, n, k, entries, alphaTable)
    ensures |ps| == k
  {
    seq(k, p requires 0 <= p < k => (entries[PixelIndex(raw, d, n, p)], alphaTable[PixelIndex(raw, d, n, p)]))
  }

  /**
   * What a conversion of the n pixels of raw produces in layout l: every
   * pixel's bytes in order, or the IndexOutOfRangeException of the first
   * lookup past the end of the palette or the map.
   */
  function Converted(l: Layout, raw: seq<byte>, d: nat, n: nat, entries: seq<int32>, alphaTable: seq<byte>): Result<seq<byte>>
    requires Supported(l) && IsDepth(d) && BytesFor(n, d) <= |raw|
  {
    if FoundUpTo(raw, d, n, n, entries, alphaTable) then Ok(Expand(l, Pixels(raw, d, n, n, entries, alphaTable)))
    else Err(IndexOutOfRange)
  }

  /**
   * The output of a successful conversion has BytesPerPixel bytes per pixel,
   * and pixel p's bytes, at offset p * BytesPerPixel, are those of the
   * palette color and alpha its index selects.
   */
  lemma ConvertedLayout(l: Layout, raw: seq<byte>, d: nat, n: nat, entries: seq<int32>, alphaTable: seq<byte>, p: nat)
    requires Supported(l) && IsDepth(d) && BytesFor(n, d) <= |raw| && p < n
    requires Converted(l, raw, d, n, entries, alphaTable).Ok?
    ensures var out := Converted(l, raw, d, n, entries, alphaTable).value;
            var b := BytesPerPixel(l);
            var ix := PixelIndex(raw, d, n, p);
            && |out| == n * b
            && ix < |entries| && ix < |alphaTable|
            && 0 <= p * b && p * b + b <= |out|
            && out[p * b..p * b + b] == PixelBytes(l, (entries[ix], alphaTable[ix]))
  {
    var ps := Pixels(raw, d, n, n, entries, alphaTable);
    MulLe(0, p, BytesPerPixel(l));
    ExpandAt(l, ps, p);
  }

  /** A conversion fails exactly when some pixel's index is past the end of the palette or the map. */
  lemma ConvertedFails(l: Layout, raw: seq<byte>, d: nat, n: nat, entries: seq<int32>, alphaTable: seq<byte>)
    requires Supported(l) && IsDepth(d) && BytesFor(n, d) <= |raw|
    ensures Converted(l, raw, d, n, entries, alphaTable).Err? <==>
            exists p | 0 <= p < n :: PixelIndex(raw, d, n, p) >= |entries| || PixelIndex(raw, d, n, p) >= |alphaTable|
    ensures Converted(l, raw, d, n, entries, alphaTable).Err? ==>
            Converted(l, raw, d, n, entries, alphaTable).error == IndexOutOfRange
  {
  }

  /** What the 16-bit conversion writes is what the 8-bit one writes, with a zero high byte before each sample. */
  lemma ConvertedSixteen(l: Layout, raw: seq<byte>, d: nat, n: nat, entries: seq<int32>, alphaTable: seq<byte>)
    requires l.depth == 16 && IsDepth(d) && BytesFor(n, d) <= |raw|
    ensures Converted(l, raw, d, n, entries, alphaTable).Ok? <==> Converted(AtDepthEight(l), raw, d, n, entries, alphaTable).Ok?
    ensures Converted(l, raw, d, n, entries, alphaTable).Ok? ==>
            Converted(l, raw, d, n, entries, alphaTable).value
            == Widen(Converted(AtDepthEight(l), raw, d, n, entries, alphaTable).value)
  {
    if FoundUpTo(raw, d, n, n, entries, alphaTable) {
      SixteenIsWidenedEight(l, Pixels(raw, d, n, n, entries, alphaTable));
    }
  }

  /** The palette color and alpha each index selects, in order. */
  function LookUp(indices: seq<nat>, entries: seq<int32>, alphaTable: seq<byte>): (ps: seq<PackedPixel>)
    requires forall i | 0 <= i < |indices| :: indices[i] < |entries| && indices[i] < |alphaTable|
    ensures |ps| == |indices|
    ensures forall i | 0 <= i < |indices| :: ps[i] == (entries[indices[i]], alphaTable[indices[i]])
  {
    seq(|indices|, i requires 0 <= i < |indices| => (entries[indices[i]], alphaTable[indices[i]]))
  }

  /** Data whose n pixels have the given indices, all inside both tables, converts to the bytes of what they select. */
  lemma ConvertedIndices(l: Layout, raw: seq<byte>, d: nat, n: nat, indices: seq<nat>, entries: seq<int32>, alphaTable: seq<byte>)
    requires Supported(l) && IsDepth(d) && BytesFor(n, d) <= |raw| && |indices| == n
    requires forall p | 0 <= p < n :: PixelIndex(raw, d, n, p) == indices[p]
    requires forall i | 0 <= i < n :: indices[i] < |entries| && indices[i] < |alphaTable|
    ensures Converted(l, raw, d, n, entries, alphaTable) == Ok(Expand(l, LookUp(indices, entries, alphaTable)))
  {
    assert Pixels(raw, d, n, n, entries, alphaTable) == LookUp(indices, entries, alphaTable);
  }

  /**
   * Pixel p of data of depth d: the d bits of byte `at` == p * d / 8 that
   * sit `shift` bits above its lowest one, for that byte x, 2^shift s and
   * 2^d m.
   */
  lemma IndexAt(raw: seq<byte>, d: nat, n: nat, p: nat, at: nat, shift: nat, x: nat, s: nat, m: nat)
    requires IsDepth(d) && p < n && BytesFor(n, d) <= |raw|
    requires at == p * d / 8 && shift == 8 - d - p * d % 8
    requires x == raw[at] as nat && s == Pow2(shift) && m == Pow2(d)
    ensures PixelIndex(raw, d, n, p) == (x / s) % m
  {
  }

  /** The image data of nine pixels the package's tests convert at depths 1, 2 and 8, and the palette indices each holds. */
  const OneBitTestData: seq<byte> := [0xD8, 0x80]
  const OneBitTestIndices: seq<nat> := [1, 1, 0, 1, 1, 0, 0, 0, 1]
  const TwoBitTestData: seq<byte> := [0x1B, 0xE4, 0x40]
  const TwoBitTestIndices: seq<nat> := [0, 1, 2, 3, 3, 2, 1, 0, 1]
  const EightBitTestData: seq<byte> := [13, 44, 97, 93, 11, 5, 8, 9, 239]

  lemma NinePixels(p: nat)
    requires p < 9
    ensures p == 0 || p == 1 || p == 2 || p == 3 || p == 4 || p == 5 || p == 6 || p == 7 || p == 8
  {
  }

  /** 0b11011000 0b10000000 at depth 1: pixels 1, 1, 0, 1, 1, 0, 0, 0, 1. */
  lemma OneBitTestPixels(raw: seq<byte>)
    requires raw == OneBitTestData
    ensures forall p | 0 <= p < 9 :: PixelIndex(raw, 1, 9, p) == OneBitTestIndices[p]
  {
    OneBitHead(raw);
    OneBitMiddle(raw);
    OneBitTail(raw);
    forall p | 0 <= p < 9
      ensures PixelIndex(raw, 1, 9, p) == OneBitTestIndices[p]
    {
      NinePixels(p);
    }
  }

  lemma OneBitHead(raw: seq<byte>)
    requires raw == OneBitTestData
    ensures PixelIndex(raw, 1, 9, 0) == 1 && PixelIndex(raw, 1, 9, 1) == 1 && PixelIndex(raw, 1, 9, 2) == 0
  {
    SmallPow2();
    IndexAt(raw, 1, 9, 0, 0, 7, 0xD8, 128, 2);
    IndexAt(raw, 1, 9, 1, 0, 6, 0xD8, 64, 2);
    IndexAt(raw, 1, 9, 2, 0, 5, 0xD8, 32, 2);
  }

  lemma OneBitMiddle(raw: seq<byte>)
    requires raw == OneBitTestData
    ensures PixelIndex(raw, 1, 9, 3) == 1 && PixelIndex(raw, 1, 9, 4) == 1 && PixelIndex(raw, 1, 9, 5) == 0
  {
    SmallPow2();
    IndexAt(raw, 1, 9, 3, 0, 4, 0xD8, 16, 2);
    IndexAt(raw, 1, 9, 4, 0, 3, 0xD8, 8, 2);
    IndexAt(raw, 1, 9, 5, 0, 2, 0xD8, 4, 2);
  }

  lemma OneBitTail(raw: seq<byte>)
    requires raw == OneBitTestData
    ensures PixelIndex(raw, 1, 9, 6) == 0 && PixelIndex(raw, 1, 9, 7) == 0 && PixelIndex(raw, 1, 9, 8) == 1
  {
    SmallPow2();
    IndexAt(raw, 1, 9, 6, 0, 1, 0xD8, 2, 2);
    IndexAt(raw, 1, 9, 7, 0, 0, 0xD8, 1, 2);
    IndexAt(raw, 1, 9, 8, 1, 7, 0x80, 128, 2);
  }

  /** 0b00011011 0b11100100 0b01000000 at depth 2: pixels 0, 1, 2, 3, 3, 2, 1, 0, 1. */
  lemma TwoBitTestPixels(raw: seq<byte>)
    requires raw == TwoBitTestData
    ensures forall p | 0 <= p < 9 :: PixelIndex(raw, 2, 9, p) == TwoBitTestIndices[p]
  {
    TwoBitHead(raw);
    TwoBitMiddle(raw);
    TwoBitTail(raw);
    forall p | 0 <= p < 9
      ensures PixelIndex(raw, 2, 9, p) == TwoBitTestIndices[p]
    {
      NinePixels(p);
    }
  }

  lemma TwoBitHead(raw: seq<byte>)
    requires raw == TwoBitTestData
    ensures PixelIndex(raw, 2, 9, 0) == 0 && PixelIndex(raw, 2, 9, 1) == 1 && PixelIndex(raw, 2, 9, 2) == 2
  {
    SmallPow2();
    IndexAt(raw, 2, 9, 0, 0, 6, 0x1B, 64, 4);
    IndexAt(raw, 2, 9, 1, 0, 4, 0x1B, 16, 4);
    IndexAt(raw, 2, 9, 2, 0, 2, 0x1B, 4, 4);
  }

  lemma TwoBitMiddle(raw: seq<byte>)
    requires raw == TwoBitTestData
    ensures PixelIndex(raw, 2, 9, 3) == 3 && PixelIndex(raw, 2, 9, 4) == 3 && PixelIndex(raw, 2, 9, 5) == 2
  {
    SmallPow2();
    IndexAt(raw, 2, 9, 3, 0, 0, 0x1B, 1, 4);
    IndexAt(raw, 2, 9, 4, 1, 6, 0xE4, 64, 4);
    IndexAt(raw, 2, 9, 5, 1, 4, 0xE4, 16, 4);
  }

  lemma TwoBitTail(raw: seq<byte>)
    requires raw == TwoBitTestData
    ensures PixelIndex(raw, 2, 9, 6) == 1 && PixelIndex(raw, 2, 9, 7) == 0 && PixelIndex(raw, 2, 9, 8) == 1
  {
    SmallPow2();
    IndexAt(raw, 2, 9, 6, 1, 2, 0xE4, 4, 4);
    IndexAt(raw, 2, 9, 7, 1, 0, 0xE4, 1, 4);
    IndexAt(raw, 2, 9, 8, 2, 6, 0x40, 64, 4);
  }

  /** At depth 8 every byte is a pixel. */
  lemma EightBitIndex(raw: seq<byte>, n: nat, p: nat)
    requires p < n && BytesFor(n, 8) <= |raw|
    ensures PixelIndex(raw, 8, n, p) == raw[p] as nat
  {
    assert p * 8 / 8 == p && p * 8 % 8 == 0;
    Pow2Values();
    IndexAt(raw, 8, n, p, p, 0, raw[p] as nat, 1, 256);
  }

  /**
   * The package's tests of the conversions to grayscale with alpha, for any
   * layout and any palette and map holding the colors they add: nine pixels
   * at depth 1, 2 or 8 convert to the bytes of the palette entries and alphas
   * their indices select, in order.
   */
  lemma OneBitTestImage(l: Layout, entries: seq<int32>, alphaTable: seq<byte>)
    requires Supported(l) && |entries| >= 2 && |alphaTable| >= 2
    ensures Converted(l, OneBitTestData, 1, 9, entries, alphaTable) == Ok(Expand(l, LookUp(OneBitTestIndices, entries, alphaTable)))
  {
    OneBitTestPixels(OneBitTestData);
    ConvertedIndices(l, OneBitTestData, 1, 9, OneBitTestIndices, entries, alphaTable);
  }

  lemma TwoBitTestImage(l: Layout, entries: seq<int32>, alphaTable: seq<byte>)
    requires Supported(l) && |entries| >= 4 && |alphaTable| >= 4
    ensures Converted(l, TwoBitTestData, 2, 9, entries, alphaTable) == Ok(Expand(l, LookUp(TwoBitTestIndices, entries, alphaTable)))
  {
    TwoBitTestPixels(TwoBitTestData);
    ConvertedIndices(l, TwoBitTestData, 2, 9, TwoBitTestIndices, entries, alphaTable);
  }

  lemma EightBitTestImage(l: Layout, entries: seq<int32>, alphaTable: seq<byte>)
    requires Supported(l) && |entries| >= 256 && |alphaTable| >= 256
    ensures Converted(l, EightBitTestData, 8, 9, entries, alphaTable) == Ok(Expand(l, LookUp(Indices(EightBitTestData), entries, alphaTable)))
  {
    forall p | 0 <= p < 9
      ensures PixelIndex(EightBitTestData, 8, 9, p) == Indices(EightBitTestData)[p]
    {
      EightBitIndex(EightBitTestData, 9, p);
    }
    ConvertedIndices(l, EightBitTestData, 8, 9, Indices(EightBitTestData), entries, alphaTable);
  }

  /** Bytes read as palette indices. */
  function Indices(raw: seq<byte>): (s: seq<nat>)
    ensures |s| == |raw| && forall p | 0 <= p < |raw| :: s[p] == raw[p] as nat
  {
    seq(|raw|, p requires 0 <= p < |raw| => raw[p] as nat)
  }

  /**
   * Pixel i of a group unpacked at byte `src`: the field at bit
   * `8 * src + i * d` of the image data.
   */
  function GroupPixel(raw: seq<byte>, src: nat, n: nat, d: nat, i: nat): (v: nat)
    requires IsDepth(d) && 1 <= n <= 8 && i < n && src + BytesFor(n, d) <= |raw|
    ensures v < 0x100
  {
    PixelInGroup(raw, src, n, d, i);
    DepthPow2(d);
    FieldAt(raw, 8 * src + i * d, d)
  }

  /**
   * A group of m pixels that starts at pixel 8 * g starts at byte g * d,
   * ends inside the data, and its pixel i is pixel 8 * g + i of the image.
   */
  lemma GroupPixelIsPixel(raw: seq<byte>, g: nat, m: nat, d: nat, n: nat, i: nat)
    requires IsDepth(d) && 1 <= m <= 8 && 8 * g + m <= n && BytesFor(n, d) <= |raw| && i < m
    ensures g * d + BytesFor(m, d) <= |raw|
    ensures GroupPixel(raw, g * d, m, d, i) == PixelIndex(raw, d, n, 8 * g + i)
  {
    GroupSpan(g, m, d, n);
    GroupBit(g, i, d);
    var bit := (8 * g + i) * d;
    GroupPixelAtBit(raw, g * d, m, d, i, bit);
    PixelIndexAtBit(raw, d, n, 8 * g + i, bit);
  }

  lemma GroupPixelAtBit(raw: seq<byte>, src: nat, m: nat, d: nat, i: nat, bit: nat)
    requires IsDepth(d) && 1 <= m <= 8 && i < m && src + BytesFor(m, d) <= |raw| && bit == 8 * src + i * d
    ensures bit / 8 < |raw| && bit % 8 + d <= 8 && GroupPixel(raw, src, m, d, i) == FieldAt(raw, bit, d)
  {
    PixelInGroup(raw, src, m, d, i);
  }

  lemma PixelIndexAtBit(raw: seq<byte>, d: nat, n: nat, p: nat, bit: nat)
    requires IsDepth(d) && p < n && BytesFor(n, d) <= |raw| && bit == p * d
    ensures bit / 8 < |raw| && bit % 8 + d <= 8 && PixelIndex(raw, d, n, p) == FieldAt(raw, bit, d)
  {
    PixelInData(p, n, d);
    FieldFits(p, d);
  }

  /** What the shift and mask of UnpackPixels cut out of the long is the group's pixel. */
  lemma ExtractIsGroupPixel(raw: seq<byte>, src: nat, p: nat, n: nat, d: nat, i: nat, packedColors: nat)
    requires IsDepth(d) && 1 <= n <= 8 && i < n && p == src + BytesFor(n, d) <= |raw|
    requires BytesFor(n, d) <= 8 && packedColors == PackedColors(raw[src..p])
    ensures PixelOf(packedColors, i, d) == GroupIndices(raw, src, n, d, n)[i]
    ensures 0 <= PixelOf(packedColors, i, d) < 0x100
  {
    PackedColorsGathered(raw[src..p]);
    GatheredPixel(raw, src, p, n, d, i, packedColors);
    GroupIndexAt(raw, src, n, d, n, i);
  }

  /** ExtractIsGroupPixel on the gathered value the first loop is proved to leave. */
  lemma GatheredPixel(raw: seq<byte>, src: nat, p: nat, n: nat, d: nat, i: nat, x: nat)
    requires IsDepth(d) && 1 <= n <= 8 && i < n && p == src + BytesFor(n, d) <= |raw|
    requires BytesFor(n, d) <= 8 && x == Gathered(raw[src..p], 64)
    ensures PixelOf(x, i, d) == GroupPixel(raw, src, n, d, i)
  {
    UnpackedPixel(raw, src, p, n, d, i, 64);
  }

  lemma GroupBit(g: nat, i: nat, d: nat)
    ensures 8 * (g * d) + i * d == (8 * g + i) * d
  {
  }

  /** The bytes of a group of m pixels starting at pixel 8 * g lie inside those of the first n pixels. */
  lemma GroupSpan(g: nat, m: nat, d: nat, n: nat)
    requires IsDepth(d) && 1 <= m <= 8 && 8 * g + m <= n
    ensures g * d + BytesFor(m, d) == BytesFor(8 * g + m, d) <= BytesFor(n, d)
  {
    assert (8 * g + m) * d + 7 == 8 * (g * d) + (m * d + 7);
    MulLe(8 * g + m, n, d);
  }

  /** Slot k of the group of m pixels unpacked at byte `src` == g * d is pixel 8 * g + k of the image. */
  lemma GroupIndexIsPixel(raw: seq<byte>, d: nat, n: nat, g: nat, src: nat, m: nat, k: nat)
    requires IsDepth(d) && 1 <= m <= 8 && 8 * g + m <= n && BytesFor(n, d) <= |raw| && src == g * d && k < m
    ensures src + BytesFor(m, d) <= |raw|
    ensures GroupIndices(raw, src, m, d, m)[k] == PixelIndex(raw, d, n, 8 * g + k)
  {
    GroupPixelIsPixel(raw, g, m, d, n, k);
    GroupIndexAt(raw, src, m, d, m, k);
  }

  /**
   * A group looked up in full extends the pixels found so far by the
   * group's colors and alphas.
   */
  lemma GroupFound(raw: seq<byte>, d: nat, n: nat, g: nat, c: nat, cNext: nat, src: nat, m: nat,
                   colors: seq<int32>, alphas: seq<byte>, entries: seq<int32>, alphaTable: seq<byte>)
    requires IsDepth(d) && 1 <= m <= 8 && c == 8 * g && cNext == c + m <= n && BytesFor(n, d) <= |raw| && src == g * d
    requires src + BytesFor(m, d) <= |raw|
    requires FoundUpTo(raw, d, n, c, entries, alphaTable)
    requires LookedUp(GroupIndices(raw, src, m, d, m), colors, alphas, entries, alphaTable)
    ensures FoundUpTo(raw, d, n, cNext, entries, alphaTable)
    ensures Pixels(raw, d, n, cNext, entries, alphaTable) == Pixels(raw, d, n, c, entries, alphaTable) + Group(colors, alphas, m)
  {
    forall p | c <= p < c + m
      ensures PixelIndex(raw, d, n, p) < |entries| && PixelIndex(raw, d, n, p) < |alphaTable|
      ensures (entries[PixelIndex(raw, d, n, p)], alphaTable[PixelIndex(raw, d, n, p)]) == (colors[p - c], alphas[p - c])
    {
      GroupSlot(raw, d, n, g, c, src, m, colors, alphas, entries, alphaTable, p);
    }
    var before, after := Pixels(raw, d, n, c, entries, alphaTable), Pixels(raw, d, n, c + m, entries, alphaTable);
    var group := Group(colors, alphas, m);
    forall p | 0 <= p < c + m
      ensures after[p] == (before + group)[p]
    {
      if p < c {
        assert after[p] == before[p];
      } else {
        assert after[p] == group[p - c];
      }
    }
    assert after == before + group;
  }

  /** Pixel p of the group: where its index points in both tables, and what UnpackPixels stored for it. */
  lemma GroupSlot(raw: seq<byte>, d: nat, n: nat, g: nat, c: nat, src: nat, m: nat,
                  colors: seq<int32>, alphas: seq<byte>, entries: seq<int32>, alphaTable: seq<byte>, p: nat)
    requires IsDepth(d) && 1 <= m <= 8 && c == 8 * g && c + m <= n && BytesFor(n, d) <= |raw| && src == g * d
    requires src + BytesFor(m, d) <= |raw| && c <= p < c + m
    requires LookedUp(GroupIndices(raw, src, m, d, m), colors, alphas, entries, alphaTable)
    ensures p - c < |colors| && p - c < |alphas|
    ensures PixelIndex(raw, d, n, p) < |entries| && PixelIndex(raw, d, n, p) < |alphaTable|
    ensures (entries[PixelIndex(raw, d, n, p)], alphaTable[PixelIndex(raw, d, n, p)]) == (colors[p - c], alphas[p - c])
  {
    GroupIndexIsPixel(raw, d, n, g, src, m, p - c);
  }

  /** The bytes of the c pixels written so far, and of the zeros after them. */
  lemma DoneLength(l: Layout, raw: seq<byte>, d: nat, n: nat, c: nat, entries: seq<int32>, alphaTable: seq<byte>, remainder: nat)
    requires Supported(l) && IsDepth(d) && BytesFor(n, d) <= |raw| && c + remainder == n
    requires FoundUpTo(raw, d, n, c, entries, alphaTable)
    ensures |Expand(l, Pixels(raw, d, n, c, entries, alphaTable))| == c * BytesPerPixel(l)
    ensures |Zeros(remainder * BytesPerPixel(l))| == remainder * BytesPerPixel(l)
  {
    MulLe(0, remainder, BytesPerPixel(l));
  }

  /** After a full group of eight, the next one starts d bytes later. */
  lemma NextGroupStart(g: nat, d: nat, src: nat)
    requires IsDepth(d) && src == g * d
    ensures src + BytesFor(8, d) == (g + 1) * d
  {
    EightPixels(d);
  }

  /** A group with an index past either table makes the whole conversion fail. */
  lemma GroupMissing(raw: seq<byte>, d: nat, n: nat, g: nat, c: nat, src: nat, m: nat,
                     entries: seq<int32>, alphaTable: seq<byte>)
    requires IsDepth(d) && 1 <= m <= 8 && c == 8 * g && c + m <= n && BytesFor(n, d) <= |raw| && src == g * d
    requires src + BytesFor(m, d) <= |raw|
    requires !InTables(GroupIndices(raw, src, m, d, m), |entries|, |alphaTable|)
    ensures !FoundUpTo(raw, d, n, n, entries, alphaTable)
  {
    var ix := GroupIndices(raw, src, m, d, m);
    var k :| 0 <= k < m && !(ix[k] < |entries| && ix[k] < |alphaTable|);
    GroupIndexIsPixel(raw, d, n, g, src, m, k);
  }

  /** A full group of eight pixels takes d bytes. */
  lemma EightPixels(d: nat)
    requires IsDepth(d)
    ensures BytesFor(8, d) == d
  {
  }

  /**
   * The offsets of a group of m pixels of b bytes each, after c pixels
   * written and with `remainder` of the n pixels left.
   */
  lemma GroupWindow(c: nat, remainder: nat, n: nat, m: nat, b: nat)
    requires c + remainder == n && m <= remainder
    ensures c * b + remainder * b == n * b
    ensures m * b <= remainder * b && remainder * b - m * b == (remainder - m) * b
    ensures c * b + m * b == (c + m) * b
  {
    MulLe(m, remainder, b);
  }

  /** An array filled with zeros holds Zeros of its length. */
  lemma AllZeros(s: seq<byte>)
    requires forall k | 0 <= k < |s| :: s[k] == 0
    ensures s == Zeros(|s|)
  {
    forall k | 0 <= k < |s|
      ensures Zeros(|s|)[k] == 0
    {
      ZeroAt(|s|, k);
    }
  }

  /** The pixels of one group, as UnpackPixels leaves their colors and alphas. */
  function Group(colors: seq<int32>, alphas: seq<byte>, m: nat): (ps: seq<PackedPixel>)
    requires m <= |colors| && m <= |alphas|
    ensures |ps| == m
  {
    seq(m, i requires 0 <= i < m => (colors[i], alphas[i]))
  }

  /**
   * The writes of one pixel, for either layout, just after the `done` bytes
   * already written and into the `rest` zeros `new byte[…]` left after them.
   */
  method WritePixel(l: Layout, target: array<byte>, at: nat, p: PackedPixel, ghost done: seq<byte>, ghost rest: int,
                    ghost after: int)
    requires Supported(l) && |done| == at && at + rest == target.Length && BytesPerPixel(l) <= rest
    requires after == rest - BytesPerPixel(l) && target[..] == done + Zeros(rest)
    modifies target
    ensures target[..] == done + PixelBytes(l, p) + Zeros(after)
  {
    ZerosAfter(done, rest);
    if l.GrayscaleAlphaLayout? {
      WriteGrayscaleAlpha(target, at, l, p);
    } else {
      WriteTruecolor(target, at, l, p);
    }
    SpliceOntoZeros(done, PixelBytes(l, p), rest, BytesPerPixel(l));
  }

  method WriteGrayscaleAlpha(target: array<byte>, at: nat, l: Layout, p: PackedPixel)
    requires l.GrayscaleAlphaLayout? && Supported(l) && at + BytesPerPixel(l) <= target.Length
    requires forall k | at <= k < at + BytesPerPixel(l) :: target[k] == 0
    modifies target
    ensures target[..] == Splice(old(target[..]), at, PixelBytes(l, p))
  {
    var targetBitDepth, gray := l.depth, l.gray;
    var colorPosition := if targetBitDepth == 16 then 1 else 0;
    var alphaPosition := if targetBitDepth == 16 then 3 else 1;
    target[at + colorPosition] := RgbToGrayscale(p.0, gray);
    target[at + alphaPosition] := p.1;
    ghost var w := PixelBytes(l, p);
    PixelBytesLayouts(l, p);
    if targetBitDepth == 16 {
      assert target[at..at + 4] == w;
    } else {
      assert target[at..at + 2] == w;
    }
    SpliceExt(target[..], old(target[..]), at, w);
  }

  /**
   * The loop body of ConvertToTruecolor: R, G, B and, with alpha, A at
   * `0 + colorPosition`, `1 + colorPosition * 2`, `2 + colorPosition * 3`
   * and `3 + colorPosition * 4`, colorPosition being 1 at depth 16 and 0
   * at depth 8.
   */
  method WriteTruecolor(target: array<byte>, at: nat, l: Layout, p: PackedPixel)
    requires l.TruecolorLayout? && Supported(l) && at + BytesPerPixel(l) <= target.Length
    requires forall k | at <= k < at + BytesPerPixel(l) :: target[k] == 0
    modifies target
    ensures target[..] == Splice(old(target[..]), at, PixelBytes(l, p))
  {
    var targetBitDepth, includeAlpha, fromPacked := l.depth, l.includeAlpha, l.fromPacked;
    var colorPosition := if targetBitDepth == 16 then 1 else 0;
    var color := fromPacked(p.0, p.1);
    target[at + 0 + colorPosition] := color.R;
    target[at + 1 + colorPosition * 2] := color.G;
    target[at + 2 + colorPosition * 3] := color.B;
    if includeAlpha {
      target[at + 3 + colorPosition * 4] := color.A;
    }
    TruecolorSplice(old(target[..]), target[..], at, l, p, colorPosition, color);
  }

  /** The three or four samples written at `colorPosition`-spaced offsets, over zeros, are the pixel's bytes. */
  lemma TruecolorSplice(before: seq<byte>, t: seq<byte>, at: nat, l: Layout, p: PackedPixel, cp: nat, c: Colors.Color)
    requires l.TruecolorLayout? && Supported(l) && at + BytesPerPixel(l) <= |before| == |t|
    requires forall k | at <= k < at + BytesPerPixel(l) :: before[k] == 0
    requires cp == (if l.depth == 16 then 1 else 0) && c == l.fromPacked(p.0, p.1)
    requires t[at + cp] == c.R && t[at + 1 + 2 * cp] == c.G && t[at + 2 + 3 * cp] == c.B
    requires l.includeAlpha ==> t[at + 3 + 4 * cp] == c.A
    requires forall k | 0 <= k < |t| && k != at + cp && k != at + 1 + 2 * cp && k != at + 2 + 3 * cp
               && !(l.includeAlpha && k == at + 3 + 4 * cp) :: t[k] == before[k]
    ensures t == Splice(before, at, PixelBytes(l, p))
  {
    var w := PixelBytes(l, p);
    PixelBytesLayouts(l, p);
    forall k | 0 <= k < |w|
      ensures t[at + k] == w[k]
    {
      if l.depth == 16 && k % 2 == 0 {
        assert t[at + k] == before[at + k];
      }
    }
    SpliceExt(t, before, at, w);
  }

  /**
   * The inner loop of a conversion: the pixels of one group written one
   * after the other, just after the `done` bytes and into the `rest` zeros
   * that follow them.
   */
  method WriteGroup(l: Layout, target: array<byte>, at: nat, pixels: seq<PackedPixel>, ghost done: seq<byte>, ghost rest: int,
                    ghost after: int)
    requires Supported(l) && |done| == at && at + rest == target.Length && |pixels| * BytesPerPixel(l) <= rest
    requires after == rest - |pixels| * BytesPerPixel(l)
    requires target[..] == done + Zeros(rest)
    modifies target
    ensures target[..] == done + Expand(l, pixels) + Zeros(after)
  {
    var bytesPerPixel := BytesPerPixel(l);
    ghost var left := rest;
    var i := 0;
    while i < |pixels|
      invariant 0 <= i <= |pixels| && left == rest - i * bytesPerPixel
      invariant target[..] == done + Expand(l, pixels[..i]) + Zeros(left)
    {
      OffsetNext(i, |pixels|, bytesPerPixel);
      ghost var leftNext := left - bytesPerPixel;
      WritePixel(l, target, at + i * bytesPerPixel, pixels[i], done + Expand(l, pixels[..i]), left, leftNext);
      GroupStep(l, done, pixels, i, leftNext, target[..]);
      left := leftNext;
      i := i + 1;
    }
    GroupDone(l, done, pixels, i, rest, left, after, target[..]);
  }

  lemma GroupDone(l: Layout, done: seq<byte>, pixels: seq<PackedPixel>, i: nat, rest: int, left: nat, after: int, t: seq<byte>)
    requires Supported(l) && i == |pixels| && left == rest - i * BytesPerPixel(l) && after == rest - |pixels| * BytesPerPixel(l)
    requires t == done + Expand(l, pixels[..i]) + Zeros(left)
    ensures t == done + Expand(l, pixels) + Zeros(after)
  {
    assert pixels[..i] == pixels;
  }

  /** The bytes of pixels 0 to i - 1 followed by those of pixel i are those of pixels 0 to i. */
  lemma GroupStep(l: Layout, done: seq<byte>, pixels: seq<PackedPixel>, i: nat, left: int, t: seq<byte>)
    requires Supported(l) && i < |pixels|
    requires t == done + Expand(l, pixels[..i]) + PixelBytes(l, pixels[i]) + Zeros(left)
    ensures t == done + Expand(l, pixels[..i + 1]) + Zeros(left)
  {
    PrefixSnoc(pixels, i);
    ExpandSnoc(l, pixels[..i], pixels[i]);
    AppendAssoc(done, Expand(l, pixels[..i]), PixelBytes(l, pixels[i]));
  }

  /** Past a prefix, a prefix followed by zeros is zero. */
  lemma ZerosAfter(e: seq<byte>, n: nat)
    ensures forall k | |e| <= k < |e| + n :: (e + Zeros(n))[k] == 0
  {
    forall k | |e| <= k < |e| + n
      ensures (e + Zeros(n))[k] == 0
    {
      ZeroAt(n, k - |e|);
    }
  }

  lemma {:induction false} ZeroAt(n: nat, k: nat)
    requires k < n
    ensures Zeros(n)[k] == 0
    decreases n
  {
    if k < n - 1 {
      ZeroAt(n - 1, k);
    }
  }

  lemma PrefixSnoc<T>(s: seq<T>, i: nat)
    requires i < |s|
    ensures s[..i + 1] == s[..i] + [s[i]]
  {
  }

  lemma OffsetNext(i: nat, m: nat, b: nat)
    requires i < m
    ensures i * b + b == (i + 1) * b <= m * b
  {
    MulLe(i + 1, m, b);
  }

  /** Writing a window at the end of what was written, over the zeros that follow it. */
  lemma SpliceOntoZeros(e: seq<byte>, w: seq<byte>, n: nat, b: nat)
    requires |w| == b <= n
    ensures Splice(e + Zeros(n), |e|, w) == e + w + Zeros(n - b)
  {
    var a := e + Zeros(n);
    var r := e + w + Zeros(n - b);
    forall k | 0 <= k < |a| && !(|e| <= k < |e| + |w|)
      ensures r[k] == a[k]
    {
      if k >= |e| + b {
        ZeroAt(n - b, k - |e| - b);
        ZeroAt(n, k - |e|);
      }
    }
    SpliceExt(r, a, |e|, w);
  }

  /**
   * A run of n zero bytes: what `new byte[n]` holds. The count is an `int`
   * (none for n <= 0) so that a product of counts can be passed as it is.
   */
  function Zeros(n: int): (s: seq<byte>)
    ensures n >= 0 ==> |s| == n
    decreases n
  {
    if n <= 0 then [] else Zeros(n - 1) + [0]
  }
}
