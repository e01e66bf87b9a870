/**
 * The byte layouts the indexed image source writes when it expands palette
 * indices: per pixel, grayscale and alpha, or red, green, blue and maybe
 * alpha, one byte per sample at depth 8 and two bytes (high byte zero) at
 * depth 16; the pixels follow each other with no padding.
 */
module PixelLayouts {
  import opened Base
  import opened ColorHelpers
  import Colors

  /** A palette color and its alpha, as UnpackPixels leaves them in `colors[i]` and `alphas[i]`. */
  type PackedPixel = (int32, byte)

  /**
   * What a conversion writes: grayscale with alpha (the grayscale weighting
   * a parameter), or truecolor with or without alpha, the packed color turned
   * into a Color by the `fromPacked` parameter (`Color.FromPackedRgb`, which
   * is not part of this model).
   */
  datatype Layout =
    | GrayscaleAlphaLayout(depth: int32, gray: (byte, byte, byte) -> byte)
    | TruecolorLayout(depth: int32, includeAlpha: bool, fromPacked: (int32, byte) -> Colors.Color)

  /** The target depths both conversions accept. */
  predicate Supported(l: Layout)
  {
    l.depth == 8 || l.depth == 16
  }

  /** `targetBitDepth / 4` for grayscale with alpha, `(includeAlpha ? 4 : 3) * targetBitDepth / 8` for truecolor. */
  function BytesPerPixel(l: Layout): nat
    requires Supported(l)
  {
    match l
    case GrayscaleAlphaLayout(depth, _) => depth as nat / 4
    case TruecolorLayout(depth, includeAlpha, _) => (if includeAlpha then 4 else 3) * depth as nat / 8
  }

  /** The samples of one pixel, in order, one byte each. */
  function Samples(l: Layout, p: PackedPixel): seq<byte>
  {
    match l
    case GrayscaleAlphaLayout(_, gray) => [RgbToGrayscale(p.0, gray), p.1]
    case TruecolorLayout(_, includeAlpha, fromPacked) =>
      var c := fromPacked(p.0, p.1);
      [c.R, c.G, c.B] + (if includeAlpha then [c.A] else [])
  }

  /** Every byte preceded by a zero byte: 8-bit samples stored as big-endian 16-bit ones. */
  function Widen(s: seq<byte>): (w: seq<byte>)
    ensures |w| == 2 * |s|
    decreases |s|
  {
    if |s| == 0 then [] else Widen(s[..|s| - 1]) + [0, s[|s| - 1]]
  }

  /** The bytes of one pixel. */
  function PixelBytes(l: Layout, p: PackedPixel): (b: seq<byte>)
    requires Supported(l)
    ensures |b| == BytesPerPixel(l)
  {
    if l.depth == 16 then Widen(Samples(l, p)) else Samples(l, p)
  }

  /** One pixel in each layout, byte by byte. */
  lemma PixelBytesLayouts(l: Layout, p: PackedPixel)
    requires Supported(l)
    ensures l.GrayscaleAlphaLayout? && l.depth == 8 ==>
              PixelBytes(l, p) == [RgbToGrayscale(p.0, l.gray), p.1]
    ensures l.GrayscaleAlphaLayout? && l.depth == 16 ==>
              PixelBytes(l, p) == [0, RgbToGrayscale(p.0, l.gray), 0, p.1]
    ensures l.TruecolorLayout? && l.depth == 8 ==>
              var c := l.fromPacked(p.0, p.1);
              PixelBytes(l, p) == [c.R, c.G, c.B] + (if l.includeAlpha then [c.A] else [])
    ensures l.TruecolorLayout? && l.depth == 16 ==>
              var c := l.fromPacked(p.0, p.1);
              PixelBytes(l, p) == [0, c.R, 0, c.G, 0, c.B] + (if l.includeAlpha then [0, c.A] else [])
  {
    var s := Samples(l, p);
    if l.depth == 16 {
      assert Widen(s[..1]) == [0, s[0]] by { assert s[..1][..0] == []; }
      assert Widen(s[..2]) == [0, s[0], 0, s[1]] by { assert s[..2][..1] == s[..1]; }
      if |s| > 2 {
        assert Widen(s[..3]) == [0, s[0], 0, s[1], 0, s[2]] by { assert s[..3][..2] == s[..2]; }
        if |s| > 3 {
          assert Widen(s[..4]) == [0, s[0], 0, s[1], 0, s[2], 0, s[3]] by { assert s[..4][..3] == s[..3]; }
          assert s[..4] == s;
        } else {
          assert s[..3] == s;
        }
      } else {
        assert s[..2] == s;
      }
    }
  }

  /** The pixels one after the other: the image data a conversion produces. */
  function Expand(l: Layout, pixels: seq<PackedPixel>): (out: seq<byte>)
    requires Supported(l)
    ensures |out| == |pixels| * BytesPerPixel(l)
    decreases |pixels|
  {
    if |pixels| == 0 then []
    else
      OneMore(|pixels| - 1, BytesPerPixel(l));
      Expand(l, pixels[..|pixels| - 1]) + PixelBytes(l, pixels[|pixels| - 1])
  }

  lemma OneMore(k: nat, b: nat)
    ensures k * b + b == (k + 1) * b
  {
  }

  /** Expanding one more pixel appends its bytes. */
  lemma ExpandSnoc(l: Layout, pixels: seq<PackedPixel>, p: PackedPixel)
    requires Supported(l)
    ensures Expand(l, pixels + [p]) == Expand(l, pixels) + PixelBytes(l, p)
  {
    assert (pixels + [p])[..|pixels|] == pixels;
  }

  /** Expanding a concatenation concatenates the expansions. */
  lemma {:induction false} ExpandAppend(l: Layout, a: seq<PackedPixel>, c: seq<PackedPixel>)
    requires Supported(l)
    ensures Expand(l, a + c) == Expand(l, a) + Expand(l, c)
    decreases |c|
  {
    if |c| == 0 {
      assert a + c == a;
    } else {
      var c', x := c[..|c| - 1], c[|c| - 1];
      assert (a + c)[..|a + c| - 1] == a + c';
      assert (a + c)[|a + c| - 1] == x;
      ExpandAppend(l, a, c');
      var e, ec, w := Expand(l, a), Expand(l, c'), PixelBytes(l, x);
      assert Expand(l, c) == ec + w;
      assert Expand(l, a + c) == e + ec + w;
      AppendAssoc(e, ec, w);
    }
  }

  /** Pixel k's bytes sit at offset k * BytesPerPixel of the output. */
  lemma ExpandAt(l: Layout, pixels: seq<PackedPixel>, k: nat)
    requires Supported(l) && k < |pixels|
    ensures k * BytesPerPixel(l) + BytesPerPixel(l) <= |Expand(l, pixels)|
    ensures Expand(l, pixels)[k * BytesPerPixel(l)..k * BytesPerPixel(l) + BytesPerPixel(l)] == PixelBytes(l, pixels[k])
  {
    var before := pixels[..k];
    var after := pixels[k + 1..];
    assert pixels == before + [pixels[k]] + after;
    ExpandAppend(l, before + [pixels[k]], after);
    ExpandSnoc(l, before, pixels[k]);
    SliceMiddle(Expand(l, before), PixelBytes(l, pixels[k]), Expand(l, after));
  }

  lemma SliceMiddle<T>(a: seq<T>, m: seq<T>, c: seq<T>)
    ensures (a + m + c)[|a|..|a| + |m|] == m
  {
  }

  /** Widening distributes over concatenation. */
  lemma {:induction false} WidenAppend(a: seq<byte>, b: seq<byte>)
    ensures Widen(a + b) == Widen(a) + Widen(b)
    decreases |b|
  {
    if |b| == 0 {
      assert a + b == a;
    } else {
      var b' := b[..|b| - 1];
      assert (a + b)[..|a + b| - 1] == a + b';
      WidenAppend(a, b');
    }
  }

  /** The same layout at depth 8 instead of the depth it has. */
  function AtDepthEight(l: Layout): Layout
  {
    match l
    case GrayscaleAlphaLayout(_, gray) => GrayscaleAlphaLayout(8, gray)
    case TruecolorLayout(_, includeAlpha, fromPacked) => TruecolorLayout(8, includeAlpha, fromPacked)
  }

  /** The 16-bit output is the 8-bit output with a zero high byte before every sample. */
  lemma {:induction false} SixteenIsWidenedEight(l: Layout, pixels: seq<PackedPixel>)
    requires l.depth == 16
    ensures Expand(l, pixels) == Widen(Expand(AtDepthEight(l), pixels))
    decreases |pixels|
  {
    if |pixels| > 0 {
      var init := pixels[..|pixels| - 1];
      SixteenIsWidenedEight(l, init);
      assert Samples(l, pixels[|pixels| - 1]) == Samples(AtDepthEight(l), pixels[|pixels| - 1]);
      WidenAppend(Expand(AtDepthEight(l), init), PixelBytes(AtDepthEight(l), pixels[|pixels| - 1]));
    }
  }

  /** Every even byte of a widened sequence is zero and every odd one is the next sample. */
  lemma {:induction false} WidenAt(s: seq<byte>, k: nat)
    requires k < |s|
    ensures Widen(s)[2 * k] == 0 && Widen(s)[2 * k + 1] == s[k]
    decreases |s|
  {
    if k < |s| - 1 {
      WidenAt(s[..|s| - 1], k);
    }
  }
}
