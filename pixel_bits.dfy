/**
 * The bit arithmetic of `IndexedImageSource.UnpackPixels`: up to eight
 * bytes are or-ed into a 64-bit `long`, most significant first, and pixel i
 * of depth d is read out of it by shifting left by i * d, masking the top d
 * bits and shifting them down. Stated here on the byte stream: pixel p of
 * the image is bits [p * d, (p + 1) * d) of the raw data, counted from the
 * most significant bit of the first byte, with no padding at row ends.
 */
module PixelBits {
  import opened Base
  import opened Bits

  /** The depths an indexed image may have. */
  predicate IsDepth(d: nat)
  {
    d == 1 || d == 2 || d == 4 || d == 8
  }

  /**
   * `Ceil(pixelsToUnpack * ((float)bitDepth / 8))`: the bytes n pixels of
   * depth d take. The float rounding of the source is exact on these
   * multiples of an eighth, so the model uses integer ceiling division.
   */
  function BytesFor(n: nat, d: nat): nat
  {
    (n * d + 7) / 8
  }

  /** The bytes of s read as one big-endian number. */
  function BigEndian(s: seq<byte>): nat
    decreases |s|
  {
    if |s| == 0 then 0 else BigEndian(s[..|s| - 1]) * 0x100 + s[|s| - 1] as nat
  }

  lemma {:induction false} BigEndianBound(s: seq<byte>)
    ensures BigEndian(s) < Pow2(8 * |s|)
    decreases |s|
  {
    if |s| > 0 {
      var init := s[..|s| - 1];
      BigEndianBound(init);
      Pow2Values();
      Pow2Add(8 * |init|, 8);
      MulLe(BigEndian(init), Pow2(8 * |init|) - 1, 0x100);
    }
  }

  /** The field of pixel q never straddles two bytes. */
  lemma FieldFits(q: nat, d: nat)
    requires IsDepth(d)
    ensures (q * d) % 8 + d <= 8
  {
    if d == 1 {
      assert q * d == q;
    } else if d == 2 {
      assert q * d == 2 * q;
    } else if d == 4 {
      assert q * d == 4 * q;
    } else {
      assert q * d == 8 * q;
    }
  }

  /** Bits [bit, bit + d) of the byte stream raw, counted from the most significant bit of raw[0], inside one byte. */
  function FieldAt(raw: seq<byte>, bit: nat, d: nat): (v: nat)
    requires bit / 8 < |raw| && bit % 8 + d <= 8
    ensures v < Pow2(d)
  {
    (raw[bit / 8] as nat / Pow2(8 - d - bit % 8)) % Pow2(d)
  }

  /** Pixel p of a packed image of depth d: its field, with no padding between rows. */
  function PixelAt(raw: seq<byte>, p: nat, d: nat): (v: nat)
    requires IsDepth(d) && (p * d) / 8 < |raw|
    ensures v < Pow2(d)
  {
    FieldFits(p, d);
    FieldAt(raw, p * d, d)
  }

  /**
   * The first loop of UnpackPixels as written: byte i shifted left by
   * `56 - i * 8` and or-ed into the `long`, starting from zero.
   */
  function PackedColors(bytes: seq<byte>): nat
    requires |bytes| <= 8
  {
    if |bytes| == 0 then 0
    else Or(Shl(bytes[|bytes| - 1] as nat, 56 - (|bytes| - 1) * 8), PackedColors(bytes[..|bytes| - 1]), 64)
  }

  /** One turn of the first loop: the byte at p, the i-th of the group starting at src, or-ed in. */
  lemma PackedColorsNext(raw: seq<byte>, src: nat, p: nat, i: nat)
    requires p == src + i && i < 8 && p < |raw|
    ensures PackedColors(raw[src..p + 1]) == Or(Shl(raw[p] as nat, 56 - i * 8), PackedColors(raw[src..p]), 64)
  {
    assert raw[src..p + 1][..i] == raw[src..p];
  }

  /** What the first loop leaves: the bytes read as the top bytes of the `long`, the first one topmost. */
  lemma {:induction false} PackedColorsGathered(bytes: seq<byte>)
    requires |bytes| <= 8
    ensures PackedColors(bytes) == Gathered(bytes, 64)
    decreases |bytes|
  {
    if |bytes| > 0 {
      var init := bytes[..|bytes| - 1];
      PackedColorsGathered(init);
      GatherLast(bytes, init, bytes[|bytes| - 1], 56 - (|bytes| - 1) * 8);
    }
  }

  /** The step of PackedColorsGathered: the last byte or-ed in below the ones gathered before it. */
  lemma GatherLast(bytes: seq<byte>, init: seq<byte>, b: byte, k: nat)
    requires 0 < |bytes| <= 8 && init == bytes[..|bytes| - 1] && b == bytes[|bytes| - 1] && k == 56 - (|bytes| - 1) * 8
    requires PackedColors(init) == Gathered(init, 64)
    ensures PackedColors(bytes) == Gathered(bytes, 64)
  {
    FrontLast(bytes);
    assert PackedColors(bytes) == Or(Shl(b as nat, k), PackedColors(init), 64);
    ShlMul(b as nat, k);
    GatherStep(init, b, k, 64);
  }

  /**
   * After k bytes, the `long` (width 64) holds them as its top k bytes:
   * the value PackedColors is proved to have.
   */
  function Gathered(bytes: seq<byte>, width: nat): nat
    requires 8 * |bytes| <= width
  {
    BigEndian(bytes) * Pow2(width - 8 * |bytes|)
  }

  /** One more byte or-ed in at `56 - i * 8` (k here) lands just below the ones before it. */
  lemma GatherStep(bytes: seq<byte>, b: byte, k: nat, width: nat)
    requires k + 8 + 8 * |bytes| == width
    ensures Gathered(bytes, width) < Pow2(width)
    ensures Or(b as nat * Pow2(k), Gathered(bytes, width), width) == Gathered(bytes + [b], width)
  {
    var v := BigEndian(bytes);
    assert BigEndian(bytes + [b]) == v * 0x100 + b as nat by {
      assert (bytes + [b])[..|bytes|] == bytes;
    }
    BigEndianBound(bytes);
    GatherArith(v, b as nat, k, 8 * |bytes|, width);
  }

  /** One byte more is eight bits more. */
  lemma Pow2Byte(k: nat)
    ensures Pow2(8 + k) == 0x100 * Pow2(k)
  {
    Pow2Add(8, k);
    Pow2Values();
  }

  /** The arithmetic of GatherStep: v fills the bits from 8 + k up, b the byte just below. */
  lemma GatherArith(v: nat, b: nat, k: nat, n: nat, width: nat)
    requires v < Pow2(n) && b < 0x100 && n + 8 + k == width
    ensures v * Pow2(8 + k) < Pow2(width)
    ensures Or(b * Pow2(k), v * Pow2(8 + k), width) == (v * 0x100 + b) * Pow2(k)
  {
    var pk, pn, p := Pow2(k), Pow2(n), Pow2(8 + k);
    var lo := b * pk;
    Pow2Byte(k);
    assert Pow2(width) == pn * p by { Pow2Add(n, 8 + k); }
    assert lo < p by { MulLe(b, 0xFF, pk); }
    BelowNext(v, pn, p, lo);
    OrDisjoint(v, lo, 8 + k, width);
    GatherSum(v, b, pk, p);
  }

  /** The byte below the bits of v, both at place value pk. */
  lemma GatherSum(v: nat, b: nat, pk: nat, p: nat)
    requires p == 0x100 * pk
    ensures v * p + b * pk == (v * 0x100 + b) * pk
  {
    MulAssoc(v, 0x100, pk);
  }

  /** A digit below the base times the place value, plus less than the place value, stays below the next place. */
  lemma BelowNext(v: nat, pn: nat, p: nat, lo: nat)
    requires v < pn && lo < p
    ensures v * p + lo < pn * p
  {
    MulLe(v, pn - 1, p);
    assert (pn - 1) * p == pn * p - p;
  }

  lemma MulAssoc(a: int, b: int, c: int)
    ensures a * (b * c) == (a * b) * c
  {
  }

  /** `x << s` on a word of the given width. */
  function ShlWord(x: nat, s: nat, width: nat): nat
  {
    Shl(x, s) % Pow2(width)
  }

  /** `-1 ^ ((1 << (width - d)) - 1)`: the top d bits of a word of the given width. */
  function TopMask(d: nat, width: nat): nat
    requires d <= width
  {
    Xor(Pow2(width) - 1, Pow2(width - d) - 1, width)
  }

  /**
   * The second loop of UnpackPixels: `(packedColors << i * bitDepth) & mask`
   * shifted down unsigned by `64 - bitDepth`, on a word of the given width.
   */
  function Extract(x: nat, s: nat, d: nat, width: nat): int
    requires d <= width
  {
    And(ShlWord(x, s, width), TopMask(d, width), width) / Pow2(width - d)
  }

  /** Pixel i of depth d cut out of the `long` by the second loop of UnpackPixels. */
  function PixelOf(packedColors: nat, i: nat, d: nat): int
    requires d <= 64
  {
    Extract(packedColors, i * d, d, 64)
  }

  /** The mask of UnpackPixels keeps the top d bits, which the shift then brings down. */
  lemma MaskTop(y: nat, d: nat, width: nat)
    requires d <= width && y < Pow2(width)
    ensures And(y, TopMask(d, width), width) / Pow2(width - d) == y / Pow2(width - d)
  {
    var low := Pow2(width - d);
    var mask := TopMask(d, width);
    TopMaskValue(d, width);
    AndHighMask(y, width - d, width, mask);
    DivExact(And(y, mask, width), y / low, low);
  }

  /** The top d of width bits set: all ones less the low width - d bits. */
  lemma TopMaskValue(d: nat, width: nat)
    requires d <= width
    ensures TopMask(d, width) + Pow2(width - d) == Pow2(width)
  {
    var low := Pow2(width - d);
    Pow2Mono(width - d, width);
    XorCommutes(Pow2(width) - 1, low - 1, width);
    XorOnes(low - 1, width);
  }

  lemma DivExact(a: nat, q: int, low: nat)
    requires low > 0 && a == q * low
    ensures a / low == q
  {
    DivModUnique(a, low, q, 0);
  }

  /** Extract is reading bits [s, s + d) of x counted from the top of the word. */
  lemma ExtractWindow(x: nat, s: nat, d: nat, width: nat)
    requires s + d <= width
    ensures Extract(x, s, d, width) == (x / Pow2(width - s - d)) % Pow2(d)
  {
    var y := ShlWord(x, s, width);
    ShlMul(x, s);
    MaskTop(y, d, width);
    var t := width - s - d;
    Pow2Add(width - d, d);
    Pow2Add(s, t);
    ShiftWindowArith(x, Pow2(s), Pow2(t), Pow2(d));
  }

  /** The shift and the cut of ExtractWindow over plain numbers. */
  lemma ShiftWindowArith(x: nat, ps: nat, pt: nat, pd: nat)
    requires ps > 0 && pt > 0 && pd > 0
    ensures (x * ps) % ((ps * pt) * pd) / (ps * pt) == (x / pt) % pd
  {
    ModDiv(x * ps, ps * pt, pd);
    MulDiv(x, ps, pt);
  }

  /** Reading bits of the gathered word inside the m bytes gathered is reading the bytes as a number. */
  lemma GatheredWindow(bytes: seq<byte>, m: nat, s: nat, d: nat, width: nat)
    requires |bytes| == m && 8 * m <= width && s + d <= 8 * m
    ensures (Gathered(bytes, width) / Pow2(width - s - d)) % Pow2(d) == (BigEndian(bytes) / Pow2(8 * m - s - d)) % Pow2(d)
  {
    var pad := width - 8 * m;
    var rest := 8 * m - s - d;
    Pow2Add(pad, rest);
    MulDiv(BigEndian(bytes), Pow2(pad), Pow2(rest));
  }

  /** A field inside the last byte: the higher bytes are whole multiples of the field's modulus. */
  lemma LastByteArith(big: int, v: nat, last: nat, pe: nat, prest: nat, pd: nat)
    requires pe > 0 && prest > 0 && pd > 0 && last < 0x100 && 0x100 == pe * (prest * pd)
    requires big == v * 0x100 + last
    ensures big / pe % pd == last / pe % pd
  {
    var y := last / pe;
    DivModUnique(v * (pe * (prest * pd)) + last, pe, v * (prest * pd) + y, last % pe);
    DivModUnique(v * (prest * pd) + y, pd, v * prest + y / pd, y % pd);
  }

  /** A field in an earlier byte: dropping the last byte first changes nothing. */
  lemma EarlierByteArith(big: int, v: nat, last: nat, pk: nat, p: nat)
    requires last < 0x100 && p > 0 && pk == 0x100 * p && big == v * 0x100 + last
    ensures big / pk == v / p
  {
    DivDiv(v * 0x100 + last, 0x100, p);
    DivModUnique(v * 0x100 + last, 0x100, v, last);
  }

  /** The top-down field of the big-endian number is the field read out of its byte. */
  lemma {:induction false} BigEndianField(bytes: seq<byte>, bit: nat, d: nat)
    requires bit % 8 + d <= 8 && bit + d <= 8 * |bytes| && d > 0
    ensures bit / 8 < |bytes|
    ensures (BigEndian(bytes) / Pow2(8 * |bytes| - bit - d)) % Pow2(d) == FieldAt(bytes, bit, d)
    decreases |bytes|
  {
    if bit / 8 == |bytes| - 1 {
      FieldInLastByte(bytes, bit, d);
    } else {
      var init := bytes[..|bytes| - 1];
      assert bit + d <= 8 * |init|;
      BigEndianField(init, bit, d);
      FieldInEarlierByte(bytes, init, bit, d);
    }
  }

  /** A field of the last byte: the bytes before it are shifted out. */
  lemma FieldInLastByte(bytes: seq<byte>, bit: nat, d: nat)
    requires |bytes| > 0 && bit / 8 == |bytes| - 1 && bit % 8 + d <= 8 && d > 0
    ensures (BigEndian(bytes) / Pow2(8 * |bytes| - bit - d)) % Pow2(d) == FieldAt(bytes, bit, d)
  {
    var v, last := BigEndian(bytes[..|bytes| - 1]), bytes[|bytes| - 1];
    assert BigEndian(bytes) == v * 0x100 + last as nat;
    var e := 8 - d - bit % 8;
    assert 8 * |bytes| - bit - d == e;
    var pe, pr, pd := Pow2(e), Pow2(8 - e - d), Pow2(d);
    assert 0x100 == pe * (pr * pd) by {
      Pow2Add(8 - e - d, d);
      Pow2Add(e, 8 - e);
      Pow2Values();
    }
    LastByteArith(BigEndian(bytes), v, last as nat, pe, pr, pd);
  }

  /** A field of an earlier byte: the last byte is shifted out, leaving the field of the rest. */
  lemma FieldInEarlierByte(bytes: seq<byte>, init: seq<byte>, bit: nat, d: nat)
    requires |bytes| > 0 && init == bytes[..|bytes| - 1] && bit % 8 + d <= 8 && bit + d <= 8 * |init| && d > 0
    requires (BigEndian(init) / Pow2(8 * |init| - bit - d)) % Pow2(d) == FieldAt(init, bit, d)
    ensures bit / 8 < |bytes|
    ensures (BigEndian(bytes) / Pow2(8 * |bytes| - bit - d)) % Pow2(d) == FieldAt(bytes, bit, d)
  {
    var k, j := 8 * |bytes| - bit - d, 8 * |init| - bit - d;
    var pk, p := Pow2(k), Pow2(j);
    assert pk == 0x100 * p by {
      Pow2Byte(j);
      assert 8 + j == k;
    }
    assert BigEndian(bytes) == BigEndian(init) * 0x100 + bytes[|bytes| - 1] as nat;
    EarlierByteArith(BigEndian(bytes), BigEndian(init), bytes[|bytes| - 1] as nat, pk, p);
    assert FieldAt(init, bit, d) == FieldAt(bytes, bit, d) by {
      assert init[bit / 8] == bytes[bit / 8];
    }
  }

  /**
   * Pixel i of a group read at byte `src`: what the shift-and-mask of the
   * source gives is the field at bit 8 * src + i * d of the whole stream.
   */
  lemma UnpackedPixel(raw: seq<byte>, src: nat, p: nat, n: nat, d: nat, i: nat, width: nat)
    requires IsDepth(d) && 1 <= n <= 8 && i < n && p == src + BytesFor(n, d) <= |raw| && 64 <= width
    ensures (8 * src + i * d) / 8 < |raw| && (8 * src + i * d) % 8 + d <= 8
    ensures Extract(Gathered(raw[src..p], width), i * d, d, width) == FieldAt(raw, 8 * src + i * d, d)
  {
    GroupBounds(n, d, i);
    UnpackedField(raw, src, BytesFor(n, d), i * d, d, width);
  }

  /** Pixel i of a group read at byte `src` lies inside one byte of the data. */
  lemma PixelInGroup(raw: seq<byte>, src: nat, n: nat, d: nat, i: nat)
    requires IsDepth(d) && 1 <= n <= 8 && i < n && src + BytesFor(n, d) <= |raw|
    ensures (8 * src + i * d) / 8 < |raw| && (8 * src + i * d) % 8 + d <= 8
  {
    GroupBounds(n, d, i);
    var j := i * d;
    assert (8 * src + j) / 8 == src + j / 8 && (8 * src + j) % 8 == j % 8;
  }

  /** A pixel value of any depth fits in a byte. */
  lemma DepthPow2(d: nat)
    requires IsDepth(d)
    ensures Pow2(d) <= 0x100
  {
    Pow2Values();
  }

  /** The bounds of a group of n pixels: it fits in a long, and pixel i lies in it inside one byte. */
  lemma GroupBounds(n: nat, d: nat, i: nat)
    requires IsDepth(d) && 1 <= n <= 8 && i < n
    ensures BytesFor(n, d) <= 8
    ensures i * d + d <= 8 * BytesFor(n, d)
    ensures (i * d) % 8 + d <= 8
  {
    MulLe(n, 8, d);
    MulLe(i + 1, n, d);
    FieldFits(i, d);
  }

  /** UnpackedPixel for the field at bit j of the m bytes gathered. */
  lemma UnpackedField(raw: seq<byte>, src: nat, m: nat, j: nat, d: nat, width: nat)
    requires src + m <= |raw| && 8 * m <= width && j + d <= 8 * m && j % 8 + d <= 8 && d > 0
    ensures (8 * src + j) / 8 < |raw| && (8 * src + j) % 8 + d <= 8
    ensures Extract(Gathered(raw[src..src + m], width), j, d, width) == FieldAt(raw, 8 * src + j, d)
  {
    var bytes := raw[src..src + m];
    FieldOffset(raw, src, m, d, j);
    var x := Gathered(bytes, width);
    GatheredWindow(bytes, m, j, d, width);
    ExtractWindow(x, j, d, width);
  }

  /** The field at bit j of the group is the field at bit 8 * src + j of the stream. */
  lemma FieldOffset(raw: seq<byte>, src: nat, m: nat, d: nat, j: nat)
    requires src + m <= |raw| && j % 8 + d <= 8 && j + d <= 8 * m && d > 0
    ensures (8 * src + j) / 8 < |raw| && (8 * src + j) % 8 + d <= 8
    ensures (BigEndian(raw[src..src + m]) / Pow2(8 * m - j - d)) % Pow2(d) == FieldAt(raw, 8 * src + j, d)
  {
    var bytes := raw[src..src + m];
    BigEndianField(bytes, j, d);
    var bit := 8 * src + j;
    assert bit / 8 == src + j / 8 && bit % 8 == j % 8;
    assert bytes[j / 8] == raw[bit / 8];
  }
}
