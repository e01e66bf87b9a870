/**
 * ColorHelpers.cs: an RGB triple packed into the low 24 bits of an `int`
 * and the three bytes read back out of one; the float grayscale weighting
 * is a parameter `gray` of the model.
 */
module ColorHelpers {
  import opened Base
  import opened Bits
  import opened Words

  /** `r << 16 | g << 8 | b` on `int`: red in bits 16..23, green in 8..15, blue in 0..7. */
  function PackRgb(r: byte, g: byte, b: byte): (p: int32)
    ensures p as int == r as int * 0x1_0000 + g as int * 0x100 + b as int
    ensures 0 <= p as int < 0x100_0000
  {
    PackRgbIsSum(r, g, b);
    Or(Or(r as nat * 0x1_0000, g as nat * 0x100, 32), b as nat, 32) as int32
  }

  /** The three fields of PackRgb do not overlap, so or-ing them adds them. */
  lemma PackRgbIsSum(r: byte, g: byte, b: byte)
    ensures Or(Or(r as nat * 0x1_0000, g as nat * 0x100, 32), b as nat, 32) == r as int * 0x1_0000 + g as int * 0x100 + b as int
  {
    Pow2Values();
    OrDisjoint(r as nat, g as nat * 0x100, 16, 32);
    var hi := r as nat * 0x100 + g as nat;
    assert hi * Pow2(8) == r as nat * 0x1_0000 + g as nat * 0x100;
    OrDisjoint(hi, b as nat, 8, 32);
  }

  /**
   * `UnpackRgb`: `(byte)(color >> 16)`, `(byte)((color >> 8) & 0xff)` and
   * `(byte)(color & 0xff)`, that is bytes 2, 1 and 0 of the color's
   * two's-complement pattern, most significant first.
   */
  function UnpackRgb(color: int32): (rgb: seq<byte>)
    ensures |rgb| == 3
    ensures rgb[0] as int == (color as int / 0x1_0000) % 0x100
    ensures rgb[1] as int == (color as int / 0x100) % 0x100
    ensures rgb[2] as int == color as int % 0x100
  {
    var shifted := (color as int / 0x100) as int32;
    AndLowByte(shifted);
    AndLowByte(color);
    [Wrap(color as int / 0x1_0000), AndInt(shifted, 0xFF) as byte, AndInt(color, 0xFF) as byte]
  }

  /** Unpacking a packed triple gives the triple back. */
  lemma UnpackPack(r: byte, g: byte, b: byte)
    ensures UnpackRgb(PackRgb(r, g, b)) == [r, g, b]
  {
    var u := UnpackRgb(PackRgb(r, g, b));
    FieldsOfPacked(PackRgb(r, g, b) as int, r as int, g as int, b as int);
    assert u[0] == r && u[1] == g && u[2] == b;
  }

  /** The three byte fields of r * 2^16 + g * 2^8 + b. */
  lemma FieldsOfPacked(p: int, r: int, g: int, b: int)
    requires 0 <= r < 0x100 && 0 <= g < 0x100 && 0 <= b < 0x100
    requires p == r * 0x1_0000 + g * 0x100 + b
    ensures (p / 0x1_0000) % 0x100 == r && (p / 0x100) % 0x100 == g && p % 0x100 == b
  {
    DivModUnique(p, 0x1_0000, r, g * 0x100 + b);
    DivModUnique(r, 0x100, 0, r);
    DivModUnique(p, 0x100, r * 0x100 + g, b);
    DivModUnique(r * 0x100 + g, 0x100, r, g);
  }

  /** The unused entries of a table unpack to black. */
  lemma UnpackZero()
    ensures UnpackRgb(0) == [0, 0, 0]
  {
    var u := UnpackRgb(0);
    assert u[0] == 0 && u[1] == 0 && u[2] == 0;
  }

  /** Packing the bytes of a 24-bit color gives the color back. */
  lemma PackUnpack(color: int32)
    requires 0 <= color as int < 0x100_0000
    ensures var rgb := UnpackRgb(color); PackRgb(rgb[0], rgb[1], rgb[2]) == color
  {
    var c := color as int;
    var hi := c / 0x1_0000;
    var mid := c % 0x1_0000;
    assert c == hi * 0x1_0000 + mid;
    assert hi < 0x100;
    DivModUnique(hi, 0x100, 0, hi);
    var g := mid / 0x100;
    var b := mid % 0x100;
    assert mid == g * 0x100 + b;
    DivModUnique(c, 0x100, hi * 0x100 + g, b);
    DivModUnique(hi * 0x100 + g, 0x100, hi, g);
  }

  /** Different triples pack to different colors. */
  lemma PackRgbInjective(r: byte, g: byte, b: byte, r': byte, g': byte, b': byte)
    ensures PackRgb(r, g, b) == PackRgb(r', g', b') <==> r == r' && g == g' && b == b'
  {
    if PackRgb(r, g, b) == PackRgb(r', g', b') {
      UnpackPack(r, g, b);
      UnpackPack(r', g', b');
    }
  }

  /** `RgbToGrayscale(packedColor)`: the weighting applied to the unpacked bytes. */
  function RgbToGrayscale(packedColor: int32, gray: (byte, byte, byte) -> byte): (v: byte)
  {
    var unpacked := UnpackRgb(packedColor);
    gray(unpacked[0], unpacked[1], unpacked[2])
  }

  /** The grayscale of a packed triple is the grayscale of the triple. */
  lemma GrayscaleOfPacked(r: byte, g: byte, b: byte, gray: (byte, byte, byte) -> byte)
    ensures RgbToGrayscale(PackRgb(r, g, b), gray) == gray(r, g, b)
  {
    UnpackPack(r, g, b);
  }
}

/** Color.cs: a value with four channels, and the packed and grayscale views of its RGB part. */
module Colors {
  import opened Base
  import opened ColorHelpers

  datatype Color = Color(R: byte, G: byte, B: byte, A: byte) {
    /** `Packed`: the RGB channels packed; alpha plays no part. */
    function Packed(): (p: int32)
      ensures UnpackRgb(p) == [R, G, B]
    {
      UnpackPack(R, G, B);
      PackRgb(R, G, B)
    }

    /** `Grayscale`: the weighting of the RGB channels. */
    function Grayscale(gray: (byte, byte, byte) -> byte): (v: byte)
      ensures v == RgbToGrayscale(Packed(), gray)
    {
      GrayscaleOfPacked(R, G, B, gray);
      gray(R, G, B)
    }
  }

  /** Two colors that differ in alpha alone pack alike and have the same grayscale; the packed view determines R, G and B. */
  lemma PackedIgnoresAlpha(c: Color, d: Color, gray: (byte, byte, byte) -> byte)
    ensures c.Packed() == d.Packed() <==> c.R == d.R && c.G == d.G && c.B == d.B
    ensures c.Packed() == d.Packed() ==> c.Grayscale(gray) == d.Grayscale(gray)
  {
    PackRgbInjective(c.R, c.G, c.B, d.R, d.G, d.B);
  }
}
