/** The C# operators on `int` that the source applies: arithmetic shift, xor, and, and unchecked add and subtract. */
module Words {
  import opened Base
  import opened Bits

  /** `v >> 31` on an `int`: the arithmetic shift rounds toward negative infinity. */
  function Sar31(v: int32): int32
  {
    (v as int / 0x8000_0000) as int32
  }

  /** `x ^ y` on two `int` operands. */
  function XorInt(x: int32, y: int32): int32
  {
    Wrap32(Xor(Bits32(x), Bits32(y), 32))
  }

  /** `x & y` on two `int` operands. */
  function AndInt(x: int32, y: int32): int32
  {
    Wrap32(And(Bits32(x), Bits32(y), 32))
  }

  /** Unchecked `x + y` and `x - y` on `int`. */
  function AddInt(x: int32, y: int32): int32 { Wrap32(x as int + y as int) }
  function SubInt(x: int32, y: int32): int32 { Wrap32(x as int - y as int) }

  /** `x << count` on an `int`: only the low five bits of the count are used, and the product wraps. */
  function ShlInt(x: int32, count: int32): int32
  {
    Wrap32(x as int * Pow2(Bits32(count) % 32))
  }

  /** `2 << (bitDepth - 1)`, the table size of the palette and the transparency map: 2^bitDepth for depths 1 to 30. */
  lemma ShlTwo(bitDepth: int32)
    requires 1 <= bitDepth <= 30
    ensures ShlInt(2, SubInt(bitDepth, 1)) as int == Pow2(bitDepth as nat)
  {
    Pow2Values();
    var c := bitDepth as nat - 1;
    assert Bits32(SubInt(bitDepth, 1)) % 32 == c;
    assert Pow2(bitDepth as nat) == 2 * Pow2(c);
    Pow2Mono(bitDepth as nat, 30);
    assert Pow2(31) == 2 * Pow2(30);
  }

  /** A depth of 0 or 32 shifts the two out of the word: a table of size 0. */
  lemma ShlTwoOut(bitDepth: int32)
    requires bitDepth == 0 || bitDepth == 32
    ensures ShlInt(2, SubInt(bitDepth, 1)) == 0
  {
    Pow2Values();
    assert Bits32(SubInt(bitDepth, 1)) % 32 == 31;
    assert 2 * Pow2(31) == 0x1_0000_0000;
  }

  /** And with 0xFF keeps the low byte of the two's-complement pattern. */
  lemma AndLowByte(x: int32)
    ensures AndInt(x, 0xFF) as int == x as int % 0x100
  {
    Pow2Values();
    AndLowMask(Bits32(x), 8, 32);
    assert Bits32(0xFF) == Pow2(8) - 1;
    var q := (x as int - Bits32(x)) / 0x1_0000_0000;
    assert x as int == q * 0x1_0000_0000 + Bits32(x);
    var h := Bits32(x) / 0x100;
    assert Bits32(x) == h * 0x100 + Bits32(x) % 0x100;
    assert x as int == (q * 0x100_0000 + h) * 0x100 + Bits32(x) % 0x100;
    DivModUnique(x as int, 0x100, q * 0x100_0000 + h, Bits32(x) % 0x100);
  }

  /** The sign mask `v >> 31`: all ones for a negative value, zero otherwise. */
  lemma SignMask(v: int32)
    ensures Sar31(v) == if v < 0 then -1 else 0
  {
    Pow2Values();
  }

  /** Xor with the sign mask: the value itself when non-negative, its one's complement otherwise. */
  lemma XorSignMask(v: int32)
    ensures XorInt(v, Sar31(v)) as int == if v < 0 then -(v as int) - 1 else v as int
  {
    Pow2Values();
    SignMask(v);
    if v < 0 {
      assert Bits32(-1) == Pow2(32) - 1;
      XorOnes(Bits32(v), 32);
    } else {
      XorZero(Bits32(v), 32);
    }
  }

  /** And of the sign mask with one: one for a negative value, zero otherwise. */
  lemma SignMaskAndOne(v: int32)
    ensures AndInt(Sar31(v), 1) == if v < 0 then 1 else 0
  {
    Pow2Values();
    SignMask(v);
    var m := Sar31(v);
    AndOne(Bits32(m), 32);
  }

  /** Wrap32 sees only its argument modulo 2^32. */
  lemma Wrap32Congruent(a: int, b: int)
    requires (a - b) % 0x1_0000_0000 == 0
    ensures Wrap32(a) == Wrap32(b)
  {
    var m := 0x1_0000_0000;
    var q := (a - b) / m;
    assert a - b == q * m;
    DivModUnique(a, m, b / m + q, b % m);
  }

  /** Unchecked additions can be wrapped once at the end: `(int)((int)x + y) == (int)(x + y)`. */
  lemma AddIntWrap(x: int, y: int32)
    ensures AddInt(Wrap32(x), y) == Wrap32(x + y as int)
  {
    Wrap32Congruent(Wrap32(x) as int + y as int, x + y as int);
  }
}
