/**
 * Fixed-width bitwise operators on the unsigned patterns of machine words.
 * A value of width n is a nat below 2^n; a C# `int` or `long` operand is
 * represented by its two's-complement pattern.
 */
module Bits {

  function Pow2(n: nat): (r: nat)
    ensures r >= 1
  {
    if n == 0 then 1 else 2 * Pow2(n - 1)
  }

  lemma {:induction false} Pow2Add(a: nat, b: nat)
    ensures Pow2(a + b) == Pow2(a) * Pow2(b)
    decreases a
  {
    if a > 0 {
      Pow2Add(a - 1, b);
      assert Pow2(a + b) == 2 * Pow2(a - 1 + b);
    }
  }

  lemma Pow2Values()
    ensures Pow2(1) == 2 && Pow2(2) == 4 && Pow2(4) == 16 && Pow2(8) == 256
    ensures Pow2(16) == 0x1_0000
    ensures Pow2(31) == 0x8000_0000 && Pow2(32) == 0x1_0000_0000
  {
    assert Pow2(8) == 256 by {
      assert Pow2(4) == 16 by { assert Pow2(2) == 4; }
    }
    assert Pow2(16) == 0x1_0000 by { Pow2Add(8, 8); }
    assert Pow2(32) == 0x1_0000_0000 by { Pow2Add(16, 16); }
  }

  lemma SmallPow2()
    ensures Pow2(0) == 1 && Pow2(1) == 2 && Pow2(2) == 4 && Pow2(3) == 8
    ensures Pow2(4) == 16 && Pow2(5) == 32 && Pow2(6) == 64 && Pow2(7) == 128
  {
  }

  lemma {:induction false} Pow2Mono(a: nat, b: nat)
    requires a <= b
    ensures Pow2(a) <= Pow2(b)
    decreases b
  {
    if a < b { Pow2Mono(a, b - 1); }
  }

  /** `x << k` with no width: k doublings. */
  function Shl(x: nat, k: nat): nat
  {
    if k == 0 then x else 2 * Shl(x, k - 1)
  }

  /** Shifting left by k multiplies by 2^k. */
  lemma {:induction false} ShlMul(x: nat, k: nat)
    ensures Shl(x, k) == x * Pow2(k)
    decreases k
  {
    if k > 0 {
      ShlMul(x, k - 1);
      MulAssoc2(x, Pow2(k - 1));
    }
  }

  lemma MulAssoc2(x: int, p: int)
    ensures 2 * (x * p) == x * (2 * p)
  {
  }

  /** One-bit exclusive or, and, or. */
  function XorBit(x: nat, y: nat): nat { if x % 2 != y % 2 then 1 else 0 }
  function AndBit(x: nat, y: nat): nat { if x % 2 == 1 && y % 2 == 1 then 1 else 0 }
  function OrBit(x: nat, y: nat): nat { if x % 2 == 1 || y % 2 == 1 then 1 else 0 }

  /** Bitwise exclusive or of the low n bits of x and y. */
  function Xor(x: nat, y: nat, n: nat): (r: nat)
    ensures r < Pow2(n)
  {
    if n == 0 then 0 else 2 * Xor(x / 2, y / 2, n - 1) + XorBit(x, y)
  }

  /** Bitwise and of the low n bits of x and y. */
  function And(x: nat, y: nat, n: nat): (r: nat)
    ensures r < Pow2(n)
  {
    if n == 0 then 0 else 2 * And(x / 2, y / 2, n - 1) + AndBit(x, y)
  }

  /** Bitwise or of the low n bits of x and y. */
  function Or(x: nat, y: nat, n: nat): nat
  {
    if n == 0 then 0 else 2 * Or(x / 2, y / 2, n - 1) + OrBit(x, y)
  }

  /** Exclusive or with zero keeps a value of that width. */
  lemma {:induction false} XorZero(x: nat, n: nat)
    requires x < Pow2(n)
    ensures Xor(x, 0, n) == x
    decreases n
  {
    if n > 0 { XorZero(x / 2, n - 1); }
  }

  /** Exclusive or with all ones is the one's complement. */
  lemma {:induction false} XorOnes(x: nat, n: nat)
    requires x < Pow2(n)
    ensures Xor(x, Pow2(n) - 1, n) == Pow2(n) - 1 - x
    decreases n
  {
    if n > 0 {
      XorOnes(x / 2, n - 1);
      assert (Pow2(n) - 1) / 2 == Pow2(n - 1) - 1;
    }
  }

  /** And with all ones keeps a value of that width. */
  lemma {:induction false} AndOnes(x: nat, n: nat)
    requires x < Pow2(n)
    ensures And(x, Pow2(n) - 1, n) == x
    decreases n
  {
    if n > 0 {
      var p := Pow2(n - 1);
      HalfOdd(2 * p - 1, p - 1);
      AndOnes(x / 2, n - 1);
    }
  }

  /** And with one keeps the lowest bit. */
  lemma AndOne(x: nat, n: nat)
    requires n > 0
    ensures And(x, 1, n) == x % 2
  {
    AndZero(x / 2, n - 1);
  }

  /** And with a low mask (bits 0..k-1 set) keeps the value modulo 2^k. */
  lemma {:induction false} AndLowMask(x: nat, k: nat, n: nat)
    requires k <= n
    ensures And(x, Pow2(k) - 1, n) == x % Pow2(k)
    decreases k
  {
    if k == 0 {
      AndZero(x, n);
    } else {
      var p := Pow2(k - 1);
      AndLowMask(x / 2, k - 1, n - 1);
      AndOddUnfold(x, Pow2(k) - 1, n, p - 1);
      AndLowStep(x, p, Pow2(k), And(x / 2, p - 1, n - 1), x % 2, And(x, Pow2(k) - 1, n));
    }
  }

  /** And with an odd mask keeps the lowest bit and ands the rest with the mask halved. */
  lemma AndOddUnfold(x: nat, m: nat, n: nat, h: nat)
    requires n > 0 && m == 2 * h + 1
    ensures And(x, m, n) == 2 * And(x / 2, h, n - 1) + x % 2
  {
    HalfOdd(m, h);
  }

  /** The last step of AndLowMask: the masked upper bits, doubled, and the lowest bit. */
  lemma AndLowStep(x: nat, p: nat, q: nat, low: nat, bit: nat, r: nat)
    requires p > 0 && q == 2 * p && low == (x / 2) % p && bit == x % 2 && r == 2 * low + bit
    ensures r == x % q
  {
    LowBitsStep(x, p);
  }

  lemma LowBitsStep(x: nat, p: nat)
    requires p > 0
    ensures x % (2 * p) == 2 * ((x / 2) % p) + x % 2
  {
    var q := (x / 2) / p;
    var low := (x / 2) % p;
    assert x / 2 == q * p + low;
    assert x == 2 * (x / 2) + x % 2;
    assert x == q * (2 * p) + (2 * low + x % 2);
    DivModUnique(x, 2 * p, q, 2 * low + x % 2);
  }

  /** Exclusive or is symmetric. */
  lemma {:induction false} XorCommutes(x: nat, y: nat, n: nat)
    ensures Xor(x, y, n) == Xor(y, x, n)
    decreases n
  {
    if n > 0 { XorCommutes(x / 2, y / 2, n - 1); }
  }

  lemma HalfOdd(m: nat, h: nat)
    requires m == 2 * h + 1
    ensures m / 2 == h && m % 2 == 1
  {
  }

  lemma {:induction false} AndZero(x: nat, n: nat)
    ensures And(x, 0, n) == 0
    decreases n
  {
    if n > 0 { AndZero(x / 2, n - 1); }
  }

  /** Division with remainder has one answer. */
  lemma DivModUnique(x: int, d: int, q: int, r: int)
    requires d > 0 && 0 <= r < d && x == q * d + r
    ensures x / d == q && x % d == r
  {
    var q', r' := x / d, x % d;
    assert x == q' * d + r';
    if q' < q { MulLe(q' + 1, q, d); }
    if q < q' { MulLe(q + 1, q', d); }
  }

  lemma MulLe(a: int, b: int, d: int)
    requires d >= 0 && a <= b
    ensures a * d <= b * d
  {
    assert b * d - a * d == (b - a) * d;
  }

  /** And with a high mask (bits k..n-1 set) clears the low k bits of a value of width n. */
  lemma {:induction false} AndHighMask(x: nat, k: nat, n: nat, mask: nat)
    requires k <= n && x < Pow2(n) && mask + Pow2(k) == Pow2(n)
    ensures And(x, mask, n) == x / Pow2(k) * Pow2(k)
    decreases n
  {
    if k == 0 {
      AndOnes(x, n);
      DivModUnique(x, 1, x, 0);
    } else {
      var p := Pow2(k - 1);
      var pn := Pow2(n - 1);
      assert Pow2(k) == 2 * p && Pow2(n) == 2 * pn;
      var m' := pn - p;
      assert mask == 2 * m';
      HalfEven(mask, m');
      assert x / 2 < pn;
      AndHighMask(x / 2, k - 1, n - 1, m');
      assert And(x, mask, n) == 2 * And(x / 2, m', n - 1);
      DoubleDiv(x, p);
    }
  }

  lemma HalfEven(mask: nat, h: nat)
    requires mask == 2 * h
    ensures mask / 2 == h && mask % 2 == 0
  {
  }

  lemma DoubleDiv(x: nat, p: nat)
    requires p > 0
    ensures 2 * ((x / 2) / p * p) == x / (2 * p) * (2 * p)
  {
    DivDiv(x, 2, p);
  }

  lemma DivDiv(x: nat, a: nat, b: nat)
    requires a > 0 && b > 0
    ensures x / a / b == x / (a * b)
  {
    var q := x / a / b;
    var r1 := x % a;
    var r2 := (x / a) % b;
    assert x / a == q * b + r2;
    assert x == (x / a) * a + r1;
    assert x == q * (a * b) + (r2 * a + r1);
    MulLe(r2, b - 1, a);
    assert (b - 1) * a == a * b - a;
    DivModUnique(x, a * b, q, r2 * a + r1);
  }

  /** Or of a value with one whose set bits all lie below 2^k, the first having none there, is their sum. */
  lemma {:induction false} OrDisjoint(hi: nat, lo: nat, k: nat, n: nat)
    requires lo < Pow2(k) && k <= n && hi * Pow2(k) + lo < Pow2(n)
    ensures Or(hi * Pow2(k), lo, n) == hi * Pow2(k) + lo
    ensures Or(lo, hi * Pow2(k), n) == hi * Pow2(k) + lo
    decreases n
  {
    if k == 0 {
      OrZero(hi, n);
    } else {
      var p := Pow2(k - 1);
      assert hi * Pow2(k) == 2 * (hi * p);
      assert (hi * Pow2(k)) / 2 == hi * p;
      assert (hi * Pow2(k) + lo) / 2 == hi * p + lo / 2;
      OrDisjoint(hi, lo / 2, k - 1, n - 1);
    }
  }

  lemma {:induction false} OrZero(x: nat, n: nat)
    requires x < Pow2(n)
    ensures Or(x, 0, n) == x && Or(0, x, n) == x
    decreases n
  {
    if n > 0 { OrZero(x / 2, n - 1); }
  }

  /** (x mod (pm * pd)) / pm: with powers of two, bits m..m+d-1 of x. */
  lemma ModDiv(x: nat, pm: nat, pd: nat)
    requires pm > 0 && pd > 0
    ensures (x % (pm * pd)) / pm == (x / pm) % pd
  {
    var q := x / pm;
    var r := x % pm;
    var qq := q / pd;
    var qr := q % pd;
    assert x == q * pm + r;
    assert q == qq * pd + qr;
    assert x == qq * (pm * pd) + (qr * pm + r);
    MulLe(qr, pd - 1, pm);
    assert (pd - 1) * pm == pm * pd - pm;
    DivModUnique(x, pm * pd, qq, qr * pm + r);
    DivModUnique(qr * pm + r, pm, qr, r);
  }

  /** Shifting left and then right by more: (g * ps) / (ps * pe) == g / pe. */
  lemma MulDiv(g: nat, ps: nat, pe: nat)
    requires ps > 0 && pe > 0
    ensures (g * ps) / (ps * pe) == g / pe
  {
    var q := g / pe;
    var r := g % pe;
    assert g == q * pe + r;
    assert g * ps == q * (ps * pe) + r * ps;
    MulLe(r, pe - 1, ps);
    assert (pe - 1) * ps == ps * pe - ps;
    DivModUnique(g * ps, ps * pe, q, r * ps);
  }
}
