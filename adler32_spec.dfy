/**
 * The Adler-32 checksum of RFC 1950 section 8 as both of the encoder's
 * implementations compute it: two running sums that start at 1 and 0, the
 * first adding each byte and the second adding the first, both modulo 65521,
 * packed as `(b << 16) | a`.
 */
module Adler32Spec {
  import opened Base
  import opened Bits

  /** `Adler32Modulus`: the largest prime below 2^16. */
  const Modulus: nat := 65521

  /**
   * `NMax`: the most bytes the batched loop adds before it reduces; 5552 is
   * the largest n with 255 n (n + 1) / 2 + (n + 1) (Modulus - 1) < 2^32.
   */
  const NMax: nat := 5552

  /** The pair (a, b) of running sums. */
  datatype Sums = Sums(a: nat, b: nat)

  predicate Reduced(s: Sums) { s.a < Modulus && s.b < Modulus }

  /** `uint a = 1, b = 0`. */
  const Initial: Sums := Sums(1, 0)

  /** One byte of the reference loop: `a = (a + x) % 65521; b = (b + a) % 65521`. */
  function Step(s: Sums, x: byte): (r: Sums)
    ensures Reduced(r)
  {
    var a := (s.a + x as nat) % Modulus;
    Sums(a, (s.b + a) % Modulus)
  }

  /** The sums after the bytes data[lo..hi], reducing after every byte. */
  function Update(s: Sums, data: seq<byte>, lo: nat, hi: nat): (r: Sums)
    requires lo <= hi <= |data|
    ensures Reduced(s) ==> Reduced(r)
    decreases hi - lo
  {
    if hi == lo then s else Step(Update(s, data, lo, hi - 1), data[hi - 1])
  }

  /** The sums after data[lo..hi] with no reduction at all: what the batched loop holds between two reductions. */
  function Lazy(s: Sums, data: seq<byte>, lo: nat, hi: nat): Sums
    requires lo <= hi <= |data|
    decreases hi - lo
  {
    if hi == lo then s
    else
      var p := Lazy(s, data, lo, hi - 1);
      Sums(p.a + data[hi - 1] as nat, p.b + p.a + data[hi - 1] as nat)
  }

  function Reduce(s: Sums): (r: Sums)
    ensures Reduced(r)
    ensures Reduced(s) ==> r == s
  {
    Sums(s.a % Modulus, s.b % Modulus)
  }

  /** The checksum of a whole byte string, as its pair of sums. */
  function Checksum(data: seq<byte>): (r: Sums)
    ensures Reduced(r)
  {
    Update(Initial, data, 0, |data|)
  }

  /** `unchecked((int)((b << 16) | a))` on the two `uint` sums. */
  function Pack(s: Sums): (r: int32)
    ensures Reduced(s) ==> Bits32(r) == s.b * 0x1_0000 + s.a
  {
    var word := Or((s.b * 0x1_0000) % 0x1_0000_0000, s.a, 32);
    PackWord(s);
    if Reduced(s) then Bits32Wrap32(word); Wrap32(word) else Wrap32(word)
  }

  /** With both sums below 2^16, the shift and the or lay b and a side by side. */
  lemma PackWord(s: Sums)
    ensures Reduced(s) ==> Or((s.b * 0x1_0000) % 0x1_0000_0000, s.a, 32) == s.b * 0x1_0000 + s.a
  {
    if Reduced(s) {
      Pow2Values();
      assert (s.b * 0x1_0000) % 0x1_0000_0000 == s.b * 0x1_0000;
      OrDisjoint(s.b, s.a, 16, 32);
    }
  }

  /** The value the encoder writes after the compressed data. */
  function Hash(data: seq<byte>): int32
  {
    Pack(Checksum(data))
  }

  lemma ModAdd(u: nat, v: nat)
    ensures (u % Modulus + v) % Modulus == (u + v) % Modulus
  {
    var q := u / Modulus;
    assert u + v == q * Modulus + (u % Modulus + v);
    DivModUnique(u + v, Modulus, q + (u % Modulus + v) / Modulus, (u % Modulus + v) % Modulus);
  }

  /** One unreduced step, reduced, is one reduced step from the reduced sums. */
  lemma StepReduce(p: Sums, x: byte)
    ensures Step(Reduce(p), x) == Reduce(Sums(p.a + x as nat, p.b + p.a + x as nat))
  {
    var y := x as nat;
    ModAdd(p.a, y);
    var a := (p.a + y) % Modulus;
    ModAdd(p.b, a);
    ModAdd(p.a + y, p.b);
    assert a + p.b == p.b + a;
    assert p.a + y + p.b == p.b + p.a + y;
  }

  /**
   * Deferring the reduction changes nothing: reducing the unreduced sums
   * gives the per-byte sums started from the reduced start.
   */
  lemma {:induction false} LazyReduces(s: Sums, data: seq<byte>, lo: nat, hi: nat)
    requires lo <= hi <= |data|
    ensures Reduce(Lazy(s, data, lo, hi)) == Update(Reduce(s), data, lo, hi)
    decreases hi - lo
  {
    if hi > lo {
      LazyReduces(s, data, lo, hi - 1);
      StepReduce(Lazy(s, data, lo, hi - 1), data[hi - 1]);
    }
  }

  /** How large the unreduced sums can grow over n bytes. */
  lemma {:induction false} LazyGrowth(s: Sums, data: seq<byte>, lo: nat, hi: nat)
    requires lo <= hi <= |data|
    ensures var r := Lazy(s, data, lo, hi); var n := hi - lo;
      && r.a <= s.a + 255 * n
      && 2 * r.b <= 2 * s.b + 2 * n * s.a + 255 * n * (n + 1)
    decreases hi - lo
  {
    if hi > lo {
      LazyGrowth(s, data, lo, hi - 1);
      var p := Lazy(s, data, lo, hi - 1);
      GrowthStep(s.a, s.b, p.a, p.b, data[hi - 1] as nat, hi - lo);
    }
  }

  lemma GrowthStep(a0: nat, b0: nat, pa: nat, pb: nat, x: nat, n: nat)
    requires n >= 1 && x <= 255
    requires pa <= a0 + 255 * (n - 1)
    requires 2 * pb <= 2 * b0 + 2 * (n - 1) * a0 + 255 * (n - 1) * n
    ensures pa + x <= a0 + 255 * n
    ensures 2 * (pb + pa + x) <= 2 * b0 + 2 * n * a0 + 255 * n * (n + 1)
  {
    assert 2 * (n - 1) * a0 + 2 * a0 == 2 * n * a0;
    assert 255 * (n - 1) * n + 2 * 255 * n == 255 * n * (n + 1);
  }

  /**
   * The batch cannot overflow: from reduced sums, at most NMax bytes keep
   * both unreduced sums within a `uint`.
   */
  lemma NoOverflow(s: Sums, data: seq<byte>, lo: nat, hi: nat)
    requires lo <= hi <= |data| && Reduced(s) && hi - lo <= NMax
    ensures Lazy(s, data, lo, hi).a < 0x1_0000_0000
    ensures Lazy(s, data, lo, hi).b < 0x1_0000_0000
  {
    LazyGrowth(s, data, lo, hi);
    GrowthBound(hi - lo, s.a);
  }

  /** The growth terms of LazyGrowth for at most NMax bytes from a reduced sum. */
  lemma GrowthBound(n: nat, a: nat)
    requires n <= NMax && a < Modulus
    ensures 2 * n * a <= 2 * NMax * (Modulus - 1)
    ensures 255 * n * (n + 1) <= 255 * NMax * (NMax + 1)
  {
    MulLe(2 * n, 2 * NMax, a);
    MulLe(a, Modulus - 1, 2 * NMax);
    MulLe(255 * n, 255 * NMax, n + 1);
    MulLe(n + 1, NMax + 1, 255 * NMax);
  }

  /** Feeding in two pieces is feeding everything at once. */
  lemma {:induction false} UpdateSplit(s: Sums, data: seq<byte>, lo: nat, mid: nat, hi: nat)
    requires lo <= mid <= hi <= |data|
    ensures Update(Update(s, data, lo, mid), data, mid, hi) == Update(s, data, lo, hi)
    decreases hi - mid
  {
    if hi > mid {
      UpdateSplit(s, data, lo, mid, hi - 1);
    }
  }

  /** The sums see only the bytes in the window. */
  lemma {:induction false} UpdateShift(s: Sums, d1: seq<byte>, lo1: nat, d2: seq<byte>, lo2: nat, n: nat)
    requires lo1 + n <= |d1| && lo2 + n <= |d2|
    requires forall k | lo1 <= k < lo1 + n :: d1[k] == d2[lo2 + (k - lo1)]
    ensures Update(s, d1, lo1, lo1 + n) == Update(s, d2, lo2, lo2 + n)
    decreases n
  {
    if n > 0 {
      UpdateShift(s, d1, lo1, d2, lo2, n - 1);
    }
  }

  /** Feeding x and then y is feeding x + y. */
  lemma UpdateAppend(s: Sums, x: seq<byte>, y: seq<byte>)
    ensures Update(Update(s, x, 0, |x|), y, 0, |y|) == Update(s, x + y, 0, |x + y|)
  {
    var xy := x + y;
    assert forall k | 0 <= k < |x| :: x[k] == xy[0 + (k - 0)];
    assert forall k | 0 <= k < |y| :: y[k] == xy[|x| + (k - 0)];
    var u := Update(s, x, 0, |x|);
    UpdateShift(s, x, 0, xy, 0, |x|);
    assert u == Update(s, xy, 0, |x|);
    UpdateShift(u, y, 0, xy, |x|, |y|);
    assert Update(u, y, 0, |y|) == Update(u, xy, |x|, |xy|);
    UpdateSplit(s, xy, 0, |x|, |xy|);
  }

  /** The checksum of a concatenation continues from the checksum of its first part. */
  lemma ChecksumAppend(x: seq<byte>, y: seq<byte>)
    ensures Checksum(x + y) == Update(Checksum(x), y, 0, |y|)
  {
    UpdateAppend(Initial, x, y);
  }

  /** Empty input hashes to 1. */
  lemma EmptyVector()
    ensures Hash([]) == 1
  {
  }

  /** The vectors "a", "abc" and 00 01 02 03. */
  lemma ShortVectors()
    ensures Bits32(Hash([0x61])) == 0x0062_0062
    ensures Bits32(Hash([0x61, 0x62, 0x63])) == 0x024d_0127
    ensures Bits32(Hash([0x00, 0x01, 0x02, 0x03])) == 0x000e_0007
  {
    var abc: seq<byte> := [0x61, 0x62, 0x63];
    assert Update(Initial, abc, 0, 1) == Sums(0x62, 0x62);
    assert Update(Initial, abc, 0, 2) == Sums(0xc4, 0x0126);
    assert Update(Initial, abc, 0, 3) == Sums(0x0127, 0x024d);
    var n: seq<byte> := [0x00, 0x01, 0x02, 0x03];
    assert Update(Initial, n, 0, 1) == Sums(1, 1);
    assert Update(Initial, n, 0, 2) == Sums(2, 3);
    assert Update(Initial, n, 0, 3) == Sums(4, 7);
    assert Update(Initial, n, 0, 4) == Sums(7, 0x0e);
  }
}
