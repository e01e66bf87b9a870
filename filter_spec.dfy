/**
 * The scanline filters of RFC 2083 section 6, as functions on byte sequences.
 * Byte x of the filtered row is raw[x] minus a predictor, modulo 256; the
 * predictor looks at a (the byte bpp to the left), b (the byte above) and
 * c (the byte above and to the left), each taken as 0 where it does not exist.
 * A missing previous row (the first scanline) is `Null`.
 */
module FilterSpec {
  import opened Base
  import opened FilterTypes

  /** a: the byte of `row` one pixel to the left of position x. */
  function Left(row: seq<byte>, x: nat, bpp: nat): byte
  {
    if 0 < bpp <= x <= |row| then row[x - bpp] else 0
  }

  /** b: the byte above position x. */
  function Above(prev: Nullable<seq<byte>>, x: nat): byte
  {
    if prev.NotNull? && x < |prev.value| then prev.value[x] else 0
  }

  /** c: the byte above and one pixel to the left of position x. */
  function UpperLeft(prev: Nullable<seq<byte>>, x: nat, bpp: nat): byte
  {
    if 0 < bpp <= x then Above(prev, x - bpp) else 0
  }

  function Dist(x: int, y: int): nat { if x < y then y - x else x - y }

  /**
   * The Paeth predictor: of a, b and c, the one nearest to p = a + b - c,
   * preferring a, then b, on ties.
   */
  function PaethPredictor(a: byte, b: byte, c: byte): byte
  {
    var p := a as int + b as int - c as int;
    var pa, pb, pc := Dist(p, a as int), Dist(p, b as int), Dist(p, c as int);
    if pa <= pb && pa <= pc then a else if pb <= pc then b else c
  }

  /**
   * What the Paeth predictor promises: it is one of a, b and c, none of the
   * three is nearer to p, it moves off a only for a strictly nearer value,
   * and it picks c over a different b only when c is strictly nearer.
   */
  lemma PaethPredictorNearest(a: byte, b: byte, c: byte)
    ensures var r := PaethPredictor(a, b, c);
      r == a || r == b || r == c
    ensures var r, p := PaethPredictor(a, b, c), a as int + b as int - c as int;
      Dist(p, r as int) <= Dist(p, a as int) && Dist(p, r as int) <= Dist(p, b as int) && Dist(p, r as int) <= Dist(p, c as int)
    ensures var r, p := PaethPredictor(a, b, c), a as int + b as int - c as int;
      r != a ==> Dist(p, a as int) > Dist(p, r as int)
    ensures var r, p := PaethPredictor(a, b, c), a as int + b as int - c as int;
      r == c && c != a && c != b ==> Dist(p, b as int) > Dist(p, c as int)
  {
  }

  /** The predictor of filter t for position x of `row`; it reads only bytes of `row` before x. */
  function Predictor(t: ConcreteFilter, row: seq<byte>, x: nat, prev: Nullable<seq<byte>>, bpp: nat): byte
  {
    match t
    case None => 0
    case Sub => Left(row, x, bpp)
    case Up => Above(prev, x)
    case Average => ((Left(row, x, bpp) as int + Above(prev, x) as int) / 2) as byte
    case Paeth => PaethPredictor(Left(row, x, bpp), Above(prev, x), UpperLeft(prev, x, bpp))
  }

  /** The predictor at x does not depend on the row from x on. */
  lemma PredictorPrefix(t: ConcreteFilter, row: seq<byte>, n: nat, x: nat, prev: Nullable<seq<byte>>, bpp: nat)
    requires x <= n <= |row|
    ensures Predictor(t, row, x, prev, bpp) == Predictor(t, row[..n], x, prev, bpp)
  {
    if 0 < bpp <= x {
      assert row[..n][x - bpp] == row[x - bpp];
    }
  }

  /** Filtered byte x of the row. */
  function FilterByte(t: ConcreteFilter, raw: seq<byte>, prev: Nullable<seq<byte>>, bpp: nat, x: nat): byte
    requires x < |raw|
  {
    Wrap(raw[x] as int - Predictor(t, raw, x, prev, bpp) as int)
  }

  /** The row filtered by t. */
  function FilterRow(t: ConcreteFilter, raw: seq<byte>, prev: Nullable<seq<byte>>, bpp: nat): (r: seq<byte>)
    ensures |r| == |raw|
  {
    seq(|raw|, x requires 0 <= x < |raw| => FilterByte(t, raw, prev, bpp, x))
  }

  /**
   * After a filter has run over positions 0..hi-1 of the row: those bytes of
   * `target` (from `off`) hold the filtered bytes, all others their old values.
   */
  ghost predicate Written(target: seq<byte>, before: seq<byte>, off: nat, t: ConcreteFilter, raw: seq<byte>, prev: Nullable<seq<byte>>, bpp: nat, hi: nat)
    requires |target| == |before| && off + hi <= |target| && hi <= |raw|
  {
    && (forall k | 0 <= k < hi :: target[off + k] == FilterByte(t, raw, prev, bpp, k))
    && (forall k | 0 <= k < |target| && !(off <= k < off + hi) :: target[k] == before[k])
  }

  /** A row written over completely is the filtered row spliced into the target. */
  lemma WrittenRow(target: seq<byte>, before: seq<byte>, off: nat, t: ConcreteFilter, raw: seq<byte>, prev: Nullable<seq<byte>>, bpp: nat)
    requires |target| == |before| && off + |raw| <= |target|
    requires Written(target, before, off, t, raw, prev, bpp, |raw|)
    ensures target == Splice(before, off, FilterRow(t, raw, prev, bpp))
  {
    SpliceExt(target, before, off, FilterRow(t, raw, prev, bpp));
  }

  /** The decoder's side: rebuild the raw row from the filtered one, left to right. */
  function Reconstruct(t: ConcreteFilter, f: seq<byte>, prev: Nullable<seq<byte>>, bpp: nat): (r: seq<byte>)
    ensures |r| == |f|
  {
    if |f| == 0 then []
    else
      var done := Reconstruct(t, f[..|f| - 1], prev, bpp);
      done + [Wrap(f[|f| - 1] as int + Predictor(t, done, |done|, prev, bpp) as int)]
  }

  /** Filtering a prefix of the row gives the prefix of the filtered row. */
  lemma FilterRowPrefix(t: ConcreteFilter, raw: seq<byte>, prev: Nullable<seq<byte>>, bpp: nat, n: nat)
    requires n <= |raw|
    ensures FilterRow(t, raw, prev, bpp)[..n] == FilterRow(t, raw[..n], prev, bpp)
  {
    forall x | 0 <= x < n
      ensures FilterRow(t, raw, prev, bpp)[x] == FilterRow(t, raw[..n], prev, bpp)[x]
    {
      PredictorPrefix(t, raw, n, x, prev, bpp);
    }
  }

  lemma WrapAddSub(r: byte, p: byte)
    ensures Wrap(Wrap(r as int - p as int) as int + p as int) == r
    ensures Wrap(Wrap(r as int + p as int) as int - p as int) == r
  {
    var d := r as int - p as int;
    var s := r as int + p as int;
    if d < 0 {
      assert d % 0x100 == d + 0x100;
    } else {
      assert d % 0x100 == d;
    }
    if s >= 0x100 {
      assert s % 0x100 == s - 0x100;
    } else {
      assert s % 0x100 == s;
    }
  }

  /** The filtered row grows by one filtered byte with each raw byte. */
  lemma FilterRowSnoc(t: ConcreteFilter, raw: seq<byte>, prev: Nullable<seq<byte>>, bpp: nat)
    requires |raw| > 0
    ensures FilterRow(t, raw, prev, bpp)
      == FilterRow(t, raw[..|raw| - 1], prev, bpp) + [Wrap(raw[|raw| - 1] as int - Predictor(t, raw[..|raw| - 1], |raw| - 1, prev, bpp) as int)]
  {
    var n := |raw| - 1;
    FilterRowPrefix(t, raw, prev, bpp, n);
    PredictorPrefix(t, raw, n, n, prev, bpp);
    var f := FilterRow(t, raw, prev, bpp);
    assert f == f[..n] + [f[n]];
  }

  /** Reconstruction undoes filtering, for every filter and every row. */
  lemma {:induction false} ReconstructFilterRow(t: ConcreteFilter, raw: seq<byte>, prev: Nullable<seq<byte>>, bpp: nat)
    ensures Reconstruct(t, FilterRow(t, raw, prev, bpp), prev, bpp) == raw
    decreases |raw|
  {
    if |raw| > 0 {
      var n := |raw| - 1;
      var init := raw[..n];
      FilterRowSnoc(t, raw, prev, bpp);
      ReconstructFilterRow(t, init, prev, bpp);
      ReconstructLast(t, FilterRow(t, raw, prev, bpp), FilterRow(t, init, prev, bpp), init, prev, bpp, raw[n], Predictor(t, init, n, prev, bpp));
      FrontLast(raw);
    }
  }

  /** One more filtered byte reconstructs to the raw byte it was filtered from. */
  lemma ReconstructLast(t: ConcreteFilter, f: seq<byte>, g: seq<byte>, init: seq<byte>, prev: Nullable<seq<byte>>, bpp: nat, x: byte, p: byte)
    requires f == g + [Wrap(x as int - p as int)]
    requires Reconstruct(t, g, prev, bpp) == init
    requires p == Predictor(t, init, |init|, prev, bpp)
    ensures Reconstruct(t, f, prev, bpp) == init + [x]
  {
    assert f[..|f| - 1] == g;
    WrapAddSub(x, p);
  }

  /** Filtering undoes reconstruction: filtering is a bijection on rows of each length. */
  lemma {:induction false} FilterRowReconstruct(t: ConcreteFilter, f: seq<byte>, prev: Nullable<seq<byte>>, bpp: nat)
    ensures FilterRow(t, Reconstruct(t, f, prev, bpp), prev, bpp) == f
    decreases |f|
  {
    if |f| > 0 {
      var n := |f| - 1;
      var done := Reconstruct(t, f[..n], prev, bpp);
      FilterRowReconstruct(t, f[..n], prev, bpp);
      FilterLast(t, Reconstruct(t, f, prev, bpp), done, f[..n], prev, bpp, f[n], Predictor(t, done, n, prev, bpp));
      FrontLast(f);
    }
  }

  /** One more reconstructed byte filters back to the filtered byte it came from. */
  lemma FilterLast(t: ConcreteFilter, raw: seq<byte>, done: seq<byte>, g: seq<byte>, prev: Nullable<seq<byte>>, bpp: nat, y: byte, p: byte)
    requires raw == done + [Wrap(y as int + p as int)]
    requires FilterRow(t, done, prev, bpp) == g
    requires p == Predictor(t, done, |done|, prev, bpp)
    ensures FilterRow(t, raw, prev, bpp) == g + [y]
  {
    FilterRowSnoc(t, raw, prev, bpp);
    assert raw[..|raw| - 1] == done;
    WrapAddSub(y, p);
  }

  /** Two rows with the same filtered form under the same filter are equal. */
  lemma FilterRowInjective(t: ConcreteFilter, r1: seq<byte>, r2: seq<byte>, prev: Nullable<seq<byte>>, bpp: nat)
    requires FilterRow(t, r1, prev, bpp) == FilterRow(t, r2, prev, bpp)
    ensures r1 == r2
  {
    ReconstructFilterRow(t, r1, prev, bpp);
    ReconstructFilterRow(t, r2, prev, bpp);
  }

  /** The None filter copies the row. */
  lemma NoneCopies(raw: seq<byte>, prev: Nullable<seq<byte>>, bpp: nat)
    ensures FilterRow(None, raw, prev, bpp) == raw
  {
    var r := FilterRow(None, raw, prev, bpp);
    forall x | 0 <= x < |raw| ensures r[x] == raw[x] { }
  }

  /** On the first scanline the Up filter copies the row. */
  lemma UpFirstRowCopies(raw: seq<byte>, bpp: nat)
    ensures FilterRow(Up, raw, Null, bpp) == raw
  {
    var r := FilterRow(Up, raw, Null, bpp);
    forall x | 0 <= x < |raw| ensures r[x] == raw[x] { }
  }

  /** The Sub filter never looks at the previous row. */
  lemma SubIgnoresPrevious(raw: seq<byte>, p1: Nullable<seq<byte>>, p2: Nullable<seq<byte>>, bpp: nat)
    ensures FilterRow(Sub, raw, p1, bpp) == FilterRow(Sub, raw, p2, bpp)
  {
    var r1, r2 := FilterRow(Sub, raw, p1, bpp), FilterRow(Sub, raw, p2, bpp);
    forall x | 0 <= x < |raw| ensures r1[x] == r2[x] { }
  }

  /** On the first scanline the Paeth predictor always picks a, so Paeth filters as Sub does. */
  lemma PaethFirstRowIsSub(raw: seq<byte>, bpp: nat)
    ensures FilterRow(Paeth, raw, Null, bpp) == FilterRow(Sub, raw, Null, bpp)
  {
    var r1, r2 := FilterRow(Paeth, raw, Null, bpp), FilterRow(Sub, raw, Null, bpp);
    forall x | 0 <= x < |raw| ensures r1[x] == r2[x] { }
  }

  /** For the first pixel of a row (no left neighbour) the Paeth predictor picks b, so Paeth filters as Up does there. */
  lemma PaethFirstPixelIsUp(raw: seq<byte>, prev: Nullable<seq<byte>>, bpp: nat, x: nat)
    requires x < |raw| && x < bpp
    ensures FilterRow(Paeth, raw, prev, bpp)[x] == FilterRow(Up, raw, prev, bpp)[x]
  {
  }

  /** The Average filter on the first scanline subtracts half the left neighbour; its first pixel is copied. */
  lemma AverageFirstRow(raw: seq<byte>, bpp: nat, x: nat)
    requires 0 < bpp && x < |raw|
    ensures FilterRow(Average, raw, Null, bpp)[x] == if x < bpp then raw[x] else Wrap(raw[x] as int - raw[x - bpp] as int / 2)
  {
  }

  /** Filters of a row that depend on nothing but the row and the row above. */
  lemma FilterRowDependsOnRows(t: ConcreteFilter, raw: seq<byte>, p1: seq<byte>, p2: seq<byte>, bpp: nat)
    requires |p1| >= |raw| && |p2| >= |raw| && p1[..|raw|] == p2[..|raw|]
    ensures FilterRow(t, raw, NotNull(p1), bpp) == FilterRow(t, raw, NotNull(p2), bpp)
  {
    var r1, r2 := FilterRow(t, raw, NotNull(p1), bpp), FilterRow(t, raw, NotNull(p2), bpp);
    forall x | 0 <= x < |raw| ensures r1[x] == r2[x]
    {
      NeighboursAgree(p1, p2, |raw|, x, bpp);
      FilterByteSameNeighbours(t, raw, NotNull(p1), NotNull(p2), bpp, x);
    }
  }

  /** Rows above that agree on their first n bytes give the same b and c at every x below n. */
  lemma NeighboursAgree(p1: seq<byte>, p2: seq<byte>, n: nat, x: nat, bpp: nat)
    requires |p1| >= n && |p2| >= n && p1[..n] == p2[..n] && x < n
    ensures Above(NotNull(p1), x) == Above(NotNull(p2), x)
    ensures UpperLeft(NotNull(p1), x, bpp) == UpperLeft(NotNull(p2), x, bpp)
  {
    assert p1[x] == p1[..n][x];
    if 0 < bpp <= x {
      assert p1[x - bpp] == p1[..n][x - bpp];
    }
  }

  /** A filtered byte sees the row above only through b and c. */
  lemma FilterByteSameNeighbours(t: ConcreteFilter, raw: seq<byte>, q1: Nullable<seq<byte>>, q2: Nullable<seq<byte>>, bpp: nat, x: nat)
    requires x < |raw|
    requires Above(q1, x) == Above(q2, x) && UpperLeft(q1, x, bpp) == UpperLeft(q2, x, bpp)
    ensures FilterRow(t, raw, q1, bpp)[x] == FilterRow(t, raw, q2, bpp)[x]
  {
    PredictorSameNeighbours(t, raw, x, q1, q2, bpp);
  }

  /** The predictor sees the row above only through b and c. */
  lemma PredictorSameNeighbours(t: ConcreteFilter, row: seq<byte>, x: nat, q1: Nullable<seq<byte>>, q2: Nullable<seq<byte>>, bpp: nat)
    requires Above(q1, x) == Above(q2, x) && UpperLeft(q1, x, bpp) == UpperLeft(q2, x, bpp)
    ensures Predictor(t, row, x, q1, bpp) == Predictor(t, row, x, q2, bpp)
  {
  }
}
