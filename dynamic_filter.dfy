/**
 * The dynamic filter: every concrete filter is tried on the row, each
 * result is scored by the sum of the absolute values of its bytes read as
 * signed bytes, and the row is filtered again with the first filter of
 * least score, whose type byte goes just before the row.
 */
module DynamicFilter {
  import opened Base
  import opened Words
  import opened FilterTypes
  import opened FilterSpec
  import Math
  import IFilter

  const Type: FilterType := Dynamic

  /** The filters tried, in order. */
  const PossibleFilters: seq<ConcreteFilter> := [None, Sub, Up, Average, Paeth]

  /** |(sbyte)b|. */
  function Magnitude(b: byte): (r: nat)
    ensures r <= 128
  {
    var v := SByte(b);
    if v < 0 then -v else v
  }

  /** The sum of the magnitudes of the first n bytes, without wrap-around. */
  function AbsSum(s: seq<byte>, n: nat): (r: nat)
    requires n <= |s|
    ensures r <= 128 * n
  {
    if n == 0 then 0 else AbsSum(s, n - 1) + Magnitude(s[n - 1])
  }

  /** The sum of the magnitudes of the bytes from i on, without wrap-around. */
  function AbsFrom(s: seq<byte>, i: nat): (r: nat)
    requires i <= |s|
    ensures r <= 128 * (|s| - i)
    decreases |s| - i
  {
    if i == |s| then 0 else Magnitude(s[i]) + AbsFrom(s, i + 1)
  }

  /** The sum of the magnitudes of all bytes, without wrap-around. */
  function AbsTotal(s: seq<byte>): (r: nat)
    ensures r <= 128 * |s|
  {
    AbsFrom(s, 0)
  }

  /** The first n bytes and the rest make up the total. */
  lemma {:induction false} AbsSumFrom(s: seq<byte>, n: nat)
    requires n <= |s|
    ensures AbsSum(s, n) + AbsFrom(s, n) == AbsTotal(s)
  {
    if n > 0 {
      AbsSumFrom(s, n - 1);
    }
  }

  /** The sum over a prefix does not look past the prefix. */
  lemma {:induction false} AbsSumPrefix(s: seq<byte>, t: seq<byte>, n: nat)
    requires n <= |s| && n <= |t| && s[..n] == t[..n]
    ensures AbsSum(s, n) == AbsSum(t, n)
  {
    if n > 0 {
      assert s[n - 1] == s[..n][n - 1];
      assert t[n - 1] == t[..n][n - 1];
      AbsSumPrefix(s, t, n - 1);
    }
  }

  /** The total over a concatenation is the sum of the totals. */
  lemma {:induction false} AbsSumAppend(a: seq<byte>, b: seq<byte>, n: nat)
    requires n <= |b|
    ensures AbsSum(a + b, |a| + n) == AbsSum(a, |a|) + AbsSum(b, n)
  {
    if n == 0 {
      AbsSumPrefix(a + b, a, |a|);
    } else {
      AbsSumAppend(a, b, n - 1);
      assert (a + b)[|a| + n - 1] == b[n - 1];
    }
  }

  lemma AbsTotalAppend(a: seq<byte>, b: seq<byte>)
    ensures AbsTotal(a + b) == AbsTotal(a) + AbsTotal(b)
  {
    AbsSumAppend(a, b, |b|);
    AbsSumFrom(a + b, |a + b|);
    AbsSumFrom(a, |a|);
    AbsSumFrom(b, |b|);
  }

  /** `Math.Abs(sb[k])`: the magnitude of the byte read as an sbyte. */
  method AbsAt(bytes: seq<byte>, k: nat) returns (r: int32)
    requires k < |bytes|
    ensures r as int == Magnitude(bytes[k]) && 0 <= r <= 128
  {
    r := Math.Abs(SByte(bytes[k]) as int32);
  }

  /** Four more bytes of the sum. */
  lemma AbsSumFour(s: seq<byte>, p: nat)
    requires p + 4 <= |s|
    ensures AbsSum(s, p + 4) == AbsSum(s, p) + Magnitude(s[p]) + Magnitude(s[p + 1]) + Magnitude(s[p + 2]) + Magnitude(s[p + 3])
  {
    assert AbsSum(s, p + 4) == AbsSum(s, p + 3) + Magnitude(s[p + 3]);
    assert AbsSum(s, p + 3) == AbsSum(s, p + 2) + Magnitude(s[p + 2]);
    assert AbsSum(s, p + 2) == AbsSum(s, p + 1) + Magnitude(s[p + 1]);
  }

  /** The source's sum of sixteen Abs terms, computed in `int`; it cannot overflow, as each term is at most 128. */
  method Sum16(bytes: array<byte>, p: nat) returns (block: int32)
    requires p + 16 <= bytes.Length
    ensures block as int == AbsSum(bytes[..], p + 16) - AbsSum(bytes[..], p)
  {
    var s := bytes[..];
    var t0 := AbsAt(s, p + 0);
    var t1 := AbsAt(s, p + 1);
    var t2 := AbsAt(s, p + 2);
    var t3 := AbsAt(s, p + 3);
    var t4 := AbsAt(s, p + 4);
    var t5 := AbsAt(s, p + 5);
    var t6 := AbsAt(s, p + 6);
    var t7 := AbsAt(s, p + 7);
    var t8 := AbsAt(s, p + 8);
    var t9 := AbsAt(s, p + 9);
    var t10 := AbsAt(s, p + 10);
    var t11 := AbsAt(s, p + 11);
    var t12 := AbsAt(s, p + 12);
    var t13 := AbsAt(s, p + 13);
    var t14 := AbsAt(s, p + 14);
    var t15 := AbsAt(s, p + 15);
    var total := t0 as int + t1 as int + t2 as int + t3 as int + t4 as int + t5 as int + t6 as int + t7 as int
      + t8 as int + t9 as int + t10 as int + t11 as int + t12 as int + t13 as int + t14 as int + t15 as int;
    AbsSumFour(s, p);
    AbsSumFour(s, p + 4);
    AbsSumFour(s, p + 8);
    AbsSumFour(s, p + 12);
    block := total as int32;
  }

  /**
   * `SumAbsoluteDifferences`: the magnitudes of every byte of the buffer,
   * summed in unchecked `int`, sixteen at a time and then one at a time.
   */
  method SumAbsoluteDifferences(bytes: array<byte>) returns (sum: int32)
    ensures sum == Wrap32(AbsTotal(bytes[..]))
  {
    sum := 0;
    var len := bytes.Length;
    var sb := 0;
    while len >= 16
      invariant 0 <= len && sb + len == bytes.Length
      invariant sum == Wrap32(AbsSum(bytes[..], sb))
    {
      var block := Sum16(bytes, sb);
      AddBlock(bytes[..], sum, sb, sb + 16, block);
      sum := AddInt(sum, block);
      len, sb := len - 16, sb + 16;
    }
    while len > 0
      invariant 0 <= len && sb + len == bytes.Length
      invariant sum == Wrap32(AbsSum(bytes[..], sb))
    {
      var term := AbsAt(bytes[..], sb);
      AddBlock(bytes[..], sum, sb, sb + 1, term);
      sum := AddInt(sum, term);
      len, sb := len - 1, sb + 1;
    }
    AbsSumFrom(bytes[..], sb);
  }

  /** What the dynamic filter needs of its arguments: every candidate runs at offset 1 and the chosen one at `off`. */
  predicate CanFilter(targetLength: nat, off: nat, raw: seq<byte>, prev: Nullable<seq<byte>>, bpp: nat)
  {
    && 1 <= off && off + |raw| <= targetLength && 1 + |raw| <= targetLength
    && (prev.NotNull? ==> |prev.value| >= |raw|)
    && 0 < bpp <= |raw|
  }

  /** Adding the magnitudes of bytes lo to hi - 1 to the wrapped sum up to lo gives the wrapped sum up to hi. */
  lemma AddBlock(s: seq<byte>, sum: int32, lo: nat, hi: nat, block: int32)
    requires lo <= hi <= |s| && sum == Wrap32(AbsSum(s, lo))
    requires block as int == AbsSum(s, hi) - AbsSum(s, lo)
    ensures AddInt(sum, block) == Wrap32(AbsSum(s, hi))
  {
    AddIntWrap(AbsSum(s, lo), block);
  }

  /** What `SumAbsoluteDifferences` computes: the wrapped sum of the magnitudes of the whole buffer. */
  function Score(buf: seq<byte>): int32
  {
    Wrap32(AbsTotal(buf))
  }

  /** The target buffer `before` once candidate t has filtered the row into it at offset 1. */
  function Candidate(t: ConcreteFilter, before: seq<byte>, raw: seq<byte>, prev: Nullable<seq<byte>>, bpp: nat): seq<byte>
    requires 1 + |raw| <= |before|
  {
    before[..1] + FilterRow(t, raw, prev, bpp) + before[1 + |raw|..]
  }

  /** That is the splice a filter's FilterInto leaves at offset 1. */
  lemma CandidateIsSplice(t: ConcreteFilter, before: seq<byte>, raw: seq<byte>, prev: Nullable<seq<byte>>, bpp: nat)
    requires 1 + |raw| <= |before|
    ensures Candidate(t, before, raw, prev, bpp) == Splice(before, 1, FilterRow(t, raw, prev, bpp))
  {
  }

  /** The pair (bestFilter, bestSum) of the selection loop. */
  datatype Choice = Choice(filter: ConcreteFilter, sum: int32)

  /** The selection loop after it has looked at the first n candidates, whose sums are `sums`: a strictly smaller sum replaces the best so far. */
  function Select(cands: seq<ConcreteFilter>, sums: seq<int32>, n: nat): Choice
    requires n <= |cands| && n <= |sums|
  {
    if n == 0 then Choice(None, INT32_MAX as int32)
    else
      var c := Select(cands, sums, n - 1);
      if sums[n - 1] < c.sum then Choice(cands[n - 1], sums[n - 1]) else c
  }

  /** The score of each of `cands`, in order. */
  function Scores(cands: seq<ConcreteFilter>, before: seq<byte>, raw: seq<byte>, prev: Nullable<seq<byte>>, bpp: nat): (r: seq<int32>)
    requires 1 + |raw| <= |before|
    ensures |r| == |cands|
    ensures forall j | 0 <= j < |cands| :: r[j] == Score(Candidate(cands[j], before, raw, prev, bpp))
  {
    seq(|cands|, j requires 0 <= j < |cands| => Score(Candidate(cands[j], before, raw, prev, bpp)))
  }

  /** The filter the dynamic filter settles on. */
  function Best(before: seq<byte>, raw: seq<byte>, prev: Nullable<seq<byte>>, bpp: nat): ConcreteFilter
    requires 1 + |raw| <= |before|
  {
    var sums := Scores(PossibleFilters, before, raw, prev, bpp);
    Select(PossibleFilters, sums, |sums|).filter
  }

  /**
   * When None is tried first, the loop ends on a candidate together with its
   * own sum, a sum no candidate beats, and no candidate of that sum comes
   * before it.
   */
  lemma {:induction false} SelectIsFirstMinimum(cands: seq<ConcreteFilter>, sums: seq<int32>, n: nat)
    requires 0 < n <= |cands| == |sums| && cands[0] == None
    ensures var c := Select(cands, sums, n);
      exists i | 0 <= i < n :: c.filter == cands[i] && c.sum == sums[i]
        && (forall j | 0 <= j < n :: c.sum <= sums[j])
        && (forall j | 0 <= j < i :: sums[j] > c.sum)
  {
    var c := Select(cands, sums, n);
    if n == 1 {
      assert Select(cands, sums, 0) == Choice(None, INT32_MAX as int32);
      assert c.filter == cands[0] && c.sum == sums[0];
    } else {
      SelectIsFirstMinimum(cands, sums, n - 1);
      var d := Select(cands, sums, n - 1);
      var i :| 0 <= i < n - 1 && d.filter == cands[i] && d.sum == sums[i]
        && (forall j | 0 <= j < n - 1 :: d.sum <= sums[j])
        && (forall j | 0 <= j < i :: sums[j] > d.sum);
      if sums[n - 1] < d.sum {
        assert c.filter == cands[n - 1] && c.sum == sums[n - 1];
      } else {
        assert c.filter == cands[i] && c.sum == sums[i];
      }
    }
  }

  /** The tag of the j-th candidate is j. */
  lemma PossibleFiltersTags()
    ensures forall j | 0 <= j < |PossibleFilters| :: Tag(PossibleFilters[j]) as int == j
    ensures forall t: ConcreteFilter :: t in PossibleFilters
  {
  }

  /** Over the five candidates, the chosen one is found by its tag. */
  lemma SelectByTag(sums: seq<int32>)
    requires |sums| == |PossibleFilters|
    ensures var c := Select(PossibleFilters, sums, |sums|);
      && sums[Tag(c.filter)] == c.sum
      && (forall j | 0 <= j < |sums| :: c.sum <= sums[j])
      && (forall j | 0 <= j < Tag(c.filter) as int :: sums[j] > c.sum)
  {
    SelectIsFirstMinimum(PossibleFilters, sums, |sums|);
    PossibleFiltersTags();
  }

  /**
   * The filter chosen has the least score of all five, and any filter of the
   * same score has a type number no smaller than the chosen one's.
   */
  lemma BestIsFirstMinimum(before: seq<byte>, raw: seq<byte>, prev: Nullable<seq<byte>>, bpp: nat, t: ConcreteFilter)
    requires 1 + |raw| <= |before|
    ensures Score(Candidate(Best(before, raw, prev, bpp), before, raw, prev, bpp)) <= Score(Candidate(t, before, raw, prev, bpp))
    ensures Score(Candidate(t, before, raw, prev, bpp)) == Score(Candidate(Best(before, raw, prev, bpp), before, raw, prev, bpp))
      ==> Tag(Best(before, raw, prev, bpp)) <= Tag(t)
  {
    var sums := Scores(PossibleFilters, before, raw, prev, bpp);
    SelectByTag(sums);
    PossibleFiltersTags();
    var best := Best(before, raw, prev, bpp);
    assert PossibleFilters[Tag(best)] == best;
    assert PossibleFilters[Tag(t)] == t;
  }

  /** Without wrap-around the score is the row's own sum plus what lies outside the row. */
  lemma ScoreSplits(t: ConcreteFilter, before: seq<byte>, raw: seq<byte>, prev: Nullable<seq<byte>>, bpp: nat)
    requires 1 + |raw| <= |before| && 128 * |before| <= INT32_MAX
    ensures Score(Candidate(t, before, raw, prev, bpp)) as int
      == AbsTotal(before[..1]) + AbsTotal(FilterRow(t, raw, prev, bpp)) + AbsTotal(before[1 + |raw|..])
  {
    var w := FilterRow(t, raw, prev, bpp);
    assert Splice(before, 1, w) == before[..1] + w + before[1 + |raw|..];
    AbsTotalAppend(before[..1] + w, before[1 + |raw|..]);
    AbsTotalAppend(before[..1], w);
  }

  /**
   * While the buffer is short enough that the sum cannot wrap (at most
   * 2^31 / 128 bytes), the chosen filter is the first of those whose
   * filtered row has the least sum of magnitudes.
   */
  lemma BestMinimisesRowSum(before: seq<byte>, raw: seq<byte>, prev: Nullable<seq<byte>>, bpp: nat, t: ConcreteFilter)
    requires 1 + |raw| <= |before| && 128 * |before| <= INT32_MAX
    ensures AbsTotal(FilterRow(Best(before, raw, prev, bpp), raw, prev, bpp)) <= AbsTotal(FilterRow(t, raw, prev, bpp))
    ensures AbsTotal(FilterRow(Best(before, raw, prev, bpp), raw, prev, bpp)) == AbsTotal(FilterRow(t, raw, prev, bpp))
      ==> Tag(Best(before, raw, prev, bpp)) <= Tag(t)
  {
    BestIsFirstMinimum(before, raw, prev, bpp, t);
    ScoreSplits(t, before, raw, prev, bpp);
    ScoreSplits(Best(before, raw, prev, bpp), before, raw, prev, bpp);
  }

  /** The choice sees the buffer only through the bytes outside the row window. */
  lemma BestOutsideOnly(b1: seq<byte>, b2: seq<byte>, raw: seq<byte>, prev: Nullable<seq<byte>>, bpp: nat)
    requires 1 + |raw| <= |b1| && 1 + |raw| <= |b2|
    requires b1[..1] == b2[..1] && b1[1 + |raw|..] == b2[1 + |raw|..]
    ensures Best(b1, raw, prev, bpp) == Best(b2, raw, prev, bpp)
  {
    var s1 := Scores(PossibleFilters, b1, raw, prev, bpp);
    var s2 := Scores(PossibleFilters, b2, raw, prev, bpp);
    forall j | 0 <= j < |PossibleFilters|
      ensures s1[j] == s2[j]
    {
      assert Candidate(PossibleFilters[j], b1, raw, prev, bpp) == Candidate(PossibleFilters[j], b2, raw, prev, bpp);
    }
    assert s1 == s2;
  }

  /** The buffer once `best` has been chosen: the last candidate's row at 1, then best's tag at off - 1 and best's row at off. */
  function Finished(before: seq<byte>, off: nat, raw: seq<byte>, prev: Nullable<seq<byte>>, bpp: nat, best: ConcreteFilter): seq<byte>
    requires CanFilter(|before|, off, raw, prev, bpp)
  {
    Splice(Splice(before, 1, FilterRow(Paeth, raw, prev, bpp))[off - 1 := Tag(best)], off, FilterRow(best, raw, prev, bpp))
  }

  /** The buffer after the dynamic filter. */
  function Filtered(before: seq<byte>, off: nat, raw: seq<byte>, prev: Nullable<seq<byte>>, bpp: nat): seq<byte>
    requires CanFilter(|before|, off, raw, prev, bpp)
  {
    Finished(before, off, raw, prev, bpp, Best(before, raw, prev, bpp))
  }

  /** Writing a tag at 0 and a window at 1 leaves the tag, the window and the old tail. */
  lemma TagThenWindow(s: seq<byte>, tag: byte, w1: seq<byte>, w: seq<byte>)
    requires 1 + |w| <= |s| && |w1| == |w|
    ensures Splice(Splice(s, 1, w1)[0 := tag], 1, w) == [tag] + w + s[1 + |w|..]
  {
    var r := Splice(Splice(s, 1, w1)[0 := tag], 1, w);
    var e := [tag] + w + s[1 + |w|..];
    assert |r| == |e|;
    forall k | 0 <= k < |r|
      ensures r[k] == e[k]
    {
      if k == 0 {
      } else if k <= |w| {
        assert r[k] == r[1..1 + |w|][k - 1];
      } else {
      }
    }
  }

  /** At offset 1, whatever the choice, the buffer ends as its tag, its row, and the old bytes beyond the row. */
  lemma FinishedAtOne(before: seq<byte>, raw: seq<byte>, prev: Nullable<seq<byte>>, bpp: nat, best: ConcreteFilter)
    requires CanFilter(|before|, 1, raw, prev, bpp)
    ensures Finished(before, 1, raw, prev, bpp, best) == [Tag(best)] + FilterRow(best, raw, prev, bpp) + before[1 + |raw|..]
  {
    TagThenWindow(before, Tag(best), FilterRow(Paeth, raw, prev, bpp), FilterRow(best, raw, prev, bpp));
  }

  /** At offset 1, the only use in the encoder, the buffer ends as the chosen tag, the chosen row, and the old bytes beyond it. */
  lemma FilteredAtOne(before: seq<byte>, raw: seq<byte>, prev: Nullable<seq<byte>>, bpp: nat)
    requires CanFilter(|before|, 1, raw, prev, bpp)
    ensures var best := Best(before, raw, prev, bpp);
      Filtered(before, 1, raw, prev, bpp) == [Tag(best)] + FilterRow(best, raw, prev, bpp) + before[1 + |raw|..]
  {
    FinishedAtOne(before, raw, prev, bpp, Best(before, raw, prev, bpp));
  }

  /** Appending one more sum does not change the choice among the earlier ones. */
  lemma {:induction false} SelectExtend(cands: seq<ConcreteFilter>, sums: seq<int32>, s: int32, n: nat)
    requires n <= |sums| && n <= |cands|
    ensures Select(cands, sums + [s], n) == Select(cands, sums, n)
  {
    if n > 0 {
      SelectExtend(cands, sums, s, n - 1);
      assert (sums + [s])[n - 1] == sums[n - 1];
    }
  }

  /** One more candidate: it replaces the choice exactly when its sum is strictly smaller. */
  lemma SelectNext(sums: seq<int32>, sum: int32, k: nat)
    requires k == |sums| < |PossibleFilters|
    ensures var c := Select(PossibleFilters, sums, k);
            Select(PossibleFilters, sums + [sum], k + 1) == if sum < c.sum then Choice(PossibleFilters[k], sum) else c
  {
    SelectExtend(PossibleFilters, sums, sum, k);
    assert (sums + [sum])[k] == sum;
  }

  /** The loop's sums are the scores, so its choice is Best, and the buffer it leaves is the dynamic filter's. */
  lemma ChosenIsBest(before: seq<byte>, off: nat, raw: seq<byte>, prev: Nullable<seq<byte>>, bpp: nat, sums: seq<int32>)
    requires CanFilter(|before|, off, raw, prev, bpp) && |sums| == |PossibleFilters|
    requires forall j | 0 <= j < |sums| :: sums[j] == Score(Candidate(PossibleFilters[j], before, raw, prev, bpp))
    ensures Filtered(before, off, raw, prev, bpp) == Finished(before, off, raw, prev, bpp, Select(PossibleFilters, sums, |sums|).filter)
  {
    SelectPointwise(PossibleFilters, sums, Scores(PossibleFilters, before, raw, prev, bpp), |sums|);
  }

  /** The choice depends only on the sums it has looked at. */
  lemma {:induction false} SelectPointwise(cands: seq<ConcreteFilter>, s1: seq<int32>, s2: seq<int32>, n: nat)
    requires n <= |cands| && n <= |s1| && n <= |s2|
    requires forall j | 0 <= j < n :: s1[j] == s2[j]
    ensures Select(cands, s1, n) == Select(cands, s2, n)
  {
    if n > 0 {
      SelectPointwise(cands, s1, s2, n - 1);
    }
  }

  /** Splicing in the window that is already there changes nothing. */
  lemma SpliceSame(s: seq<byte>, off: nat, n: nat)
    requires off + n <= |s|
    ensures Splice(s, off, s[off..off + n]) == s
  {
    assert s[..off] + s[off..off + n] + s[off + n..] == s;
  }

  /** One candidate: it filters the row into the buffer at 1, and the whole buffer is scored. */
  method TryFilter(target: array<byte>, filter: ConcreteFilter, raw: seq<byte>, prev: Nullable<seq<byte>>, bpp: nat,
                   ghost before: seq<byte>, ghost w: seq<byte>)
    returns (sum: int32)
    requires CanFilter(target.Length, 1, raw, prev, bpp) && |before| == target.Length
    requires |w| == |raw| && target[..] == Splice(before, 1, w)
    modifies target
    ensures target[..] == Splice(before, 1, FilterRow(filter, raw, prev, bpp))
    ensures sum == Score(Candidate(filter, before, raw, prev, bpp))
  {
    IFilter.FilterInto(filter, target, 1, raw, prev, bpp);
    SpliceTwice(before, 1, w, FilterRow(filter, raw, prev, bpp));
    CandidateIsSplice(filter, before, raw, prev, bpp);
    sum := SumAbsoluteDifferences(target);
  }

  method FilterInto(target: array<byte>, off: nat, raw: seq<byte>, prev: Nullable<seq<byte>>, bpp: nat)
    requires CanFilter(target.Length, off, raw, prev, bpp)
    modifies target
    ensures target[..] == Filtered(old(target[..]), off, raw, prev, bpp)
  {
    ghost var before := target[..];
    ghost var sums: seq<int32> := [];
    ghost var last: ConcreteFilter := None;
    ghost var w := before[1..1 + |raw|];
    SpliceSame(before, 1, |raw|);
    var bestFilter: ConcreteFilter := None;
    var bestSum: int32 := INT32_MAX as int32;
    var k := 0;
    while k < |PossibleFilters|
      invariant 0 <= k <= |PossibleFilters| && |sums| == k
      invariant |w| == |raw| && target[..] == Splice(before, 1, w)
      invariant k > 0 ==> last == PossibleFilters[k - 1] && w == FilterRow(last, raw, prev, bpp)
      invariant forall j | 0 <= j < k :: sums[j] == Score(Candidate(PossibleFilters[j], before, raw, prev, bpp))
      invariant Choice(bestFilter, bestSum) == Select(PossibleFilters, sums, k)
    {
      var filter := PossibleFilters[k];
      var sum := TryFilter(target, filter, raw, prev, bpp, before, w);
      SelectNext(sums, sum, k);
      ScoredStep(before, raw, prev, bpp, sums, sum);
      if sum < bestSum {
        bestSum := sum;
        bestFilter := filter;
      }
      last, w, sums := filter, FilterRow(filter, raw, prev, bpp), sums + [sum];
      k := k + 1;
    }
    ChosenIsBest(before, off, raw, prev, bpp, sums);
    WriteChosen(target, off, raw, prev, bpp, bestFilter, before);
  }

  /** The sums of the first k candidates, and then the score of candidate k, are the sums of the first k + 1. */
  lemma ScoredStep(before: seq<byte>, raw: seq<byte>, prev: Nullable<seq<byte>>, bpp: nat, sums: seq<int32>, sum: int32)
    requires 1 + |raw| <= |before| && |sums| < |PossibleFilters|
    requires forall j | 0 <= j < |sums| :: sums[j] == Score(Candidate(PossibleFilters[j], before, raw, prev, bpp))
    requires sum == Score(Candidate(PossibleFilters[|sums|], before, raw, prev, bpp))
    ensures forall j | 0 <= j < |sums| + 1 :: (sums + [sum])[j] == Score(Candidate(PossibleFilters[j], before, raw, prev, bpp))
  {
  }

  /** After the loop: the chosen tag goes before the row, and the chosen filter runs again at off. */
  method WriteChosen(target: array<byte>, off: nat, raw: seq<byte>, prev: Nullable<seq<byte>>, bpp: nat,
                     best: ConcreteFilter, ghost before: seq<byte>)
    requires CanFilter(target.Length, off, raw, prev, bpp) && |before| == target.Length
    requires target[..] == Splice(before, 1, FilterRow(Paeth, raw, prev, bpp))
    modifies target
    ensures target[..] == Finished(before, off, raw, prev, bpp, best)
  {
    target[off - 1] := Tag(best);
    IFilter.FilterInto(best, target, off, raw, prev, bpp);
  }
}
