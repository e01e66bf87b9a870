/**
 * The filtered image stream both IDAT writers build before compression
 * (RFC 2083 section 2.3 and 6): for each scanline of L bytes one
 * filter-type byte and the filtered scanline. Also the decoder's side:
 * reading such a stream back into the raw image.
 */
module Scanlines {
  import opened Base
  import opened FilterTypes
  import opened FilterSpec
  import DefaultFilters

  /** Distributing one row over the row length. */
  lemma MulSucc(i: nat, l: nat)
    ensures (i + 1) * l == i * l + l
  {
  }

  /** A later row starts no earlier. */
  lemma MulMono(i: nat, j: nat, l: nat)
    requires i <= j
    ensures i * l <= j * l
  {
  }

  /** Scanline i of the raw image: `Buffer.BlockCopy(raw, i * L, scanline, 0, L)`. */
  function Row(raw: seq<byte>, l: nat, i: nat): (r: seq<byte>)
    requires i * l + l <= |raw|
    ensures |r| == l
  {
    raw[i * l..i * l + l]
  }

  /** The scanline above row i, or none for the first. */
  function Previous(raw: seq<byte>, l: nat, i: nat): Nullable<seq<byte>>
    requires i * l <= |raw|
  {
    if i == 0 then Null
    else
      MulSucc(i - 1, l);
      NotNull(Row(raw, l, i - 1))
  }

  /** One scanline as it goes into the stream: the tag of the filter used, then the filtered bytes. */
  function Encoded(t: FilterType, row: seq<byte>, prev: Nullable<seq<byte>>, bpp: nat): (r: seq<byte>)
    ensures |r| == 1 + |row|
  {
    var f := DefaultFilters.RowFilter(t, row, prev, bpp);
    [Tag(f)] + FilterRow(f, row, prev, bpp)
  }

  /**
   * The stream after n iterations of the new writer's row loop, or the first
   * exception: a row that runs past the raw data fails its BlockCopy, then a
   * filter type without an implementation fails in GetFilterForType.
   */
  function FilteredStream(t: FilterType, raw: seq<byte>, l: nat, bpp: nat, n: nat): Result<seq<byte>>
    decreases n
  {
    if n == 0 then Ok([])
    else
      var p :- FilteredStream(t, raw, l, bpp, n - 1);
      if (n - 1) * l + l > |raw| then Err(BlockCopyRange)
      else
        var _ :- DefaultFilters.GetFilterForType(Tag(t));
        Ok(p + Encoded(t, Row(raw, l, n - 1), Previous(raw, l, n - 1), bpp))
  }

  /**
   * The writer fails exactly when the raw data is shorter than n rows or the
   * filter type is Average or Paeth; the out-of-range copy of the first row
   * is reported before the missing filter. A stream it builds holds n rows
   * of 1 + L bytes.
   */
  lemma {:induction false} FilteredStreamOutcome(t: FilterType, raw: seq<byte>, l: nat, bpp: nat, n: nat)
    requires n > 0
    ensures FilteredStream(t, raw, l, bpp, n).Ok? <==> n * l <= |raw| && t != Average && t != Paeth
    ensures |raw| < l ==> FilteredStream(t, raw, l, bpp, n) == Err(BlockCopyRange)
    ensures l <= |raw| && (t == Average || t == Paeth) ==> FilteredStream(t, raw, l, bpp, n) == Err(NotImplemented)
    ensures t != Average && t != Paeth && |raw| < n * l ==> FilteredStream(t, raw, l, bpp, n) == Err(BlockCopyRange)
    ensures FilteredStream(t, raw, l, bpp, n).Ok? ==> |FilteredStream(t, raw, l, bpp, n).value| == n * (1 + l)
    decreases n
  {
    DefaultFilters.GetFilterForTypeMembers(t, Tag(t));
    MulSucc(n - 1, l);
    MulSucc(n - 1, 1 + l);
    if n > 1 {
      FilteredStreamOutcome(t, raw, l, bpp, n - 1);
      MulMono(1, n - 1, l);
    }
  }

  /** The first exception ends the loop: later rows report the same one. */
  lemma {:induction false} FilteredStreamSticky(t: FilterType, raw: seq<byte>, l: nat, bpp: nat, k: nat, n: nat)
    requires k <= n && FilteredStream(t, raw, l, bpp, k).Err?
    ensures FilteredStream(t, raw, l, bpp, n) == FilteredStream(t, raw, l, bpp, k)
    decreases n
  {
    if k < n {
      FilteredStreamSticky(t, raw, l, bpp, k, n - 1);
    }
  }

  /** One more iteration of the row loop, after i that succeeded. */
  lemma FilteredStreamStep(t: FilterType, raw: seq<byte>, l: nat, bpp: nat, i: nat, p: seq<byte>)
    requires FilteredStream(t, raw, l, bpp, i) == Ok(p)
    ensures i * l + l > |raw| ==> FilteredStream(t, raw, l, bpp, i + 1) == Err(BlockCopyRange)
    ensures i * l + l <= |raw| && (t == Average || t == Paeth) ==> FilteredStream(t, raw, l, bpp, i + 1) == Err(NotImplemented)
    ensures i * l + l <= |raw| && t != Average && t != Paeth ==>
      FilteredStream(t, raw, l, bpp, i + 1) == Ok(p + Encoded(t, Row(raw, l, i), Previous(raw, l, i), bpp))
  {
    DefaultFilters.GetFilterForTypeMembers(t, Tag(t));
    assert i + 1 - 1 == i;
  }

  /** The filter a stream's tag byte names, if it names one of the five. */
  function FilterOfTag(tag: byte): (r: Nullable<ConcreteFilter>)
    ensures r.NotNull? <==> tag <= 4
    ensures r.NotNull? ==> Tag(r.value) == tag
  {
    match FromTag(tag)
    case NotNull(t) => if t.Dynamic? then Null else NotNull(t)
    case Null => Null
  }

  /** The row a decoder reconstructs the next one against: the last of the m rows in q, or `prev` when there are none. */
  function LastRow(q: seq<byte>, l: nat, m: nat, prev: Nullable<seq<byte>>): Nullable<seq<byte>>
    requires m == 0 || l <= |q|
  {
    if m == 0 then prev else NotNull(q[|q| - l..])
  }

  /**
   * The decoder: n rows of 1 + L bytes read one after the other into n * L
   * raw bytes, each reconstructed against the row decoded before it (`prev`
   * for the first); nothing when the stream is short or a tag byte names no
   * filter.
   */
  function Decode(s: seq<byte>, l: nat, bpp: nat, n: nat, prev: Nullable<seq<byte>>): (r: Nullable<seq<byte>>)
    ensures r.NotNull? ==> |r.value| == n * l
    decreases n
  {
    if n == 0 then NotNull([])
    else if |s| < 1 + l || FilterOfTag(s[0]).Null? then Null
    else
      var row := Reconstruct(FilterOfTag(s[0]).value, s[1..1 + l], prev, bpp);
      match Decode(s[1 + l..], l, bpp, n - 1, NotNull(row))
      case Null => Null
      case NotNull(rest) =>
        MulSucc(n - 1, l);
        NotNull(row + rest)
  }

  /** A whole image stream decoded, the first row against none. */
  function Unfiltered(s: seq<byte>, l: nat, bpp: nat, n: nat): (r: Nullable<seq<byte>>)
    ensures r.NotNull? ==> |r.value| == n * l
  {
    Decode(s, l, bpp, n, Null)
  }

  /** A stream whose first row decodes and whose remaining rows decode against it decodes to both. */
  lemma DecodeCons(s: seq<byte>, tail: seq<byte>, l: nat, bpp: nat, m: nat, prev: Nullable<seq<byte>>, row: seq<byte>, rest: seq<byte>)
    requires m > 0 && |s| >= 1 + l && s[0] <= 4 && s[1 + l..] == tail
    requires row == Reconstruct(FilterOfTag(s[0]).value, s[1..1 + l], prev, bpp)
    requires Decode(tail, l, bpp, m - 1, NotNull(row)) == NotNull(rest)
    ensures Decode(s, l, bpp, m, prev) == NotNull(row + rest)
  {
  }

  /** A stream that decodes has a first row that does, and the rest decodes against it. */
  lemma DecodeUncons(s: seq<byte>, l: nat, bpp: nat, m: nat, prev: Nullable<seq<byte>>)
    requires m > 0 && Decode(s, l, bpp, m, prev).NotNull?
    ensures |s| >= 1 + l && s[0] <= 4
    ensures var row := Reconstruct(FilterOfTag(s[0]).value, s[1..1 + l], prev, bpp);
      && Decode(s[1 + l..], l, bpp, m - 1, NotNull(row)).NotNull?
      && Decode(s, l, bpp, m, prev).value == row + Decode(s[1 + l..], l, bpp, m - 1, NotNull(row)).value
  {
  }

  /** The first k elements of p + e are p's, and after them come the rest of p and then e. */
  lemma SliceAppend(p: seq<byte>, e: seq<byte>, k: nat)
    requires 0 < k <= |p|
    ensures (p + e)[0] == p[0] && (p + e)[1..k] == p[1..k] && (p + e)[k..] == p[k..] + e
  {
  }

  /** The last row of row + q' is the last row of q', or row itself when q' is empty. */
  lemma LastRowCons(row: seq<byte>, q': seq<byte>, l: nat, m: nat, prev: Nullable<seq<byte>>)
    requires |row| == l && |q'| == (m - 1) * l && m > 0
    ensures l <= |row + q'|
    ensures LastRow(row + q', l, m, prev) == LastRow(q', l, m - 1, NotNull(row))
  {
    if m > 1 {
      MulMono(1, m - 1, l);
      assert (row + q')[|row + q'| - l..] == q'[|q'| - l..];
    } else {
      assert (row + q')[|row + q'| - l..] == row;
    }
  }

  /** The step of DecodeSnoc: the first row of p stays first when e is appended. */
  lemma DecodeSnocStep(p: seq<byte>, e: seq<byte>, l: nat, bpp: nat, m: nat, prev: Nullable<seq<byte>>,
                       row: seq<byte>, q': seq<byte>, last: seq<byte>)
    requires m > 0 && |p| >= 1 + l && p[0] <= 4
    requires row == Reconstruct(FilterOfTag(p[0]).value, p[1..1 + l], prev, bpp)
    requires Decode(p[1 + l..] + e, l, bpp, m, NotNull(row)) == NotNull(q' + last)
    ensures Decode(p + e, l, bpp, m + 1, prev) == NotNull(row + q' + last)
  {
    SliceAppend(p, e, 1 + l);
    DecodeCons(p + e, p[1 + l..] + e, l, bpp, m + 1, prev, row, q' + last);
    AppendAssoc(row, q', last);
  }

  /** A single row of 1 + L bytes decodes to that row reconstructed. */
  lemma DecodeOne(e: seq<byte>, l: nat, bpp: nat, prev: Nullable<seq<byte>>)
    requires |e| == 1 + l && e[0] <= 4
    ensures Decode(e, l, bpp, 1, prev) == NotNull(Reconstruct(FilterOfTag(e[0]).value, e[1..], prev, bpp))
  {
    var last := Reconstruct(FilterOfTag(e[0]).value, e[1..], prev, bpp);
    assert e[1..1 + l] == e[1..] && e[1 + l..] == [];
    assert Decode(e[1 + l..], l, bpp, 0, NotNull(last)) == NotNull([]);
    DecodeCons(e, [], l, bpp, 1, prev, last, []);
    assert last + [] == last;
  }

  /** One more row of 1 + L bytes at the end decodes to one more reconstructed row. */
  lemma {:induction false} DecodeSnoc(p: seq<byte>, e: seq<byte>, l: nat, bpp: nat, m: nat, prev: Nullable<seq<byte>>, q: seq<byte>)
    requires |p| == m * (1 + l) && |e| == 1 + l && e[0] <= 4
    requires Decode(p, l, bpp, m, prev) == NotNull(q)
    ensures |q| == m * l && (m == 0 || l <= |q|)
    ensures Decode(p + e, l, bpp, m + 1, prev) == NotNull(q + Reconstruct(FilterOfTag(e[0]).value, e[1..], LastRow(q, l, m, prev), bpp))
    decreases m
  {
    if m == 0 {
      DecodeSnocEmpty(p, e, l, bpp, prev, q);
    } else {
      var tail, row, q' := DecodeFirst(p, l, bpp, m, prev, q);
      DecodeSnoc(tail, e, l, bpp, m - 1, NotNull(row), q');
      var last := Reconstruct(FilterOfTag(e[0]).value, e[1..], LastRow(q', l, m - 1, NotNull(row)), bpp);
      DecodeSnocJoin(p, e, l, bpp, m, prev, q, tail, row, q', last);
    }
  }

  /** DecodeSnoc's base case: one scanline after none. */
  lemma DecodeSnocEmpty(p: seq<byte>, e: seq<byte>, l: nat, bpp: nat, prev: Nullable<seq<byte>>, q: seq<byte>)
    requires |p| == 0 && |e| == 1 + l && e[0] <= 4
    requires Decode(p, l, bpp, 0, prev) == NotNull(q)
    ensures |q| == 0
    ensures Decode(p + e, l, bpp, 1, prev) == NotNull(q + Reconstruct(FilterOfTag(e[0]).value, e[1..], LastRow(q, l, 0, prev), bpp))
  {
    assert p + e == e && q == [];
    assert LastRow(q, l, 0, prev) == prev;
    DecodeOne(e, l, bpp, prev);
    assert q + Reconstruct(FilterOfTag(e[0]).value, e[1..], prev, bpp) == Reconstruct(FilterOfTag(e[0]).value, e[1..], prev, bpp);
  }

  /** DecodeSnoc with the row above and the rebuilt last row named by the caller. */
  lemma DecodeNext(p: seq<byte>, e: seq<byte>, l: nat, bpp: nat, m: nat, prev: Nullable<seq<byte>>, q: seq<byte>,
                   above: Nullable<seq<byte>>, last: seq<byte>)
    requires |p| == m * (1 + l) && |e| == 1 + l && e[0] <= 4
    requires Decode(p, l, bpp, m, prev) == NotNull(q)
    requires m == 0 || l <= |q|
    requires above == LastRow(q, l, m, prev) && last == Reconstruct(FilterOfTag(e[0]).value, e[1..], above, bpp)
    ensures Decode(p + e, l, bpp, m + 1, prev) == NotNull(q + last)
  {
    DecodeSnoc(p, e, l, bpp, m, prev, q);
  }

  /** A stream of m > 0 rows that decodes splits into its first row and the m - 1 rows after it. */
  lemma DecodeFirst(p: seq<byte>, l: nat, bpp: nat, m: nat, prev: Nullable<seq<byte>>, q: seq<byte>)
      returns (tail: seq<byte>, row: seq<byte>, q': seq<byte>)
    requires m > 0 && |p| == m * (1 + l) && Decode(p, l, bpp, m, prev) == NotNull(q)
    ensures |p| >= 1 + l && p[0] <= 4 && tail == p[1 + l..] && |tail| == (m - 1) * (1 + l)
    ensures row == Reconstruct(FilterOfTag(p[0]).value, p[1..1 + l], prev, bpp) && |row| == l
    ensures Decode(tail, l, bpp, m - 1, NotNull(row)) == NotNull(q') && q == row + q'
  {
    MulSucc(m - 1, 1 + l);
    DecodeUncons(p, l, bpp, m, prev);
    tail := p[1 + l..];
    row := Reconstruct(FilterOfTag(p[0]).value, p[1..1 + l], prev, bpp);
    q' := Decode(tail, l, bpp, m - 1, NotNull(row)).value;
  }

  /** The inductive step of DecodeSnoc: the first row of p, then the rest of p with e appended. */
  lemma DecodeSnocJoin(p: seq<byte>, e: seq<byte>, l: nat, bpp: nat, m: nat, prev: Nullable<seq<byte>>,
                       q: seq<byte>, tail: seq<byte>, row: seq<byte>, q': seq<byte>, last: seq<byte>)
    requires m > 0 && |p| >= 1 + l && p[0] <= 4 && |row| == l && |q'| == (m - 1) * l && q == row + q'
    requires tail == p[1 + l..] && row == Reconstruct(FilterOfTag(p[0]).value, p[1..1 + l], prev, bpp)
    requires m - 1 == 0 || l <= |q'|
    requires |e| == 1 + l && e[0] <= 4
    requires last == Reconstruct(FilterOfTag(e[0]).value, e[1..], LastRow(q', l, m - 1, NotNull(row)), bpp)
    requires Decode(tail + e, l, bpp, m, NotNull(row)) == NotNull(q' + last)
    ensures |q| == m * l && l <= |q|
    ensures Decode(p + e, l, bpp, m + 1, prev) == NotNull(q + Reconstruct(FilterOfTag(e[0]).value, e[1..], LastRow(q, l, m, prev), bpp))
  {
    MulSucc(m - 1, l);
    LastRowCons(row, q', l, m, prev);
    DecodeSnocStep(p, e, l, bpp, m, prev, row, q', last);
  }

  /** The first n rows of the raw image are the first n - 1 and then row n - 1. */
  lemma PrefixRows(raw: seq<byte>, l: nat, n: nat)
    requires n > 0 && n * l <= |raw|
    ensures (n - 1) * l + l == n * l
    ensures raw[..n * l] == raw[..(n - 1) * l] + Row(raw, l, n - 1)
  {
    MulSucc(n - 1, l);
  }

  /** Above row m, a decoder that has rebuilt the first m rows sees the scanline the writer used. */
  lemma LastRowPrevious(raw: seq<byte>, l: nat, m: nat)
    requires m * l <= |raw|
    ensures m == 0 || l <= |raw[..m * l]|
    ensures LastRow(raw[..m * l], l, m, Null) == Previous(raw, l, m)
  {
    if m > 0 {
      MulSucc(m - 1, l);
      assert raw[..m * l][m * l - l..] == Row(raw, l, m - 1);
    }
  }

  /** A filtered scanline's tag names the filter that produced it, and the rest is that filter's row. */
  lemma EncodedParts(t: FilterType, row: seq<byte>, prev: Nullable<seq<byte>>, bpp: nat)
    ensures var e := Encoded(t, row, prev, bpp); var f := DefaultFilters.RowFilter(t, row, prev, bpp);
      && e[0] <= 4 && FilterOfTag(e[0]) == NotNull(f) && e[1..] == FilterRow(f, row, prev, bpp)
  {
    var f := DefaultFilters.RowFilter(t, row, prev, bpp);
    FromTagOfTag(f);
  }

  /**
   * Decoding undoes the writer: whatever filter type was asked for, the
   * stream it builds decodes to the first n rows of the raw image.
   */
  lemma {:induction false} StreamDecodes(t: FilterType, raw: seq<byte>, l: nat, bpp: nat, n: nat)
    requires FilteredStream(t, raw, l, bpp, n).Ok?
    ensures n * (1 + l) == |FilteredStream(t, raw, l, bpp, n).value|
    ensures 0 <= n * l <= |raw|
    ensures Unfiltered(FilteredStream(t, raw, l, bpp, n).value, l, bpp, n) == NotNull(raw[..n * l])
    decreases n
  {
    if n > 0 {
      assert FilteredStream(t, raw, l, bpp, n - 1).Ok?;
      StreamDecodes(t, raw, l, bpp, n - 1);
      StreamDecodesStep(t, raw, l, bpp, n, FilteredStream(t, raw, l, bpp, n - 1).value);
    }
  }

  /** The step of StreamDecodes: the row the writer appends is the row the decoder rebuilds next. */
  lemma StreamDecodesStep(t: FilterType, raw: seq<byte>, l: nat, bpp: nat, n: nat, p: seq<byte>)
    requires n > 0 && FilteredStream(t, raw, l, bpp, n).Ok? && FilteredStream(t, raw, l, bpp, n - 1) == Ok(p)
    requires (n - 1) * (1 + l) == |p| && 0 <= (n - 1) * l <= |raw|
    requires Unfiltered(p, l, bpp, n - 1) == NotNull(raw[..(n - 1) * l])
    ensures n * (1 + l) == |FilteredStream(t, raw, l, bpp, n).value|
    ensures 0 <= n * l <= |raw|
    ensures Unfiltered(FilteredStream(t, raw, l, bpp, n).value, l, bpp, n) == NotNull(raw[..n * l])
  {
    var row, prev, e := StreamGrows(t, raw, l, bpp, n, p);
    EncodedDecodes(t, row, prev, bpp, e);
    RowsDecode(raw, l, bpp, n, p, e);
  }

  /** The first n - 1 rows decoded, a scanline that rebuilds row n - 1 appended decodes to the first n. */
  lemma RowsDecode(raw: seq<byte>, l: nat, bpp: nat, n: nat, p: seq<byte>, e: seq<byte>)
    requires n > 0 && (n - 1) * (1 + l) == |p| && (n - 1) * l + l <= |raw| && n * l == (n - 1) * l + l
    requires Decode(p, l, bpp, n - 1, Null) == NotNull(raw[..(n - 1) * l])
    requires |e| == 1 + l && e[0] <= 4
    requires Reconstruct(FilterOfTag(e[0]).value, e[1..], Previous(raw, l, n - 1), bpp) == Row(raw, l, n - 1)
    ensures n * (1 + l) == |p + e|
    ensures Decode(p + e, l, bpp, n, Null) == NotNull(raw[..n * l])
  {
    MulSucc(n - 1, 1 + l);
    var row, prev := Row(raw, l, n - 1), Previous(raw, l, n - 1);
    var done := raw[..(n - 1) * l];
    LastRowPrevious(raw, l, n - 1);
    PrefixRows(raw, l, n);
    DecodeNext(p, e, l, bpp, n - 1, Null, done, prev, row);
  }

  /** A row loop that gets one iteration further appends the next row, encoded. */
  lemma StreamGrows(t: FilterType, raw: seq<byte>, l: nat, bpp: nat, n: nat, p: seq<byte>)
      returns (row: seq<byte>, prev: Nullable<seq<byte>>, e: seq<byte>)
    requires n > 0 && FilteredStream(t, raw, l, bpp, n).Ok? && FilteredStream(t, raw, l, bpp, n - 1) == Ok(p)
    ensures (n - 1) * l + l <= |raw| && n * l == (n - 1) * l + l
    ensures row == Row(raw, l, n - 1) && prev == Previous(raw, l, n - 1) && e == Encoded(t, row, prev, bpp)
    ensures FilteredStream(t, raw, l, bpp, n).value == p + e
  {
    MulSucc(n - 1, l);
    DefaultFilters.GetFilterForTypeMembers(t, Tag(t));
    row, prev := Row(raw, l, n - 1), Previous(raw, l, n - 1);
    e := Encoded(t, row, prev, bpp);
  }

  /** An encoded scanline decodes back to the row it was made from. */
  lemma EncodedDecodes(t: FilterType, row: seq<byte>, prev: Nullable<seq<byte>>, bpp: nat, e: seq<byte>)
    requires e == Encoded(t, row, prev, bpp)
    ensures |e| == 1 + |row| && e[0] <= 4
    ensures Reconstruct(FilterOfTag(e[0]).value, e[1..], prev, bpp) == row
  {
    var f := DefaultFilters.RowFilter(t, row, prev, bpp);
    EncodedParts(t, row, prev, bpp);
    ReconstructFilterRow(f, row, prev, bpp);
  }
}
