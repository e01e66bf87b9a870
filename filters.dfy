/**
 * The filter implementations. Each FilterInto writes the filtered scanline
 * into `target` starting at `off` and leaves every other byte of `target`
 * alone; it is proved equal to FilterSpec.FilterRow. The scanlines are
 * read-only inputs, so they are values here; a previous scanline of `Null`
 * is the first row of the image.
 */
module NullFilter {
  import opened Base
  import opened FilterTypes
  import opened FilterSpec
  import Buffers

  const Type: FilterType := None

  /** A block copy of the raw scanline. */
  method FilterInto(target: array<byte>, off: nat, raw: seq<byte>, prev: Nullable<seq<byte>>, bpp: nat)
    requires off + |raw| <= target.Length
    modifies target
    ensures target[..] == Splice(old(target[..]), off, FilterRow(None, raw, prev, bpp))
  {
    Buffers.BlockCopy(raw, 0, target, off, |raw|);
    NoneCopies(raw, prev, bpp);
    assert raw[0..|raw|] == raw;
  }
}

module SubFilter {
  import opened Base
  import opened FilterTypes
  import opened FilterSpec
  import Buffers

  const Type: FilterType := Sub

  /**
   * The Sub filter into a caller's buffer. This revision of SubFilter.cs
   * has no FilterInto (PaethFilter calls one); it is modelled on Filter:
   * the first pixel is copied, each later byte has its left neighbour subtracted.
   */
  method FilterInto(target: array<byte>, off: nat, raw: seq<byte>, prev: Nullable<seq<byte>>, bpp: nat)
    requires 0 < bpp <= |raw| && off + |raw| <= target.Length
    modifies target
    ensures target[..] == Splice(old(target[..]), off, FilterRow(Sub, raw, prev, bpp))
  {
    Buffers.BlockCopy(raw, 0, target, off, bpp);
    var x := bpp;
    while x < |raw|
      invariant bpp <= x <= |raw|
      invariant Written(target[..], old(target[..]), off, Sub, raw, prev, bpp, x)
    {
      target[off + x] := Wrap(raw[x] as int - raw[x - bpp] as int);
      x := x + 1;
    }
    WrittenRow(target[..], old(target[..]), off, Sub, raw, prev, bpp);
  }

  /**
   * Filter a scanline into a new buffer. The first pixel is copied with
   * Buffer.MemoryCopy, which throws when asked to copy more bytes than the
   * new buffer holds.
   */
  method Filter(scanline: seq<byte>, previousScanline: Nullable<seq<byte>>, bytesPerPixel: nat) returns (r: Result<seq<byte>>)
    requires 0 < bytesPerPixel
    ensures bytesPerPixel > |scanline| ==> r == Err(ArgumentOutOfRange("sourceBytesToCopy"))
    ensures bytesPerPixel <= |scanline| ==> r == Ok(FilterRow(Sub, scanline, previousScanline, bytesPerPixel))
  {
    if bytesPerPixel > |scanline| {
      return Err(ArgumentOutOfRange("sourceBytesToCopy"));
    }
    var filtered := new byte[|scanline|];
    ghost var blank := filtered[..];
    FilterInto(filtered, 0, scanline, previousScanline, bytesPerPixel);
    SpliceAll(blank, FilterRow(Sub, scanline, previousScanline, bytesPerPixel));
    return Ok(filtered[..]);
  }

  /** What ReverseFilter computes: each byte after the first pixel has the filtered byte to its left added. */
  function ReverseAsWritten(filtered: seq<byte>, bpp: nat): (r: seq<byte>)
    ensures |r| == |filtered|
  {
    seq(|filtered|, x requires 0 <= x < |filtered| =>
      if x < bpp then filtered[x] else Wrap(filtered[x] as int + filtered[x - bpp] as int))
  }

  /** Undo the Sub filter, as the source does it: adding the neighbour from the filtered buffer. */
  method ReverseFilter(filteredScanline: seq<byte>, previousScanline: Nullable<seq<byte>>, bytesPerPixel: nat) returns (r: Result<seq<byte>>)
    requires 0 < bytesPerPixel
    ensures bytesPerPixel > |filteredScanline| ==> r == Err(ArgumentOutOfRange("sourceBytesToCopy"))
    ensures bytesPerPixel <= |filteredScanline| ==> r == Ok(ReverseAsWritten(filteredScanline, bytesPerPixel))
  {
    if bytesPerPixel > |filteredScanline| {
      return Err(ArgumentOutOfRange("sourceBytesToCopy"));
    }
    ghost var want := ReverseAsWritten(filteredScanline, bytesPerPixel);
    var raw := new byte[|filteredScanline|];
    Buffers.BlockCopy(filteredScanline, 0, raw, 0, bytesPerPixel);
    assert forall k | 0 <= k < bytesPerPixel :: raw[k] == want[k];
    var x := bytesPerPixel;
    while x < raw.Length
      invariant bytesPerPixel <= x <= raw.Length
      invariant forall k | 0 <= k < x :: raw[k] == want[k]
    {
      assert want[x] == Wrap(filteredScanline[x] as int + filteredScanline[x - bytesPerPixel] as int);
      raw[x] := Wrap(filteredScanline[x] as int + filteredScanline[x - bytesPerPixel] as int);
      x := x + 1;
    }
    assert raw[..] == want;
    return Ok(raw[..]);
  }

  /**
   * The as-written reversal restores a filtered row exactly when every byte
   * more than two pixels from the end is zero: at x >= 2 * bpp it yields
   * raw[x] - raw[x - 2 * bpp].
   */
  lemma ReverseAsWrittenRoundTrip(raw: seq<byte>, bpp: nat)
    requires 0 < bpp
    ensures ReverseAsWritten(FilterRow(Sub, raw, Null, bpp), bpp) == raw
        <==> forall y | 0 <= y < |raw| - 2 * bpp :: raw[y] == 0
  {
    if ReverseAsWritten(FilterRow(Sub, raw, Null, bpp), bpp) == raw {
      RoundTripNeedsZeros(raw, bpp);
    }
    if forall y | 0 <= y < |raw| - 2 * bpp :: raw[y] == 0 {
      ZerosGiveRoundTrip(raw, bpp);
    }
  }

  lemma RoundTripNeedsZeros(raw: seq<byte>, bpp: nat)
    requires 0 < bpp
    requires ReverseAsWritten(FilterRow(Sub, raw, Null, bpp), bpp) == raw
    ensures forall y | 0 <= y < |raw| - 2 * bpp :: raw[y] == 0
  {
    forall y | 0 <= y < |raw| - 2 * bpp
      ensures raw[y] == 0
    {
      ReverseAsWrittenAt(raw, bpp, y + 2 * bpp);
      WrapSubZero(raw[y + 2 * bpp], raw[y]);
    }
  }

  lemma WrapSubZero(u: byte, v: byte)
    requires Wrap(u as int - v as int) == u
    ensures v == 0
  {
  }

  lemma ZerosGiveRoundTrip(raw: seq<byte>, bpp: nat)
    requires 0 < bpp
    requires forall y | 0 <= y < |raw| - 2 * bpp :: raw[y] == 0
    ensures ReverseAsWritten(FilterRow(Sub, raw, Null, bpp), bpp) == raw
  {
    var r := ReverseAsWritten(FilterRow(Sub, raw, Null, bpp), bpp);
    forall x | 0 <= x < |raw|
      ensures r[x] == raw[x]
    {
      ReverseAsWrittenAt(raw, bpp, x);
      if x >= 2 * bpp {
        assert raw[x - 2 * bpp] == 0;
      }
    }
  }

  /** Byte x of the as-written reversal of a Sub-filtered row. */
  lemma ReverseAsWrittenAt(raw: seq<byte>, bpp: nat, x: nat)
    requires 0 < bpp && x < |raw|
    ensures var r := ReverseAsWritten(FilterRow(Sub, raw, Null, bpp), bpp);
      r[x] == if x < 2 * bpp then raw[x] else Wrap(raw[x] as int - raw[x - 2 * bpp] as int)
  {
    var f := FilterRow(Sub, raw, Null, bpp);
    if bpp <= x {
      assert f[x] == Wrap(raw[x] as int - raw[x - bpp] as int);
      if x < 2 * bpp {
        assert f[x - bpp] == raw[x - bpp];
        WrapAddSub(raw[x], raw[x - bpp]);
      } else {
        assert f[x - bpp] == Wrap(raw[x - bpp] as int - raw[x - 2 * bpp] as int);
        WrapTelescope(raw[x], raw[x - bpp], raw[x - 2 * bpp]);
      }
    }
  }

  lemma WrapTelescope(u: byte, v: byte, w: byte)
    ensures Wrap(Wrap(u as int - v as int) as int + Wrap(v as int - w as int) as int) == Wrap(u as int - w as int)
  {
    var d1 := u as int - v as int;
    var d2 := v as int - w as int;
    var e1 := if d1 < 0 then d1 + 0x100 else d1;
    var e2 := if d2 < 0 then d2 + 0x100 else d2;
    assert Wrap(d1) as int == e1;
    assert Wrap(d2) as int == e2;
    var s := e1 + e2;
    var t := u as int - w as int;
    assert s == t || s == t + 0x100 || s == t + 0x200;
  }

  /** A three-byte row the as-written reversal does not restore. */
  lemma ReverseAsWrittenCounterexample()
    ensures FilterRow(Sub, [1, 2, 3], Null, 1) == [1, 1, 1]
    ensures ReverseAsWritten([1, 1, 1], 1) == [1, 2, 2]
  {
    var f := FilterRow(Sub, [1, 2, 3], Null, 1);
    assert f[0] == 1 && f[1] == 1 && f[2] == 1;
    var r := ReverseAsWritten([1, 1, 1], 1);
    assert r[0] == 1 && r[1] == 2 && r[2] == 2;
  }

  /** The evidently intended reversal: add the already rebuilt neighbour (the raw byte), not the filtered one. */
  method ReverseFilterCorrected(filteredScanline: seq<byte>, previousScanline: Nullable<seq<byte>>, bytesPerPixel: nat) returns (r: Result<seq<byte>>)
    requires 0 < bytesPerPixel
    ensures bytesPerPixel > |filteredScanline| ==> r == Err(ArgumentOutOfRange("sourceBytesToCopy"))
    ensures bytesPerPixel <= |filteredScanline| ==> r == Ok(Reconstruct(Sub, filteredScanline, previousScanline, bytesPerPixel))
  {
    if bytesPerPixel > |filteredScanline| {
      return Err(ArgumentOutOfRange("sourceBytesToCopy"));
    }
    ghost var want := Reconstruct(Sub, filteredScanline, previousScanline, bytesPerPixel);
    var raw := new byte[|filteredScanline|];
    Buffers.BlockCopy(filteredScanline, 0, raw, 0, bytesPerPixel);
    forall k | 0 <= k < bytesPerPixel
      ensures raw[k] == want[k]
    {
      ReconstructAt(filteredScanline, previousScanline, bytesPerPixel, k);
    }
    var x := bytesPerPixel;
    while x < raw.Length
      invariant bytesPerPixel <= x <= raw.Length
      invariant forall k | 0 <= k < x :: raw[k] == want[k]
    {
      ReconstructAt(filteredScanline, previousScanline, bytesPerPixel, x);
      raw[x] := Wrap(filteredScanline[x] as int + raw[x - bytesPerPixel] as int);
      x := x + 1;
    }
    assert raw[..] == want;
    return Ok(raw[..]);
  }

  /** Byte x of the Sub reconstruction: the filtered byte plus the reconstructed byte one pixel left. */
  lemma {:induction false} ReconstructAt(f: seq<byte>, prev: Nullable<seq<byte>>, bpp: nat, x: nat)
    requires 0 < bpp && x < |f|
    ensures var r := Reconstruct(Sub, f, prev, bpp);
      r[x] == if x < bpp then f[x] else Wrap(f[x] as int + r[x - bpp] as int)
    decreases |f|
  {
    var n := |f| - 1;
    var r := Reconstruct(Sub, f, prev, bpp);
    var done := Reconstruct(Sub, f[..n], prev, bpp);
    assert r == done + [Wrap(f[n] as int + Predictor(Sub, done, n, prev, bpp) as int)];
    if x < n {
      ReconstructAt(f[..n], prev, bpp, x);
      assert r[x] == done[x];
      if x >= bpp {
        assert r[x - bpp] == done[x - bpp];
      }
    } else {
      if x >= bpp {
        assert r[x - bpp] == done[x - bpp];
      }
    }
  }

  /** The corrected reversal undoes Filter for every row. */
  lemma CorrectedRoundTrip(raw: seq<byte>, prev: Nullable<seq<byte>>, bpp: nat)
    ensures Reconstruct(Sub, FilterRow(Sub, raw, prev, bpp), prev, bpp) == raw
  {
    ReconstructFilterRow(Sub, raw, prev, bpp);
  }
}

module UpFilter {
  import opened Base
  import opened FilterTypes
  import opened FilterSpec
  import Buffers

  const Type: FilterType := Up

  /** The first row is copied; every later row has the row above subtracted. */
  method FilterInto(target: array<byte>, off: nat, raw: seq<byte>, prev: Nullable<seq<byte>>, bpp: nat)
    requires off + |raw| <= target.Length
    requires prev.NotNull? ==> |prev.value| >= |raw|
    modifies target
    ensures target[..] == Splice(old(target[..]), off, FilterRow(Up, raw, prev, bpp))
  {
    if prev.Null? {
      Buffers.BlockCopy(raw, 0, target, off, |raw|);
      UpFirstRowCopies(raw, bpp);
      assert raw[0..|raw|] == raw;
      return;
    }
    var previous := prev.value;
    var i := 0;
    while i < |raw|
      invariant 0 <= i <= |raw|
      invariant Written(target[..], old(target[..]), off, Up, raw, prev, bpp, i)
    {
      target[i + off] := Wrap(raw[i] as int - previous[i] as int);
      i := i + 1;
    }
    WrittenRow(target[..], old(target[..]), off, Up, raw, prev, bpp);
  }
}

module AvgFilter {
  import opened Base
  import opened FilterTypes
  import opened FilterSpec
  import Buffers

  const Type: FilterType := Average

  /** Byte x of the Average-filtered row in the source's terms: the first pixel has no left neighbour. */
  function Rule(raw: seq<byte>, prev: Nullable<seq<byte>>, bpp: nat, x: nat): byte
    requires x < |raw| && (prev.NotNull? ==> |prev.value| >= |raw|)
  {
    match prev
    case Null => if x < bpp then raw[x] else Wrap(raw[x] as int - raw[x - bpp] as int / 2)
    case NotNull(previous) =>
      if x < bpp then Wrap(raw[x] as int - previous[x] as int / 2)
      else Wrap(raw[x] as int - (raw[x - bpp] as int + previous[x] as int) / 2)
  }

  /** The source's rule is the Average filter of RFC 2083. */
  lemma RuleIsAverage(raw: seq<byte>, prev: Nullable<seq<byte>>, bpp: nat, x: nat)
    requires 0 < bpp && x < |raw| && (prev.NotNull? ==> |prev.value| >= |raw|)
    ensures Rule(raw, prev, bpp, x) == FilterRow(Average, raw, prev, bpp)[x]
  {
    assert FilterRow(Average, raw, prev, bpp)[x] == FilterByte(Average, raw, prev, bpp, x);
    var a, b := Left(raw, x, bpp), Above(prev, x);
    assert Predictor(Average, raw, x, prev, bpp) as int == (a as int + b as int) / 2;
    if prev.Null? && x < bpp {
      assert Wrap(raw[x] as int - 0) == raw[x];
    }
  }

  /**
   * The first row: the first pixel is copied, then a loop unrolled eight
   * times while more than eight bytes remain, then a tail loop, subtract
   * half the byte to the left. `want` is the row the loops must produce,
   * described byte by byte in the preconditions.
   */
  method FilterFirstRow(target: array<byte>, off: nat, raw: seq<byte>, bpp: nat, ghost want: seq<byte>)
    requires 0 < bpp <= |raw| && off + |raw| <= target.Length && |want| == |raw|
    requires forall x | 0 <= x < bpp :: want[x] == raw[x]
    requires forall x | bpp <= x < |raw| :: want[x] == Wrap(raw[x] as int - raw[x - bpp] as int / 2)
    modifies target
    ensures forall k | 0 <= k < |raw| :: target[off + k] == want[k]
    ensures forall k | 0 <= k < target.Length && !(off <= k < off + |raw|) :: target[k] == old(target[k])
  {
    Buffers.BlockCopy(raw, 0, target, off, bpp);
    assert forall k | 0 <= k < bpp :: target[off + k] == want[k];
    var i := bpp;
    while |raw| - i > 8
      invariant bpp <= i <= |raw|
      invariant forall k | 0 <= k < i :: target[off + k] == want[k]
      invariant forall k | 0 <= k < target.Length && !(off <= k < off + |raw|) :: target[k] == old(target[k])
    {
      FirstRowEight(target, off, raw, bpp, i, want);
      i := i + 8;
    }
    while i < |raw|
      invariant bpp <= i <= |raw|
      invariant forall k | 0 <= k < i :: target[off + k] == want[k]
      invariant forall k | 0 <= k < target.Length && !(off <= k < off + |raw|) :: target[k] == old(target[k])
    {
      target[off + i] := Wrap(raw[i] as int - raw[i - bpp] as int / 2);
      i := i + 1;
    }
  }

  /** One pass of the first row's unrolled loop: bytes i to i + 7, done as two runs of four. */
  method FirstRowEight(target: array<byte>, off: nat, raw: seq<byte>, bpp: nat, i: nat, ghost want: seq<byte>)
    requires 0 < bpp <= i && i + 8 <= |raw| && off + |raw| <= target.Length && |want| == |raw|
    requires forall x | bpp <= x < |raw| :: want[x] == Wrap(raw[x] as int - raw[x - bpp] as int / 2)
    modifies target
    ensures forall k | i <= k < i + 8 :: target[off + k] == want[k]
    ensures forall k | 0 <= k < target.Length && !(off + i <= k < off + i + 8) :: target[k] == old(target[k])
  {
    FirstRowFour(target, off, raw, bpp, i, want);
    FirstRowFour(target, off, raw, bpp, i + 4, want);
  }

  /** Bytes i to i + 3 of the first row. */
  method FirstRowFour(target: array<byte>, off: nat, raw: seq<byte>, bpp: nat, i: nat, ghost want: seq<byte>)
    requires 0 < bpp <= i && i + 4 <= |raw| && off + |raw| <= target.Length && |want| == |raw|
    requires forall x | bpp <= x < |raw| :: want[x] == Wrap(raw[x] as int - raw[x - bpp] as int / 2)
    modifies target
    ensures forall k | i <= k < i + 4 :: target[off + k] == want[k]
    ensures forall k | 0 <= k < target.Length && !(off + i <= k < off + i + 4) :: target[k] == old(target[k])
  {
    target[off + i] := Wrap(raw[i] as int - raw[i - bpp] as int / 2);
    target[off + i + 1] := Wrap(raw[i + 1] as int - raw[i + 1 - bpp] as int / 2);
    target[off + i + 2] := Wrap(raw[i + 2] as int - raw[i + 2 - bpp] as int / 2);
    target[off + i + 3] := Wrap(raw[i + 3] as int - raw[i + 3 - bpp] as int / 2);
  }

  /**
   * A row with a row above: the first pixel loses half the byte above, the
   * rest (unrolled eight times, then a tail loop) the floor of the mean of
   * left and above.
   */
  method FilterWithPrevious(target: array<byte>, off: nat, raw: seq<byte>, previous: seq<byte>, bpp: nat, ghost want: seq<byte>)
    requires 0 < bpp <= |raw| <= |previous| && off + |raw| <= target.Length && |want| == |raw|
    requires forall x | 0 <= x < bpp :: want[x] == Wrap(raw[x] as int - previous[x] as int / 2)
    requires forall x | bpp <= x < |raw| :: want[x] == Wrap(raw[x] as int - (raw[x - bpp] as int + previous[x] as int) / 2)
    modifies target
    ensures forall k | 0 <= k < |raw| :: target[off + k] == want[k]
    ensures forall k | 0 <= k < target.Length && !(off <= k < off + |raw|) :: target[k] == old(target[k])
  {
    var i := 0;
    while i < bpp
      invariant 0 <= i <= bpp
      invariant forall k | 0 <= k < i :: target[off + k] == want[k]
      invariant forall k | 0 <= k < target.Length && !(off <= k < off + |raw|) :: target[k] == old(target[k])
    {
      target[off + i] := Wrap(raw[i] as int - previous[i] as int / 2);
      i := i + 1;
    }
    while |raw| - i > 8
      invariant bpp <= i <= |raw|
      invariant forall k | 0 <= k < i :: target[off + k] == want[k]
      invariant forall k | 0 <= k < target.Length && !(off <= k < off + |raw|) :: target[k] == old(target[k])
    {
      WithPreviousEight(target, off, raw, previous, bpp, i, want);
      i := i + 8;
    }
    while i < |raw|
      invariant bpp <= i <= |raw|
      invariant forall k | 0 <= k < i :: target[off + k] == want[k]
      invariant forall k | 0 <= k < target.Length && !(off <= k < off + |raw|) :: target[k] == old(target[k])
    {
      target[off + i] := Wrap(raw[i] as int - (raw[i - bpp] as int + previous[i] as int) / 2);
      i := i + 1;
    }
  }

  /** One pass of the unrolled loop of a row with a row above: bytes i to i + 7, done as two runs of four. */
  method WithPreviousEight(target: array<byte>, off: nat, raw: seq<byte>, previous: seq<byte>, bpp: nat, i: nat, ghost want: seq<byte>)
    requires 0 < bpp <= i && i + 8 <= |raw| <= |previous| && off + |raw| <= target.Length && |want| == |raw|
    requires forall x | bpp <= x < |raw| :: want[x] == Wrap(raw[x] as int - (raw[x - bpp] as int + previous[x] as int) / 2)
    modifies target
    ensures forall k | i <= k < i + 8 :: target[off + k] == want[k]
    ensures forall k | 0 <= k < target.Length && !(off + i <= k < off + i + 8) :: target[k] == old(target[k])
  {
    WithPreviousFour(target, off, raw, previous, bpp, i, want);
    WithPreviousFour(target, off, raw, previous, bpp, i + 4, want);
  }

  /** Bytes i to i + 3 of a row with a row above. */
  method WithPreviousFour(target: array<byte>, off: nat, raw: seq<byte>, previous: seq<byte>, bpp: nat, i: nat, ghost want: seq<byte>)
    requires 0 < bpp <= i && i + 4 <= |raw| <= |previous| && off + |raw| <= target.Length && |want| == |raw|
    requires forall x | bpp <= x < |raw| :: want[x] == Wrap(raw[x] as int - (raw[x - bpp] as int + previous[x] as int) / 2)
    modifies target
    ensures forall k | i <= k < i + 4 :: target[off + k] == want[k]
    ensures forall k | 0 <= k < target.Length && !(off + i <= k < off + i + 4) :: target[k] == old(target[k])
  {
    target[off + i] := Wrap(raw[i] as int - (raw[i - bpp] as int + previous[i] as int) / 2);
    target[off + i + 1] := Wrap(raw[i + 1] as int - (raw[i + 1 - bpp] as int + previous[i + 1] as int) / 2);
    target[off + i + 2] := Wrap(raw[i + 2] as int - (raw[i + 2 - bpp] as int + previous[i + 2] as int) / 2);
    target[off + i + 3] := Wrap(raw[i + 3] as int - (raw[i + 3 - bpp] as int + previous[i + 3] as int) / 2);
  }

  /** Subtract the floor of the mean of left and above from every byte of the row. */
  method FilterInto(target: array<byte>, off: nat, raw: seq<byte>, prev: Nullable<seq<byte>>, bpp: nat)
    requires 0 < bpp <= |raw| && off + |raw| <= target.Length
    requires prev.NotNull? ==> |prev.value| >= |raw|
    modifies target
    ensures target[..] == Splice(old(target[..]), off, FilterRow(Average, raw, prev, bpp))
  {
    ghost var want := FilterRow(Average, raw, prev, bpp);
    forall x | 0 <= x < |raw|
      ensures want[x] == Rule(raw, prev, bpp, x)
    {
      RuleIsAverage(raw, prev, bpp, x);
    }
    if prev.Null? {
      FilterFirstRow(target, off, raw, bpp, want);
    } else {
      FilterWithPrevious(target, off, raw, prev.value, bpp, want);
    }
    SpliceExt(target[..], old(target[..]), off, want);
  }
}

module PaethFilter {
  import opened Base
  import opened FilterTypes
  import opened FilterSpec
  import opened Words
  import SubFilter

  const Type: FilterType := Paeth

  /** `temp = value >> 31; value ^= temp; value += temp & 1`: the absolute value, int.MinValue wrapping to itself. */
  function Abs(value: int32): (r: int32)
    ensures value as int != INT32_MIN ==> r as int == if value < 0 then -(value as int) else value as int
    ensures value as int == INT32_MIN ==> r == value
  {
    var temp := Sar31(value);
    AbsSteps(value);
    AddInt(XorInt(value, temp), AndInt(temp, 1))
  }

  /** The three steps of Abs: flip the bits of a negative value, then add one back. */
  lemma AbsSteps(value: int32)
    ensures var temp := Sar31(value);
      var r := AddInt(XorInt(value, temp), AndInt(temp, 1));
      && (value as int != INT32_MIN ==> r as int == if value < 0 then -(value as int) else value as int)
      && (value as int == INT32_MIN ==> r == value)
  {
    var temp := Sar31(value);
    var flipped := XorInt(value, temp);
    XorSignMask(value);
    SignMaskAndOne(value);
    var one := AndInt(temp, 1);
    var sum := flipped as int + one as int;
    assert sum == if value < 0 then -(value as int) else value as int;
    if value as int == INT32_MIN {
      assert sum == 0x8000_0000;
      assert Wrap32(sum) as int == INT32_MIN;
    }
  }

  /** Abs of a difference of two byte-sized values is their distance. */
  lemma AbsDist(p: int32, x: byte)
    requires -0x100 <= p as int <= 0x200
    ensures Abs(p - x as int32) as int == Dist(p as int, x as int)
  {
  }

  /** The predictor as the source computes it, with its own Abs; it is the Paeth predictor of RFC 2083. */
  function PaethFastAbs(a: byte, b: byte, c: byte): (r: byte)
    ensures r == PaethPredictor(a, b, c)
  {
    var p := (a as int + b as int - c as int) as int32;
    var pa := Abs(p - a as int32);
    var pb := Abs(p - b as int32);
    var pc := Abs(p - c as int32);
    FastAbsChoice(a, b, c, p, pa, pb, pc);
    if pa <= pb && pa <= pc then a else if pb <= pc then b else c
  }

  /** The source's three Abs calls give the distances of RFC 2083, so its choice is the Paeth predictor. */
  lemma FastAbsChoice(a: byte, b: byte, c: byte, p: int32, pa: int32, pb: int32, pc: int32)
    requires p as int == a as int + b as int - c as int
    requires pa == Abs(p - a as int32) && pb == Abs(p - b as int32) && pc == Abs(p - c as int32)
    ensures (if pa <= pb && pa <= pc then a else if pb <= pc then b else c) == PaethPredictor(a, b, c)
  {
    AbsDist(p, a);
    AbsDist(p, b);
    AbsDist(p, c);
    PaethChoice(a, b, c, pa as int, pb as int, pc as int);
  }

  /** Choosing by the three distances, with the source's tie-breaking, is the Paeth predictor. */
  lemma PaethChoice(a: byte, b: byte, c: byte, pa: int, pb: int, pc: int)
    requires var p := a as int + b as int - c as int;
      pa == Dist(p, a as int) && pb == Dist(p, b as int) && pc == Dist(p, c as int)
    ensures (if pa <= pb && pa <= pc then a else if pb <= pc then b else c) == PaethPredictor(a, b, c)
  {
  }

  /** The source's two loops compute the Paeth filter of RFC 2083. */
  lemma RuleIsPaeth(raw: seq<byte>, previous: seq<byte>, bpp: nat, x: nat)
    requires 0 < bpp && x < |raw| <= |previous|
    ensures x < bpp ==> FilterRow(Paeth, raw, NotNull(previous), bpp)[x] == Wrap(raw[x] as int - previous[x] as int)
    ensures bpp <= x ==>
      FilterRow(Paeth, raw, NotNull(previous), bpp)[x] == Wrap(raw[x] as int - PaethFastAbs(raw[x - bpp], previous[x], previous[x - bpp]) as int)
  {
    assert FilterRow(Paeth, raw, NotNull(previous), bpp)[x] == FilterByte(Paeth, raw, NotNull(previous), bpp, x);
    if x < bpp {
      assert Predictor(Paeth, raw, x, NotNull(previous), bpp) == PaethPredictor(0, previous[x], 0);
      assert PaethPredictor(0, previous[x], 0) == previous[x];
    } else {
      assert Predictor(Paeth, raw, x, NotNull(previous), bpp) == PaethPredictor(raw[x - bpp], previous[x], previous[x - bpp]);
    }
  }

  /**
   * On the first row, delegate to Sub. Otherwise the first pixel has the
   * byte above subtracted (Paeth picks it there), and every later byte the
   * predictor computed by PaethFastAbs.
   */
  method FilterInto(target: array<byte>, off: nat, raw: seq<byte>, prev: Nullable<seq<byte>>, bpp: nat)
    requires 0 < bpp <= |raw| && off + |raw| <= target.Length
    requires prev.NotNull? ==> |prev.value| >= |raw|
    modifies target
    ensures target[..] == Splice(old(target[..]), off, FilterRow(Paeth, raw, prev, bpp))
  {
    if prev.Null? {
      SubFilter.FilterInto(target, off, raw, prev, bpp);
      PaethFirstRowIsSub(raw, bpp);
      return;
    }
    var previous := prev.value;
    ghost var want := FilterRow(Paeth, raw, prev, bpp);
    var i := 0;
    while i < bpp
      invariant 0 <= i <= bpp
      invariant forall k | 0 <= k < i :: target[off + k] == want[k]
      invariant forall k | 0 <= k < target.Length && !(off <= k < off + |raw|) :: target[k] == old(target[k])
    {
      RuleIsPaeth(raw, previous, bpp, i);
      target[off + i] := Wrap(raw[i] as int - previous[i] as int);
      i := i + 1;
    }
    while i < |raw|
      invariant bpp <= i <= |raw|
      invariant forall k | 0 <= k < i :: target[off + k] == want[k]
      invariant forall k | 0 <= k < target.Length && !(off <= k < off + |raw|) :: target[k] == old(target[k])
    {
      FilterAt(target, off, raw, previous, bpp, i, want);
      i := i + 1;
    }
    SpliceExt(target[..], old(target[..]), off, want);
  }

  /** `target[i] = (byte)(raw[i] - PaethFastAbs(a, b, c))` for a byte past the first pixel of a row with a row above. */
  method FilterAt(target: array<byte>, off: nat, raw: seq<byte>, previous: seq<byte>, bpp: nat, i: nat, ghost want: seq<byte>)
    requires 0 < bpp <= i < |raw| <= |previous| && off + |raw| <= target.Length
    requires want == FilterRow(Paeth, raw, NotNull(previous), bpp)
    modifies target
    ensures target[off + i] == want[i]
    ensures forall k | 0 <= k < target.Length && k != off + i :: target[k] == old(target[k])
  {
    RuleIsPaeth(raw, previous, bpp, i);
    target[off + i] := Wrap(raw[i] as int - PaethFastAbs(raw[i - bpp], previous[i], previous[i - bpp]) as int);
  }
}

/** A call through the IFilter interface on one of the five concrete filters. */
module IFilter {
  import opened Base
  import opened FilterTypes
  import opened FilterSpec
  import NullFilter
  import SubFilter
  import UpFilter
  import AvgFilter
  import PaethFilter

  /** What a FilterInto call needs of its arguments. */
  predicate CanFilter(t: ConcreteFilter, targetLength: nat, off: nat, raw: seq<byte>, prev: Nullable<seq<byte>>, bpp: nat)
  {
    && off + |raw| <= targetLength
    && (prev.NotNull? ==> |prev.value| >= |raw|)
    && (t in {Sub, Average, Paeth} ==> 0 < bpp <= |raw|)
  }

  method FilterInto(t: ConcreteFilter, target: array<byte>, off: nat, raw: seq<byte>, prev: Nullable<seq<byte>>, bpp: nat)
    requires CanFilter(t, target.Length, off, raw, prev, bpp)
    modifies target
    ensures target[..] == Splice(old(target[..]), off, FilterRow(t, raw, prev, bpp))
  {
    match t
    case None => NullFilter.FilterInto(target, off, raw, prev, bpp);
    case Sub => SubFilter.FilterInto(target, off, raw, prev, bpp);
    case Up => UpFilter.FilterInto(target, off, raw, prev, bpp);
    case Average => AvgFilter.FilterInto(target, off, raw, prev, bpp);
    case Paeth => PaethFilter.FilterInto(target, off, raw, prev, bpp);
  }
}
