/**
 * The filter vectors of the test suite (SubFilterTests.cs, UpFilterTests.cs,
 * AvgFilterTests.cs and PaethTests.cs), as facts about the filtered rows. Each
 * test filters into a fresh buffer of the row's length at offset 0, where
 * every filter's FilterInto leaves exactly FilterRow (Base.SpliceAll).
 */
module FilterVectors {
  import opened Base
  import opened FilterTypes
  import opened FilterSpec

  /** A row whose every filtered byte is the expected one filters to the expected row. */
  lemma RowIs(t: ConcreteFilter, raw: seq<byte>, prev: Nullable<seq<byte>>, bpp: nat, e: seq<byte>)
    requires |e| == |raw|
    requires forall x | 0 <= x < |raw| :: FilterByte(t, raw, prev, bpp, x) == e[x]
    ensures FilterRow(t, raw, prev, bpp) == e
  {
  }

  /** The first Sub vector: eight bytes at 4 bytes per pixel. */
  lemma SubVectorFour()
    ensures FilterRow(Sub, [128, 96, 112, 80, 16, 32, 48, 64], Null, 4)
            == [128, 96, 112, 80, 144, 192, 192, 240]
  {
    var raw: seq<byte>, e: seq<byte> := [128, 96, 112, 80, 16, 32, 48, 64], [128, 96, 112, 80, 144, 192, 192, 240];
    forall x | 0 <= x < 8 ensures FilterByte(Sub, raw, Null, 4, x) == e[x] {
      if x < 4 {
        assert Left(raw, x, 4) == 0;
      } else {
        assert Left(raw, x, 4) == raw[x - 4];
      }
    }
    RowIs(Sub, raw, Null, 4, e);
  }

  /** The second Sub vector: four bytes at 2 bytes per pixel. */
  lemma SubVectorTwo()
    ensures FilterRow(Sub, [18, 33, 40, 53], Null, 2)
            == [18, 33, 22, 20]
  {
    var raw: seq<byte>, e: seq<byte> := [18, 33, 40, 53], [18, 33, 22, 20];
    forall x | 0 <= x < 4 ensures FilterByte(Sub, raw, Null, 2, x) == e[x] {
      if x < 2 {
        assert Left(raw, x, 2) == 0;
      } else {
        assert Left(raw, x, 2) == raw[x - 2];
      }
    }
    RowIs(Sub, raw, Null, 2, e);
  }

  /** The third Sub vector: thirteen bytes at 4 bytes per pixel, past one unrolled block. */
  lemma SubVectorLong()
    ensures FilterRow(Sub, [1, 2, 3, 4, 5, 6, 7, 8, 9, 10, 11, 12, 13], Null, 4)
            == [1, 2, 3, 4, 4, 4, 4, 4, 4, 4, 4, 4, 4]
  {
    var raw: seq<byte>, e: seq<byte> := [1, 2, 3, 4, 5, 6, 7, 8, 9, 10, 11, 12, 13], [1, 2, 3, 4, 4, 4, 4, 4, 4, 4, 4, 4, 4];
    forall x | 0 <= x < 13 ensures FilterByte(Sub, raw, Null, 4, x) == e[x] {
      if x < 4 {
        assert Left(raw, x, 4) == 0;
      } else {
        assert Left(raw, x, 4) == raw[x - 4];
      }
    }
    RowIs(Sub, raw, Null, 4, e);
  }

  /** The first Up vector; the pixel width plays no part. */
  lemma UpVectorEight(bpp: nat)
    ensures FilterRow(Up, [128, 96, 112, 80, 16, 32, 48, 64], NotNull([17, 18, 19, 20, 21, 22, 23, 24]), bpp)
            == [111, 78, 93, 60, 251, 10, 25, 40]
  {
    var raw: seq<byte>, e: seq<byte> := [128, 96, 112, 80, 16, 32, 48, 64], [111, 78, 93, 60, 251, 10, 25, 40];
    var prev: Nullable<seq<byte>> := NotNull([17, 18, 19, 20, 21, 22, 23, 24]);
    forall x | 0 <= x < 8 ensures FilterByte(Up, raw, prev, bpp, x) == e[x] {
    }
    RowIs(Up, raw, prev, bpp, e);
  }

  /** The second Up vector. */
  lemma UpVectorFour(bpp: nat)
    ensures FilterRow(Up, [18, 33, 40, 53], NotNull([1, 7, 25, 49]), bpp)
            == [17, 26, 15, 4]
  {
    var raw: seq<byte>, e: seq<byte> := [18, 33, 40, 53], [17, 26, 15, 4];
    var prev: Nullable<seq<byte>> := NotNull([1, 7, 25, 49]);
    forall x | 0 <= x < 4 ensures FilterByte(Up, raw, prev, bpp, x) == e[x] {
    }
    RowIs(Up, raw, prev, bpp, e);
  }

  /** The third Up vector, thirteen bytes. */
  lemma UpVectorLong(bpp: nat)
    ensures FilterRow(Up, [1, 2, 3, 4, 5, 6, 7, 8, 9, 10, 11, 12, 13], NotNull([1, 2, 3, 4, 4, 4, 4, 4, 4, 4, 4, 4, 4]), bpp)
            == [0, 0, 0, 0, 1, 2, 3, 4, 5, 6, 7, 8, 9]
  {
    var raw: seq<byte>, e: seq<byte> := [1, 2, 3, 4, 5, 6, 7, 8, 9, 10, 11, 12, 13], [0, 0, 0, 0, 1, 2, 3, 4, 5, 6, 7, 8, 9];
    var prev: Nullable<seq<byte>> := NotNull([1, 2, 3, 4, 4, 4, 4, 4, 4, 4, 4, 4, 4]);
    forall x | 0 <= x < 13 ensures FilterByte(Up, raw, prev, bpp, x) == e[x] {
    }
    RowIs(Up, raw, prev, bpp, e);
  }

  /** The Average vector with a previous row, at 4 bytes per pixel. */
  lemma AverageVectorWithPrevious()
    ensures FilterRow(Average, [91, 34, 18, 211, 235, 111, 9, 255], NotNull([10, 22, 47, 91, 106, 82, 28, 111]), 4)
            == [86, 23, 251, 166, 137, 53, 242, 94]
  {
    var raw: seq<byte>, e: seq<byte> := [91, 34, 18, 211, 235, 111, 9, 255], [86, 23, 251, 166, 137, 53, 242, 94];
    var prev: Nullable<seq<byte>> := NotNull([10, 22, 47, 91, 106, 82, 28, 111]);
    forall x | 0 <= x < 8 ensures FilterByte(Average, raw, prev, 4, x) == e[x] {
      if x < 4 {
        assert Left(raw, x, 4) == 0;
      } else {
        assert Left(raw, x, 4) == raw[x - 4];
      }
    }
    RowIs(Average, raw, prev, 4, e);
  }

  /** The Average vector without a previous row, at 4 bytes per pixel. */
  lemma AverageVectorFirstRow()
    ensures FilterRow(Average, [91, 34, 18, 211, 235, 111, 9, 255], Null, 4)
            == [91, 34, 18, 211, 190, 94, 0, 150]
  {
    var raw: seq<byte>, e: seq<byte> := [91, 34, 18, 211, 235, 111, 9, 255], [91, 34, 18, 211, 190, 94, 0, 150];
    forall x | 0 <= x < 8 ensures FilterByte(Average, raw, Null, 4, x) == e[x] {
      if x < 4 {
        assert Left(raw, x, 4) == 0;
      } else {
        assert Left(raw, x, 4) == raw[x - 4];
      }
    }
    RowIs(Average, raw, Null, 4, e);
  }

  /** The first Paeth vector: eight bytes with a previous row, at 4 bytes per pixel. */
  lemma PaethVectorWithPrevious()
    ensures FilterRow(Paeth, [91, 34, 18, 211, 235, 111, 9, 255], NotNull([10, 22, 47, 91, 106, 82, 28, 111]), 4)
            == [81, 12, 227, 120, 129, 29, 247, 44]
  {
    var raw: seq<byte>, e: seq<byte> := [91, 34, 18, 211, 235, 111, 9, 255], [81, 12, 227, 120, 129, 29, 247, 44];
    var above: seq<byte> := [10, 22, 47, 91, 106, 82, 28, 111];
    forall x | 0 <= x < 8 ensures FilterByte(Paeth, raw, NotNull(above), 4, x) == e[x] {
      PaethShortByte(raw, above, e, x);
    }
    RowIs(Paeth, raw, NotNull(above), 4, e);
  }

  /** One byte of the first Paeth vector. */
  lemma PaethShortByte(raw: seq<byte>, above: seq<byte>, e: seq<byte>, x: nat)
    requires raw == [91, 34, 18, 211, 235, 111, 9, 255] && above == [10, 22, 47, 91, 106, 82, 28, 111]
    requires e == [81, 12, 227, 120, 129, 29, 247, 44] && x < 8
    ensures FilterByte(Paeth, raw, NotNull(above), 4, x) == e[x]
  {
    if x < 4 {
      PaethFirstPixelByte(raw, above, x, raw[x], above[x], e[x]);
    } else if x == 4 {
      PaethByteAt(raw, above, 4, 235, 91, 106, 10, 129);
    } else if x == 5 {
      PaethByteAt(raw, above, 5, 111, 34, 82, 22, 29);
    } else if x == 6 {
      PaethByteAt(raw, above, 6, 9, 18, 28, 47, 247);
    } else {
      PaethByteAt(raw, above, 7, 255, 211, 111, 91, 44);
    }
  }

  /** A Paeth-filtered byte of the first pixel at 4 bytes per pixel: the byte minus the one above. */
  lemma PaethFirstPixelByte(raw: seq<byte>, above: seq<byte>, x: nat, v: byte, b: byte, w: byte)
    requires x < 4 && x < |raw| && x < |above|
    requires raw[x] == v && above[x] == b && w == Wrap(v as int - b as int)
    ensures FilterByte(Paeth, raw, NotNull(above), 4, x) == w
  {
    assert Left(raw, x, 4) == 0 && UpperLeft(NotNull(above), x, 4) == 0;
  }

  /** The second Paeth vector: without a previous row. */
  lemma PaethVectorFirstRow()
    ensures FilterRow(Paeth, [91, 34, 18, 211, 235, 111, 9, 255], Null, 4)
            == [91, 34, 18, 211, 144, 77, 247, 44]
  {
    var raw: seq<byte>, e: seq<byte> := [91, 34, 18, 211, 235, 111, 9, 255], [91, 34, 18, 211, 144, 77, 247, 44];
    forall x | 0 <= x < 8 ensures FilterByte(Paeth, raw, Null, 4, x) == e[x] {
      if x < 4 {
        assert Left(raw, x, 4) == 0;
      } else {
        assert Left(raw, x, 4) == raw[x - 4];
      }
    }
    RowIs(Paeth, raw, Null, 4, e);
  }

  const PaethLongRow: seq<byte> := [91, 34, 18, 211, 235, 111, 9, 255, 34, 191, 54, 91, 233]
  const PaethLongAbove: seq<byte> := [10, 22, 47, 91, 106, 82, 28, 111, 23, 43, 99, 101, 12]
  const PaethLongFiltered: seq<byte> := [81, 12, 227, 120, 129, 29, 247, 44, 184, 109, 211, 92, 210]

  /**
   * The third Paeth vector: the first vector's rows with five more bytes, so
   * its first eight filtered bytes are the first vector's.
   */
  lemma PaethVectorLong()
    ensures FilterRow(Paeth, [91, 34, 18, 211, 235, 111, 9, 255, 34, 191, 54, 91, 233], NotNull([10, 22, 47, 91, 106, 82, 28, 111, 23, 43, 99, 101, 12]), 4)
            == [81, 12, 227, 120, 129, 29, 247, 44, 184, 109, 211, 92, 210]
  {
    var raw, above, e := PaethLongRow, PaethLongAbove, PaethLongFiltered;
    var short: seq<byte> := [10, 22, 47, 91, 106, 82, 28, 111];
    assert raw[..8] == [91, 34, 18, 211, 235, 111, 9, 255] && above[..8] == short;
    PaethVectorWithPrevious();
    FilterRowDependsOnRows(Paeth, raw[..8], above, short, 4);
    FilterRowPrefix(Paeth, raw, NotNull(above), 4, 8);
    var f := FilterRow(Paeth, raw, NotNull(above), 4);
    forall x | 0 <= x < 8 ensures FilterByte(Paeth, raw, NotNull(above), 4, x) == e[x] {
      assert f[x] == f[..8][x];
    }
    forall x | 8 <= x < 13 ensures FilterByte(Paeth, raw, NotNull(above), 4, x) == e[x] {
      PaethLongByte(x);
    }
    RowIs(Paeth, raw, NotNull(above), 4, e);
  }

  /** One of the last five bytes of the third Paeth vector. */
  lemma PaethLongByte(x: nat)
    requires 8 <= x < 13
    ensures FilterByte(Paeth, PaethLongRow, NotNull(PaethLongAbove), 4, x) == PaethLongFiltered[x]
  {
    if x == 8 {
      PaethByteAt(PaethLongRow, PaethLongAbove, 8, 34, 235, 23, 106, 184);
    } else if x == 9 {
      PaethByteAt(PaethLongRow, PaethLongAbove, 9, 191, 111, 43, 82, 109);
    } else if x == 10 {
      PaethByteAt(PaethLongRow, PaethLongAbove, 10, 54, 9, 99, 28, 211);
    } else if x == 11 {
      PaethByteAt(PaethLongRow, PaethLongAbove, 11, 91, 255, 101, 111, 92);
    } else {
      PaethByteAt(PaethLongRow, PaethLongAbove, 12, 233, 34, 12, 23, 210);
    }
  }

  /** Paeth-filtered byte x at 4 bytes per pixel, from the byte itself and its three neighbours. */
  lemma PaethByteAt(raw: seq<byte>, above: seq<byte>, x: nat, v: byte, a: byte, b: byte, c: byte, w: byte)
    requires 4 <= x < |raw| && x < |above|
    requires raw[x] == v && raw[x - 4] == a && above[x] == b && above[x - 4] == c
    requires w == Wrap(v as int - PaethPredictor(a, b, c) as int)
    ensures FilterByte(Paeth, raw, NotNull(above), 4, x) == w
  {
  }
}
