/**
 * The vectors of ColorHelperTests.cs, PalletteTests.cs and
 * TransparencyMapTests.cs, stated against the model: the packed values of
 * nine triples, unpacking them back, and the three palette and two
 * transparency-map scenarios on tables of bit depth 1.
 */
module ColorVectors {
  import opened Base
  import opened Bits
  import opened ColorHelpers
  import opened Pallettes
  import opened TransparencyMaps

  /** The nine triples and the values PackRgb gives them. */
  lemma PackVectors()
    ensures PackRgb(255, 0, 0) == 16711680
    ensures PackRgb(0, 255, 0) == 65280
    ensures PackRgb(0, 0, 255) == 255
    ensures PackRgb(0, 255, 255) == 65535
    ensures PackRgb(255, 0, 255) == 16711935
    ensures PackRgb(255, 255, 0) == 16776960
    ensures PackRgb(158, 85, 54) == 10376502
    ensures PackRgb(155, 160, 52) == 10199092
    ensures PackRgb(100, 0, 150) == 6553750
  {
  }

  /** The three primaries unpack to their triples. */
  lemma UnpackVectorsPrimaries()
    ensures UnpackRgb(16711680) == [255, 0, 0]
    ensures UnpackRgb(65280) == [0, 255, 0]
    ensures UnpackRgb(255) == [0, 0, 255]
  {
    UnpackPack(255, 0, 0);
    UnpackPack(0, 255, 0);
    UnpackPack(0, 0, 255);
  }

  /** The three secondaries unpack to their triples. */
  lemma UnpackVectorsSecondaries()
    ensures UnpackRgb(65535) == [0, 255, 255]
    ensures UnpackRgb(16711935) == [255, 0, 255]
    ensures UnpackRgb(16776960) == [255, 255, 0]
  {
    UnpackPack(0, 255, 255);
    UnpackPack(255, 0, 255);
    UnpackPack(255, 255, 0);
  }

  /** The three mixed colors unpack to their triples. */
  lemma UnpackVectorsMixed()
    ensures UnpackRgb(10376502) == [158, 85, 54]
    ensures UnpackRgb(10199092) == [155, 160, 52]
    ensures UnpackRgb(6553750) == [100, 0, 150]
  {
    UnpackPack(158, 85, 54);
    UnpackPack(155, 160, 52);
    UnpackPack(100, 0, 150);
  }

  /** A table of bit depth 1 has two entries. */
  lemma DepthOneSize()
    ensures TableSize(1) == 2
  {
    Pow2Values();
  }

  /** A palette of depth 1 given (17, 93, 45) returns those bytes at index 0, and index 0 for them. */
  method PalletteFirstColor() returns (rgb: Result<seq<byte>>, index: Result<int32>)
    ensures rgb == Ok([17, 93, 45])
    ensures index == Ok(0)
  {
    DepthOneSize();
    var p := new Pallette(1);
    var added := p.AddRgb(17, 93, 45);
    rgb := p.Rgb(0);
    index := p.IndexOf(17, 93, 45);
  }

  /** A palette of depth 1 takes two colors and refuses a third. */
  method PalletteThirdColorFails() returns (first: Result<int32>, second: Result<int32>, third: Result<int32>)
    ensures first == Ok(0) && second == Ok(1)
    ensures third == Err(PalletteFull)
  {
    DepthOneSize();
    var p := new Pallette(1);
    first := p.AddRgb(255, 19, 10);
    second := p.AddRgb(17, 29, 99);
    third := p.AddRgb(93, 49, 111);
  }

  /** A transparency map of depth 1 takes indices 0 and 1 and refuses 2, naming the parameter. */
  method TransparencyIndexTwoFails() returns (zero: Result<()>, one: Result<()>, two: Result<()>)
    ensures zero == Ok(()) && one == Ok(())
    ensures two == Err(ArgumentOutOfRange("palletteIndex"))
  {
    DepthOneSize();
    var m := new TransparencyMap(1);
    zero := m.AddTransparencyToMap(0, 255);
    one := m.AddTransparencyToMap(1, 213);
    two := m.AddTransparencyToMap(2, 49);
  }

  /** The alpha stored at index 0 of a depth-1 map is read back. */
  method TransparencyReadBack() returns (alpha: Result<byte>)
    ensures alpha == Ok(201)
  {
    DepthOneSize();
    var m := new TransparencyMap(1);
    var added := m.AddTransparencyToMap(0, 201);
    alpha := m.Get(0);
  }
}
