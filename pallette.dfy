/**
 * Pallette.cs: an append-only table of packed colors with room for
 * `2 << (bitDepth - 1)` entries, and a reverse map from a packed color to
 * the index it was last added at.
 */
module Pallettes {
  import opened Base
  import opened Bits
  import opened Words
  import opened ColorHelpers
  import Colors

  /** `2 << (bitDepth - 1)` on `int`: the size of a palette or a transparency map for a bit depth. */
  function TableSize(bitDepth: int32): (r: int32)
    ensures 1 <= bitDepth <= 30 ==> r as int == Pow2(bitDepth as nat)
    ensures bitDepth == 0 || bitDepth == 32 ==> r == 0
  {
    if 1 <= bitDepth <= 30 then
      ShlTwo(bitDepth);
      ShlInt(2, SubInt(bitDepth, 1))
    else if bitDepth == 0 || bitDepth == 32 then
      ShlTwoOut(bitDepth);
      ShlInt(2, SubInt(bitDepth, 1))
    else
      ShlInt(2, SubInt(bitDepth, 1))
  }

  /** The last index at which p occurs in s. */
  function LastIndex(s: seq<int32>, p: int32): (i: nat)
    requires p in s
    ensures i < |s| && s[i] == p
    ensures forall j | i < j < |s| :: s[j] != p
    decreases |s|
  {
    if s[|s| - 1] == p then |s| - 1 else LastIndex(s[..|s| - 1], p)
  }

  /** Appending p makes its last index the new one and keeps every other color's. */
  lemma LastIndexSnoc(s: seq<int32>, p: int32, q: int32)
    requires q in s + [p]
    ensures LastIndex(s + [p], q) == if q == p then |s| else LastIndex(s, q)
  {
    if q != p {
      assert (s + [p])[..|s|] == s;
    }
  }

  class Pallette {
    const PalletteSize: int32
    const palletteEntries: array<int32>
    var reversePallette: map<int32, int32>
    var currentPalletteEntry: int32

    /**
     * The entries added so far lie at the front of the table and the rest
     * of it is still zero; the reverse map holds exactly the colors added,
     * each at the index it was last added at.
     */
    ghost predicate Valid()
      reads this, palletteEntries
    {
      && palletteEntries.Length == PalletteSize as int
      && 0 <= currentPalletteEntry <= PalletteSize
      && (forall i | currentPalletteEntry as int <= i < palletteEntries.Length :: palletteEntries[i] == 0)
      && (forall p :: p in reversePallette <==> p in Entries())
      && (forall p | p in reversePallette :: reversePallette[p] as int == LastIndex(Entries(), p))
    }

    /** The colors added so far, in the order they were added. */
    function Entries(): (s: seq<int32>)
      reads this, palletteEntries
      requires 0 <= currentPalletteEntry as int <= palletteEntries.Length
      ensures |s| == currentPalletteEntry as int
    {
      palletteEntries[..currentPalletteEntry]
    }

    /** `new Pallette(bitDepth)` for a depth whose size is not negative: an empty table of that size. */
    constructor (bitDepth: int32)
      requires TableSize(bitDepth) >= 0
      ensures PalletteSize == TableSize(bitDepth)
      ensures Valid() && Entries() == [] && reversePallette == map[]
      ensures fresh(palletteEntries)
    {
      PalletteSize := TableSize(bitDepth);
      palletteEntries := new int32[TableSize(bitDepth)](_ => 0);
      reversePallette := map[];
      currentPalletteEntry := 0;
    }

    /**
     * `AddPacked`: a full table throws and nothing changes; otherwise the
     * color goes into the next free entry, the reverse map sends it there,
     * and the old count is the index returned.
     */
    method AddPacked(packedColor: int32) returns (r: Result<int32>)
      requires Valid()
      modifies this, palletteEntries
      ensures Valid()
      ensures old(currentPalletteEntry) == PalletteSize ==>
                r == Err(PalletteFull) && Entries() == old(Entries()) && reversePallette == old(reversePallette)
      ensures old(currentPalletteEntry) < PalletteSize ==>
                && r == Ok(old(currentPalletteEntry))
                && Entries() == old(Entries()) + [packedColor]
                && reversePallette == old(reversePallette)[packedColor := old(currentPalletteEntry)]
    {
      if currentPalletteEntry == PalletteSize {
        return Err(PalletteFull);
      }
      ghost var before := Entries();
      palletteEntries[currentPalletteEntry] := packedColor;
      reversePallette := reversePallette[packedColor := currentPalletteEntry];
      r := Ok(currentPalletteEntry);
      currentPalletteEntry := currentPalletteEntry + 1;
      assert Entries() == before + [packedColor];
      forall p | p in reversePallette
        ensures reversePallette[p] as int == LastIndex(Entries(), p)
      {
        LastIndexSnoc(before, packedColor, p);
      }
    }

    /** `AddColorToPallette(Color c)`: the color's packed RGB is added; afterwards looking up its RGB finds the new index. */
    method AddColor(c: Colors.Color) returns (r: Result<int32>)
      requires Valid()
      modifies this, palletteEntries
      ensures Valid()
      ensures old(currentPalletteEntry) == PalletteSize ==>
                r == Err(PalletteFull) && Entries() == old(Entries()) && reversePallette == old(reversePallette)
      ensures old(currentPalletteEntry) < PalletteSize ==>
                && r == Ok(old(currentPalletteEntry))
                && Entries() == old(Entries()) + [c.Packed()]
                && reversePallette == old(reversePallette)[c.Packed() := old(currentPalletteEntry)]
      ensures r.Ok? ==> IndexOf(c.R, c.G, c.B) == r && Rgb(r.value) == Ok([c.R, c.G, c.B])
    {
      r := AddPacked(c.Packed());
      if r.Ok? {
        AddedIsFound(c.R, c.G, c.B, r.value);
      }
    }

    /** `AddColorToPallette(r, g, b)`: as AddColor, for the packed triple. */
    method AddRgb(red: byte, green: byte, blue: byte) returns (r: Result<int32>)
      requires Valid()
      modifies this, palletteEntries
      ensures Valid()
      ensures old(currentPalletteEntry) == PalletteSize ==>
                r == Err(PalletteFull) && Entries() == old(Entries()) && reversePallette == old(reversePallette)
      ensures old(currentPalletteEntry) < PalletteSize ==>
                && r == Ok(old(currentPalletteEntry))
                && Entries() == old(Entries()) + [PackRgb(red, green, blue)]
                && reversePallette == old(reversePallette)[PackRgb(red, green, blue) := old(currentPalletteEntry)]
      ensures r.Ok? ==> IndexOf(red, green, blue) == r && Rgb(r.value) == Ok([red, green, blue])
    {
      r := AddPacked(PackRgb(red, green, blue));
      if r.Ok? {
        AddedIsFound(red, green, blue, r.value);
      }
    }

    /** The last color added is found by its triple at its index, and unpacks to that triple. */
    lemma AddedIsFound(red: byte, green: byte, blue: byte, i: int32)
      requires Valid() && 0 <= i as int < |Entries()| == i as int + 1 && Entries()[i] == PackRgb(red, green, blue)
      ensures IndexOf(red, green, blue) == Ok(i) && Rgb(i) == Ok([red, green, blue])
    {
      UnpackPack(red, green, blue);
    }

    /** `GetPackedColor(i)`: an added color, zero for an entry not yet used, and an exception outside the table. */
    function GetPackedColor(i: int32): (r: Result<int32>)
      reads this, palletteEntries
      requires Valid()
      ensures 0 <= i as int < |Entries()| ==> r == Ok(Entries()[i])
      ensures |Entries()| <= i as int < PalletteSize as int ==> r == Ok(0)
      ensures !(0 <= i < PalletteSize) ==> r == Err(IndexOutOfRange)
      ensures 0 <= i < PalletteSize ==> r == Ok(palletteEntries[..][i])
    {
      if 0 <= i as int < palletteEntries.Length then Ok(palletteEntries[i]) else Err(IndexOutOfRange)
    }

    /** `this[int i]`: the bytes of entry i. */
    function Rgb(i: int32): (r: Result<seq<byte>>)
      reads this, palletteEntries
      requires Valid()
      ensures 0 <= i as int < |Entries()| ==> r == Ok(UnpackRgb(Entries()[i]))
      ensures |Entries()| <= i as int < PalletteSize as int ==> r == Ok([0, 0, 0])
      ensures !(0 <= i < PalletteSize) ==> r == Err(IndexOutOfRange)
    {
      if 0 <= i as int < palletteEntries.Length then
        var packed := palletteEntries[i];
        assert i as int < |Entries()| ==> Entries()[i] == packed;
        assert i as int >= |Entries()| ==> packed == 0;
        UnpackZero();
        Ok(UnpackRgb(packed))
      else
        Err(IndexOutOfRange)
    }

    /** `this[byte r, byte g, byte b]`: the index the triple was last added at; a triple never added is not a key. */
    function IndexOf(red: byte, green: byte, blue: byte): (r: Result<int32>)
      reads this, palletteEntries
      requires Valid()
      ensures r.Ok? <==> PackRgb(red, green, blue) in Entries()
      ensures r.Ok? ==> r.value as int == LastIndex(Entries(), PackRgb(red, green, blue))
      ensures r.Err? ==> r.error == KeyNotFound
    {
      var color := PackRgb(red, green, blue);
      if color in reversePallette then Ok(reversePallette[color]) else Err(KeyNotFound)
    }
  }

  /** `new Pallette(bitDepth)`: a depth whose size wraps negative makes the array allocation throw. */
  method NewPallette(bitDepth: int32) returns (r: Result<Pallette>)
    ensures TableSize(bitDepth) < 0 <==> r.Err?
    ensures r.Err? ==> r.error == Overflow
    ensures r.Ok? ==> fresh(r.value) && fresh(r.value.palletteEntries) && r.value.Valid()
                      && r.value.PalletteSize == TableSize(bitDepth) && r.value.Entries() == []
  {
    if TableSize(bitDepth) < 0 {
      return Err(Overflow);
    }
    var p := new Pallette(bitDepth);
    r := Ok(p);
  }

  /** Depth 31 is the only depth between 1 and 32 whose size wraps negative. */
  lemma DepthThirtyOneOverflows()
    ensures TableSize(31) < 0
  {
    Pow2Values();
    assert Bits32(SubInt(31, 1)) % 32 == 30;
    assert 2 * Pow2(30) == 0x8000_0000;
  }
}
