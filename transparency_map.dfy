/**
 * TransparencyMap.cs: one alpha byte per palette index, in a table of
 * `2 << (bitDepth - 1)` entries that starts out all zero.
 */
module TransparencyMaps {
  import opened Base
  import Pallettes

  class TransparencyMap {
    const TransparencyMapSize: int32
    const transparencyMapEntries: array<byte>

    ghost predicate Valid()
      reads this
    {
      transparencyMapEntries.Length == TransparencyMapSize as int
    }

    /** `new TransparencyMap(bitDepth)` for a depth whose size is not negative: every entry zero. */
    constructor (bitDepth: int32)
      requires Pallettes.TableSize(bitDepth) >= 0
      ensures Valid() && TransparencyMapSize == Pallettes.TableSize(bitDepth)
      ensures forall i | 0 <= i < transparencyMapEntries.Length :: transparencyMapEntries[i] == 0
      ensures fresh(transparencyMapEntries)
    {
      TransparencyMapSize := Pallettes.TableSize(bitDepth);
      transparencyMapEntries := new byte[Pallettes.TableSize(bitDepth)](_ => 0);
    }

    /**
     * `AddTransparencyToMap`: an index at or past the size throws
     * ArgumentOutOfRangeException("palletteIndex"), a negative one the
     * array's IndexOutOfRangeException, and either leaves the map as it was;
     * otherwise that one entry becomes alpha.
     */
    method AddTransparencyToMap(palletteIndex: int32, alpha: byte) returns (r: Result<()>)
      requires Valid()
      modifies transparencyMapEntries
      ensures palletteIndex >= TransparencyMapSize ==>
                r == Err(ArgumentOutOfRange("palletteIndex")) && transparencyMapEntries[..] == old(transparencyMapEntries[..])
      ensures palletteIndex < 0 ==>
                r == Err(IndexOutOfRange) && transparencyMapEntries[..] == old(transparencyMapEntries[..])
      ensures 0 <= palletteIndex < TransparencyMapSize ==>
                r == Ok(()) && transparencyMapEntries[..] == old(transparencyMapEntries[..])[palletteIndex := alpha]
      ensures r.Ok? ==> Get(palletteIndex) == Ok(alpha)
      ensures forall i: int32 | i != palletteIndex :: Get(i) == old(Get(i))
    {
      if palletteIndex >= TransparencyMapSize {
        return Err(ArgumentOutOfRange("palletteIndex"));
      }
      if palletteIndex < 0 {
        return Err(IndexOutOfRange);
      }
      transparencyMapEntries[palletteIndex] := alpha;
      r := Ok(());
    }

    /** `this[int i]`: the alpha stored at i, or the array's exception outside the map. */
    function Get(i: int32): (r: Result<byte>)
      reads this, transparencyMapEntries
      requires Valid()
      ensures r.Ok? <==> 0 <= i < TransparencyMapSize
      ensures r.Ok? ==> r.value == transparencyMapEntries[..][i]
      ensures r.Err? ==> r.error == IndexOutOfRange
    {
      if 0 <= i < TransparencyMapSize then Ok(transparencyMapEntries[i]) else Err(IndexOutOfRange)
    }
  }

  /** `new TransparencyMap(bitDepth)`: a depth whose size wraps negative makes the array allocation throw. */
  method NewTransparencyMap(bitDepth: int32) returns (r: Result<TransparencyMap>)
    ensures Pallettes.TableSize(bitDepth) < 0 <==> r.Err?
    ensures r.Err? ==> r.error == Overflow
    ensures r.Ok? ==> fresh(r.value) && fresh(r.value.transparencyMapEntries) && r.value.Valid()
                      && r.value.TransparencyMapSize == Pallettes.TableSize(bitDepth)
                      && forall i | 0 <= i < r.value.transparencyMapEntries.Length :: r.value.transparencyMapEntries[i] == 0
  {
    if Pallettes.TableSize(bitDepth) < 0 {
      return Err(Overflow);
    }
    var m := new TransparencyMap(bitDepth);
    r := Ok(m);
  }
}
