/**
 * `DefaultFilters.GetFilterForType`: the filter object a filter-type byte
 * selects, and a FilterInto call on that object whatever its type.
 */
module DefaultFilters {
  import opened Base
  import opened FilterTypes
  import opened FilterSpec
  import IFilter
  import DynamicFilter

  /**
   * The switch of GetFilterForType. The argument is the enumeration's
   * underlying byte, so a value that names no member can reach it. The
   * filter object is identified by its `Type`.
   */
  function GetFilterForType(filter: byte): (r: Result<FilterType>)
    ensures r.Ok? <==> filter in {0, 1, 2, 255}
    ensures r.Ok? ==> Tag(r.value) == filter
    ensures (filter == 3 || filter == 4) <==> r == Err(NotImplemented)
    ensures !(filter <= 4 || filter == 255) <==> r == Err(ArgumentOutOfRange("filter"))
  {
    if filter == 0 then Ok(None)
    else if filter == 1 then Ok(Sub)
    else if filter == 2 then Ok(Up)
    else if filter == 3 then Err(NotImplemented)
    else if filter == 4 then Err(NotImplemented)
    else if filter == 255 then Ok(Dynamic)
    else Err(ArgumentOutOfRange("filter"))
  }

  /**
   * Against the enumeration: a member is served unless it is Average or
   * Paeth, and it is served by the object of its own type; a byte that is no
   * member is an out-of-range argument, and only such a byte is.
   */
  lemma GetFilterForTypeMembers(t: FilterType, b: byte)
    ensures GetFilterForType(Tag(t)) == if t in {Average, Paeth} then Err(NotImplemented) else Ok(t)
    ensures GetFilterForType(b) == Err(ArgumentOutOfRange("filter")) <==> FromTag(b).Null?
  {
  }

  /** What a FilterInto call on the object of type t needs of its arguments. */
  predicate CanFilter(t: FilterType, targetLength: nat, off: nat, raw: seq<byte>, prev: Nullable<seq<byte>>, bpp: nat)
  {
    if t.Dynamic? then DynamicFilter.CanFilter(targetLength, off, raw, prev, bpp)
    else IFilter.CanFilter(t, targetLength, off, raw, prev, bpp)
  }

  /** The target buffer after the filter of type t has run on `before`. */
  function Applied(t: FilterType, before: seq<byte>, off: nat, raw: seq<byte>, prev: Nullable<seq<byte>>, bpp: nat): seq<byte>
    requires CanFilter(t, |before|, off, raw, prev, bpp)
  {
    if t.Dynamic? then DynamicFilter.Filtered(before, off, raw, prev, bpp)
    else Splice(before, off, FilterRow(t, raw, prev, bpp))
  }

  /** `filter.FilterInto(...)` through the IFilter interface, with the object chosen by its type. */
  method FilterInto(t: FilterType, target: array<byte>, off: nat, raw: seq<byte>, prev: Nullable<seq<byte>>, bpp: nat)
    requires CanFilter(t, target.Length, off, raw, prev, bpp)
    modifies target
    ensures target[..] == Applied(t, old(target[..]), off, raw, prev, bpp)
  {
    if t.Dynamic? {
      DynamicFilter.FilterInto(target, off, raw, prev, bpp);
    } else {
      IFilter.FilterInto(t, target, off, raw, prev, bpp);
    }
  }

  /**
   * The filter that ends up encoding a row of a scanline buffer whose first
   * byte holds t's tag: t itself, or for Dynamic the filter it settles on.
   */
  function RowFilter(t: FilterType, raw: seq<byte>, prev: Nullable<seq<byte>>, bpp: nat): ConcreteFilter
  {
    if t.Dynamic? then DynamicFilter.Best([Tag(Dynamic)] + raw, raw, prev, bpp) else t
  }

  /**
   * On a buffer of one tag byte and one row whose tag byte holds t's tag, the
   * filter leaves the tag of the filter actually used followed by that
   * filter's row: a concrete type writes its own tag and row, and Dynamic
   * overwrites its 255 with the chosen concrete tag.
   */
  lemma AppliedToScanline(t: FilterType, before: seq<byte>, raw: seq<byte>, prev: Nullable<seq<byte>>, bpp: nat)
    requires |before| == 1 + |raw| && before[0] == Tag(t)
    requires CanFilter(t, |before|, 1, raw, prev, bpp)
    ensures Applied(t, before, 1, raw, prev, bpp) == [Tag(RowFilter(t, raw, prev, bpp))] + FilterRow(RowFilter(t, raw, prev, bpp), raw, prev, bpp)
    ensures Tag(RowFilter(t, raw, prev, bpp)) <= 4
  {
    var w := FilterRow(RowFilter(t, raw, prev, bpp), raw, prev, bpp);
    if t.Dynamic? {
      DynamicFilter.BestOutsideOnly(before, [Tag(Dynamic)] + raw, raw, prev, bpp);
      DynamicFilter.FilteredAtOne(before, raw, prev, bpp);
      assert before[1 + |raw|..] == [];
    } else {
      assert Splice(before, 1, w) == [Tag(t)] + w by {
        assert before[..1] == [Tag(t)];
      }
    }
  }
}
