/** The filter-type enumeration (a C# `enum` backed by a byte). */
module FilterTypes {
  import opened Base

  /** The named members of the enumeration. */
  datatype FilterType = None | Sub | Up | Average | Paeth | Dynamic

  /** The five filters of RFC 2083 section 6; Dynamic only chooses among them. */
  type ConcreteFilter = t: FilterType | !t.Dynamic? witness None

  /** The byte each member stands for; it is also the filter-type byte written before a scanline. */
  function Tag(t: FilterType): (r: byte)
    ensures t.Dynamic? <==> r == 255
    ensures !t.Dynamic? ==> r <= 4
  {
    match t
    case None => 0
    case Sub => 1
    case Up => 2
    case Average => 3
    case Paeth => 4
    case Dynamic => 255
  }

  /** `Enum.IsDefined`: the member a byte names, if it names one. */
  function FromTag(b: byte): (r: Nullable<FilterType>)
    ensures r.NotNull? <==> (b <= 4 || b == 255)
    ensures r.NotNull? ==> Tag(r.value) == b
  {
    if b == 0 then NotNull(None)
    else if b == 1 then NotNull(Sub)
    else if b == 2 then NotNull(Up)
    else if b == 3 then NotNull(Average)
    else if b == 4 then NotNull(Paeth)
    else if b == 255 then NotNull(Dynamic)
    else Null
  }

  /** Reading back the tag of any member gives that member. */
  lemma FromTagOfTag(t: FilterType)
    ensures FromTag(Tag(t)) == NotNull(t)
  {
  }
}
