/** Machine types of the C# source, its exceptions, and a few helpers on byte sequences. */
module Base {

  /** An unsigned 8-bit value (C# `byte`). */
  newtype byte = b: int | 0 <= b < 0x100

  /** A signed 32-bit value (C# `int`). Arithmetic that may leave the range is written out with Wrap32. */
  newtype int32 = x: int | -0x8000_0000 <= x < 0x8000_0000

  /** An unsigned 32-bit value (C# `uint`). Dafny checks every assignment stays in range, so no silent wrap. */
  newtype uint32 = x: int | 0 <= x < 0x1_0000_0000

  const INT32_MIN: int := -0x8000_0000
  const INT32_MAX: int := 0x7FFF_FFFF

  /** The C# unchecked cast `(byte)v`: keep the low eight bits. */
  function Wrap(v: int): (r: byte)
    ensures r as int == v % 0x100
  {
    (v % 0x100) as byte
  }

  /** The C# unchecked cast `(int)v` from a wider integer: keep the low 32 bits, read them as two's complement. */
  function Wrap32(v: int): (r: int32)
    ensures (r as int - v) % 0x1_0000_0000 == 0
    ensures INT32_MIN <= v <= INT32_MAX ==> r as int == v
  {
    var u := v % 0x1_0000_0000;
    if u < 0x8000_0000 then u as int32 else (u - 0x1_0000_0000) as int32
  }

  /** The 32-bit pattern of a signed value, as an unsigned number. */
  function Bits32(v: int32): (u: nat)
    ensures u < 0x1_0000_0000
    ensures v >= 0 ==> u == v as int
    ensures v < 0 ==> u == v as int + 0x1_0000_0000
  {
    v as int % 0x1_0000_0000
  }

  /** Reading a 32-bit pattern as an `int` and back gives the pattern. */
  lemma Bits32Wrap32(u: int)
    requires 0 <= u < 0x1_0000_0000
    ensures Bits32(Wrap32(u)) == u
  {
  }

  /** The C# reinterpretation `(sbyte)b`. */
  function SByte(b: byte): (v: int)
    ensures -128 <= v < 128
    ensures Wrap(v) == b
  {
    if b < 0x80 then b as int else b as int - 0x100
  }

  /**
   * The exceptions the source throws, with the parameter name where it
   * passes one (an empty name where it passes none). LengthMismatch is the
   * chunk writer's plain Exception, UnknownColorType the older IDAT writer's,
   * BlockCopyRange the ArgumentException of a Buffer.BlockCopy whose range
   * leaves its array, NullReference a member access through null, and
   * Overflow the OverflowException of an array of negative size.
   */
  datatype Error =
    | ArgumentOutOfRange(paramName: string)
    | ArgumentNull(paramName: string)
    | Argument(paramName: string)
    | NotImplemented
    | IndexOutOfRange
    | KeyNotFound
    | LengthMismatch
    | PalletteFull
    | UnknownColorType(colorType: byte)
    | BlockCopyRange
    | NullReference
    | Overflow

  /** A C# reference that may be null. */
  datatype Nullable<+T> = Null | NotNull(value: T)

  datatype Result<+T> = Ok(value: T) | Err(error: Error) {
    predicate IsFailure() { Err? }
    function PropagateFailure<U>(): Result<U>
      requires Err?
    {
      Err(error)
    }
    function Extract(): T
      requires Ok?
    {
      value
    }
  }

  /** `s` with `w` copied over it starting at `off`: what a BlockCopy or a filter leaves in its target. */
  function Splice<T>(s: seq<T>, off: nat, w: seq<T>): (r: seq<T>)
    requires off + |w| <= |s|
    ensures |r| == |s|
    ensures r[off..off + |w|] == w
    ensures r[..off] == s[..off] && r[off + |w|..] == s[off + |w|..]
  {
    s[..off] + w + s[off + |w|..]
  }

  /** Splicing over the whole sequence replaces it. */
  lemma SpliceAll<T>(s: seq<T>, w: seq<T>)
    requires |w| == |s|
    ensures Splice(s, 0, w) == w
  {
    assert s[..0] + w + s[|w|..] == w;
  }

  /** A target that agrees with `w` on the window and with `s` elsewhere is the splice. */
  lemma SpliceExt<T>(t: seq<T>, s: seq<T>, off: nat, w: seq<T>)
    requires off + |w| <= |s| == |t|
    requires forall k | 0 <= k < |w| :: t[off + k] == w[k]
    requires forall k | 0 <= k < |s| && !(off <= k < off + |w|) :: t[k] == s[k]
    ensures t == Splice(s, off, w)
  {
    var r := Splice(s, off, w);
    forall k | 0 <= k < |s|
      ensures t[k] == r[k]
    {
      if off <= k < off + |w| {
        assert r[k] == r[off..off + |w|][k - off];
        assert t[off + (k - off)] == w[k - off];
      }
    }
  }

  /** A second copy over the same window replaces the first. */
  lemma SpliceTwice<T>(s: seq<T>, off: nat, w1: seq<T>, w2: seq<T>)
    requires off + |w1| <= |s| && |w2| == |w1|
    ensures Splice(Splice(s, off, w1), off, w2) == Splice(s, off, w2)
  {
    var a, b := Splice(Splice(s, off, w1), off, w2), Splice(s, off, w2);
    assert a == b by {
      forall k | 0 <= k < |s|
        ensures a[k] == b[k]
      {
        if off <= k < off + |w2| {
          assert a[k] == a[off..off + |w2|][k - off];
          assert b[k] == b[off..off + |w2|][k - off];
        }
      }
    }
  }

  /** Concatenation of a sequence of byte strings. */
  function Flatten(parts: seq<seq<byte>>): (r: seq<byte>)
  {
    if |parts| == 0 then [] else Flatten(parts[..|parts| - 1]) + parts[|parts| - 1]
  }

  /** A non-empty sequence is its front and then its last element. */
  lemma FrontLast<T>(s: seq<T>)
    requires |s| > 0
    ensures s[..|s| - 1] + [s[|s| - 1]] == s
  {
  }

  /** Concatenation is associative (stated once, so that long contexts need not rediscover it). */
  lemma AppendAssoc<T>(a: seq<T>, b: seq<T>, c: seq<T>)
    ensures a + (b + c) == (a + b) + c
  {
  }

  lemma {:induction false} FlattenAppend(a: seq<seq<byte>>, b: seq<seq<byte>>)
    ensures Flatten(a + b) == Flatten(a) + Flatten(b)
    decreases |b|
  {
    if |b| == 0 {
      assert a + b == a;
    } else {
      var b' := b[..|b| - 1];
      assert (a + b)[..|a + b| - 1] == a + b';
      FlattenAppend(a, b');
    }
  }
}
