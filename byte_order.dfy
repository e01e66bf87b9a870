/** An output stream, seen as the bytes written to it so far. */
module Streams {
  import opened Base

  class Stream {
    var written: seq<byte>

    constructor ()
      ensures written == []
    {
      written := [];
    }

    /** `WriteAsync(bytes, 0, bytes.Length)`: the bytes go after everything written before. */
    method Write(bytes: seq<byte>)
      modifies this
      ensures written == old(written) + bytes
    {
      written := written + bytes;
    }
  }
}

/**
 * Byte order: the big-endian 32-bit encoding of RFC 2083 section 2.1,
 * `BitConverter.GetBytes`, which uses the host's order, and `Array.Reverse`.
 */
module ByteOrder {
  import opened Base
  import opened Bits

  /** The four bytes of a 32-bit pattern, most significant first. */
  function BigEndian32(u: nat): (r: seq<byte>)
    requires u < 0x1_0000_0000
    ensures |r| == 4
  {
    [(u / 0x100_0000) as byte, (u / 0x1_0000 % 0x100) as byte, (u / 0x100 % 0x100) as byte, (u % 0x100) as byte]
  }

  /** Reading four bytes, most significant first. */
  function FromBigEndian32(s: seq<byte>): (u: nat)
    requires |s| == 4
    ensures u < 0x1_0000_0000
  {
    s[0] as nat * 0x100_0000 + s[1] as nat * 0x1_0000 + s[2] as nat * 0x100 + s[3] as nat
  }

  /** The big-endian encoding is read back exactly. */
  lemma BigEndian32Decodes(u: nat)
    requires u < 0x1_0000_0000
    ensures FromBigEndian32(BigEndian32(u)) == u
  {
    var q1, q2 := u / 0x100, u / 0x1_0000;
    DivDiv(u, 0x100, 0x100);
    DivDiv(u, 0x1_0000, 0x100);
    assert u == q1 * 0x100 + u % 0x100;
    assert q1 == q2 * 0x100 + q1 % 0x100;
    assert q2 == u / 0x100_0000 * 0x100 + q2 % 0x100;
  }

  /** Every four bytes are the encoding of the number they read as. */
  lemma BigEndian32Encodes(s: seq<byte>)
    requires |s| == 4
    ensures BigEndian32(FromBigEndian32(s)) == s
  {
    var u := FromBigEndian32(s);
    var q2 := s[0] as nat * 0x100 + s[1] as nat;
    var q1 := q2 * 0x100 + s[2] as nat;
    DivModUnique(u, 0x100, q1, s[3] as nat);
    DivModUnique(u, 0x1_0000, q2, s[2] as nat * 0x100 + s[3] as nat);
    DivModUnique(u, 0x100_0000, s[0] as nat, s[1] as nat * 0x1_0000 + s[2] as nat * 0x100 + s[3] as nat);
    DivModUnique(q1, 0x100, q2, s[2] as nat);
    DivModUnique(q2, 0x100, s[0] as nat, s[1] as nat);
  }

  function Reversed(s: seq<byte>): (r: seq<byte>)
    ensures |r| == |s|
    ensures forall i | 0 <= i < |s| :: r[i] == s[|s| - 1 - i]
  {
    if |s| == 0 then [] else Reversed(s[1..]) + [s[0]]
  }

  /** `BitConverter.GetBytes` on an `int` or a `uint`: its four bytes in the host's order. */
  function GetBytes(u: nat, littleEndian: bool): (r: seq<byte>)
    requires u < 0x1_0000_0000
    ensures littleEndian ==> r == Reversed(BigEndian32(u))
    ensures !littleEndian ==> r == BigEndian32(u)
  {
    var be := BigEndian32(u);
    if littleEndian then [be[3], be[2], be[1], be[0]] else be
  }

  /** `Array.Reverse(a)`, in place. */
  method Reverse(a: array<byte>)
    modifies a
    ensures a[..] == Reversed(old(a[..]))
  {
    ghost var s := a[..];
    var i, j := 0, a.Length - 1;
    while i < j
      invariant 0 <= i <= j + 1 && i + j == a.Length - 1
      invariant forall k | 0 <= k < i :: a[k] == s[a.Length - 1 - k] && a[a.Length - 1 - k] == s[k]
      invariant forall k | i <= k <= j :: a[k] == s[k]
    {
      a[i], a[j] := a[j], a[i];
      i, j := i + 1, j - 1;
    }
  }

  /**
   * `GetBytesForInteger(value)` in both chunk classes: `GetBytes`, then a
   * reversal on a little-endian host. On either host it yields the
   * big-endian encoding of the value's bit pattern.
   */
  method GetBytesForInteger(u: nat, littleEndian: bool) returns (r: seq<byte>)
    requires u < 0x1_0000_0000
    ensures r == BigEndian32(u)
  {
    var host := GetBytes(u, littleEndian);
    var bytes := new byte[4](i requires 0 <= i < 4 => host[i]);
    if littleEndian {
      Reverse(bytes);
    }
    r := bytes[..];
  }
}
