/** The two copy routines of System.Buffer that the encoder calls. */
module Buffers {
  import opened Base

  /** `Buffer.BlockCopy(src, srcOffset, dst, dstOffset, count)` on byte arrays whose ranges are in bounds. */
  method BlockCopy(src: seq<byte>, srcOffset: nat, dst: array<byte>, dstOffset: nat, count: nat)
    requires srcOffset + count <= |src| && dstOffset + count <= dst.Length
    modifies dst
    ensures forall j | dstOffset <= j < dstOffset + count :: dst[j] == src[srcOffset + (j - dstOffset)]
    ensures forall j | 0 <= j < dst.Length && !(dstOffset <= j < dstOffset + count) :: dst[j] == old(dst[j])
  {
    var k := 0;
    while k < count
      invariant 0 <= k <= count
      invariant forall j | dstOffset <= j < dstOffset + k :: dst[j] == src[srcOffset + (j - dstOffset)]
      invariant forall j | 0 <= j < dst.Length && !(dstOffset <= j < dstOffset + k) :: dst[j] == old(dst[j])
    {
      dst[dstOffset + k] := src[srcOffset + k];
      k := k + 1;
    }
  }

  /** A new array of |x| + |y| bytes, filled by one BlockCopy of x at 0 and one of y after it. */
  method Concat(x: seq<byte>, y: seq<byte>) returns (r: seq<byte>)
    ensures r == x + y
  {
    var buffer := new byte[|x| + |y|];
    BlockCopy(x, 0, buffer, 0, |x|);
    BlockCopy(y, 0, buffer, |x|, |y|);
    r := buffer[..];
    assert r == x + y by {
      forall k | 0 <= k < |r|
        ensures r[k] == (x + y)[k]
      {
        if k >= |x| {
          assert r[k] == buffer[|x| + (k - |x|)];
        }
      }
    }
  }
}
