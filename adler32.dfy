/**
 * Checksums/Adler32.cs: the batched Adler-32 accumulator. It adds up to NMax
 * bytes, sixteen at a time and then one at a time, before reducing both sums
 * once; the `uint` fields make every addition a checked one here, so the
 * verifier also shows that no batch overflows.
 */
module Checksums {
  import opened Base
  import opened Adler32Spec
  import Buffers

  /** The size of the buffer ComputeAsync reads into. */
  const ReadBufferSize: nat := 8192

  class Adler32 {
    var a: uint32
    var b: uint32

    /** Between calls both sums are reduced. */
    ghost predicate Valid()
      reads this
    {
      Reduced(State())
    }

    function State(): Sums
      reads this
    {
      Sums(a as nat, b as nat)
    }

    constructor ()
      ensures State() == Initial && Valid()
    {
      a := 1;
      b := 0;
    }

    /** `Hash`: the sums packed as `(b << 16) | a`, read as an `int`. */
    function Hash(): (r: int32)
      reads this
      ensures Valid() ==> Bits32(r) == b as nat * 0x1_0000 + a as nat
    {
      Pack(State())
    }

    /** `a += x; b += a;`: one byte of the batch, without reduction. */
    method AddByte(data: seq<byte>, pos: nat, ghost start: Sums, ghost lo: nat)
      requires lo <= pos < |data| && pos + 1 - lo <= NMax && Reduced(start)
      requires State() == Lazy(start, data, lo, pos)
      modifies this
      ensures State() == Lazy(start, data, lo, pos + 1)
    {
      NoOverflow(start, data, lo, pos + 1);
      a := a + data[pos] as uint32;
      b := b + a;
    }

    /** The hand-unrolled block of sixteen bytes. */
    method AddSixteen(data: seq<byte>, pos: nat, ghost start: Sums, ghost lo: nat)
      requires lo <= pos && pos + 16 <= |data| && pos + 16 - lo <= NMax && Reduced(start)
      requires State() == Lazy(start, data, lo, pos)
      modifies this
      ensures State() == Lazy(start, data, lo, pos + 16)
    {
      AddByte(data, pos, start, lo);
      AddByte(data, pos + 1, start, lo);
      AddByte(data, pos + 2, start, lo);
      AddByte(data, pos + 3, start, lo);
      AddByte(data, pos + 4, start, lo);
      AddByte(data, pos + 5, start, lo);
      AddByte(data, pos + 6, start, lo);
      AddByte(data, pos + 7, start, lo);
      AddByte(data, pos + 8, start, lo);
      AddByte(data, pos + 9, start, lo);
      AddByte(data, pos + 10, start, lo);
      AddByte(data, pos + 11, start, lo);
      AddByte(data, pos + 12, start, lo);
      AddByte(data, pos + 13, start, lo);
      AddByte(data, pos + 14, start, lo);
      AddByte(data, pos + 15, start, lo);
    }

    /**
     * One batch of `chunkSize` bytes from `pos` (the inner `while` and
     * `do`-`while` loops), then the reduction of both sums.
     */
    method FeedChunk(data: seq<byte>, pos: nat, chunkSize: nat)
      requires Valid() && pos + chunkSize <= |data| && chunkSize <= NMax
      modifies this
      ensures Valid() && State() == Update(old(State()), data, pos, pos + chunkSize)
    {
      ghost var start := State();
      var p, size := pos, chunkSize;
      while size >= 16
        invariant pos <= p && p + size == pos + chunkSize
        invariant State() == Lazy(start, data, pos, p)
      {
        AddSixteen(data, p, start, pos);
        p, size := p + 16, size - 16;
      }
      if size != 0 {
        var more := true;
        while more
          invariant pos <= p && p + size == pos + chunkSize
          invariant more <==> size > 0
          invariant State() == Lazy(start, data, pos, p)
          decreases size
        {
          AddByte(data, p, start, pos);
          p, size := p + 1, size - 1;
          more := size > 0;
        }
      }
      LazyReduces(start, data, pos, p);
      a := a % Modulus as uint32;
      b := b % Modulus as uint32;
    }

    /**
     * `FeedBlock(data, offset, length)`: the bytes data[offset..offset+length]
     * in batches of at most NMax. A length that is not positive feeds nothing.
     */
    method FeedBlock(data: seq<byte>, offset: int, length: int)
      requires Valid()
      requires length > 0 ==> 0 <= offset && offset + length <= |data|
      modifies this
      ensures Valid()
      ensures length <= 0 ==> State() == old(State())
      ensures length > 0 ==> State() == Update(old(State()), data, offset, offset + length)
    {
      ghost var start := State();
      if length <= 0 {
        return;
      }
      var pos: nat, len := offset, length;
      while len > 0
        invariant Valid() && len >= 0 && offset <= pos && pos + len == offset + length
        invariant State() == Update(start, data, offset, pos)
      {
        var chunkSize := if len < NMax then len else NMax;
        len := len - chunkSize;
        FeedChunk(data, pos, chunkSize);
        UpdateSplit(start, data, offset, pos, pos + chunkSize);
        pos := pos + chunkSize;
      }
    }

    /** `FeedBlock(data)`: the whole array. */
    method FeedAll(data: seq<byte>)
      requires Valid()
      modifies this
      ensures Valid() && State() == Update(old(State()), data, 0, |data|)
    {
      FeedBlock(data, 0, |data|);
    }
  }

  /** `Compute(data)`: a fresh accumulator fed the whole array. */
  method Compute(data: seq<byte>) returns (h: int32)
    ensures h == Hash(data)
  {
    var adler := new Adler32();
    adler.FeedAll(data);
    h := adler.Hash();
  }

  /**
   * `ComputeAsync(stream)`. The stream is given as the successive results of
   * its reads (`pieces`), each of one to 8192 bytes; a read of 0 bytes ends the loop.
   */
  method ComputeAsync(pieces: seq<seq<byte>>) returns (h: int32)
    requires forall i | 0 <= i < |pieces| :: 0 < |pieces[i]| <= ReadBufferSize
    ensures h == Hash(Flatten(pieces))
  {
    var adler := new Adler32();
    var buf := new byte[ReadBufferSize];
    var i := 0;
    while i < |pieces|
      invariant 0 <= i <= |pieces|
      invariant adler.Valid() && adler.State() == Checksum(Flatten(pieces[..i]))
      invariant fresh(adler)
    {
      var read := |pieces[i]|;
      Buffers.BlockCopy(pieces[i], 0, buf, 0, read);
      adler.FeedBlock(buf[..], 0, read);
      UpdateShift(Checksum(Flatten(pieces[..i])), buf[..], 0, pieces[i], 0, read);
      ChecksumAppend(Flatten(pieces[..i]), pieces[i]);
      assert pieces[..i + 1][..i] == pieces[..i];
      i := i + 1;
    }
    assert pieces[..i] == pieces;
    h := adler.Hash();
  }
}

/**
 * Adler32.cs: the older static routine. It reads the stream in 4 KiB pieces
 * and reduces both sums after every byte.
 */
module LegacyAdler32 {
  import opened Base
  import opened Adler32Spec
  import Buffers

  const ReadBufferSize: nat := 4096

  /** The per-byte loop over the first `read` bytes of the buffer. */
  method FeedRead(buffer: array<byte>, read: nat, a0: uint32, b0: uint32) returns (a: uint32, b: uint32)
    requires read <= buffer.Length && Reduced(Sums(a0 as nat, b0 as nat))
    ensures Sums(a as nat, b as nat) == Update(Sums(a0 as nat, b0 as nat), buffer[..], 0, read)
  {
    a, b := a0, b0;
    var i := 0;
    while i < read
      invariant 0 <= i <= read
      invariant Sums(a as nat, b as nat) == Update(Sums(a0 as nat, b0 as nat), buffer[..], 0, i)
    {
      a := (a + buffer[i] as uint32) % Modulus as uint32;
      b := (b + a) % Modulus as uint32;
      i := i + 1;
    }
  }

  /** `ComputeAsync(stream)`, with the stream given as the successive results of its reads (`pieces`) of 1 to 4096 bytes. */
  method ComputeAsync(pieces: seq<seq<byte>>) returns (h: int32)
    requires forall i | 0 <= i < |pieces| :: 0 < |pieces[i]| <= ReadBufferSize
    ensures h == Hash(Flatten(pieces))
  {
    var a: uint32, b: uint32 := 1, 0;
    var buffer := new byte[ReadBufferSize];
    var i := 0;
    while i < |pieces|
      invariant 0 <= i <= |pieces|
      invariant Sums(a as nat, b as nat) == Checksum(Flatten(pieces[..i]))
    {
      var read := |pieces[i]|;
      Buffers.BlockCopy(pieces[i], 0, buffer, 0, read);
      ghost var s := Sums(a as nat, b as nat);
      a, b := FeedRead(buffer, read, a, b);
      UpdateShift(s, buffer[..], 0, pieces[i], 0, read);
      ChecksumAppend(Flatten(pieces[..i]), pieces[i]);
      assert pieces[..i + 1][..i] == pieces[..i];
      i := i + 1;
    }
    assert pieces[..i] == pieces;
    h := Pack(Sums(a as nat, b as nat));
  }

  /** The reads a MemoryStream over `data` gives: full buffers, then the rest. */
  function MemoryReads(data: seq<byte>, size: nat): (r: seq<seq<byte>>)
    requires size > 0
    ensures forall i | 0 <= i < |r| :: 0 < |r[i]| <= size
    ensures Flatten(r) == data
    decreases |data|
  {
    if |data| == 0 then []
    else if |data| <= size then
      assert Flatten([data]) == Flatten([]) + data;
      [data]
    else
      var rest := MemoryReads(data[size..], size);
      FlattenAppend([data[..size]], rest);
      assert Flatten([data[..size]]) == Flatten([]) + data[..size];
      assert data[..size] + data[size..] == data;
      [data[..size]] + rest
  }

  /** `ComputeAsync(byte[])`: the stream overload over a MemoryStream on the array. */
  method ComputeBytes(data: seq<byte>) returns (h: int32)
    ensures h == Hash(data)
  {
    h := ComputeAsync(MemoryReads(data, ReadBufferSize));
  }
}
