/**
 * The zlib wrapper both IDAT writers put around the compressed scanlines
 * (RFC 1950 section 2.2): a two-byte header, the DEFLATE data, and the
 * Adler-32 of the uncompressed data, most significant byte first.
 */
module Zlib {
  import opened Base
  import opened ByteOrder
  import opened Adler32Spec

  /** The newer writer's header: method 8, a 32 KiB window, maximum compression. */
  const OptimalHeader: seq<byte> := [0x78, 0xDA]

  /** The older writer's header: method 8, a 32 KiB window, default compression. */
  const DefaultHeader: seq<byte> := [0x78, 0x9C]

  /**
   * What RFC 1950 asks of a header: CM (the low nibble of CMF) is 8, CINFO
   * (its high nibble) at most 7, FDICT (bit 5 of FLG) clear, and CMF * 256
   * + FLG a multiple of 31.
   */
  predicate ValidHeader(h: seq<byte>)
  {
    && |h| == 2
    && h[0] % 16 == 8 && h[0] / 16 <= 7
    && h[1] / 32 % 2 == 0
    && (h[0] as int * 256 + h[1] as int) % 31 == 0
  }

  /** The FLEVEL field: the top two bits of FLG. */
  function Level(h: seq<byte>): nat
    requires |h| == 2
  {
    h[1] as nat / 64
  }

  /** Both headers are well formed; the newer announces level 3 (slowest, smallest), the older level 2. */
  lemma HeadersValid()
    ensures ValidHeader(OptimalHeader) && Level(OptimalHeader) == 3
    ensures ValidHeader(DefaultHeader) && Level(DefaultHeader) == 2
  {
  }

  /** A compressor whose output always fits a .NET array alongside the six zlib bytes. */
  ghost predicate Bounded(deflate: seq<byte> -> seq<byte>)
  {
    forall s: seq<byte> :: |deflate(s)| <= INT32_MAX - 6
  }

  /** A zlib stream: the header, the compressed data, and the Adler-32 of `data` as a big-endian integer. */
  function Stream(header: seq<byte>, compressed: seq<byte>, data: seq<byte>): (z: seq<byte>)
  {
    header + compressed + BigEndian32(Bits32(Hash(data)))
  }

  /** The writers' three writes: header, compressed data, and the big-endian Adler-32 they computed. */
  lemma StreamParts(header: seq<byte>, compressed: seq<byte>, data: seq<byte>, trailer: seq<byte>)
    requires trailer == BigEndian32(Bits32(Hash(data)))
    ensures header + compressed + trailer == Stream(header, compressed, data)
  {
  }

  /**
   * The stream reads back: the header, then the compressed data, and a
   * trailer that holds the two Adler-32 sums of the data, b above a.
   */
  lemma StreamLayout(header: seq<byte>, compressed: seq<byte>, data: seq<byte>)
    requires |header| == 2
    ensures var z := Stream(header, compressed, data);
      && |z| == 6 + |compressed|
      && z[..2] == header
      && z[2..2 + |compressed|] == compressed
      && FromBigEndian32(z[2 + |compressed|..]) == Checksum(data).b * 0x1_0000 + Checksum(data).a
  {
    var z := Stream(header, compressed, data);
    BigEndian32Decodes(Bits32(Hash(data)));
    assert z[2 + |compressed|..] == BigEndian32(Bits32(Hash(data)));
    assert z[..2] == header;
  }
}
