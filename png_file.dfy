/**
 * PngFile.cs: a list of chunks and the writer that puts the PNG signature
 * (RFC 2083 section 3.1) and then every chunk, in the order they were added,
 * on a stream. A chunk is seen through the writer it derives from: the newer
 * one of Chunks/Chunk.cs or the older one of Chunk.cs.
 */
module PngFiles {
  import opened Base
  import Chunks
  import LegacyChunks
  import Streams

  /** A chunk as its writer sees it when the file is written. */
  datatype Chunk =
    | Current(source: Chunks.ChunkSource)
    | Older(name: string, data: Result<seq<byte>>, length: int32)

  /** The bytes a chunk's `WriteSelfToStreamAsync` puts on the stream, or its exception. */
  function FramedChunk(c: Chunk, crc: seq<byte> -> uint32, littleEndian: bool): Result<seq<byte>>
  {
    match c
    case Current(source) => Chunks.Framed(source, crc)
    case Older(name, data, length) => LegacyChunks.FramedAsWritten(name, data, length, crc, littleEndian)
  }

  /** The eight signature bytes. */
  const Magic: seq<byte> := [0x89, 0x50, 0x4E, 0x47, 0x0D, 0x0A, 0x1A, 0x0A]

  /** What a run of the writer leaves: the bytes on the stream and how it ended. */
  datatype Outcome = Outcome(written: seq<byte>, result: Result<()>)

  /**
   * The chunk loop of `WriteFileAsync`: each chunk is written after the
   * ones before it; the first exception ends the loop, and what was written
   * before it stays.
   */
  function WriteChunks(cs: seq<Chunk>, crc: seq<byte> -> uint32, littleEndian: bool): Outcome
    decreases |cs|
  {
    if |cs| == 0 then Outcome([], Ok(()))
    else
      var o := WriteChunks(cs[..|cs| - 1], crc, littleEndian);
      if o.result.Err? then o
      else match FramedChunk(cs[|cs| - 1], crc, littleEndian)
        case Ok(f) => Outcome(o.written + f, Ok(()))
        case Err(e) => Outcome(o.written, Err(e))
  }

  /** `WriteFileAsync`: the signature, then the chunks. */
  function WriteFile(cs: seq<Chunk>, crc: seq<byte> -> uint32, littleEndian: bool): (o: Outcome)
  {
    var chunks := WriteChunks(cs, crc, littleEndian);
    Outcome(Magic + chunks.written, chunks.result)
  }

  /** Every chunk of cs writes without an exception. */
  predicate AllFrame(cs: seq<Chunk>, crc: seq<byte> -> uint32, littleEndian: bool)
  {
    forall i | 0 <= i < |cs| :: FramedChunk(cs[i], crc, littleEndian).Ok?
  }

  /** The frames of chunks that all write. */
  function Frames(cs: seq<Chunk>, crc: seq<byte> -> uint32, littleEndian: bool): (r: seq<seq<byte>>)
    requires AllFrame(cs, crc, littleEndian)
    ensures |r| == |cs|
    ensures forall i | 0 <= i < |cs| :: r[i] == FramedChunk(cs[i], crc, littleEndian).value
  {
    seq(|cs|, i requires 0 <= i < |cs| => FramedChunk(cs[i], crc, littleEndian).value)
  }

  /** When every chunk writes, the output is the signature followed by the frames in insertion order. */
  lemma {:induction false} AllChunksWritten(cs: seq<Chunk>, crc: seq<byte> -> uint32, littleEndian: bool)
    requires AllFrame(cs, crc, littleEndian)
    ensures WriteChunks(cs, crc, littleEndian) == Outcome(Flatten(Frames(cs, crc, littleEndian)), Ok(()))
    ensures WriteFile(cs, crc, littleEndian) == Outcome(Magic + Flatten(Frames(cs, crc, littleEndian)), Ok(()))
    decreases |cs|
  {
    if |cs| > 0 {
      var init := cs[..|cs| - 1];
      assert AllFrame(init, crc, littleEndian) by {
        forall i | 0 <= i < |init| ensures FramedChunk(init[i], crc, littleEndian).Ok? {
          assert init[i] == cs[i];
        }
      }
      AllChunksWritten(init, crc, littleEndian);
      var fs := Frames(cs, crc, littleEndian);
      assert fs[..|fs| - 1] == Frames(init, crc, littleEndian);
    }
  }

  /** A file without chunks is the signature alone. */
  lemma EmptyFile(crc: seq<byte> -> uint32, littleEndian: bool)
    ensures WriteFile([], crc, littleEndian) == Outcome(Magic, Ok(()))
  {
    assert Magic + [] == Magic;
  }

  /**
   * If chunk k is the first that fails, the output is the signature and the
   * frames of the chunks before k, and the file write fails with chunk k's
   * exception: nothing is rolled back and nothing after k is written.
   */
  lemma FirstFailure(cs: seq<Chunk>, k: nat, crc: seq<byte> -> uint32, littleEndian: bool)
    requires k < |cs| && AllFrame(cs[..k], crc, littleEndian) && FramedChunk(cs[k], crc, littleEndian).Err?
    ensures WriteFile(cs, crc, littleEndian)
            == Outcome(Magic + Flatten(Frames(cs[..k], crc, littleEndian)), Err(FramedChunk(cs[k], crc, littleEndian).error))
  {
    AllChunksWritten(cs[..k], crc, littleEndian);
    assert cs[..k + 1][..k] == cs[..k];
    FailureSticks(cs, k + 1, crc, littleEndian);
  }

  /** One more turn of the loop after chunks that all wrote. */
  lemma WriteChunksStep(cs: seq<Chunk>, i: nat, crc: seq<byte> -> uint32, littleEndian: bool)
    requires i < |cs| && WriteChunks(cs[..i], crc, littleEndian).result.Ok?
    ensures FramedChunk(cs[i], crc, littleEndian).Ok? ==>
              WriteChunks(cs[..i + 1], crc, littleEndian)
              == Outcome(WriteChunks(cs[..i], crc, littleEndian).written + FramedChunk(cs[i], crc, littleEndian).value, Ok(()))
    ensures FramedChunk(cs[i], crc, littleEndian).Err? ==>
              WriteChunks(cs[..i + 1], crc, littleEndian)
              == Outcome(WriteChunks(cs[..i], crc, littleEndian).written, Err(FramedChunk(cs[i], crc, littleEndian).error))
  {
    assert cs[..i + 1][..i] == cs[..i];
  }

  /** A failure of the first n chunks is the failure of the whole list. */
  lemma {:induction false} FailureSticks(cs: seq<Chunk>, n: nat, crc: seq<byte> -> uint32, littleEndian: bool)
    requires n <= |cs| && WriteChunks(cs[..n], crc, littleEndian).result.Err?
    ensures WriteChunks(cs, crc, littleEndian) == WriteChunks(cs[..n], crc, littleEndian)
    decreases |cs| - n
  {
    if n < |cs| {
      assert cs[..n + 1][..n] == cs[..n];
      FailureSticks(cs, n + 1, crc, littleEndian);
    } else {
      assert cs[..n] == cs;
    }
  }

  /** Whatever happens, the output starts with the signature and then the chunks that wrote before any failure. */
  lemma {:induction false} PrefixKept(cs: seq<Chunk>, n: nat, crc: seq<byte> -> uint32, littleEndian: bool)
    requires n <= |cs|
    ensures WriteFile(cs[..n], crc, littleEndian).written <= WriteFile(cs, crc, littleEndian).written
    ensures WriteFile(cs, crc, littleEndian).written[..8] == Magic
    decreases |cs| - n
  {
    if n < |cs| {
      PrefixKept(cs, n + 1, crc, littleEndian);
      assert cs[..n + 1][..n] == cs[..n];
    } else {
      assert cs[..n] == cs;
    }
  }

  class PngFile {
    var chunksToWrite: seq<Chunk>

    constructor ()
      ensures chunksToWrite == []
    {
      chunksToWrite := [];
    }

    /** `Add`: the chunk goes after the ones added before. */
    method Add(chunk: Chunk)
      modifies this
      ensures chunksToWrite == old(chunksToWrite) + [chunk]
    {
      chunksToWrite := chunksToWrite + [chunk];
    }

    /** `ChunkCount`: the number of chunks added. */
    function ChunkCount(): (r: int)
      reads this
      ensures r == |chunksToWrite|
    {
      |chunksToWrite|
    }

    /** `WriteFileAsync`: the signature, then every chunk in turn until one fails. */
    method WriteFileTo(target: Streams.Stream, crc: seq<byte> -> uint32, littleEndian: bool) returns (r: Result<()>)
      modifies target
      ensures target.written == old(target.written) + WriteFile(chunksToWrite, crc, littleEndian).written
      ensures r == WriteFile(chunksToWrite, crc, littleEndian).result
    {
      var cs := chunksToWrite;
      ghost var start := target.written;
      target.Write(Magic);
      r := WriteChunksTo(cs, target, crc, littleEndian);
      AppendAssoc(start, Magic, WriteChunks(cs, crc, littleEndian).written);
    }
  }

  /** The chunk loop of `WriteFileAsync`, on a stream. */
  method WriteChunksTo(cs: seq<Chunk>, target: Streams.Stream, crc: seq<byte> -> uint32, littleEndian: bool) returns (r: Result<()>)
    modifies target
    ensures target.written == old(target.written) + WriteChunks(cs, crc, littleEndian).written
    ensures r == WriteChunks(cs, crc, littleEndian).result
  {
    ghost var start := target.written;
    var i := 0;
    while i < |cs|
      invariant 0 <= i <= |cs|
      invariant WriteChunks(cs[..i], crc, littleEndian).result.Ok?
      invariant target.written == start + WriteChunks(cs[..i], crc, littleEndian).written
    {
      r := WriteNext(cs, i, target, crc, littleEndian, start);
      if r.Err? {
        ghost var o := WriteChunks(cs[..i + 1], crc, littleEndian);
        assert o.result.Err?;
        FailureSticks(cs, i + 1, crc, littleEndian);
        assert WriteChunks(cs, crc, littleEndian) == o;
        return;
      }
      i := i + 1;
    }
    assert cs[..i] == cs;
    r := Ok(());
  }

  /** One turn of the chunk loop: chunk i after the ones before it. */
  method WriteNext(cs: seq<Chunk>, i: nat, target: Streams.Stream, crc: seq<byte> -> uint32, littleEndian: bool, ghost start: seq<byte>)
    returns (r: Result<()>)
    requires i < |cs| && WriteChunks(cs[..i], crc, littleEndian).result.Ok?
    requires target.written == start + WriteChunks(cs[..i], crc, littleEndian).written
    modifies target
    ensures target.written == start + WriteChunks(cs[..i + 1], crc, littleEndian).written
    ensures r == WriteChunks(cs[..i + 1], crc, littleEndian).result
  {
    ghost var before := WriteChunks(cs[..i], crc, littleEndian).written;
    ghost var frame := FramedChunk(cs[i], crc, littleEndian);
    WriteChunksStep(cs, i, crc, littleEndian);
    r := WriteChunk(cs[i], target, crc, littleEndian);
    if frame.Ok? {
      assert r == Ok(());
      AppendAssoc(start, before, frame.value);
    }
  }

  /** `chunk.WriteSelfToStreamAsync(target)`, through the writer the chunk derives from. */
  method WriteChunk(c: Chunk, target: Streams.Stream, crc: seq<byte> -> uint32, littleEndian: bool) returns (r: Result<()>)
    modifies target
    ensures FramedChunk(c, crc, littleEndian).Ok? ==> r == Ok(()) && target.written == old(target.written) + FramedChunk(c, crc, littleEndian).value
    ensures FramedChunk(c, crc, littleEndian).Err? ==> r == Err(FramedChunk(c, crc, littleEndian).error) && target.written == old(target.written)
  {
    match c
    case Current(source) =>
      r := Chunks.WriteSelfToStream(source, target, crc, littleEndian);
    case Older(name, data, length) =>
      r := LegacyChunks.WriteSelfToStream(name, data, length, target, crc, littleEndian);
  }
}
