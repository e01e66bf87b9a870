# Pingu PNG encoder: a Dafny model of its core

Pingu is a PNG encoder written in C#. This project models the core of it:
everything except DEFLATE, CRC-32 and what "## Left out" lists. Each part is stated in Dafny, and the model's
properties are proved:

- **The scanline filters of RFC 2083 section 6.**
  - None, Sub, Up, Average and Paeth each write one filtered scanline into
    a target buffer at an offset. The unrolled loops run on arrays, as in
    the source.
  - The Dynamic filter tries each of the five filters in turn. It scores
    each candidate by the sum of the absolute values of the buffer's bytes
    read as signed bytes, and keeps the first filter with the lowest score.
  - `FilterType`, the `DefaultFilters` dispatcher and the branch-free `Abs`
    of the two math classes.
- **Adler-32 (RFC 1950 section 8.2):**
  - the batched accumulator in `Checksums/Adler32.cs`, which defers the
    modulo for up to 5552 bytes;
  - the older byte-by-byte stream version in `Adler32.cs`.
- **Chunk framing (RFC 2083 section 3.2)** for both chunk writers:
  - the newer `Chunks/Chunk.cs`, which writes the CRC big-endian;
  - the older `Chunk.cs`, which always reverses the bytes `BitConverter`
    gives it.
- **The chunks:**
  - the IHDR chunk (RFC 2083 section 4.1.1);
  - the IEND chunk;
  - both IDAT writers. The newer one filters each row with the chosen filter
    type, wraps the result in zlib with header `78 DA` and an Adler-32
    trailer, and remembers the result. The older one prefixes every row with
    filter type 0 and uses header `78 9C`;
  - the `PngFile` chunk list and its writer, which puts the signature first.
- **Colours:** RGB packing and unpacking (`ColorHelpers`), the `Color`
  value, the append-only `Pallette` with its reverse map, and the
  `TransparencyMap`.
- **Image sources:**
  - the indexed image source. Its constructor checks the bit depth, the
    dimensions, the data and the palette, and fills a default transparency
    map. Its conversions unpack 1-, 2-, 4- or 8-bit palette indices, up to
    eight pixels at a time, and look each one up in the palette and the
    transparency map. The result is grayscale with alpha, truecolour, or
    truecolour with alpha, at 8 or 16 bits per sample;
  - the grayscale-alpha and truecolour sources, whose conversions are all
    unimplemented.

How the model is shaped:

- **Classes and arrays where the source updates state in place.** These are
  `Adler32`, `Pallette`, `TransparencyMap`, both `IdatChunk` classes,
  `PngFile`, `IndexedImageSource`, the output `Stream` and the older
  writer's `MemoryStream` reader. Every filter writes into a target `array`.
  Each such method is proved against a function that says what it computes.
- **Pure functions and lemmas for the rest.** `FilterSpec.FilterRow` and
  `FilterSpec.Reconstruct` define every filter and its inverse through one
  predictor function. `Adler32Spec` defines the checksum byte by byte, with
  a reduction after every byte. `Scanlines` defines the filtered stream of
  an image and its decoder. `PixelLayouts` and
  `IndexedImageSources.Converted` define what an indexed conversion writes.
- **Machine integers.** `byte`, `int32` and `uint32` are range-limited
  newtypes. C#'s `(byte)` cast, its unchecked `int` wrap-around and its
  shifts are written out in `Base`, `Bits` and `Words`. An addition on a
  `uint` field must therefore be proved not to overflow.
- **Exceptions.** Every exception the code throws is the error case of a
  `Result`. Error values carry the parameter name the code passes, such as
  `ArgumentOutOfRange("filter")`.

Where the specification and the code disagree, the model follows the code:

- `GetFilterForType` throws `NotImplementedException` for Average and
  Paeth (src/Pingu/Filters/Filters.cs:16-19), although filters for both
  exist. So the newer IDAT writer can only use None, Sub, Up and Dynamic.
- The newer IHDR chunk's colour type is the constant 6. The newer IDAT
  writer still branches on it.
- The indexed source's height check names the parameter "width". See
  Findings. `NewIndexedImageSource` models the checks as written
  (`ValidateAsWritten`); `Validate` is the corrected version.
- The older IDAT writer calls `Adler32.CalculateAdler32Async(scanlineStream)`
  (src/Pingu/IdatChunk.cs:68). No file of this revision defines that
  method: src/Pingu/Adler32.cs:11-14 has only `ComputeAsync(byte[])` and
  `ComputeAsync(Stream)`. `LegacyIdatChunks.WrapStream` takes the Adler-32
  of the whole row stream through `LegacyAdler32.ComputeBytes`. Both
  existing overloads compute that value: `LegacyAdler32.ComputeBytes` and
  `LegacyAdler32.ComputeAsync` each ensure the Adler-32 of their input.
- src/Pingu.Tests/ChunkTests.cs builds `IhdrChunk` with four arguments,
  the fourth a colour type. The constructor in this version takes three
  (src/Pingu/Chunks/IhdrChunk.cs:29). Only the length-mismatch test of that
  file applies to this code. `Chunks.FramedOutcome` states it.

## Model

| member | source | states |
|---|---|---|
| FilterTypes.Tag | src/Pingu/Filters/FilterType.cs:3-11 | None to Paeth are the bytes 0 to 4 and Dynamic is 255 |
| FilterTypes.FromTag | src/Pingu/Filters/FilterType.cs:3-11 | a byte names a filter type exactly when it is 0 to 4 or 255, and that type's tag is the byte |
| FilterTypes.FromTagOfTag | src/Pingu/Filters/FilterType.cs:3-11 | reading a filter type's tag back gives the type |
| DefaultFilters.GetFilterForType | src/Pingu/Filters/Filters.cs:7-25 | None, Sub, Up and Dynamic give their filter; Average and Paeth throw NotImplementedException; every other byte throws ArgumentOutOfRangeException("filter") |
| DefaultFilters.GetFilterForTypeMembers | src/Pingu.Tests/FilterTests.cs:11-16 | the dispatcher's result for every filter type, and a byte is rejected as ArgumentOutOfRangeException("filter") exactly when it names no filter type, as 11 does |
| DefaultFilters.FilterInto | src/Pingu/Filters/IFilter.cs:3-7 | dispatching on a filter type writes what that filter writes |
| DefaultFilters.AppliedToScanline | src/Pingu/Filters/DynamicFilter.cs:59-61 | after a scanline is filtered at offset 1, the byte before it tags the filter that was actually used, and the bytes after it are that filter's row |
| IFilter.FilterInto | src/Pingu/Filters/IFilter.cs:3-7 | each concrete filter writes its filtered row at the offset and leaves the rest of the buffer alone |
| NullFilter.FilterInto | src/Pingu/Filters/NullFilter.cs:16-17 | the raw scanline is copied to the offset |
| SubFilter.Filter | src/Pingu/Filters/SubFilter.cs:14-31 | a scanline shorter than one pixel makes the copy throw; otherwise the result is the Sub row, each byte minus the byte one pixel to its left |
| SubFilter.FilterInto | src/Pingu/Filters/SubFilter.cs:14-31 | the Sub row written into a target at an offset |
| SubFilter.ReverseFilter | src/Pingu/Filters/SubFilter.cs:33-49 | the reverse filter as written: it adds the filtered byte to its left, not the reconstructed one |
| SubFilter.ReverseAsWrittenRoundTrip | src/Pingu/Filters/SubFilter.cs:33-49 | the reverse filter as written undoes Sub exactly when every byte before the last two pixels is zero |
| SubFilter.ReverseAsWrittenCounterexample | src/Pingu/Filters/SubFilter.cs:44 | Sub of [1, 2, 3] at one byte per pixel is [1, 1, 1], which reverses to [1, 2, 2] |
| SubFilter.ReverseFilterCorrected | src/Pingu/Filters/SubFilter.cs:33-49 | the corrected reverse filter: the same error case, and otherwise the inverse of Sub |
| SubFilter.CorrectedRoundTrip | src/Pingu/Filters/SubFilter.cs:33-49 | the corrected reverse filter undoes Sub for every scanline |
| UpFilter.FilterInto | src/Pingu/Filters/UpFilter.cs:16-31 | the Up row: a copy on the first row, each byte minus the one above it otherwise |
| AvgFilter.FilterFirstRow | src/Pingu/Filters/AvgFilter.cs:28-42 | with no previous row, the first pixel is copied and every later byte loses half the byte one pixel to its left |
| AvgFilter.FilterWithPrevious | src/Pingu/Filters/AvgFilter.cs:43-58 | every byte loses the floored mean of its left and upper neighbours, the left one taken as 0 in the first pixel |
| AvgFilter.RuleIsAverage | src/Pingu/Filters/AvgFilter.cs:28-58 | the two loops' rules are, byte for byte, the Average filter of RFC 2083 section 6.5 |
| AvgFilter.FilterInto | src/Pingu/Filters/AvgFilter.cs:16-61 | the Average row written at the offset, nothing else changed |
| PaethFilter.Abs | src/Pingu/Filters/PaethFilter.cs:18-24 | the sign-mask trick gives the absolute value, leaving int.MinValue as it is |
| PaethFilter.PaethFastAbs | src/Pingu/Filters/PaethFilter.cs:27-35 | the fast predictor picks what the Paeth predictor of RFC 2083 section 6.6 picks, for every three bytes |
| PaethFilter.RuleIsPaeth | src/Pingu/Filters/PaethFilter.cs:47-67 | with a previous row, the first pixel is filtered as Up and each later byte loses the Paeth prediction from its neighbours |
| PaethFilter.FilterAt | src/Pingu/Filters/PaethFilter.cs:55-67 | one step of the loop writes the Paeth-filtered byte at its position and nothing else |
| PaethFilter.FilterInto | src/Pingu/Filters/PaethFilter.cs:37-71 | the Paeth row written at the offset and nothing else changed; with no previous row the row is Sub's, which is what the source delegates to |
| Math.Abs | src/Pingu/Math/Abs.cs:8-12 | the branch-free absolute value, int.MinValue left unchanged |
| PinguMath.Abs | src/Pingu/PinguMath.cs:8-12 | the same absolute value in the second math class |
| FilterSpec.PaethPredictorNearest | src/Pingu/Filters/PaethFilter.cs:27-35 | the Paeth predictor returns the neighbour nearest to left + above - upper left, ties going to left and then above |
| FilterSpec.FilterRow | src/Pingu/Filters/IFilter.cs:3-7 | a filtered row is as long as the raw one |
| FilterSpec.ReconstructFilterRow | src/Pingu/Filters/IFilter.cs:3-7 | reconstructing a filtered row gives the raw row back, for every filter and every previous row |
| FilterSpec.FilterRowReconstruct | src/Pingu/Filters/IFilter.cs:3-7 | filtering a reconstructed row gives the filtered row back |
| FilterSpec.FilterRowInjective | src/Pingu/Filters/IFilter.cs:3-7 | two raw rows with the same filtered row are equal |
| FilterSpec.FilterRowPrefix | src/Pingu/Filters/IFilter.cs:3-7 | a prefix of a filtered row depends only on that prefix of the raw row |
| FilterSpec.FilterRowDependsOnRows | src/Pingu/Filters/IFilter.cs:3-7 | a filtered row depends only on the part of the previous row above it |
| FilterSpec.NoneCopies | src/Pingu/Filters/NullFilter.cs:16-17 | None leaves the row as it is |
| FilterSpec.UpFirstRowCopies | src/Pingu/Filters/UpFilter.cs:20-26 | Up with no previous row copies the row |
| FilterSpec.SubIgnoresPrevious | src/Pingu/Filters/SubFilter.cs:14-31 | Sub ignores the previous row |
| FilterSpec.PaethFirstRowIsSub | src/Pingu/Filters/PaethFilter.cs:43-46 | Paeth with no previous row is Sub |
| FilterSpec.PaethFirstPixelIsUp | src/Pingu/Filters/PaethFilter.cs:51-52 | in the first pixel, Paeth is Up |
| FilterSpec.AverageFirstRow | src/Pingu/Filters/AvgFilter.cs:28-42 | Average with no previous row, byte by byte |
| DynamicFilter.SumAbsoluteDifferences | src/Pingu/Filters/DynamicFilter.cs:26-42 | the sum of the absolute values of the buffer's bytes read as signed bytes, wrapped to int |
| DynamicFilter.Sum16 | src/Pingu/Filters/DynamicFilter.cs:32-36 | one unrolled step adds the magnitudes of sixteen bytes |
| DynamicFilter.AbsTotalAppend | src/Pingu/Filters/DynamicFilter.cs:26-42 | the score of a concatenation is the sum of the scores |
| DynamicFilter.PossibleFiltersTags | src/Pingu/Filters/DynamicFilter.cs:9-15 | the candidates are the five concrete filters in tag order |
| DynamicFilter.TryFilter | src/Pingu/Filters/DynamicFilter.cs:49-51 | trying a candidate writes its row at offset 1 and scores the whole buffer |
| DynamicFilter.SelectByTag | src/Pingu/Filters/DynamicFilter.cs:46-57 | the loop keeps a lowest score, and every earlier candidate scored strictly higher |
| DynamicFilter.BestIsFirstMinimum | src/Pingu/Filters/DynamicFilter.cs:46-57 | the chosen filter's candidate scores no more than any other's, and any filter that ties has a tag no smaller |
| DynamicFilter.ScoreSplits | src/Pingu/Filters/DynamicFilter.cs:50-51 | while the sum cannot overflow, a candidate's score is the tag byte's, plus the row's, plus the rest of the buffer's |
| DynamicFilter.BestMinimisesRowSum | src/Pingu/Filters/DynamicFilter.cs:44-62 | while the sum cannot overflow, the chosen filter minimises the sum over the filtered row alone, the first such filter winning |
| DynamicFilter.BestOutsideOnly | src/Pingu/Filters/DynamicFilter.cs:44-62 | the choice depends on the buffer only through its other bytes, which every candidate leaves alone |
| DynamicFilter.FinishedAtOne | src/Pingu/Filters/DynamicFilter.cs:60-61 | at offset 1 the result is the chosen filter's tag, then its row, then the untouched rest |
| DynamicFilter.ChosenIsBest | src/Pingu/Filters/DynamicFilter.cs:46-61 | with the five scores in hand, the written buffer is that of the selected filter |
| DynamicFilter.FilterInto | src/Pingu/Filters/DynamicFilter.cs:44-62 | the buffer ends as the best filter's tag and row over what was there before |
| FilterVectors.SubVectorFour | src/Pingu.Tests/SubFilterTests.cs:14-18 | the first Sub test vector at 4 bytes per pixel |
| FilterVectors.SubVectorTwo | src/Pingu.Tests/SubFilterTests.cs:20-24 | the second Sub test vector at 2 bytes per pixel |
| FilterVectors.SubVectorLong | src/Pingu.Tests/SubFilterTests.cs:26-30 | the third Sub test vector, thirteen bytes |
| FilterVectors.UpVectorEight | src/Pingu.Tests/UpFilterTests.cs:14-18 | the first Up test vector, at any pixel width |
| FilterVectors.UpVectorFour | src/Pingu.Tests/UpFilterTests.cs:20-24 | the second Up test vector |
| FilterVectors.UpVectorLong | src/Pingu.Tests/UpFilterTests.cs:26-30 | the third Up test vector |
| FilterVectors.AverageVectorWithPrevious | src/Pingu.Tests/AvgFilterTests.cs:14-19 | the Average test vector with a previous row |
| FilterVectors.AverageVectorFirstRow | src/Pingu.Tests/AvgFilterTests.cs:21-26 | the Average test vector without one |
| FilterVectors.PaethVectorWithPrevious | src/Pingu.Tests/PaethTests.cs:13-18 | the first Paeth test vector |
| FilterVectors.PaethVectorFirstRow | src/Pingu.Tests/PaethTests.cs:20-25 | the Paeth test vector without a previous row |
| FilterVectors.PaethVectorLong | src/Pingu.Tests/PaethTests.cs:27-32 | the thirteen-byte Paeth test vector |
| Adler32Spec.Checksum | src/Pingu/Checksums/Adler32.cs:8-13 | the Adler-32 sums, reduced after every byte, stay below 65521 |
| Adler32Spec.LazyReduces | src/Pingu/Checksums/Adler32.cs:26-74 | summing a batch without reducing, then reducing once, gives the sums of reducing after every byte |
| Adler32Spec.NoOverflow | src/Pingu/Checksums/Adler32.cs:9 | from reduced sums, a batch of at most 5552 bytes never takes either sum past 32 bits |
| Adler32Spec.UpdateSplit | src/Pingu/Checksums/Adler32.cs:85-95 | feeding a range in two parts is feeding it at once |
| Adler32Spec.ChecksumAppend | src/Pingu/Checksums/Adler32.cs:81-83 | the checksum of a concatenation continues from the checksum of its first part |
| Adler32Spec.EmptyVector | src/Pingu.Tests/Adler32Tests.cs:19 | the checksum of no bytes is 1 |
| Adler32Spec.ShortVectors | src/Pingu.Tests/Adler32Tests.cs:20-27 | the vectors for "a", "abc" and 00 01 02 03 |
| Adler32Spec.Pack | src/Pingu/Checksums/Adler32.cs:13 | the hash is b in the high half and a in the low half, read as int |
| Checksums.Adler32.constructor | src/Pingu/Checksums/Adler32.cs:11 | a fresh accumulator holds a = 1, b = 0 |
| Checksums.Adler32.Hash | src/Pingu/Checksums/Adler32.cs:13 | `(b << 16) \| a` is b * 65536 + a |
| Checksums.Adler32.AddSixteen | src/Pingu/Checksums/Adler32.cs:29-66 | the hand-unrolled step adds sixteen bytes to the unreduced sums |
| Checksums.Adler32.AddByte | src/Pingu/Checksums/Adler32.cs:67-72 | the tail loop adds one byte to the unreduced sums |
| Checksums.Adler32.FeedChunk | src/Pingu/Checksums/Adler32.cs:27-74 | one batch of at most 5552 bytes leaves the reduced sums of feeding them byte by byte |
| Checksums.Adler32.FeedBlock | src/Pingu/Checksums/Adler32.cs:22-79 | feeding a block leaves the sums of feeding it byte by byte; a length of 0 or less changes nothing |
| Checksums.Adler32.FeedAll | src/Pingu/Checksums/Adler32.cs:81 | feeding a whole array |
| Checksums.Compute | src/Pingu/Checksums/Adler32.cs:83 | the Adler-32 of the array |
| Checksums.ComputeAsync | src/Pingu/Checksums/Adler32.cs:85-95 | reading a stream in pieces of up to 8192 bytes gives the Adler-32 of all of them |
| LegacyAdler32.FeedRead | src/Pingu/Adler32.cs:23-26 | the per-byte loop reduces after each byte |
| LegacyAdler32.ComputeAsync | src/Pingu/Adler32.cs:14-34 | reading a stream in pieces of up to 4096 bytes gives the Adler-32 of all of them |
| LegacyAdler32.MemoryReads | src/Pingu/Adler32.cs:11-12 | the reads of a MemoryStream are full buffers and a rest, and together they are the array |
| LegacyAdler32.ComputeBytes | src/Pingu/Adler32.cs:11-12 | the array overload gives the Adler-32 of the array |
| ByteOrder.BigEndian32Decodes | src/Pingu/Chunks/Chunk.cs:39-45 | the four big-endian bytes of a 32-bit value read back as that value |
| ByteOrder.BigEndian32Encodes | src/Pingu/Chunks/Chunk.cs:39-45 | every four bytes are the big-endian bytes of the value they read as |
| ByteOrder.GetBytes | src/Pingu/Chunk.cs:41 | `BitConverter.GetBytes` gives the bytes in the host's order |
| ByteOrder.Reverse | src/Pingu/Chunk.cs:23 | `Array.Reverse` reverses the array in place |
| ByteOrder.GetBytesForInteger | src/Pingu/Chunks/Chunk.cs:39-45 | the bytes come out big-endian on either host |
| Zlib.HeadersValid | src/Pingu/Chunks/IdatChunk.cs:62-66 | both zlib headers name DEFLATE with a 32 KiB window and pass the check of RFC 1950 section 2.2; 78 DA claims level 3 and 78 9C level 2 |
| Zlib.StreamLayout | src/Pingu/Chunks/IdatChunk.cs:100-109 | a zlib stream is the header, the compressed bytes and the big-endian Adler-32 of the uncompressed data |
| Chunks.ChunkType | src/Pingu/Chunks/Chunk.cs:12 | the type is the low bytes of the name's first four characters; a shorter name throws |
| Chunks.FrameLayout | src/Pingu/Chunks/Chunk.cs:10-28 | a frame is the big-endian length, the type, the data, and the big-endian CRC of type and data |
| Chunks.FramedOutcome | src/Pingu.Tests/ChunkTests.cs:15-28 | framing succeeds exactly when the name has four characters, the data exists and the declared length is the data's; a wrong length throws the length-mismatch exception, and a frame is 12 bytes longer than its data |
| Chunks.CalculateCrc32 | src/Pingu/Chunks/Chunk.cs:30 | the CRC of the bytes, big-endian |
| Chunks.WriteSelfToStream | src/Pingu/Chunks/Chunk.cs:10-28 | a chunk that frames is appended to the stream; one that fails writes nothing |
| LegacyChunks.Ascii | src/Pingu/Chunk.cs:12 | each ASCII character becomes its byte and every other one becomes '?' |
| LegacyChunks.CalculateCrc32 | src/Pingu/Chunk.cs:22-23 | the CRC bytes in the host's order, reversed |
| LegacyChunks.LittleEndianHostIsCorrect | src/Pingu/Chunk.cs:10-29 | on a little-endian host the older writer frames exactly as RFC 2083 section 3.2 asks |
| LegacyChunks.BigEndianHostReversesCrc | src/Pingu/Chunk.cs:22-23 | on a big-endian host the older writer puts an IEND chunk's CRC on the stream little-endian |
| LegacyChunks.WriteSelfToStream | src/Pingu/Chunk.cs:10-29 | the older writer appends its frame, or writes nothing when the length check fails |
| IhdrChunks.NewIhdr | src/Pingu/Chunks/IhdrChunk.cs:29-43 | the bit depth must be 8 or 16, then the width and the height must be positive, each failure naming its parameter; the colour type is 6 |
| IhdrChunks.DecodePayload | src/Pingu/Chunks/IhdrChunk.cs:45-60 | the 13 bytes of a header decode back to it |
| IhdrChunks.PayloadDecode | src/Pingu/Chunks/IhdrChunk.cs:45-60 | any 13 bytes that decode to a valid header are that header's bytes |
| IhdrChunks.GetChunkData | src/Pingu/Chunks/IhdrChunk.cs:45-60 | the chunk data is width and height big-endian, then depth, colour type and three zero bytes |
| IhdrChunks.SourceFrames | src/Pingu/Chunks/IhdrChunk.cs:8-9 | an IHDR chunk always frames, as 25 bytes starting 00 00 00 0D "IHDR" |
| IendChunks.Frames | src/Pingu/IendChunk.cs:9-12 | the IEND chunk is 12 bytes: a zero length, "IEND" and the CRC of "IEND" |
| PngFiles.PngFile.constructor | src/Pingu/PngFile.cs:11-14 | a new file has no chunks |
| PngFiles.PngFile.Add | src/Pingu/PngFile.cs:16 | adding appends the chunk |
| PngFiles.PngFile.ChunkCount | src/Pingu/PngFile.cs:21 | the count is the number of chunks added |
| PngFiles.PngFile.WriteFileTo | src/Pingu/PngFile.cs:23-28 | the stream receives the signature and then every chunk in order, up to the first chunk that throws |
| PngFiles.AllChunksWritten | src/Pingu/PngFile.cs:23-28 | when every chunk frames, the file is the signature followed by every frame in order |
| PngFiles.EmptyFile | src/Pingu/PngFile.cs:14 | a file with no chunks is the 8-byte signature |
| PngFiles.FirstFailure | src/Pingu/PngFile.cs:23-28 | the first chunk that throws stops the file after the frames before it |
| PngFiles.PrefixKept | src/Pingu/PngFile.cs:23-28 | adding chunks only extends what is written, which always starts with the signature |
| Scanlines.FilteredStreamOutcome | src/Pingu/Chunks/IdatChunk.cs:83-98 | the row loop fails on the first row the data cannot fill, or at once for Average and Paeth, and otherwise gives height rows of 1 + width * pixel width bytes |
| Scanlines.StreamDecodes | src/Pingu/Chunks/IdatChunk.cs:83-98 | decoding the filtered stream row by row gives back the raw image |
| Scanlines.EncodedDecodes | src/Pingu/Chunks/IdatChunk.cs:120-129 | an encoded row's tag names a concrete filter, whose reconstruction gives the row back |
| IdatChunks.Validate | src/Pingu/Chunks/IdatChunk.cs:24-41 | the constructor checks rawRgbData, then imageInfo, then the filter type, then the colour type, in that order |
| IdatChunks.PixelWidthValues | src/Pingu/Chunks/IdatChunk.cs:54-55 | a pixel is 3, 4, 6 or 8 bytes |
| IdatChunks.FilterScanline | src/Pingu/Chunks/IdatChunk.cs:120-129 | a row is tagged with its filter type and filtered after the tag; Average and Paeth throw and leave the buffer alone |
| IdatChunks.EncodeRow | src/Pingu/Chunks/IdatChunk.cs:84-88 | one pass copies row i and fills the buffer with its encoded form |
| IdatChunks.CopyScanline | src/Pingu/Chunks/IdatChunk.cs:94-97 | the previous row becomes a copy of this one |
| IdatChunks.FilterRows | src/Pingu/Chunks/IdatChunk.cs:75-100 | the row loop produces the filtered stream of the image, or the first exception |
| IdatChunks.CompressedDataMeaning | src/Pingu/Chunks/IdatChunk.cs:49-118 | the compressed data, when it exists, is the zlib stream with header 78 DA of a stream of height rows that decodes to the raw image |
| IdatChunks.CompressedDataFits | src/Pingu/Chunks/IdatChunk.cs:112-113 | the stored length fits an int |
| IdatChunks.IdatChunk.constructor | src/Pingu/Chunks/IdatChunk.cs:24-41 | a valid chunk holds its arguments and nothing compressed yet |
| IdatChunks.IdatChunk.GetCompressedData | src/Pingu/Chunks/IdatChunk.cs:49-118 | the result is the compressed data, computed once and then remembered |
| IdatChunks.IdatChunk.Length | src/Pingu/Chunks/IdatChunk.cs:21 | after compression the length is the compressed data's |
| IdatChunks.IdatChunk.WriteSelfToStream | src/Pingu/Chunks/IdatChunk.cs:43 | the chunk writes the IDAT frame of its compressed data |
| IdatChunks.New | src/Pingu/Chunks/IdatChunk.cs:24-41 | construction throws exactly what Validate says and otherwise gives a valid chunk |
| IdatChunks.IdatFramed | src/Pingu/Chunks/IdatChunk.cs:20-21 | the chunk frames as IDAT with its data, or fails with that data's exception |
| LegacyIdatChunks.PixelWidthOf | src/Pingu/IdatChunk.cs:31-41 | colour type 2 is 3 bytes a pixel, 6 is 4, and any other throws |
| LegacyIdatChunks.MemoryReader.Read | src/Pingu/IdatChunk.cs:56 | a read copies as many bytes as are left, up to the count, and advances |
| LegacyIdatChunks.ReadRows | src/Pingu/IdatChunk.cs:54-59 | each row is a 0 byte and the scanline buffer after the read, whatever that read returned |
| LegacyIdatChunks.StaleRowRepeats | src/Pingu/IdatChunk.cs:56 | once the data is used up, the buffer keeps its last contents |
| LegacyIdatChunks.ShortDataRepeatsRow | src/Pingu/IdatChunk.cs:56 | with one row of data and a height of 2, the row is written twice, where the newer writer throws |
| LegacyIdatChunks.LegacyStreamIsNoneFiltered | src/Pingu/IdatChunk.cs:54-59 | with enough data the older stream is the None-filtered stream of the newer writer |
| LegacyIdatChunks.CorrectedRoundTrip | src/Pingu/IdatChunk.cs:54-59 | the corrected loop fails on short data, and otherwise produces a stream that decodes to the raw rows |
| LegacyIdatChunks.WrapStream | src/Pingu/IdatChunk.cs:50-70 | the zlib stream with header 78 9C and the Adler-32 of the row stream |
| LegacyIdatChunks.LegacyCompressedData | src/Pingu/IdatChunk.cs:26-77 | a missing header throws NullReferenceException, an unknown colour type throws, and missing data makes the reader throw |
| LegacyIdatChunks.LegacyCompressedDataMeaning | src/Pingu/IdatChunk.cs:26-77 | the compressed data is the zlib stream of height rows; with enough data each row decodes to the raw row |
| LegacyIdatChunks.ComputeCompressedData | src/Pingu/IdatChunk.cs:26-77 | the method computes that result |
| LegacyIdatChunks.LegacyIdatChunk.constructor | src/Pingu/IdatChunk.cs:18-22 | the older chunk checks nothing and holds its two arguments |
| LegacyIdatChunks.LegacyIdatChunk.GetCompressedData | src/Pingu/IdatChunk.cs:26-77 | computed once and then remembered |
| LegacyIdatChunks.LegacyIdatChunk.Length | src/Pingu/IdatChunk.cs:16 | after compression the length is the compressed data's |
| LegacyIdatChunks.LegacyIdatChunk.WriteSelfToStream | src/Pingu/IdatChunk.cs:24 | the older chunk writes its frame through the older writer |
| ColorHelpers.PackRgb | src/Pingu/Colors/ColorHelpers.cs:8 | `r << 16 \| g << 8 \| b` is r * 65536 + g * 256 + b, below 2^24 |
| ColorHelpers.UnpackRgb | src/Pingu/Colors/ColorHelpers.cs:11-18 | bytes 2, 1 and 0 of the colour, most significant first |
| ColorHelpers.UnpackPack | src/Pingu/Colors/ColorHelpers.cs:8-18 | unpacking a packed triple gives the triple |
| ColorHelpers.PackUnpack | src/Pingu/Colors/ColorHelpers.cs:8-18 | packing the bytes of a 24-bit colour gives the colour |
| ColorHelpers.PackRgbInjective | src/Pingu/Colors/ColorHelpers.cs:8 | two triples pack alike exactly when they are equal |
| ColorHelpers.GrayscaleOfPacked | src/Pingu/Colors/ColorHelpers.cs:21-25 | the grayscale of a packed colour is the weighting of its triple |
| Colors.Color.Packed | src/Pingu/Colors/Color.cs:12 | the packed colour unpacks to R, G and B |
| Colors.Color.Grayscale | src/Pingu/Colors/Color.cs:11 | the grayscale is that of the packed colour |
| Colors.PackedIgnoresAlpha | src/Pingu/Colors/Color.cs:11-12 | colours pack alike exactly when R, G and B agree, whatever their alpha |
| ColorVectors.PackVectors | src/Pingu.Tests/ColorHelperTests.cs:24-37 | the nine packing vectors |
| ColorVectors.UnpackVectorsPrimaries | src/Pingu.Tests/ColorHelperTests.cs:39-42 | the unpacking vectors of red, green and blue |
| ColorVectors.UnpackVectorsSecondaries | src/Pingu.Tests/ColorHelperTests.cs:43-45 | the unpacking vectors of cyan, magenta and yellow |
| ColorVectors.UnpackVectorsMixed | src/Pingu.Tests/ColorHelperTests.cs:46-48 | the three other unpacking vectors |
| ColorVectors.PalletteFirstColor | src/Pingu.Tests/PalletteTests.cs:11-33 | a palette of depth 1 given (17, 93, 45) gives those bytes at index 0, and index 0 for them |
| ColorVectors.PalletteThirdColorFails | src/Pingu.Tests/PalletteTests.cs:35-43 | a palette of depth 1 takes two colours and throws on the third |
| ColorVectors.TransparencyIndexTwoFails | src/Pingu.Tests/TransparencyMapTests.cs:11-20 | a map of depth 1 takes indices 0 and 1 and throws ArgumentOutOfRangeException("palletteIndex") for 2 |
| ColorVectors.TransparencyReadBack | src/Pingu.Tests/TransparencyMapTests.cs:22-29 | the alpha stored at index 0 is read back |
| Pallettes.TableSize | src/Pingu/Colors/Pallette.cs:18 | `2 << (bitDepth - 1)` is 2^bitDepth for depths 1 to 30, and 0 for depths 0 and 32 |
| Pallettes.DepthThirtyOneOverflows | src/Pingu/Colors/Pallette.cs:18-19 | at depth 31 the size wraps negative and the allocation throws |
| Pallettes.NewPallette | src/Pingu/Colors/Pallette.cs:15-21 | a new palette is empty with room for the table size; a negative size throws |
| Pallettes.Pallette.constructor | src/Pingu/Colors/Pallette.cs:15-21 | an empty table of the size, all zero, and an empty reverse map |
| Pallettes.Pallette.AddPacked | src/Pingu/Colors/Pallette.cs:27-36 | a full palette throws and changes nothing; otherwise the colour goes into the next entry, the reverse map sends it there, and its index is returned |
| Pallettes.Pallette.AddColor | src/Pingu/Colors/Pallette.cs:23 | adding a Color adds its packed RGB, which is then found at the new index |
| Pallettes.Pallette.AddRgb | src/Pingu/Colors/Pallette.cs:25 | adding a triple adds it packed, after which it is found at the new index and unpacks to the triple |
| Pallettes.Pallette.GetPackedColor | src/Pingu/Colors/Pallette.cs:38 | an added colour, 0 for an unused entry, and an exception outside the table |
| Pallettes.Pallette.Rgb | src/Pingu/Colors/Pallette.cs:40 | the bytes of an added colour, black for an unused entry, an exception outside the table |
| Pallettes.Pallette.IndexOf | src/Pingu/Colors/Pallette.cs:42-48 | a triple is found exactly when it was added, at the last index it was added at; otherwise KeyNotFoundException |
| TransparencyMaps.TransparencyMap.constructor | src/Pingu/Colors/TransparencyMap.cs:11-15 | a map of the table size, all zero |
| TransparencyMaps.NewTransparencyMap | src/Pingu/Colors/TransparencyMap.cs:11-15 | a negative size throws |
| TransparencyMaps.TransparencyMap.AddTransparencyToMap | src/Pingu/Colors/TransparencyMap.cs:17-26 | an index at or past the size throws ArgumentOutOfRangeException("palletteIndex"), a negative one the array's exception; otherwise exactly that entry changes |
| TransparencyMaps.TransparencyMap.Get | src/Pingu/Colors/TransparencyMap.cs:28 | the alpha stored at the index, or an exception outside the map |
| ImageSources.ImageSource.Format | src/Pingu/ImageSources/GrayscaleAlphaImageSource.cs:8 | grayscale-alpha sources report GrayscaleAlpha and truecolour ones Rgb |
| ImageSources.ImageSource.Convert | src/Pingu/ImageSources/TruecolorImageSource.cs:17-40 | every conversion of those sources throws NotImplementedException |
| IndexedImageSources.Validate | src/Pingu/ImageSources/IndexedImageSource.cs:20-56 | the corrected checks: depth 1, 2, 4 or 8, then positive width and height, then data, then palette, then at least one byte, each naming its own parameter |
| IndexedImageSources.ValidateAsWritten | src/Pingu/ImageSources/IndexedImageSource.cs:28-48 | the checks as written accept exactly what the corrected ones accept |
| IndexedImageSources.HeightBlamesWidth | src/Pingu/ImageSources/IndexedImageSource.cs:37-38 | a zero height is reported as a bad "width" |
| IndexedImageSources.DefaultTransparencyMap | src/Pingu/ImageSources/IndexedImageSource.cs:51-55 | without a map, one is made with the palette's entries opaque and the rest transparent; a palette larger than the map throws |
| IndexedImageSources.NewIndexedImageSource | src/Pingu/ImageSources/IndexedImageSource.cs:20-56 | construction throws what the as-written checks say, a bad height under the name "width", then the default map's palette-index error; otherwise it holds its arguments and a map |
| IndexedImageSources.IndexedImageSource.constructor | src/Pingu/ImageSources/IndexedImageSource.cs:40-45 | the properties hold the arguments |
| IndexedImageSources.IndexedImageSource.Format | src/Pingu/ImageSources/IndexedImageSource.cs:11 | the format is Indexed, which no other source reports |
| IndexedImageSources.IndexedImageSource.ConvertToIndexedImageSource | src/Pingu/ImageSources/IndexedImageSource.cs:135-150 | the same depth returns the source itself; a lower one, one above 8 and anything else each throw their exception |
| IndexedImageSources.IndexedImageSource.CheckGrayscaleDepth | src/Pingu/ImageSources/IndexedImageSource.cs:100-104 | grayscale accepts depths 1, 2, 4, 8 and 16 only |
| IndexedImageSources.IndexedImageSource.GatherGroup | src/Pingu/ImageSources/IndexedImageSource.cs:273-278 | up to eight bytes are or-ed into a 64-bit word, the first byte highest, and the pointer moves past them |
| IndexedImageSources.IndexedImageSource.CutPixel | src/Pingu/ImageSources/IndexedImageSource.cs:279-281 | shifting and masking the word gives pixel i's index |
| IndexedImageSources.IndexedImageSource.UnpackPixels | src/Pingu/ImageSources/IndexedImageSource.cs:265-285 | the group's indices are the next pixels of the data; each one's colour and alpha are looked up, or an index past either table throws |
| IndexedImageSources.IndexedImageSource.ConvertGroups | src/Pingu/ImageSources/IndexedImageSource.cs:79-92 | the conversion loop writes what Converted says, or throws its exception |
| IndexedImageSources.IndexedImageSource.ConvertPixels | src/Pingu/ImageSources/IndexedImageSource.cs:67-93 | the target buffer ends as the conversion's output |
| IndexedImageSources.IndexedImageSource.ConvertToGrayscaleAlphaImageSource | src/Pingu/ImageSources/IndexedImageSource.cs:58-96 | depths other than 8 and 16 throw; otherwise a grayscale-alpha source of the converted pixels |
| IndexedImageSources.IndexedImageSource.ConvertToTruecolor | src/Pingu/ImageSources/IndexedImageSource.cs:162-211 | depths other than 8 and 16 throw; otherwise a truecolour source, with or without alpha, of the converted pixels |
| IndexedImageSources.IndexedImageSource.ConvertToTruecolorImageSource | src/Pingu/ImageSources/IndexedImageSource.cs:152-155 | truecolour without alpha |
| IndexedImageSources.IndexedImageSource.ConvertToTruecolorAlphaImageSource | src/Pingu/ImageSources/IndexedImageSource.cs:157-160 | truecolour with alpha |
| IndexedImageSources.ConvertedLayout | src/Pingu/ImageSources/IndexedImageSource.cs:84-87 | pixel p's bytes sit at p times the bytes per pixel, and are those of the palette colour and alpha its index selects |
| IndexedImageSources.ConvertedFails | src/Pingu/ImageSources/IndexedImageSource.cs:280-284 | a conversion fails exactly when some pixel's index is past the end of the palette or the map |
| IndexedImageSources.ConvertedSixteen | src/Pingu/ImageSources/IndexedImageSource.cs:74-75 | the 16-bit output is the 8-bit one with a zero byte before every sample |
| IndexedImageSources.ConvertedIndices | src/Pingu/ImageSources/IndexedImageSource.cs:265-285 | data whose pixels have given indices converts to what those indices select, in order |
| IndexedImageSources.LookUp | src/Pingu/ImageSources/IndexedImageSource.cs:282-284 | each index selects its palette colour and alpha |
| IndexedImageSources.OneBitTestImage | src/Pingu.Tests/IndexedImageSourceTests.cs:35-65 | the 1-bit test data 0b11011000 0b10000000 converts as the pixels 1, 1, 0, 1, 1, 0, 0, 0, 1 |
| IndexedImageSources.TwoBitTestImage | src/Pingu.Tests/IndexedImageSourceTests.cs:68-98 | the 2-bit test data converts as the pixels 0, 1, 2, 3, 3, 2, 1, 0, 1 |
| IndexedImageSources.EightBitTestImage | src/Pingu.Tests/IndexedImageSourceTests.cs:134-164 | the 8-bit test data converts as its own bytes |
| IndexedImageSources.EightBitIndex | src/Pingu/ImageSources/IndexedImageSource.cs:265-285 | at depth 8 every byte is one pixel |
| PixelBits.PixelAt | src/Pingu/ImageSources/IndexedImageSource.cs:265-285 | pixel p of depth d is bits p * d to (p + 1) * d of the data, from the top of the first byte |
| PixelBits.UnpackedPixel | src/Pingu/ImageSources/IndexedImageSource.cs:276-281 | the shifted and masked word gives the same bits as reading the data directly |
| PixelBits.PackedColorsGathered | src/Pingu/ImageSources/IndexedImageSource.cs:276-278 | or-ing each byte in at 56 - 8i bits is the big-endian number at the top of the word |
| PixelLayouts.PixelBytesLayouts | src/Pingu/ImageSources/IndexedImageSource.cs:72-75 | one pixel's bytes in each layout: gray then alpha, or R G B and perhaps A, a zero high byte before each sample at 16 bits |
| PixelLayouts.ExpandAt | src/Pingu/ImageSources/IndexedImageSource.cs:84-91 | pixel k's bytes start at k times the bytes per pixel |
| PixelLayouts.SixteenIsWidenedEight | src/Pingu/ImageSources/IndexedImageSource.cs:193-199 | the 16-bit output is the 8-bit output widened |
| Buffers.BlockCopy | src/Pingu/Chunks/IdatChunk.cs:85 | `Buffer.BlockCopy` copies the range and leaves the rest of the destination alone |
| Streams.Stream.Write | src/Pingu/Chunks/Chunk.cs:22-25 | a write appends its bytes |

## Left out

- DEFLATE and CRC-32 are not part of this model. Both are function
  parameters (`deflate`, `crc`). The only assumption about `deflate`
  (`Zlib.Bounded`) is that its output fits an int.
- `ColorHelpers.RgbToGrayscale(r, g, b)` computes in floating point. It is
  the parameter `gray`, so the grayscale vectors of ColorHelperTests.cs are
  not stated.
- `Color.FromPackedRgb` is called by the truecolour conversions but is not
  among the files. It is the parameter `fromPacked`.
- `TruecolorAlphaImageSource` is not among the files. The model assumes it
  holds its two constructor arguments, as the other two sources do.
- Asynchronous code, `Task` and streams are modelled as sequential code over
  byte sequences. A stream read is the sequence of pieces it returns, and
  `Streams.Stream` collects what is written. Disposal is left out.
- The `Lazy` singletons of the filters are left out: each filter is a value.
- Pointer arithmetic and `fixed` are modelled as offsets into sequences and
  arrays.
- `PackGrayscalePixels` and the packing loop of
  `ConvertToGrayscaleImageSource` are not modelled.
  `IndexedImageSource.CheckGrayscaleDepth` states only that method's depth
  check. The method also returns a `GrayscaleAlphaImageSource`, which the
  model does not reproduce.
- `Math/Ceil.cs` uses a floating-point trick. `PixelBits.BytesFor` uses
  integer ceiling division instead, which agrees with the double rounding
  on every multiple of an eighth that occurs here.
- `Math/Reduce.cs` is not called by the core and is not modelled.
- The 4-bit cases of IndexedImageSourceTests.cs are not stated as vectors.
  `IndexedImageSources.ConvertedIndices` covers them for any indices.
- IndexedImageSourceTests.cs gives expected bytes for concrete palettes.
  Those bytes go through the floating-point grayscale and `FromPackedRgb`,
  so the vector lemmas state the output through `LookUp` and `Expand`
  rather than as literal bytes.
- The Adler-32 vectors longer than four bytes are not stated.
  `Checksums.ComputeAsync` and the `Adler32Spec` lemmas cover every input.
- The resource-stream test of Adler32Tests.cs and PngFileTests.cs read
  files. Crc32Tests.cs is about CRC-32. None of them is modelled.
- IndexedImageSources.IndexedImageSource.ConvertPixels: requires `Fits`.
  The product Width * Height * bytes per pixel must fit an int, and RawData
  must hold every pixel. The source's wrapped allocation sizes and its
  unchecked pointer reads past RawData are not modelled.
- IndexedImageSources.IndexedImageSource.ConvertToGrayscaleAlphaImageSource:
  requires `Fits` for a supported depth, for the same reason.
- IndexedImageSources.IndexedImageSource.ConvertToTruecolor: requires `Fits`
  for a supported depth, for the same reason. So do
  ConvertToTruecolorImageSource and ConvertToTruecolorAlphaImageSource.
- IndexedImageSources.IndexedImageSource.UnpackPixels: requires that the
  group's bytes lie inside RawData. The unsafe code reads past the array
  otherwise, which has no defined result.
- IdatChunks.IdatChunk.GetCompressedData: requires that one row plus its tag
  fits an int (`Fits`). The wrapped row length of very wide images is not
  modelled.
- IdatChunks.IdatChunk.WriteSelfToStream: requires `Fits`, because it
  compresses through GetCompressedData.
- SubFilter.FilterInto: this revision of SubFilter.cs has no `FilterInto`.
  The member writes `Filter`'s result at the offset, as the other filters'
  `FilterInto` does.
- The `IImageSource` interface is the `ImageSources.Conversion` enumeration.
  Calling a conversion on an interface value is a match in the model.
- Chunks.ChunkType: the model casts each of the name's first four
  characters to a byte, as src/Pingu/Chunks/Chunk.cs:12 does. A Dafny
  `char` is a Unicode code point rather than a UTF-16 code unit, so names
  with characters outside the basic plane are not modelled.
  `Encoding.ASCII` is used only by the older writer (`LegacyChunks.Ascii`).

## Findings

| source | as written | input that shows it | evidently intended | confidence | as-written member | corrected member |
|---|---|---|---|---|---|---|
| src/Pingu/Filters/SubFilter.cs:44 | the reverse filter adds the filtered byte one pixel back, not the reconstructed one | Sub of [1, 2, 3] at one byte per pixel is [1, 1, 1], which reverses to [1, 2, 2] | add the reconstructed byte, so that the reverse filter undoes Sub | high, not executed | SubFilter.ReverseAsWrittenCounterexample | SubFilter.CorrectedRoundTrip |
| src/Pingu/Chunk.cs:22-23 | the CRC bytes from `BitConverter` are always reversed, so a big-endian host writes them little-endian | an IEND chunk on a big-endian host, with a CRC of 0x01020304, ends 04 03 02 01 | reverse only on a little-endian host, as `GetBytesForInteger` does | medium, not executed | LegacyChunks.BigEndianHostReversesCrc | LegacyChunks.LittleEndianHostIsCorrect |
| src/Pingu/IdatChunk.cs:56 | the count `ReadAsync` returns is ignored, so rows past the end of the data repeat the last full buffer | one row of data with a height of 2 is written as that row twice | fail on short data, as the newer writer's `Buffer.BlockCopy` does | medium, not executed | LegacyIdatChunks.ShortDataRepeatsRow | LegacyIdatChunks.CorrectedRoundTrip |
| src/Pingu/ImageSources/IndexedImageSource.cs:38 | the height check names the parameter "width" | width 1, height 0 | name "height" | high, not executed | IndexedImageSources.HeightBlamesWidth | IndexedImageSources.Validate |
