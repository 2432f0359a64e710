# PNG chunk structure, modelled in Dafny

This project models the chunk layer of a Go library that reads and rewrites
PNG files without decoding their pixels. A PNG stream is an 8-byte signature
followed by chunks. Each chunk is:

- a big-endian 32-bit payload length;
- a 4-byte type tag;
- the payload;
- a big-endian CRC-32 over tag and payload.

The library reads a stream into a `ChunkSlice`, an ordered collection of
`Chunk` objects. Through it a caller can:

- index the chunks by tag;
- find the `eXIf` chunk that carries an EXIF block;
- replace that chunk, or insert a new one;
- write the whole stream back byte for byte.

A chunk decoder turns the `IHDR` payload into an image-header record. A format
check tells whether a buffer starts with the PNG signature.

The repository files this model follows are its Go tests:
`v2/png_test.go`, `v2/chunk_decoder_test.go` and `v2/media_parser_test.go`.
The behaviour modelled is what those tests exercise and assert, read together
with the PNG Specification (ISO/IEC 15948). That specification fixes:

- the signature (section 5.2);
- the chunk layout (section 5.3);
- the tag alphabet (section 5.4);
- the CRC-32 (section 5.5);
- the IHDR record (section 11.2.2).

The library's own implementation files are not part of this model. Where a
test pins down a behaviour, the model follows the test.

Modules, leaf first:

- `ByteOrder` (`byte_order.dfy`): bytes, `uint32` values, and the big-endian
  encoding with its inverse.
- `Crc32` (`crc32.dfy`): the reflected CRC-32 of the PNG Specification, computed
  bit by bit. It comes with the append law the chunk CRC relies on, and a proof
  that any single-byte change alters the checksum.
- `Chunks` (`chunk.dfy`): the chunk value, its wire form, the reader for one
  chunk, and the CRC of a chunk. The `Chunk` class has mutable fields and the
  methods `Bytes`, `WriteTo`, `CheckCrc32` and `UpdateCrc32`. `Buffer` is an
  in-memory byte sink.
- `ChunkStream` (`chunk_stream.dfy`): whole streams. It holds the signature, the
  recursive reader `ParseStream` used as the specification of parsing, and the
  two round trips: write-then-parse and parse-then-write.
- `ChunkSlices` (`chunk_slice.dfy`): the `ChunkSlice` class with `Chunks`,
  `Index`, `FindExif`, `SetExif` and `WriteTo`. Each is proved against a
  function on the chunk values: `Bucket`, `FirstOfType`, `PlaceExif`,
  `WriteOutcome` and `Written`.
- `ChunkDecoders` (`chunk_decoder.dfy`): the IHDR record and `Decode`.
- `MediaParser` (`media_parser.dfy`):
  - `LooksLikeFormat`;
  - the imperative readers `Parse`, `ReadChunks` and `ParseBytes`, which build
    one `Chunk` object per chunk read;
  - `Rewrite`, which parses and writes back;
  - the two-chunk sample file that `TestChunkSlice_Write` uses.

The reader takes each chunk's CRC as stored, without checking it; checking
is `CheckCrc32`, on demand. A tag must consist of ASCII letters.

Integers are unbounded in Dafny. Go's `uint32` appears as the subset type
`U32`. A new eXIf chunk's length is the payload length reduced modulo 2^32,
as a uint32 field holds it (`Uint32Length`).

## Model

| member | source | states |
|---|---|---|
| `ByteOrder.ReadBe32OfBe32` | v2/png_test.go:30-35 | reading the four big-endian bytes of any uint32 gives the value back |
| `ByteOrder.Be32OfReadBe32` | v2/png_test.go:512-521 | any four bytes are the big-endian encoding of the value read from them |
| `ByteOrder.Be32Injective` | v2/png_test.go:30-35 | distinct uint32 values have distinct big-endian encodings |
| `Crc32.UpdateAppend` | v2/png_test.go:352-366 | feeding the CRC register two pieces one after the other gives the same register as feeding their concatenation |
| `Crc32.DetectsSingleByteChange` | v2/png_test.go:379-383 | replacing any one byte of the input by a different byte changes the CRC-32, wherever it stands |
| `Chunks.Encode` | v2/png_test.go:16-40 | a chunk's wire form is 12 bytes longer than its payload: the big-endian length, the tag, the payload and the big-endian CRC, in that order |
| `Chunks.Buffer.constructor` | v2/png_test.go:51 | a new byte sink is empty |
| `Chunks.Buffer.Write` | v2/png_test.go:51-62 | appends the given bytes to what the sink already holds |
| `Chunks.ReadChunk` | v2/png_test.go:539-546 | a chunk that is read has a consistent length and a letter tag, and it fits in the stream; a failure is a truncation or a bad tag at the chunk's offset |
| `Chunks.ReadChunkEncodes` | v2/png_test.go:480-509 | a chunk that is read writes back to exactly the bytes it was read from |
| `Chunks.ReadChunkOfEncode` | v2/png_test.go:16-40 | a written well-formed chunk is read back as itself, whatever bytes precede or follow it |
| `Chunks.Chunk.Bytes` | v2/png_test.go:16-40 | succeeds exactly when Length equals the payload length; then it yields length, tag, payload and CRC, 12 bytes more than the payload; otherwise it reports the mismatch |
| `Chunks.EncodeSample` | v2/png_test.go:16-40 | the chunk of length 5, tag "ABCD", payload 11 22 33 44 55 and CRC 0x5678 serialises to the 17 listed bytes |
| `Chunks.BytesReadBack` | v2/png_test.go:249-261 | the bytes of a chunk with a letter tag read back as that chunk, so Length == len(Data) == len(Bytes()) - 12 |
| `Chunks.Chunk.WriteTo` | v2/png_test.go:42-65 | appends exactly Bytes() to the sink and returns its length; writes nothing and fails as Bytes() does when the length is inconsistent |
| `Chunks.Chunk.CheckCrc32` | v2/png_test.go:360-366 | true exactly when the stored CRC equals the CRC-32 of tag followed by payload |
| `Chunks.Chunk.UpdateCrc32` | v2/png_test.go:352-377 | stores the CRC-32 of tag and payload, changes no other field, and afterwards CheckCrc32 holds |
| `Chunks.CalculateCrc` | v2/png_test.go:358-361 | the chunk CRC is the CRC-32 of the tag followed by the payload, as the test recomputes it with calculateCrc32; its properties are the lemmas below |
| `Chunks.CalculateCrcInParts` | v2/png_test.go:358-361 | the chunk CRC equals one running CRC-32 fed the tag and then the payload |
| `Chunks.StaleCrcDetected` | v2/png_test.go:379-383 | after any payload byte changes, the old CRC no longer matches, so CheckCrc32 fails until UpdateCrc32 is called |
| `Chunks.CrcOfPhysSample` | v2/png_test.go:353-363 | tag "pHYs" with payload 00 00 0b 13 00 00 0b 13 01 has CRC 0x009a9c18 |
| `Chunks.CrcOfTimeSample` | v2/png_test.go:368-374 | tag "tIME" with payload 07 cc 06 07 11 3a 08 has CRC 0x8eff267a |
| `Chunks.CrcOfAlteredTimeSample` | v2/png_test.go:379-383 | with payload 99 99 99 99 the tIME CRC is no longer 0x8eff267a, so the check fails |
| `Chunks.CrcOfIhdrSample` | v2/png_test.go:513-516 | tag "IHDR" with the 13-byte sample header payload has CRC 0xf049b365 |
| `ChunkStream.ParseChunks` | v2/png_test.go:539-553 | reads chunks one after another to the end of the stream; a failure is a truncation or a bad tag at an offset inside the unread part |
| `ChunkStream.ParseStream` | v2/png_test.go:539-548 | succeeds only when the stream holds at least the declared size and starts with the signature; a stream shorter than declared always fails |
| `ChunkStream.ParseChunksOfEncodeAll` | v2/png_test.go:511-553 | well-formed chunks written back to back are read back one by one as themselves |
| `ChunkStream.ParseChunksWellFormed` | v2/png_test.go:539-553 | every chunk the reader returns is well formed |
| `ChunkStream.EncodeAllOfParseChunks` | v2/png_test.go:480-509 | the chunks the reader returns write back to exactly the bytes it consumed |
| `ChunkStream.ParseStreamOfEncodeFile` | v2/png_test.go:226-242 | a file written from well-formed chunks parses back to exactly those chunks |
| `ChunkStream.EncodeFileOfParseStream` | v2/png_test.go:480-509 | a stream that parses is written back byte for byte from well-formed chunks |
| `ChunkSlices.FirstOfType` | v2/png_test.go:109-116 | the position of the first chunk with a tag, with no such chunk before it; None exactly when no chunk has that tag |
| `ChunkSlices.FirstInconsistent` | v2/png_test.go:226-231 | the first chunk whose declared length differs from its payload's, with all earlier ones consistent; None when all are consistent |
| `ChunkSlices.Bucket` | v2/png_test.go:67-96 | a tag's bucket is no longer than the collection and holds only the collection's chunks |
| `ChunkSlices.PlaceExif` | v2/png_test.go:183-350 | fails exactly on an empty collection, and then with NoAnchor |
| `ChunkSlices.BucketSound` | v2/png_test.go:78-83 | every chunk in a tag's bucket is one of the collection's chunks and has that tag |
| `ChunkSlices.BucketComplete` | v2/png_test.go:78-83 | every chunk with a tag is in that tag's bucket |
| `ChunkSlices.BucketCount` | v2/png_test.go:80-95 | the size of a tag's bucket is the number of chunks with that tag, the tally the index test compares |
| `ChunkSlices.BucketFirst` | v2/chunk_decoder_test.go:24-33 | a bucket is empty exactly when no chunk has the tag; otherwise its element 0 is the first chunk with that tag |
| `ChunkSlices.ChunkSlice.Chunks` | v2/png_test.go:550-553 | the chunks in stream order, as many as were read |
| `ChunkSlices.ChunkSlice.Index` | v2/png_test.go:67-96 | maps exactly the tags present to their buckets, each holding that tag's chunks in stream order |
| `ChunkSlices.ChunkSlice.FindExif` | v2/png_test.go:98-148 | returns the first eXIf chunk when there is one, and fails with NoExif exactly when there is none |
| `ChunkSlices.ChunkSlice.SetExif` | v2/png_test.go:183-350 | succeeds exactly when PlaceExif does, and the chunk values become PlaceExif of the old ones. The first eXIf chunk gets the new payload, length and CRC in place, keeping the same objects. Otherwise one fresh eXIf chunk goes right after the first chunk, with the other objects kept in order. No chunk's offset changes. Afterwards an eXIf chunk carrying the payload is the first found. On an empty collection it fails with NoAnchor and changes nothing |
| `ChunkSlices.ChunkSlice.ReplaceExif` | v2/png_test.go:183-261 | rewrites the payload, length and CRC of the chunk at the first eXIf position in place; every other chunk value and every offset is unchanged |
| `ChunkSlices.ChunkSlice.InsertExif` | v2/png_test.go:281-332 | puts one fresh eXIf chunk right after the first chunk, keeping the other objects and values in order and the objects distinct |
| `Chunks.Chunk.SetPayload` | v2/png_test.go:352-377 | sets payload and length, recomputes the CRC and changes nothing else, so CheckCrc32 holds |
| `ChunkSlices.ExifRecordConsistent` | v2/png_test.go:254-261 | the eXIf chunk built for a payload that fits a uint32 length has Length == len(Data) == len(Bytes()) - 12, a letter tag and a valid CRC |
| `ChunkSlices.PlaceExifFound` | v2/png_test.go:310-332 | after setting the payload, the first eXIf chunk carries it; it sits where the old one was, or right after the first chunk when there was none |
| `ChunkSlices.PlaceExifIdempotent` | v2/png_test.go:420-423 | setting the same eXIf payload a second time changes nothing |
| `ChunkSlices.PlaceExifKeepsOthers` | v2/png_test.go:221-231 | only the eXIf position changes: a replacement keeps every other chunk in place; an insertion keeps the first chunk and shifts the rest by one |
| `ChunkSlices.PlaceExifWellFormed` | v2/png_test.go:221-231 | well-formed chunks stay well formed after the eXIf payload is set |
| `ChunkSlices.SetExifSurvivesWrite` | v2/png_test.go:221-261 | after SetExif, the written stream parses back to the same chunks; the eXIf chunk found there carries the payload, with Length == len(Data) == len(Bytes()) - 12 and a valid CRC |
| `ChunkSlices.ChunkSlice.WriteTo` | v2/png_test.go:555-573 | the sink receives the signature, then every chunk in order, stopping at the first chunk that cannot be written, which is the one reported |
| `ChunkSlices.WrittenWellFormed` | v2/png_test.go:497-508 | well-formed chunks are all written: the write succeeds and emits the signature followed by every chunk |
| `ChunkSlices.StopAt` | v2/png_test.go:226-231 | when chunk k is the first with an inconsistent length, the write fails there and has emitted only the chunks before it |
| `ChunkDecoders.DecodeIHDR` | v2/chunk_decoder_test.go:31-51 | fails exactly when the payload is shorter than 13 bytes, reporting how many bytes there are |
| `ChunkDecoders.EncodeOfDecodeIHDR` | v2/chunk_decoder_test.go:33-51 | a decoded header is exactly what the first 13 payload bytes encode |
| `ChunkDecoders.DecodeOfEncodeIHDR` | v2/chunk_decoder_test.go:33-51 | any header written out, followed by any bytes, decodes back to itself |
| `ChunkDecoders.Decode` | v2/chunk_decoder_test.go:26-38 | an IHDR chunk decodes to the header its first 13 payload bytes encode, or fails exactly when it is too short; any other chunk yields no record and no error |
| `ChunkDecoders.DecodeSampleHeader` | v2/chunk_decoder_test.go:40-51 | the sample IHDR payload decodes to width 1472, height 598, bit depth 8, colour type 2 and zero methods |
| `MediaParser.LooksLikeFormat` | v2/media_parser_test.go:20-32 | true exactly when the buffer starts with the 8-byte PNG signature; false on short input, never an error |
| `MediaParser.LooksLikeFormatPrefix` | v2/media_parser_test.go:20-32 | any bytes behind the signature are recognised, and nothing shorter than the signature is |
| `MediaParser.LooksLikeFormatOfParsed` | v2/media_parser_test.go:20-32 | every stream the parser accepts is recognised as PNG |
| `MediaParser.Parse` | v2/png_test.go:539-548 | succeeds exactly when ParseStream does, with its error otherwise; on success a fresh collection holds the parsed chunks in order, each with the offset it was read at |
| `MediaParser.ReadChunks` | v2/png_test.go:539-553 | reads chunk after chunk into distinct new Chunk objects until the stream ends, agreeing with the recursive reader on the result, the error and every chunk's offset |
| `MediaParser.ParseBytes` | v2/png_test.go:488-495 | parses a whole buffer as a stream whose declared size is the buffer's length |
| `MediaParser.Rewrite` | v2/png_test.go:480-509 | parsing a buffer and writing the collection back succeeds exactly when the buffer parses, and then gives back the original bytes |
| `MediaParser.SampleHeaderBytes` | v2/png_test.go:513-516 | the sample IHDR chunk serialises to the 25 listed bytes |
| `MediaParser.SamplePhysBytes` | v2/png_test.go:518-521 | the sample pHYs chunk serialises to the 21 listed bytes |
| `MediaParser.TwoChunkFile` | v2/png_test.go:524-573 | a file of two well-formed chunks is recognised, parses into those two chunks, and writes back byte for byte |
| `MediaParser.SampleFile` | v2/png_test.go:511-573 | the sample file is recognised and parses into exactly its IHDR and pHYs chunks, IHDR first. It writes back byte for byte, its header decodes to the listed fields, and both CRCs check |

## Left out

- `ParseFile` and the test assets: reading a file is I/O. Only parsing the bytes a file would hold is modelled.
- `io.Reader` and `io.Writer`: the reader is a byte sequence plus the declared size. The writer is the in-memory `Buffer`, which never fails. Errors raised by a real sink are not modelled.
- EXIF encoding and decoding through the go-exif library, an external dependency, is not modelled. This covers `Exif`, `ConstructExifBuilder`, the `exif.Collect` checks of tag ids and values, and the `IfdBuilder` that `SetExif` receives.
- `ChunkSlices.ChunkSlice.SetExif`: takes the EXIF payload as bytes that are already encoded, so an EXIF encoder failure is outside the model. Its other error, `NoAnchor` on an empty collection, is modelled.
- `NewPngChunkSlice` is not modelled. `SetExif` on an empty collection fails with `NoAnchor` and changes nothing, because there is no first chunk to insert the eXIf chunk after. The call at v2/png_test.go:305-313 therefore succeeds only on a fresh collection that already holds a chunk.
- The sample image `Selection_058.png` is not modelled: the 222 IDAT / 1 IEND / 1 IHDR / 1 pHYs / 1 tIME tally needs that file. `BucketCount` states the property the tally checks, for every collection.
- Several eXIf chunks in one stream are not treated specially: `FindExif` and `SetExif` act on the first one.
- A total-byte-length helper of the collection is not exercised by the tests and is not modelled.
