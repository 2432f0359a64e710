/**
 * Decoding of chunk payloads into structured records. The only payload the
 * decoder interprets is the image header (IHDR, section 11.2.2 of the PNG
 * Specification, ISO/IEC 15948): thirteen bytes holding width and height as
 * big-endian 32-bit integers and five single-byte fields. Chunks of any other
 * type are left undecoded.
 */
module ChunkDecoders {
  import opened Wrappers
  import opened ByteOrder
  import opened Chunks

  /** The image header record, field by field in payload order. */
  datatype ChunkIHDR = ChunkIHDR(
    width: U32,
    height: U32,
    bitDepth: U8,
    colorType: U8,
    compressionMethod: U8,
    filterMethod: U8,
    interlaceMethod: U8)

  /** Bytes the image header record occupies. */
  const IhdrSize: nat := 13

  /** What decoding a chunk yields: an image header, or nothing for a chunk type the decoder does not interpret. */
  datatype Decoded = Header(header: ChunkIHDR) | NotDecoded

  /** Why a payload could not be decoded: it ends before the record does. */
  datatype DecodeError = ShortPayload(available: nat)

  /** The thirteen payload bytes of an image header. */
  function EncodeIHDR(h: ChunkIHDR): (r: seq<U8>)
    ensures |r| == IhdrSize
  {
    Be32(h.width) + Be32(h.height)
      + [h.bitDepth, h.colorType, h.compressionMethod, h.filterMethod, h.interlaceMethod]
  }

  /**
   * Reads the image header from the front of a payload, big-endian, as a
   * fixed-size binary read does: bytes after the thirteenth are not looked at,
   * and a payload shorter than thirteen bytes is refused.
   */
  function DecodeIHDR(data: seq<U8>): (r: Result<ChunkIHDR, DecodeError>)
    ensures r.Failure? <==> |data| < IhdrSize
    ensures r.Failure? ==> r.error == ShortPayload(|data|)
  {
    if |data| < IhdrSize then Failure(ShortPayload(|data|))
    else Success(ChunkIHDR(
      ReadBe32(data[0], data[1], data[2], data[3]),
      ReadBe32(data[4], data[5], data[6], data[7]),
      data[8], data[9], data[10], data[11], data[12]))
  }

  /** A decoded header is exactly what the first thirteen payload bytes encode. */
  lemma EncodeOfDecodeIHDR(data: seq<U8>)
    requires DecodeIHDR(data).Success?
    ensures EncodeIHDR(DecodeIHDR(data).value) == data[..IhdrSize]
  {
    var h := DecodeIHDR(data).value;
    Be32OfReadBe32(data[0], data[1], data[2], data[3]);
    Be32OfReadBe32(data[4], data[5], data[6], data[7]);
    assert Be32(h.width) == data[..4];
    assert Be32(h.height) == data[4..8];
  }

  /** Any header written out and followed by any further bytes decodes back to itself. */
  lemma DecodeOfEncodeIHDR(h: ChunkIHDR, rest: seq<U8>)
    ensures DecodeIHDR(EncodeIHDR(h) + rest) == Success(h)
  {
    var s := EncodeIHDR(h) + rest;
    var w, v := Be32(h.width), Be32(h.height);
    assert s[0] == w[0] && s[1] == w[1] && s[2] == w[2] && s[3] == w[3];
    assert s[4] == v[0] && s[5] == v[1] && s[6] == v[2] && s[7] == v[3];
    ReadBe32OfBe32(h.width);
    ReadBe32OfBe32(h.height);
  }

  /**
   * Decodes a chunk by its type: an IHDR chunk gives its image header, any
   * other chunk gives nothing and no error.
   */
  function Decode(c: Chunk): (r: Result<Decoded, DecodeError>)
    reads c
    ensures c.tag != IhdrTag ==> r == Success(NotDecoded)
    ensures c.tag == IhdrTag ==> (r.Failure? <==> |c.data| < IhdrSize)
    ensures c.tag == IhdrTag && |c.data| >= IhdrSize ==> r == Success(Header(DecodeIHDR(c.data).value))
    ensures r.Success? && r.value.Header? ==>
      c.tag == IhdrTag && EncodeIHDR(r.value.header) == c.data[..IhdrSize]
  {
    if c.tag == IhdrTag then
      match DecodeIHDR(c.data)
      case Failure(e) => Failure(e)
      case Success(h) =>
        EncodeOfDecodeIHDR(c.data);
        Success(Header(h))
    else Success(NotDecoded)
  }

  /**
   * The IHDR payload of the sample file, 00 00 05 c0 00 00 02 56 08 02 00 00 00,
   * decodes to width 1472, height 598, bit depth 8, colour type 2 and zero
   * compression, filter and interlace methods.
   */
  lemma DecodeSampleHeader(data: seq<U8>)
    requires data == [0x00, 0x00, 0x05, 0xc0, 0x00, 0x00, 0x02, 0x56, 0x08, 0x02, 0x00, 0x00, 0x00]
    ensures DecodeIHDR(data) == Success(ChunkIHDR(1472, 598, 8, 2, 0, 0, 0))
  {
  }
}
