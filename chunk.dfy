/**
 * One chunk of the PNG container (section 5.3 of the PNG Specification,
 * ISO/IEC 15948): a big-endian 32-bit payload length, a 4-byte type tag, the
 * payload, and a big-endian CRC-32 over tag and payload.
 */
module Chunks {
  import opened Wrappers
  import opened ByteOrder
  import Crc32

  /** A chunk type: exactly four bytes. */
  type Tag = s: seq<U8> | |s| == 4 witness [0, 0, 0, 0]

  /** "IHDR", the image header. */
  const IhdrTag: Tag := [0x49, 0x48, 0x44, 0x52]

  /** "eXIf", the chunk that embeds an EXIF block. */
  const ExifTag: Tag := [0x65, 0x58, 0x49, 0x66]

  /** Bytes of length field, tag and CRC around the payload. */
  const Overhead: nat := 12

  /** Chunk type codes are restricted to the ASCII letters A-Z and a-z (section 5.4 of the PNG Specification). */
  predicate IsTagLetter(b: U8)
  {
    (0x41 <= b <= 0x5A) || (0x61 <= b <= 0x7A)
  }

  predicate ValidTag(t: Tag)
  {
    forall i :: 0 <= i < 4 ==> IsTagLetter(t[i])
  }

  /** The value of a chunk, without the offset at which it was read. */
  datatype ChunkRecord = ChunkRecord(length: U32, tag: Tag, data: seq<U8>, crc: U32)

  /** The declared length agrees with the payload: the condition for writing a chunk. */
  predicate LengthConsistent(r: ChunkRecord)
  {
    r.length == |r.data|
  }

  /** A chunk that can be written and read back: consistent length and a letter tag. */
  predicate WellFormed(r: ChunkRecord)
  {
    LengthConsistent(r) && ValidTag(r.tag)
  }

  /** The wire form of a chunk: length, tag, payload, CRC. */
  function Encode(r: ChunkRecord): (e: seq<U8>)
    ensures |e| == Overhead + |r.data|
    ensures PartsAt(e, 0, r)
  {
    Be32(r.length) + r.tag + r.data + Be32(r.crc)
  }

  /** Why a byte sequence could not be read as PNG chunks; `offset` is where the failing chunk starts. */
  datatype ParseError = NotPng | Truncated(offset: nat) | InvalidTag(offset: nat)

  /** The declared payload length of the chunk at `pos`. */
  function LengthAt(s: seq<U8>, pos: nat): U32
    requires pos + 4 <= |s|
  {
    ReadBe32(s[pos], s[pos + 1], s[pos + 2], s[pos + 3])
  }

  /** The tag of the chunk at `pos`. */
  function TagAt(s: seq<U8>, pos: nat): Tag
    requires pos + 8 <= |s|
  {
    s[pos + 4..pos + 8]
  }

  /** The chunk at `pos`, once its payload and CRC are known to fit. */
  function ChunkAt(s: seq<U8>, pos: nat): ChunkRecord
    requires pos + 8 <= |s| && LengthAt(s, pos) + 4 <= |s| - (pos + 8)
  {
    var end := pos + 8 + LengthAt(s, pos);
    ChunkRecord(LengthAt(s, pos), TagAt(s, pos), s[pos + 8..end], ReadBe32(s[end], s[end + 1], s[end + 2], s[end + 3]))
  }

  /**
   * Reads the chunk that starts at `pos`. The length and tag must fit, the tag
   * must be made of letters, and payload and CRC must fit in what is left.
   * The CRC is taken as read, not checked.
   */
  function ReadChunk(s: seq<U8>, pos: nat): (r: Result<ChunkRecord, ParseError>)
    requires pos <= |s|
    ensures r.Success? ==> WellFormed(r.value)
    ensures r.Success? ==> pos + Overhead + |r.value.data| <= |s|
    ensures r.Failure? ==> r.error == Truncated(pos) || r.error == InvalidTag(pos)
  {
    if |s| - pos < 8 then Failure(Truncated(pos))
    else if !ValidTag(TagAt(s, pos)) then Failure(InvalidTag(pos))
    else if |s| - (pos + 8) < LengthAt(s, pos) + 4 then Failure(Truncated(pos))
    else Success(ChunkAt(s, pos))
  }

  /** A chunk that was read writes back to exactly the bytes it was read from. */
  lemma ReadChunkEncodes(s: seq<U8>, pos: nat)
    requires pos <= |s| && ReadChunk(s, pos).Success?
    ensures Encode(ReadChunk(s, pos).value) == s[pos..pos + Overhead + |ReadChunk(s, pos).value.data|]
  {
    assert ReadChunk(s, pos) == Success(ChunkAt(s, pos));
    ChunkAtEncodes(s, pos);
  }

  lemma ChunkAtEncodes(s: seq<U8>, pos: nat)
    requires pos + 8 <= |s| && LengthAt(s, pos) + 4 <= |s| - (pos + 8)
    ensures Encode(ChunkAt(s, pos)) == s[pos..pos + Overhead + |ChunkAt(s, pos).data|]
  {
    var c := ChunkAt(s, pos);
    var end := pos + 8 + LengthAt(s, pos);
    assert c.length == LengthAt(s, pos) && c.tag == s[pos + 4..pos + 8];
    assert c.data == s[pos + 8..end] && c.crc == ReadBe32(s[end], s[end + 1], s[end + 2], s[end + 3]);
    Be32OfReadBe32(s[pos], s[pos + 1], s[pos + 2], s[pos + 3]);
    Be32OfReadBe32(s[end], s[end + 1], s[end + 2], s[end + 3]);
    assert s[pos..pos + 4] == [s[pos], s[pos + 1], s[pos + 2], s[pos + 3]];
    assert s[end..end + 4] == [s[end], s[end + 1], s[end + 2], s[end + 3]];
    assert Encode(c) == s[pos..pos + 4] + s[pos + 4..pos + 8] + s[pos + 8..end] + s[end..end + 4];
    SliceFour(s, pos, pos + 4, pos + 8, end, end + 4);
  }

  /** A slice is the concatenation of its four consecutive parts. */
  lemma SliceFour(s: seq<U8>, a: nat, b: nat, c: nat, d: nat, e: nat)
    requires a <= b <= c <= d <= e <= |s|
    ensures s[a..e] == s[a..b] + s[b..c] + s[c..d] + s[d..e]
  {
    assert s[a..e] == s[a..d] + s[d..e];
    assert s[a..d] == s[a..c] + s[c..d];
    assert s[a..c] == s[a..b] + s[b..c];
  }

  /** The four parts of a chunk lying at `pos` in `s`. */
  predicate PartsAt(s: seq<U8>, pos: nat, r: ChunkRecord)
  {
    && pos + Overhead + |r.data| <= |s|
    && s[pos..pos + 4] == Be32(r.length)
    && s[pos + 4..pos + 8] == r.tag
    && s[pos + 8..pos + 8 + |r.data|] == r.data
    && s[pos + 8 + |r.data|..pos + Overhead + |r.data|] == Be32(r.crc)
  }

  lemma ChunkAtParts(s: seq<U8>, pos: nat, r: ChunkRecord)
    requires LengthConsistent(r) && PartsAt(s, pos, r)
    ensures pos + 8 <= |s| && LengthAt(s, pos) == r.length && TagAt(s, pos) == r.tag
    ensures LengthAt(s, pos) + 4 <= |s| - (pos + 8) && ChunkAt(s, pos) == r
  {
    ReadBe32OfBe32(r.length);
    ReadBe32OfBe32(r.crc);
    var end := pos + 8 + |r.data|;
    var l, k := Be32(r.length), Be32(r.crc);
    assert s[pos] == l[0] && s[pos + 1] == l[1] && s[pos + 2] == l[2] && s[pos + 3] == l[3];
    assert LengthAt(s, pos) == r.length;
    assert s[end] == k[0] && s[end + 1] == k[1] && s[end + 2] == k[2] && s[end + 3] == k[3];
    var c := ChunkAt(s, pos);
    assert c.data == r.data;
    assert c.crc == r.crc;
  }

  /** A chunk whose four parts lie at `pos` in `s` is read back from there. */
  lemma ReadChunkAt(s: seq<U8>, pos: nat, r: ChunkRecord)
    requires WellFormed(r) && PartsAt(s, pos, r)
    ensures ReadChunk(s, pos) == Success(r)
  {
    ChunkAtParts(s, pos, r);
  }

  /** Reading a written chunk gives it back, whatever precedes or follows it. */
  lemma ReadChunkOfEncode(p: seq<U8>, r: ChunkRecord, q: seq<U8>)
    requires WellFormed(r)
    ensures ReadChunk(p + Encode(r) + q, |p|) == Success(r)
  {
    var s := p + Encode(r) + q;
    var pos := |p|;
    var end := pos + 8 + |r.data|;
    assert s[pos..pos + 4] == Be32(r.length);
    assert s[pos + 4..pos + 8] == r.tag;
    assert s[pos + 8..end] == r.data;
    assert s[end..end + 4] == Be32(r.crc);
    ReadChunkAt(s, pos, r);
  }

  /**
   * The CRC of a chunk as the source computes it: the CRC-32 of the tag
   * followed by the payload.
   */
  function CalculateCrc(tag: Tag, data: seq<U8>): U32
  {
    Crc32.Checksum(tag + data) as int
  }

  /** The stored CRC matches tag and payload. */
  predicate CrcValid(r: ChunkRecord)
  {
    r.crc == CalculateCrc(r.tag, r.data)
  }

  /** The source writes tag and payload into one running CRC-32 one after the other; that gives the same value. */
  lemma CalculateCrcInParts(tag: Tag, data: seq<U8>)
    ensures CalculateCrc(tag, data) == Crc32.Finish(Crc32.Update(Crc32.Update(Crc32.Initial, tag), data)) as int
  {
    Crc32.UpdateAppend(Crc32.Initial, tag, data);
  }

  lemma Bv32ValueInjective(x: bv32, y: bv32)
    requires x as int == y as int
    ensures x == y
  {
    assert (x as int) as bv32 == x;
    assert (y as int) as bv32 == y;
  }

  /**
   * A CRC computed before one payload byte was changed no longer matches: after
   * such a change, a CRC check fails unless the CRC is recomputed.
   */
  lemma StaleCrcDetected(tag: Tag, data: seq<U8>, k: nat, b: U8)
    requires k < |data| && b != data[k]
    ensures CalculateCrc(tag, data[k := b]) != CalculateCrc(tag, data)
  {
    var p, q := tag + data[..k], data[k + 1..];
    assert tag + data == p + [data[k]] + q;
    assert tag + data[k := b] == p + [b] + q;
    Crc32.DetectsSingleByteChange(p, data[k], b, q);
    if CalculateCrc(tag, data[k := b]) == CalculateCrc(tag, data) {
      Bv32ValueInjective(Crc32.Checksum(p + [b] + q), Crc32.Checksum(p + [data[k]] + q));
      assert false;
    }
  }

  /** Why a chunk could not be written: its declared length differs from its payload's. */
  datatype ChunkError = LengthMismatch(declared: U32, actual: nat)

  /** An in-memory byte sink (the source's bytes.Buffer). */
  class Buffer {
    var bytes: seq<U8>

    constructor ()
      ensures bytes == []
    {
      bytes := [];
    }

    method Write(b: seq<U8>)
      modifies this`bytes
      ensures bytes == old(bytes) + b
    {
      bytes := bytes + b;
    }
  }

  /** A chunk as the source holds it: fields that callers and the methods below update in place. */
  class Chunk {
    /** Position of the length field in the stream the chunk was read from. */
    var offset: int
    var length: U32
    var tag: Tag
    var data: seq<U8>
    var crc: U32

    constructor (offset: int, length: U32, tag: Tag, data: seq<U8>, crc: U32)
      ensures this.offset == offset && this.length == length && this.tag == tag
      ensures this.data == data && this.crc == crc
    {
      this.offset := offset;
      this.length := length;
      this.tag := tag;
      this.data := data;
      this.crc := crc;
    }

    /** The chunk's current value. */
    function Record(): ChunkRecord
      reads this
    {
      ChunkRecord(length, tag, data, crc)
    }

    /**
     * The wire form of the chunk, refused when the declared length does not
     * match the payload.
     */
    function Bytes(): (r: Result<seq<U8>, ChunkError>)
      reads this
      ensures r.Success? <==> length == |data|
      ensures r.Failure? ==> r.error == LengthMismatch(length, |data|)
      ensures r.Success? ==> r.value == Encode(Record()) && |r.value| == |data| + Overhead
    {
      if length == |data| then Success(Encode(Record()))
      else Failure(LengthMismatch(length, |data|))
    }

    /**
     * Writes the chunk's wire form to `w` and returns how many bytes were
     * written; writes nothing when the length is inconsistent.
     */
    method WriteTo(w: Buffer) returns (r: Result<nat, ChunkError>)
      modifies w
      ensures r.Success? <==> Bytes().Success?
      ensures r.Success? ==> r.value == |Bytes().value| && w.bytes == old(w.bytes) + Bytes().value
      ensures r.Failure? ==> r.error == Bytes().error && w.bytes == old(w.bytes)
    {
      if length != |data| {
        return Failure(LengthMismatch(length, |data|));
      }
      w.Write(Be32(length));
      w.Write(tag);
      w.Write(data);
      w.Write(Be32(crc));
      assert Bytes() == Success(Encode(Record()));
      assert w.bytes == old(w.bytes) + Encode(Record());
      r := Success(Overhead + |data|);
    }

    /** Whether the stored CRC matches tag and payload. */
    function CheckCrc32(): (ok: bool)
      reads this
      ensures ok <==> CrcValid(Record())
    {
      crc == CalculateCrc(tag, data)
    }

    /**
     * Gives the chunk a new payload and declared length and recomputes its CRC;
     * its tag and offset stay as they are.
     */
    method SetPayload(data: seq<U8>, length: U32)
      modifies this`data, this`length, this`crc
      ensures Record() == ChunkRecord(length, tag, data, CalculateCrc(tag, data))
      ensures CheckCrc32()
    {
      this.data := data;
      this.length := length;
      UpdateCrc32();
    }

    /** Recomputes the CRC from tag and payload; nothing else changes. */
    method UpdateCrc32()
      modifies this`crc
      ensures crc == CalculateCrc(tag, data)
      ensures Record() == old(Record()).(crc := crc)
      ensures CheckCrc32()
    {
      crc := CalculateCrc(tag, data);
    }
  }

  /** The bytes of a chunk with a letter tag read back as that chunk. */
  lemma BytesReadBack(c: Chunk)
    requires c.Bytes().Success? && ValidTag(c.tag)
    ensures ReadChunk(c.Bytes().value, 0) == Success(c.Record())
  {
    assert [] + Encode(c.Record()) + [] == c.Bytes().value;
    ReadChunkOfEncode([], c.Record(), []);
  }

  /**
   * The wire form of the chunk with length 5, tag "ABCD", payload 11 22 33 44 55
   * and CRC 0x5678.
   */
  lemma EncodeSample(r: ChunkRecord)
    requires r == ChunkRecord(5, [0x41, 0x42, 0x43, 0x44], [0x11, 0x22, 0x33, 0x44, 0x55], 0x5678)
    ensures Encode(r) == [0x00, 0x00, 0x00, 0x05, 0x41, 0x42, 0x43, 0x44,
                          0x11, 0x22, 0x33, 0x44, 0x55, 0x00, 0x00, 0x56, 0x78]
  {
  }

  // The test vectors below are evaluated four bytes at a time: each block
  // lemma traces the register through the division steps of its bytes.

  lemma PhysTagBlock(s: seq<U8>)
    requires s == [0x70, 0x48, 0x59, 0x73]
    ensures Crc32.Update(Crc32.Initial, s) == 0x69789a9c
  {
    assert Crc32.Step8(0xffffffff ^ Crc32.Octet(0x70) as bv32) == 0x7df8614e;
    assert Crc32.Step8(0x7df8614e ^ Crc32.Octet(0x48) as bv32) == 0xe91e5d54;
    assert Crc32.Step8(0xe91e5d54 ^ Crc32.Octet(0x59) as bv32) == 0x7e5862e0;
    assert Crc32.Step8(0x7e5862e0 ^ Crc32.Octet(0x73) as bv32) == 0x69789a9c;
    Crc32.UpdateFour(Crc32.Initial, s, 0x70, 0x48, 0x59, 0x73, 0x7df8614e, 0xe91e5d54, 0x7e5862e0, 0x69789a9c);
  }

  lemma PhysDataHeadBlock(s: seq<U8>)
    requires s == [0x00, 0x00, 0x0b, 0x13]
    ensures Crc32.Update(0x69789a9c, s) == 0xb3d0d12d
  {
    assert Crc32.Step8(0x69789a9c ^ Crc32.Octet(0x00) as bv32) == 0xf9d0a7f5;
    assert Crc32.Step8(0xf9d0a7f5 ^ Crc32.Octet(0x00) as bv32) == 0xcd2ed634;
    assert Crc32.Step8(0xcd2ed634 ^ Crc32.Octet(0x0b) as bv32) == 0xb6ab03eb;
    assert Crc32.Step8(0xb6ab03eb ^ Crc32.Octet(0x13) as bv32) == 0xb3d0d12d;
    Crc32.UpdateFour(0x69789a9c, s, 0x00, 0x00, 0x0b, 0x13, 0xf9d0a7f5, 0xcd2ed634, 0xb6ab03eb, 0xb3d0d12d);
  }

  lemma PhysDataTailBlock(s: seq<U8>)
    requires s == [0x00, 0x00, 0x0b, 0x13, 0x01]
    ensures Crc32.Update(0xb3d0d12d, s) == 0xff6563e7
  {
    assert Crc32.Step8(0xb3d0d12d ^ Crc32.Octet(0x00) as bv32) == 0x456c8ca4;
    assert Crc32.Step8(0x456c8ca4 ^ Crc32.Octet(0x00) as bv32) == 0xd1fe0b7d;
    assert Crc32.Step8(0xd1fe0b7d ^ Crc32.Octet(0x0b) as bv32) == 0xb9b72a02;
    assert Crc32.Step8(0xb9b72a02 ^ Crc32.Octet(0x13) as bv32) == 0x6a0997d8;
    assert Crc32.Step8(0x6a0997d8 ^ Crc32.Octet(0x01) as bv32) == 0xff6563e7;
    Crc32.UpdateFour(0xb3d0d12d, s[..4], 0x00, 0x00, 0x0b, 0x13, 0x456c8ca4, 0xd1fe0b7d, 0xb9b72a02, 0x6a0997d8);
    Crc32.UpdateSingle(0x6a0997d8, s[4..], 0x01, 0xff6563e7);
    Crc32.UpdateAppend(0xb3d0d12d, s[..4], s[4..]);
    assert s[..4] + s[4..] == s;
  }

  lemma TimeTagBlock(s: seq<U8>)
    requires s == [0x74, 0x49, 0x4d, 0x45]
    ensures Crc32.Update(Crc32.Initial, s) == 0x06cc2530
  {
    assert Crc32.Step8(0xffffffff ^ Crc32.Octet(0x74) as bv32) == 0x7a95a557;
    assert Crc32.Step8(0x7a95a557 ^ Crc32.Octet(0x49) as bv32) == 0xfa75a8c6;
    assert Crc32.Step8(0xfa75a8c6 ^ Crc32.Octet(0x4d) as bv32) == 0x7a902f00;
    assert Crc32.Step8(0x7a902f00 ^ Crc32.Octet(0x45) as bv32) == 0x06cc2530;
    Crc32.UpdateFour(Crc32.Initial, s, 0x74, 0x49, 0x4d, 0x45, 0x7a95a557, 0xfa75a8c6, 0x7a902f00, 0x06cc2530);
  }

  lemma TimeDataHeadBlock(s: seq<U8>)
    requires s == [0x07, 0xcc, 0x06, 0x07]
    ensures Crc32.Update(0x06cc2530, s) == 0x8ddd2465
  {
    assert Crc32.Step8(0x06cc2530 ^ Crc32.Octet(0x07) as bv32) == 0xb8bb692a;
    assert Crc32.Step8(0xb8bb692a ^ Crc32.Octet(0xcc) as bv32) == 0x49d1fc24;
    assert Crc32.Step8(0x49d1fc24 ^ Crc32.Octet(0x06) as bv32) == 0xd5299018;
    assert Crc32.Step8(0xd5299018 ^ Crc32.Octet(0x07) as bv32) == 0x8ddd2465;
    Crc32.UpdateFour(0x06cc2530, s, 0x07, 0xcc, 0x06, 0x07, 0xb8bb692a, 0x49d1fc24, 0xd5299018, 0x8ddd2465);
  }

  lemma TimeDataTailBlock(s: seq<U8>)
    requires s == [0x11, 0x3a, 0x08]
    ensures Crc32.Update(0x8ddd2465, s) == 0x7100d985
  {
    assert Crc32.Step8(0x8ddd2465 ^ Crc32.Octet(0x11) as bv32) == 0x57e56801;
    assert Crc32.Step8(0x57e56801 ^ Crc32.Octet(0x3a) as bv32) == 0xb15c0c4c;
    assert Crc32.Step8(0xb15c0c4c ^ Crc32.Octet(0x08) as bv32) == 0x7100d985;
    assert s == [0x11] + ([0x3a] + ([0x08] + []));
    Crc32.UpdateOne(0x8ddd2465, 0x11, 0x57e56801, [0x3a] + ([0x08] + []));
    Crc32.UpdateOne(0x57e56801, 0x3a, 0xb15c0c4c, [0x08] + []);
    Crc32.UpdateOne(0xb15c0c4c, 0x08, 0x7100d985, []);
  }

  lemma AlteredTimeDataBlock(s: seq<U8>)
    requires s == [0x99, 0x99, 0x99, 0x99]
    ensures Crc32.Update(0x06cc2530, s) == 0x5b5b763f
  {
    assert Crc32.Step8(0x06cc2530 ^ Crc32.Octet(0x99) as bv32) == 0xaf0cd769;
    assert Crc32.Step8(0xaf0cd769 ^ Crc32.Octet(0x99) as bv32) == 0xbd12fecb;
    assert Crc32.Step8(0xbd12fecb ^ Crc32.Octet(0x99) as bv32) == 0x85d82226;
    assert Crc32.Step8(0x85d82226 ^ Crc32.Octet(0x99) as bv32) == 0x5b5b763f;
    Crc32.UpdateFour(0x06cc2530, s, 0x99, 0x99, 0x99, 0x99, 0xaf0cd769, 0xbd12fecb, 0x85d82226, 0x5b5b763f);
  }

  lemma IhdrTagBlock(s: seq<U8>)
    requires s == [0x49, 0x48, 0x44, 0x52]
    ensures Crc32.Update(Crc32.Initial, s) == 0x575e51f5
  {
    assert Crc32.Step8(0xffffffff ^ Crc32.Octet(0x49) as bv32) == 0x22fde946;
    assert Crc32.Step8(0x22fde946 ^ Crc32.Octet(0x48) as bv32) == 0xe79ad0ee;
    assert Crc32.Step8(0xe79ad0ee ^ Crc32.Octet(0x44) as bv32) == 0x36e4d026;
    assert Crc32.Step8(0x36e4d026 ^ Crc32.Octet(0x52) as bv32) == 0x575e51f5;
    Crc32.UpdateFour(Crc32.Initial, s, 0x49, 0x48, 0x44, 0x52, 0x22fde946, 0xe79ad0ee, 0x36e4d026, 0x575e51f5);
  }

  lemma IhdrDataHeadBlock(s: seq<U8>)
    requires s == [0x00, 0x00, 0x05, 0xc0]
    ensures Crc32.Update(0x575e51f5, s) == 0xebe2206a
  {
    assert Crc32.Step8(0x575e51f5 ^ Crc32.Octet(0x00) as bv32) == 0xcd8058c2;
    assert Crc32.Step8(0xcd8058c2 ^ Crc32.Octet(0x00) as bv32) == 0x75a723c4;
    assert Crc32.Step8(0x75a723c4 ^ Crc32.Octet(0x05) as bv32) == 0xec165505;
    assert Crc32.Step8(0xec165505 ^ Crc32.Octet(0xc0) as bv32) == 0xebe2206a;
    Crc32.UpdateFour(0x575e51f5, s, 0x00, 0x00, 0x05, 0xc0, 0xcd8058c2, 0x75a723c4, 0xec165505, 0xebe2206a);
  }

  lemma IhdrDataMidBlock(s: seq<U8>)
    requires s == [0x00, 0x00, 0x02, 0x56]
    ensures Crc32.Update(0xebe2206a, s) == 0x87786d5a
  {
    assert Crc32.Step8(0xebe2206a ^ Crc32.Octet(0x00) as bv32) == 0xad8c6a66;
    assert Crc32.Step8(0xad8c6a66 ^ Crc32.Octet(0x00) as bv32) == 0xa47c4807;
    assert Crc32.Step8(0xa47c4807 ^ Crc32.Octet(0x02) as bv32) == 0x70ce88c7;
    assert Crc32.Step8(0x70ce88c7 ^ Crc32.Octet(0x56) as bv32) == 0x87786d5a;
    Crc32.UpdateFour(0xebe2206a, s, 0x00, 0x00, 0x02, 0x56, 0xad8c6a66, 0xa47c4807, 0x70ce88c7, 0x87786d5a);
  }

  lemma IhdrDataTailBlock(s: seq<U8>)
    requires s == [0x08, 0x02, 0x00, 0x00, 0x00]
    ensures Crc32.Update(0x87786d5a, s) == 0x0fb64c9a
  {
    assert Crc32.Step8(0x87786d5a ^ Crc32.Octet(0x08) as bv32) == 0x85e248b5;
    assert Crc32.Step8(0x85e248b5 ^ Crc32.Octet(0x02) as bv32) == 0x5580c467;
    assert Crc32.Step8(0x5580c467 ^ Crc32.Octet(0x00) as bv32) == 0xd383743f;
    assert Crc32.Step8(0xd383743f ^ Crc32.Octet(0x00) as bv32) == 0xb6b5ae49;
    assert Crc32.Step8(0xb6b5ae49 ^ Crc32.Octet(0x00) as bv32) == 0x0fb64c9a;
    Crc32.UpdateFour(0x87786d5a, s[..4], 0x08, 0x02, 0x00, 0x00, 0x85e248b5, 0x5580c467, 0xd383743f, 0xb6b5ae49);
    Crc32.UpdateSingle(0xb6b5ae49, s[4..], 0x00, 0x0fb64c9a);
    Crc32.UpdateAppend(0x87786d5a, s[..4], s[4..]);
    assert s[..4] + s[4..] == s;
  }

  /** The IHDR chunk of the sample file: tag "IHDR" and its 13-byte payload give CRC 0xf049b365. */
  lemma CrcOfIhdrSample(tag: Tag, data: seq<U8>)
    requires tag == [0x49, 0x48, 0x44, 0x52]
    requires data == [0x00, 0x00, 0x05, 0xc0, 0x00, 0x00, 0x02, 0x56, 0x08, 0x02, 0x00, 0x00, 0x00]
    ensures CalculateCrc(tag, data) == 0xf049b365
  {
    assert data[..4] == [0x00, 0x00, 0x05, 0xc0] && data[4..8] == [0x00, 0x00, 0x02, 0x56];
    assert data[8..] == [0x08, 0x02, 0x00, 0x00, 0x00];
    assert data[..4] + data[4..8] == data[..8] && data[..8] + data[8..] == data;
    IhdrTagBlock(tag);
    IhdrDataHeadBlock(data[..4]);
    IhdrDataMidBlock(data[4..8]);
    IhdrDataTailBlock(data[8..]);
    Crc32.UpdateAppend(0x575e51f5, data[..4], data[4..8]);
    Crc32.UpdateAppend(0x575e51f5, data[..8], data[8..]);
    CalculateCrcInParts(tag, data);
  }

  /** The pHYs test vector: tag "pHYs" and a 9-byte payload give CRC 0x009a9c18. */
  lemma CrcOfPhysSample(tag: Tag, data: seq<U8>)
    requires tag == [0x70, 0x48, 0x59, 0x73]
    requires data == [0x00, 0x00, 0x0b, 0x13, 0x00, 0x00, 0x0b, 0x13, 0x01]
    ensures CalculateCrc(tag, data) == 0x009a9c18
  {
    assert data[..4] == [0x00, 0x00, 0x0b, 0x13] && data[4..] == [0x00, 0x00, 0x0b, 0x13, 0x01];
    assert data[..4] + data[4..] == data;
    PhysTagBlock(tag);
    PhysDataHeadBlock(data[..4]);
    PhysDataTailBlock(data[4..]);
    Crc32.UpdateAppend(0x69789a9c, data[..4], data[4..]);
    CalculateCrcInParts(tag, data);
  }

  /** The tIME test vector: tag "tIME" and a 7-byte payload give CRC 0x8eff267a. */
  lemma CrcOfTimeSample(tag: Tag, data: seq<U8>)
    requires tag == [0x74, 0x49, 0x4d, 0x45]
    requires data == [0x07, 0xcc, 0x06, 0x07, 0x11, 0x3a, 0x08]
    ensures CalculateCrc(tag, data) == 0x8eff267a
  {
    assert data[..4] == [0x07, 0xcc, 0x06, 0x07] && data[4..] == [0x11, 0x3a, 0x08];
    assert data[..4] + data[4..] == data;
    TimeTagBlock(tag);
    TimeDataHeadBlock(data[..4]);
    TimeDataTailBlock(data[4..]);
    Crc32.UpdateAppend(0x06cc2530, data[..4], data[4..]);
    CalculateCrcInParts(tag, data);
  }

  /** After the tIME payload is replaced by 99 99 99 99, the CRC no longer equals the stored 0x8eff267a. */
  lemma CrcOfAlteredTimeSample(tag: Tag, data: seq<U8>)
    requires tag == [0x74, 0x49, 0x4d, 0x45]
    requires data == [0x99, 0x99, 0x99, 0x99]
    ensures CalculateCrc(tag, data) != 0x8eff267a
  {
    TimeTagBlock(tag);
    AlteredTimeDataBlock(data);
    CalculateCrcInParts(tag, data);
  }
}
