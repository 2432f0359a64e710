/**
 * The PNG media parser: recognising a PNG stream by its signature, and reading
 * a stream of declared size into a chunk collection, one chunk at a time.
 */
module MediaParser {
  import opened Wrappers
  import opened ByteOrder
  import opened Chunks
  import opened ChunkStream
  import opened ChunkSlices
  import ChunkDecoders

  /** Whether `data` starts with the PNG signature; never an error, whatever the input. */
  function LooksLikeFormat(data: seq<U8>): (ok: bool)
    ensures ok <==> |data| >= |Signature| && data[..|Signature|] == Signature
  {
    |data| >= |Signature| && forall i :: 0 <= i < |Signature| ==> data[i] == Signature[i]
  }

  /** Any bytes behind the signature are recognised, and nothing shorter than the signature is. */
  lemma LooksLikeFormatPrefix(rest: seq<U8>, short: seq<U8>)
    requires |short| < |Signature|
    ensures LooksLikeFormat(Signature + rest)
    ensures !LooksLikeFormat(short)
  {
    assert (Signature + rest)[..|Signature|] == Signature;
  }

  /** Every stream the parser accepts is recognised, so detection never turns away what the parser can read. */
  lemma LooksLikeFormatOfParsed(s: seq<U8>, size: nat)
    requires ParseStream(s, size).Success?
    ensures LooksLikeFormat(s)
  {
    var v := Visible(s, size);
    assert v[..|Signature|] == s[..|Signature|];
  }

  /** The result of the reader so far: the chunks `done` already read, then whatever the rest yields. */
  function Prepend(done: seq<ChunkRecord>, rest: Result<seq<ChunkRecord>, ParseError>): Result<seq<ChunkRecord>, ParseError>
  {
    match rest
    case Success(rs) => Success(done + rs)
    case Failure(e) => Failure(e)
  }

  lemma PrependNothing(rest: Result<seq<ChunkRecord>, ParseError>)
    ensures Prepend([], rest) == rest
  {
    if rest.Success? {
      assert [] + rest.value == rest.value;
    }
  }

  /** One chunk `r` read at `pos` moves from the chunks `done` up to `pos` to the chunks `done'` up to `next`. */
  lemma PrependStep(s: seq<U8>, pos: nat, done: seq<ChunkRecord>, r: ChunkRecord, next: nat, done': seq<ChunkRecord>)
    requires pos < |s| && ReadChunk(s, pos) == Success(r)
    requires next == pos + Size(r) && done' == done + [r]
    ensures next <= |s|
    ensures Prepend(done, ParseChunks(s, pos)) == Prepend(done', ParseChunks(s, next))
  {
    match ParseChunks(s, next)
    case Success(rest) =>
      assert done + ([r] + rest) == done' + rest;
    case Failure(_) =>
  }

  /** Where the chunk at position `i` of `rs` starts in the file they are written to. */
  function OffsetOf(rs: seq<ChunkRecord>, i: nat): nat
    requires i <= |rs|
  {
    |Signature| + |EncodeAll(rs[..i])|
  }

  /**
   * Reads a stream whose total size is declared to be `size`: checks the
   * signature, reads the chunks after it, and collects them. The result is
   * what ParseStream describes.
   */
  method Parse(stream: seq<U8>, size: nat) returns (r: Result<ChunkSlice, ParseError>)
    ensures r.Success? <==> ParseStream(stream, size).Success?
    ensures r.Failure? ==> r.error == ParseStream(stream, size).error
    ensures r.Success? ==> fresh(r.value) && r.value.Valid()
    ensures r.Success? ==> forall c :: c in r.value.chunks ==> fresh(c)
    ensures r.Success? ==> r.value.Records() == ParseStream(stream, size).value
    ensures r.Success? ==> forall i :: 0 <= i < |r.value.chunks| ==>
      r.value.chunks[i].offset == OffsetOf(r.value.Records(), i)
  {
    var s := if size <= |stream| then stream[..size] else stream;
    assert s == Visible(stream, size);
    if |s| < |Signature| {
      return Failure(Truncated(0));
    }
    if s[..|Signature|] != Signature {
      return Failure(NotPng);
    }
    var read := ReadChunks(s);
    if read.Failure? {
      return Failure(read.error);
    }
    if |stream| < size {
      return Failure(Truncated(|stream|));
    }
    var cs := read.value;
    ghost var rs := ParseChunks(s, |Signature|).value;
    var slice := new ChunkSlice(cs);
    assert slice.Records() == rs;
    r := Success(slice);
  }

  /**
   * Reads chunks one by one from just after the signature to the end of `s`,
   * each into a new Chunk object that records the offset it was read at.
   */
  method ReadChunks(s: seq<U8>) returns (r: Result<seq<Chunk>, ParseError>)
    requires |Signature| <= |s|
    ensures r.Success? <==> ParseChunks(s, |Signature|).Success?
    ensures r.Failure? ==> r.error == ParseChunks(s, |Signature|).error
    ensures r.Success? ==> Distinct(r.value) && |r.value| == |ParseChunks(s, |Signature|).value|
    ensures r.Success? ==> forall i :: 0 <= i < |r.value| ==> fresh(r.value[i])
    ensures r.Success? ==> forall i :: 0 <= i < |r.value| ==>
      r.value[i].Record() == ParseChunks(s, |Signature|).value[i]
    ensures r.Success? ==> forall i :: 0 <= i < |r.value| ==>
      r.value[i].offset == OffsetOf(ParseChunks(s, |Signature|).value, i)
  {
    var pos := |Signature|;
    var cs: seq<Chunk> := [];
    ghost var done: seq<ChunkRecord> := [];
    PrependNothing(ParseChunks(s, pos));
    while pos < |s|
      invariant |Signature| <= pos <= |s|
      invariant Prepend(done, ParseChunks(s, pos)) == ParseChunks(s, |Signature|)
      invariant pos == OffsetOf(done, |done|)
      invariant Loaded(cs, done) && Distinct(cs)
      invariant forall i :: 0 <= i < |cs| ==> fresh(cs[i])
      decreases |s| - pos
    {
      var rec := ReadChunk(s, pos);
      if rec.Failure? {
        assert ParseChunks(s, pos) == Failure(rec.error);
        return Failure(rec.error);
      }
      var x := rec.value;
      ghost var done0, pos0 := done, pos;
      var c := new Chunk(pos, x.length, x.tag, x.data, x.crc);
      LoadedAppend(cs, done, c, x);
      DistinctAppend(cs, c);
      cs := cs + [c];
      done := done + [x];
      pos := pos + Size(x);
      PrependStep(s, pos0, done0, x, pos, done);
    }
    assert done + [] == done;
    r := Success(cs);
  }

  /** The chunk objects `cs` hold the records `done`, each at the offset the records before it give. */
  ghost predicate Loaded(cs: seq<Chunk>, done: seq<ChunkRecord>)
    reads cs
  {
    && |cs| == |done|
    && (forall i :: 0 <= i < |cs| ==> cs[i].Record() == done[i])
    && (forall i :: 0 <= i < |cs| ==> cs[i].offset == OffsetOf(done, i))
  }

  lemma LoadedAppend(cs: seq<Chunk>, done: seq<ChunkRecord>, c: Chunk, x: ChunkRecord)
    requires Loaded(cs, done) && c.Record() == x && c.offset == OffsetOf(done, |done|)
    ensures Loaded(cs + [c], done + [x])
    ensures OffsetOf(done + [x], |done| + 1) == OffsetOf(done, |done|) + Size(x)
  {
    OffsetsExtend(done, x);
  }

  lemma DistinctAppend(cs: seq<Chunk>, c: Chunk)
    requires Distinct(cs) && c !in cs
    ensures Distinct(cs + [c])
  {
  }

  /** Adding a chunk keeps the offsets of those before it and puts the new one right behind them. */
  lemma OffsetsExtend(done: seq<ChunkRecord>, r: ChunkRecord)
    ensures forall i :: 0 <= i <= |done| ==> OffsetOf(done + [r], i) == OffsetOf(done, i)
    ensures OffsetOf(done + [r], |done + [r]|) == OffsetOf(done, |done|) + Size(r)
  {
    var ds := done + [r];
    forall i | 0 <= i <= |done|
      ensures ds[..i] == done[..i]
    {
    }
    assert ds[..|done| + 1] == ds;
    assert done[..|done|] == done;
    EncodeAllAppend(done, r);
  }

  /** Reads a whole byte buffer: the declared size is the buffer's length. */
  method ParseBytes(data: seq<U8>) returns (r: Result<ChunkSlice, ParseError>)
    ensures r.Success? <==> ParseStream(data, |data|).Success?
    ensures r.Failure? ==> r.error == ParseStream(data, |data|).error
    ensures r.Success? ==> fresh(r.value) && r.value.Valid()
    ensures r.Success? ==> forall c :: c in r.value.chunks ==> fresh(c)
    ensures r.Success? ==> r.value.Records() == ParseStream(data, |data|).value
  {
    r := Parse(data, |data|);
  }

  /**
   * Reads a byte buffer into chunks and writes them back into a new buffer:
   * whatever parses is written back byte for byte.
   */
  method Rewrite(data: seq<U8>) returns (r: Result<seq<U8>, ParseError>)
    ensures r.Success? <==> ParseStream(data, |data|).Success?
    ensures r.Failure? ==> r.error == ParseStream(data, |data|).error
    ensures r.Success? ==> r.value == data
  {
    var parsed := ParseBytes(data);
    if parsed.Failure? {
      return Failure(parsed.error);
    }
    var cs := parsed.value;
    EncodeFileOfParseStream(data);
    WrittenWellFormed(cs.Records());
    var w := new Buffer();
    var written := cs.WriteTo(w);
    assert written == Pass;
    r := Success(w.bytes);
  }

  /** The IHDR chunk of the sample file: a 13-byte header for a 1472 x 598 truecolour image. */
  predicate IsSampleHeader(r: ChunkRecord)
  {
    r == ChunkRecord(13, IhdrTag, [0x00, 0x00, 0x05, 0xc0, 0x00, 0x00, 0x02, 0x56, 0x08, 0x02, 0x00, 0x00, 0x00], 0xf049b365)
  }

  /** The pHYs chunk of the sample file: 2835 pixels per metre both ways. */
  predicate IsSamplePhys(r: ChunkRecord)
  {
    r == ChunkRecord(9, [0x70, 0x48, 0x59, 0x73], [0x00, 0x00, 0x0b, 0x13, 0x00, 0x00, 0x0b, 0x13, 0x01], 0x009a9c18)
  }

  /** The length and CRC fields of the two sample chunks, big-endian. */
  lemma SampleFields()
    ensures Be32(13) == [0x00, 0x00, 0x00, 0x0d] && Be32(0xf049b365) == [0xf0, 0x49, 0xb3, 0x65]
    ensures Be32(9) == [0x00, 0x00, 0x00, 0x09] && Be32(0x009a9c18) == [0x00, 0x9a, 0x9c, 0x18]
  {
    assert Be32(13) == [0x00, 0x00, 0x00, 0x0d];
    assert Be32(0xf049b365) == [0xf0, 0x49, 0xb3, 0x65];
    assert Be32(9) == [0x00, 0x00, 0x00, 0x09];
  }

  /** The IHDR chunk of the sample file written out is the 25 bytes listed for it. */
  lemma SampleHeaderBytes(ihdr: ChunkRecord)
    requires IsSampleHeader(ihdr)
    ensures Encode(ihdr) == [0x00, 0x00, 0x00, 0x0d, 0x49, 0x48, 0x44, 0x52,
                             0x00, 0x00, 0x05, 0xc0, 0x00, 0x00, 0x02, 0x56, 0x08, 0x02, 0x00, 0x00, 0x00,
                             0xf0, 0x49, 0xb3, 0x65]
  {
    SampleFields();
  }

  /** The pHYs chunk of the sample file written out is the 21 bytes listed for it. */
  lemma SamplePhysBytes(phys: ChunkRecord)
    requires IsSamplePhys(phys)
    ensures Encode(phys) == [0x00, 0x00, 0x00, 0x09, 0x70, 0x48, 0x59, 0x73,
                             0x00, 0x00, 0x0b, 0x13, 0x00, 0x00, 0x0b, 0x13, 0x01,
                             0x00, 0x9a, 0x9c, 0x18]
  {
    SampleFields();
  }

  /** A file of two well-formed chunks is recognised, parses into those two chunks, and writes back byte for byte. */
  lemma TwoChunkFile(s: seq<U8>, a: ChunkRecord, b: ChunkRecord)
    requires WellFormed(a) && WellFormed(b)
    requires s == Signature + Encode(a) + Encode(b)
    ensures LooksLikeFormat(s)
    ensures ParseStream(s, |s|) == Success([a, b])
    ensures WriteOutcome([a, b]) == Pass && Written([a, b]) == s
  {
    var rs := [a, b];
    assert AllWellFormed(rs);
    EncodeAllCons(rs);
    EncodeAllCons(rs[1..]);
    assert rs[1..][1..] == [];
    assert EncodeAll(rs) == Encode(a) + Encode(b);
    assert EncodeFile(rs) == s;
    ParseStreamOfEncodeFile(rs);
    LooksLikeFormatOfParsed(s, |s|);
    WrittenWellFormed(rs);
  }

  /**
   * The sample file, the signature followed by the IHDR and pHYs chunks, is
   * recognised, parses into exactly those two chunks with the header first,
   * writes back byte for byte, its IHDR payload decodes to the listed header
   * fields, and the CRCs of both chunks check.
   */
  lemma SampleFile(s: seq<U8>, ihdr: ChunkRecord, phys: ChunkRecord)
    requires IsSampleHeader(ihdr) && IsSamplePhys(phys)
    requires s == Signature + Encode(ihdr) + Encode(phys)
    ensures LooksLikeFormat(s)
    ensures ParseStream(s, |s|) == Success([ihdr, phys])
    ensures FirstOfType([ihdr, phys], IhdrTag) == Some(0)
    ensures WriteOutcome([ihdr, phys]) == Pass && Written([ihdr, phys]) == s
    ensures ChunkDecoders.DecodeIHDR(ihdr.data) == Success(ChunkDecoders.ChunkIHDR(1472, 598, 8, 2, 0, 0, 0))
    ensures CrcValid(ihdr) && CrcValid(phys)
  {
    assert ValidTag(ihdr.tag) by {
      assert IsTagLetter(ihdr.tag[0]) && IsTagLetter(ihdr.tag[1]);
      assert IsTagLetter(ihdr.tag[2]) && IsTagLetter(ihdr.tag[3]);
    }
    assert ValidTag(phys.tag) by {
      assert IsTagLetter(phys.tag[0]) && IsTagLetter(phys.tag[1]);
      assert IsTagLetter(phys.tag[2]) && IsTagLetter(phys.tag[3]);
    }
    TwoChunkFile(s, ihdr, phys);
    ChunkDecoders.DecodeSampleHeader(ihdr.data);
    CrcOfIhdrSample(ihdr.tag, ihdr.data);
    CrcOfPhysSample(phys.tag, phys.data);
  }
}
