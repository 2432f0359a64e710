/**
 * The layout of a whole PNG byte stream: the 8-byte signature (section 5.2 of
 * the PNG Specification, ISO/IEC 15948) followed by chunks, and the reader
 * that cuts a stream of known total size into chunks.
 */
module ChunkStream {
  import opened Wrappers
  import opened ByteOrder
  import opened Chunks

  /** The PNG signature: 89 'P' 'N' 'G' CR LF SUB LF. */
  const Signature: seq<U8> := [0x89, 0x50, 0x4E, 0x47, 0x0D, 0x0A, 0x1A, 0x0A]

  /** Bytes a chunk occupies on the wire. */
  function Size(r: ChunkRecord): nat
  {
    Overhead + |r.data|
  }

  /** The chunks written back to back. */
  function EncodeAll(rs: seq<ChunkRecord>): seq<U8>
  {
    if rs == [] then [] else Encode(rs[0]) + EncodeAll(rs[1..])
  }

  /** A whole file: the signature, then the chunks. */
  function EncodeFile(rs: seq<ChunkRecord>): seq<U8>
  {
    Signature + EncodeAll(rs)
  }

  predicate AllWellFormed(rs: seq<ChunkRecord>)
  {
    forall i :: 0 <= i < |rs| ==> WellFormed(rs[i])
  }

  /**
   * Reads chunks from `pos` until the end of `s`, failing on the first chunk
   * that is truncated or has a bad tag.
   */
  function ParseChunks(s: seq<U8>, pos: nat): (r: Result<seq<ChunkRecord>, ParseError>)
    requires pos <= |s|
    ensures r.Failure? ==> (r.error.Truncated? || r.error.InvalidTag?) && pos <= r.error.offset < |s|
    decreases |s| - pos
  {
    if pos == |s| then Success([])
    else match ReadChunk(s, pos)
      case Failure(e) => Failure(e)
      case Success(r) =>
        match ParseChunks(s, pos + Size(r))
        case Failure(e) => Failure(e)
        case Success(rest) => Success([r] + rest)
  }

  /** The part of `stream` the reader may consume when told that the total is `size` bytes. */
  function Visible(stream: seq<U8>, size: nat): seq<U8>
  {
    if size <= |stream| then stream[..size] else stream
  }

  /**
   * Parses a stream whose total size is declared to be `size`: the signature
   * must be present and exact, then chunks follow until exactly `size` bytes
   * are consumed. A stream shorter than declared is truncated where it ends.
   */
  function ParseStream(stream: seq<U8>, size: nat): (r: Result<seq<ChunkRecord>, ParseError>)
    ensures r.Success? ==> |Signature| <= size <= |stream| && stream[..|Signature|] == Signature
    ensures |stream| < size ==> r.Failure?
  {
    var s := Visible(stream, size);
    if |s| < |Signature| then Failure(Truncated(0))
    else if s[..|Signature|] != Signature then Failure(NotPng)
    else match ParseChunks(s, |Signature|)
      case Failure(e) => Failure(e)
      case Success(rs) => if |stream| < size then Failure(Truncated(|stream|)) else Success(rs)
  }

  lemma EncodeAllAppend(rs: seq<ChunkRecord>, r: ChunkRecord)
    ensures EncodeAll(rs + [r]) == EncodeAll(rs) + Encode(r)
    decreases |rs|
  {
    if rs == [] {
      assert rs + [r] == [r];
    } else {
      assert (rs + [r])[1..] == rs[1..] + [r];
      EncodeAllAppend(rs[1..], r);
    }
  }

  /** The chunks up to and including position `i` are written as those before it, then chunk `i`. */
  lemma EncodeAllPrefix(rs: seq<ChunkRecord>, i: nat)
    requires i < |rs|
    ensures EncodeAll(rs[..i + 1]) == EncodeAll(rs[..i]) + Encode(rs[i])
  {
    assert rs[..i + 1] == rs[..i] + [rs[i]];
    EncodeAllAppend(rs[..i], rs[i]);
  }

  /** One step of the reader: a chunk read at `pos`, then the chunks after it. */
  lemma ParseChunksStep(s: seq<U8>, pos: nat, r: ChunkRecord, next: nat, rest: seq<ChunkRecord>)
    requires pos < |s| && ReadChunk(s, pos) == Success(r)
    requires next == pos + Size(r) <= |s| && ParseChunks(s, next) == Success(rest)
    ensures ParseChunks(s, pos) == Success([r] + rest)
  {
  }

  lemma EncodeAllCons(rs: seq<ChunkRecord>)
    requires rs != []
    ensures EncodeAll(rs) == Encode(rs[0]) + EncodeAll(rs[1..])
    ensures |Encode(rs[0])| == Size(rs[0])
  {
  }

  /** A written chunk followed by chunks that read back is read back first. */
  lemma ParseChunksAfterEncode(p: seq<U8>, r: ChunkRecord, t: seq<U8>, rest: seq<ChunkRecord>)
    requires WellFormed(r)
    requires ParseChunks(p + Encode(r) + t, |p + Encode(r)|) == Success(rest)
    ensures ParseChunks(p + Encode(r) + t, |p|) == Success([r] + rest)
  {
    var s := p + Encode(r) + t;
    ReadChunkOfEncode(p, r, t);
    assert |p + Encode(r)| == |p| + Size(r);
    ParseChunksStep(s, |p|, r, |p + Encode(r)|, rest);
  }

  /** Chunks written one after another are read back one by one, whatever precedes them. */
  lemma {:induction false} ParseChunksOfEncodeAll(p: seq<U8>, rs: seq<ChunkRecord>)
    requires AllWellFormed(rs)
    ensures ParseChunks(p + EncodeAll(rs), |p|) == Success(rs)
    decreases |rs|
  {
    if rs == [] {
      assert p + EncodeAll(rs) == p;
    } else {
      var e, t := Encode(rs[0]), EncodeAll(rs[1..]);
      EncodeAllCons(rs);
      assert p + EncodeAll(rs) == p + e + t;
      ParseChunksOfEncodeAll(p + e, rs[1..]);
      ParseChunksAfterEncode(p, rs[0], t, rs[1..]);
      assert [rs[0]] + rs[1..] == rs;
    }
  }

  /** The first step of a successful read: one chunk `r` at `pos`, then the chunks `rest` after it. */
  lemma ParseChunksUnfold(s: seq<U8>, pos: nat) returns (r: ChunkRecord, rest: seq<ChunkRecord>)
    requires pos < |s| && ParseChunks(s, pos).Success?
    ensures ReadChunk(s, pos) == Success(r) && pos + Size(r) <= |s|
    ensures ParseChunks(s, pos + Size(r)) == Success(rest)
    ensures ParseChunks(s, pos) == Success([r] + rest)
  {
    r := ReadChunk(s, pos).value;
    rest := ParseChunks(s, pos + Size(r)).value;
  }

  lemma SliceSplit(s: seq<U8>, a: nat, b: nat)
    requires a <= b <= |s|
    ensures s[a..] == s[a..b] + s[b..]
  {
  }

  /** Every chunk the reader returns is well formed. */
  lemma {:induction false} ParseChunksWellFormed(s: seq<U8>, pos: nat)
    requires pos <= |s| && ParseChunks(s, pos).Success?
    ensures AllWellFormed(ParseChunks(s, pos).value)
    decreases |s| - pos
  {
    if pos < |s| {
      var r, rest := ParseChunksUnfold(s, pos);
      ParseChunksWellFormed(s, pos + Size(r));
      assert forall i :: 1 <= i < |[r] + rest| ==> ([r] + rest)[i] == rest[i - 1];
    }
  }

  /** What the reader returns writes back to exactly the bytes it read. */
  lemma {:induction false} EncodeAllOfParseChunks(s: seq<U8>, pos: nat)
    requires pos <= |s| && ParseChunks(s, pos).Success?
    ensures EncodeAll(ParseChunks(s, pos).value) == s[pos..]
    decreases |s| - pos
  {
    if pos < |s| {
      var r, rest := ParseChunksUnfold(s, pos);
      var next := pos + Size(r);
      EncodeAllOfParseChunks(s, next);
      assert EncodeAll(rest) == s[next..];
      ReadChunkEncodes(s, pos);
      assert Encode(r) == s[pos..next];
      var rs := [r] + rest;
      assert rs[0] == r && rs[1..] == rest;
      EncodeAllCons(rs);
      SliceSplit(s, pos, next);
      assert EncodeAll(rs) == s[pos..];
    } else {
      assert ParseChunks(s, pos).value == [];
    }
  }

  /** A written file parses back to the chunks it was written from. */
  lemma ParseStreamOfEncodeFile(rs: seq<ChunkRecord>)
    requires AllWellFormed(rs)
    ensures ParseStream(EncodeFile(rs), |EncodeFile(rs)|) == Success(rs)
  {
    var s := EncodeFile(rs);
    assert Visible(s, |s|) == s;
    assert s[..|Signature|] == Signature;
    ParseChunksOfEncodeAll(Signature, rs);
  }

  /** A file that parses writes back to itself byte for byte, from well-formed chunks. */
  lemma EncodeFileOfParseStream(s: seq<U8>)
    requires ParseStream(s, |s|).Success?
    ensures AllWellFormed(ParseStream(s, |s|).value)
    ensures EncodeFile(ParseStream(s, |s|).value) == s
  {
    assert Visible(s, |s|) == s;
    ParseChunksWellFormed(s, |Signature|);
    EncodeAllOfParseChunks(s, |Signature|);
    assert s == s[..|Signature|] + s[|Signature|..];
  }
}
