/**
 * The chunk collection: the chunks of one PNG stream in stream order, the
 * index that groups them by tag, and the operations that find, replace or
 * insert the eXIf chunk and write the whole stream back.
 */
module ChunkSlices {
  import opened Wrappers
  import opened ByteOrder
  import opened Chunks
  import opened ChunkStream

  /** Why a collection operation failed. */
  datatype SliceError =
    | NoExif                                    // there is no eXIf chunk
    | NoAnchor                                  // there is no first chunk to insert the eXIf chunk after
    | Unwritable(position: nat, cause: ChunkError)  // the chunk at `position` could not be written

  /** The eXIf payload length as Go's uint32 conversion of len(data) yields it. */
  function Uint32Length(data: seq<U8>): U32
  {
    |data| % 0x1_0000_0000
  }

  /** The eXIf chunk that carries `data`, with its CRC computed. */
  function ExifRecord(data: seq<U8>): ChunkRecord
  {
    ChunkRecord(Uint32Length(data), ExifTag, data, CalculateCrc(ExifTag, data))
  }

  /** Where the first chunk with tag `t` is, if there is one. */
  function FirstOfType(rs: seq<ChunkRecord>, t: Tag): (r: Option<nat>)
    ensures r.Some? ==> r.value < |rs| && rs[r.value].tag == t
    ensures r.Some? ==> forall i :: 0 <= i < r.value ==> rs[i].tag != t
    ensures r.None? ==> forall i :: 0 <= i < |rs| ==> rs[i].tag != t
  {
    if rs == [] then None
    else if rs[0].tag == t then Some(0)
    else match FirstOfType(rs[1..], t)
      case None => None
      case Some(k) => Some(k + 1)
  }

  /** Where the first chunk whose declared length differs from its payload is, if there is one. */
  function FirstInconsistent(rs: seq<ChunkRecord>): (r: Option<nat>)
    ensures r.Some? ==> r.value < |rs| && !LengthConsistent(rs[r.value])
    ensures r.Some? ==> forall i :: 0 <= i < r.value ==> LengthConsistent(rs[i])
    ensures r.None? ==> forall i :: 0 <= i < |rs| ==> LengthConsistent(rs[i])
  {
    if rs == [] then None
    else if !LengthConsistent(rs[0]) then Some(0)
    else match FirstInconsistent(rs[1..])
      case None => None
      case Some(k) => Some(k + 1)
  }

  /**
   * The chunks after the eXIf payload is set to `data`: the first eXIf chunk
   * is replaced where it stands, or, when there is none, a new one goes right
   * after the first chunk (the image header); with no chunks at all there is
   * nothing to anchor it to.
   */
  function PlaceExif(rs: seq<ChunkRecord>, data: seq<U8>): (r: Result<seq<ChunkRecord>, SliceError>)
    ensures r.Failure? <==> rs == []
    ensures r.Failure? ==> r.error == NoAnchor
  {
    match FirstOfType(rs, ExifTag)
    case Some(k) => Success(rs[k := ExifRecord(data)])
    case None =>
      if rs == [] then Failure(NoAnchor)
      else Success(rs[..1] + [ExifRecord(data)] + rs[1..])
  }

  /** The tag of every chunk, in order. */
  function TagsOf(cs: seq<Chunk>): seq<Tag>
    reads cs
  {
    if cs == [] then [] else TagsOf(cs[..|cs| - 1]) + [cs[|cs| - 1].tag]
  }

  /** The current value of every chunk, in order. */
  function RecordsOf(cs: seq<Chunk>): (r: seq<ChunkRecord>)
    reads cs
    ensures |r| == |cs|
    ensures forall i :: 0 <= i < |cs| ==> r[i] == cs[i].Record()
  {
    if cs == [] then [] else [cs[0].Record()] + RecordsOf(cs[1..])
  }

  /** The chunks of `cs` whose tag is `t`, in order: one bucket of the index. */
  function Bucket(cs: seq<Chunk>, t: Tag): (r: seq<Chunk>)
    reads cs
    ensures |r| <= |cs| && forall c :: c in r ==> c in cs
  {
    if cs == [] then []
    else
      var last := cs[|cs| - 1];
      Bucket(cs[..|cs| - 1], t) + (if last.tag == t then [last] else [])
  }

  /**
   * What writing the chunks `rs` reports: success when every chunk's declared
   * length matches its payload, otherwise the first chunk that does not.
   */
  function WriteOutcome(rs: seq<ChunkRecord>): Outcome<SliceError>
  {
    match FirstInconsistent(rs)
    case None => Pass
    case Some(k) => Fail(Unwritable(k, LengthMismatch(rs[k].length, |rs[k].data|)))
  }

  /** The bytes writing the chunks `rs` emits: the signature, then every chunk before the first one that cannot be written. */
  function Written(rs: seq<ChunkRecord>): seq<U8>
  {
    match FirstInconsistent(rs)
    case None => EncodeFile(rs)
    case Some(k) => Signature + EncodeAll(rs[..k])
  }

  /** No chunk object appears twice in the sequence. */
  predicate Distinct(cs: seq<Chunk>)
  {
    forall i, j :: 0 <= i < j < |cs| ==> cs[i] != cs[j]
  }

  lemma DistinctInsert(cs: seq<Chunk>, e: Chunk)
    requires Distinct(cs) && e !in cs && cs != []
    ensures Distinct(cs[..1] + [e] + cs[1..])
  {
    var ds := cs[..1] + [e] + cs[1..];
    forall i, j | 0 <= i < j < |ds|
      ensures ds[i] != ds[j]
    {
      if i == 1 {
        assert ds[j] == cs[j - 1];
      } else if j == 1 {
        assert ds[i] == cs[0];
      } else {
        assert ds[i] == cs[if i == 0 then 0 else i - 1];
        assert ds[j] == cs[j - 1];
      }
    }
  }

  /** Every chunk in the bucket of `t` is one of the chunks, with tag `t`. */
  lemma {:induction false} BucketSound(cs: seq<Chunk>, t: Tag)
    ensures forall c :: c in Bucket(cs, t) ==> c in cs && c.tag == t
    decreases |cs|
  {
    if cs != [] {
      BucketSound(cs[..|cs| - 1], t);
    }
  }

  /** Every chunk with tag `t` is in the bucket of `t`. */
  lemma {:induction false} BucketComplete(cs: seq<Chunk>, t: Tag)
    ensures forall i :: 0 <= i < |cs| && cs[i].tag == t ==> cs[i] in Bucket(cs, t)
    decreases |cs|
  {
    if cs != [] {
      var n := |cs| - 1;
      var init := cs[..n];
      BucketComplete(init, t);
      forall i | 0 <= i < |cs| && cs[i].tag == t
        ensures cs[i] in Bucket(cs, t)
      {
        if i < n {
          assert init[i] == cs[i];
        }
      }
    }
  }

  /** The bucket of `t` has as many chunks as there are chunks with tag `t`. */
  lemma {:induction false} BucketCount(cs: seq<Chunk>, t: Tag)
    ensures |Bucket(cs, t)| == multiset(TagsOf(cs))[t]
    decreases |cs|
  {
    if cs != [] {
      BucketCount(cs[..|cs| - 1], t);
    }
  }

  /** The bucket of `t` is empty exactly when no chunk has tag `t`. */
  lemma BucketNonEmpty(cs: seq<Chunk>, t: Tag)
    ensures Bucket(cs, t) != [] <==> exists i :: 0 <= i < |cs| && cs[i].tag == t
  {
    BucketSound(cs, t);
    BucketComplete(cs, t);
    if Bucket(cs, t) != [] {
      var c := Bucket(cs, t)[0];
      assert c in Bucket(cs, t);
      var i :| 0 <= i < |cs| && cs[i] == c;
    }
  }

  /** The bucket of `t` is empty exactly when no chunk has tag `t`; otherwise it starts with the first such chunk. */
  lemma {:induction false} BucketFirst(cs: seq<Chunk>, t: Tag)
    ensures Bucket(cs, t) == [] <==> FirstOfType(RecordsOf(cs), t).None?
    ensures Bucket(cs, t) != [] ==> Bucket(cs, t)[0] == cs[FirstOfType(RecordsOf(cs), t).value]
    decreases |cs|
  {
    if cs != [] {
      var n := |cs| - 1;
      var init := cs[..n];
      BucketFirst(init, t);
      var rs, ri := RecordsOf(cs), RecordsOf(init);
      assert forall i :: 0 <= i < n ==> ri[i] == rs[i];
      match FirstOfType(ri, t)
      case Some(k) =>
        assert FirstOfType(rs, t) == Some(k) by { FirstOfTypeExtend(ri, rs, t); }
      case None =>
        assert FirstOfType(rs, t) == (if cs[n].tag == t then Some(n) else None) by { FirstOfTypeExtend(ri, rs, t); }
    }
  }

  /** Extending a sequence of chunks keeps its first chunk of a tag, and adds one only if there was none. */
  lemma FirstOfTypeExtend(ri: seq<ChunkRecord>, rs: seq<ChunkRecord>, t: Tag)
    requires |ri| + 1 == |rs| && forall i :: 0 <= i < |ri| ==> ri[i] == rs[i]
    ensures FirstOfType(ri, t).Some? ==> FirstOfType(rs, t) == FirstOfType(ri, t)
    ensures FirstOfType(ri, t).None? ==>
      FirstOfType(rs, t) == (if rs[|ri|].tag == t then Some(|ri|) else None)
  {
    FirstOfTypeUnique(rs, t);
  }

  /** The first chunk with tag `t` is the only position that is a tag-`t` chunk with none before it. */
  lemma FirstOfTypeUnique(rs: seq<ChunkRecord>, t: Tag)
    ensures forall k :: (0 <= k < |rs| && rs[k].tag == t && (forall i :: 0 <= i < k ==> rs[i].tag != t))
                        ==> FirstOfType(rs, t) == Some(k)
  {
    var f := FirstOfType(rs, t);
    forall k | 0 <= k < |rs| && rs[k].tag == t && (forall i :: 0 <= i < k ==> rs[i].tag != t)
      ensures f == Some(k)
    {
      assert f.Some?;
      assert !(f.value < k) && !(k < f.value);
    }
  }

  /** The eXIf chunk built for `data` is consistent, well formed and carries a valid CRC when `data` fits in a uint32 length. */
  lemma ExifRecordConsistent(data: seq<U8>)
    requires |data| < 0x1_0000_0000
    ensures ExifRecord(data).length == |ExifRecord(data).data| == |Encode(ExifRecord(data))| - Overhead
    ensures WellFormed(ExifRecord(data)) && CrcValid(ExifRecord(data))
    ensures ExifRecord(data).data == data
  {
    assert ValidTag(ExifTag) by {
      assert IsTagLetter(ExifTag[0]) && IsTagLetter(ExifTag[1]);
      assert IsTagLetter(ExifTag[2]) && IsTagLetter(ExifTag[3]);
    }
  }

  /** Setting the eXIf payload leaves an eXIf chunk to be found, and it carries that payload. */
  lemma PlaceExifFound(rs: seq<ChunkRecord>, data: seq<U8>)
    requires rs != []
    ensures FirstOfType(rs, ExifTag).Some? ==> FirstOfType(PlaceExif(rs, data).value, ExifTag) == FirstOfType(rs, ExifTag)
    ensures FirstOfType(rs, ExifTag).None? ==> FirstOfType(PlaceExif(rs, data).value, ExifTag) == Some(1)
    ensures FirstOfType(PlaceExif(rs, data).value, ExifTag).Some?
    ensures PlaceExif(rs, data).value[FirstOfType(PlaceExif(rs, data).value, ExifTag).value] == ExifRecord(data)
  {
    var v := PlaceExif(rs, data).value;
    match FirstOfType(rs, ExifTag)
    case Some(k) =>
      FirstOfTypeUnique(v, ExifTag);
      assert FirstOfType(v, ExifTag) == Some(k);
    case None =>
      FirstOfTypeUnique(v, ExifTag);
      assert v[0] == rs[0];
      assert FirstOfType(v, ExifTag) == Some(1);
  }

  /** Setting the same eXIf payload again changes nothing: the second call replaces the chunk the first one placed. */
  lemma PlaceExifIdempotent(rs: seq<ChunkRecord>, data: seq<U8>)
    requires rs != []
    ensures PlaceExif(PlaceExif(rs, data).value, data) == PlaceExif(rs, data)
  {
    var v := PlaceExif(rs, data).value;
    PlaceExifFound(rs, data);
    assert v[FirstOfType(v, ExifTag).value := ExifRecord(data)] == v;
  }

  /**
   * Only the eXIf position changes: a replacement keeps every other chunk where
   * it was, and an insertion shifts the chunks after the first one by one.
   */
  lemma PlaceExifKeepsOthers(rs: seq<ChunkRecord>, data: seq<U8>)
    requires rs != []
    ensures FirstOfType(rs, ExifTag).Some? ==>
      |PlaceExif(rs, data).value| == |rs| &&
      forall i :: 0 <= i < |rs| && i != FirstOfType(rs, ExifTag).value ==> PlaceExif(rs, data).value[i] == rs[i]
    ensures FirstOfType(rs, ExifTag).None? ==>
      |PlaceExif(rs, data).value| == |rs| + 1 && PlaceExif(rs, data).value[1] == ExifRecord(data) &&
      PlaceExif(rs, data).value[0] == rs[0] &&
      forall i :: 1 <= i < |rs| ==> PlaceExif(rs, data).value[i + 1] == rs[i]
  {
  }

  /** Well-formed chunks stay well formed when the eXIf payload is set to bytes that fit a uint32 length. */
  lemma PlaceExifWellFormed(rs: seq<ChunkRecord>, data: seq<U8>)
    requires AllWellFormed(rs) && |data| < 0x1_0000_0000 && rs != []
    ensures AllWellFormed(PlaceExif(rs, data).value)
  {
    var x := ExifRecord(data);
    ExifRecordConsistent(data);
    if FirstOfType(rs, ExifTag).None? {
      InsertWellFormed(rs, x);
    }
  }

  lemma InsertWellFormed(rs: seq<ChunkRecord>, x: ChunkRecord)
    requires AllWellFormed(rs) && WellFormed(x) && rs != []
    ensures AllWellFormed(rs[..1] + [x] + rs[1..])
  {
    var v := rs[..1] + [x] + rs[1..];
    assert forall i :: 2 <= i < |v| ==> v[i] == rs[i - 1];
  }

  /**
   * After the eXIf payload is set, the stream written from the chunks parses
   * back to the same chunks, and the eXIf chunk found in it carries the
   * payload with Length == len(Data) == len(Bytes()) - 12.
   */
  lemma SetExifSurvivesWrite(rs: seq<ChunkRecord>, data: seq<U8>)
    requires AllWellFormed(rs) && |data| < 0x1_0000_0000 && rs != []
    ensures var v := PlaceExif(rs, data).value;
      var reread := ParseStream(EncodeFile(v), |EncodeFile(v)|);
      reread == Success(v) &&
      FirstOfType(reread.value, ExifTag).Some? &&
      var e := reread.value[FirstOfType(reread.value, ExifTag).value];
      e.data == data && e.length == |e.data| == |Encode(e)| - Overhead && CrcValid(e)
  {
    var v := PlaceExif(rs, data).value;
    PlaceExifWellFormed(rs, data);
    ParseStreamOfEncodeFile(v);
    PlaceExifFound(rs, data);
    ExifRecordConsistent(data);
  }

  /** The values of distinct chunks after the one at `k` was given the value `x`. */
  lemma RecordsAfterReplace(cs: seq<Chunk>, before: seq<ChunkRecord>, k: nat, x: ChunkRecord)
    requires Distinct(cs) && k < |cs| && |before| == |cs|
    requires forall i :: 0 <= i < |cs| && i != k ==> cs[i].Record() == before[i]
    requires cs[k].Record() == x
    ensures RecordsOf(cs) == before[k := x]
  {
  }

  /** The values of the chunks after `e` was inserted behind the first one. */
  lemma RecordsAfterInsert(cs: seq<Chunk>, e: Chunk, before: seq<ChunkRecord>)
    requires cs != [] && |before| == |cs|
    requires forall i :: 0 <= i < |cs| ==> cs[i].Record() == before[i]
    ensures RecordsOf(cs[..1] + [e] + cs[1..]) == before[..1] + [e.Record()] + before[1..]
  {
    var ds := cs[..1] + [e] + cs[1..];
    assert forall i :: 2 <= i < |ds| ==> ds[i] == cs[i - 1];
  }

  /** The chunks of one PNG stream, in the order they are written back. */
  class ChunkSlice {
    var chunks: seq<Chunk>

    constructor (chunks: seq<Chunk>)
      requires Distinct(chunks)
      ensures this.chunks == chunks && Valid()
    {
      this.chunks := chunks;
    }

    /** Each chunk object is held once, so changing one chunk changes one position. */
    predicate Valid()
      reads this
    {
      Distinct(chunks)
    }

    /** The chunks, in stream order. */
    function Chunks(): (r: seq<Chunk>)
      reads this
      ensures |r| == |chunks| && forall i :: 0 <= i < |r| ==> r[i] == chunks[i]
    {
      chunks
    }

    /** The current value of every chunk, in stream order. */
    function Records(): seq<ChunkRecord>
      reads this, chunks
    {
      RecordsOf(chunks)
    }

    /** Groups the chunks by tag: one bucket per tag present, each in stream order. */
    method Index() returns (index: map<Tag, seq<Chunk>>)
      ensures forall t :: t in index <==> exists i :: 0 <= i < |chunks| && chunks[i].tag == t
      ensures forall t :: t in index ==> index[t] == Bucket(chunks, t)
    {
      index := map[];
      var i := 0;
      while i < |chunks|
        invariant 0 <= i <= |chunks|
        invariant forall t :: t in index <==> Bucket(chunks[..i], t) != []
        invariant forall t :: t in index ==> index[t] == Bucket(chunks[..i], t)
      {
        var c := chunks[i];
        assert chunks[..i + 1][..i] == chunks[..i];
        if c.tag in index {
          index := index[c.tag := index[c.tag] + [c]];
        } else {
          index := index[c.tag := [c]];
        }
        i := i + 1;
      }
      assert chunks[..i] == chunks;
      forall t
        ensures t in index <==> exists i :: 0 <= i < |chunks| && chunks[i].tag == t
      {
        BucketNonEmpty(chunks, t);
      }
    }

    /** The first eXIf chunk, or NoExif when there is none. */
    method FindExif() returns (r: Result<Chunk, SliceError>)
      ensures r.Success? <==> FirstOfType(Records(), ExifTag).Some?
      ensures r.Success? ==> r.value == chunks[FirstOfType(Records(), ExifTag).value]
      ensures r.Success? ==> r.value.tag == ExifTag
      ensures r.Failure? ==> r.error == NoExif
    {
      var index := Index();
      BucketFirst(chunks, ExifTag);
      if ExifTag in index {
        r := Success(index[ExifTag][0]);
      } else {
        r := Failure(NoExif);
      }
    }

    /**
     * Sets the eXIf payload: the first eXIf chunk gets the new payload and
     * length in place, or a new eXIf chunk is inserted after the first chunk;
     * either way its CRC is recomputed. An empty collection has no chunk to
     * insert after and is left as it is. No chunk's offset changes.
     */
    method SetExif(exifData: seq<U8>) returns (r: Outcome<SliceError>)
      requires Valid()
      modifies this, chunks
      ensures Valid()
      ensures r.Pass? <==> PlaceExif(old(Records()), exifData).Success?
      ensures r.Pass? ==> Records() == PlaceExif(old(Records()), exifData).value
      ensures r.Pass? ==>
        FirstOfType(Records(), ExifTag).Some? &&
        Records()[FirstOfType(Records(), ExifTag).value] == ExifRecord(exifData)
      ensures r.Fail? ==> r.error == NoAnchor && chunks == old(chunks) && Records() == old(Records())
      ensures old(FirstOfType(Records(), ExifTag)).Some? ==> chunks == old(chunks)
      ensures old(FirstOfType(Records(), ExifTag)).None? && r.Pass? ==>
        |chunks| == |old(chunks)| + 1 && chunks[..1] == old(chunks)[..1] &&
        chunks[2..] == old(chunks)[1..] && fresh(chunks[1])
      ensures forall c :: c in old(chunks) ==> c.offset == old(c.offset)
    {
      var found := FindExif();
      if found.Success? {
        ReplaceExif(found.value, FirstOfType(Records(), ExifTag).value, exifData);
      } else {
        if |chunks| == 0 {
          return Fail(NoAnchor);
        }
        InsertExif(exifData);
      }
      PlaceExifFound(old(Records()), exifData);
      r := Pass;
    }

    /** Gives the eXIf chunk `e`, held at position `k`, the payload `exifData`, its length and its CRC. */
    method ReplaceExif(e: Chunk, ghost k: nat, exifData: seq<U8>)
      requires Valid() && k < |chunks| && chunks[k] == e && e.tag == ExifTag
      modifies e`data, e`length, e`crc
      ensures Records() == old(Records())[k := ExifRecord(exifData)]
      ensures forall c :: c in chunks ==> c.offset == old(c.offset)
    {
      ghost var before := Records();
      assert forall i :: 0 <= i < |chunks| && i != k ==> chunks[i] != e;
      e.SetPayload(exifData, Uint32Length(exifData));
      RecordsAfterReplace(chunks, before, k, ExifRecord(exifData));
    }

    /** Inserts a new eXIf chunk with payload `exifData` right after the first chunk. */
    method InsertExif(exifData: seq<U8>)
      requires Valid() && chunks != []
      modifies this
      ensures Valid()
      ensures |chunks| == |old(chunks)| + 1 && chunks[..1] == old(chunks)[..1]
      ensures chunks[2..] == old(chunks)[1..] && fresh(chunks[1])
      ensures Records() == old(Records())[..1] + [ExifRecord(exifData)] + old(Records())[1..]
    {
      ghost var before := Records();
      ghost var cs := chunks;
      var e := new Chunk(0, Uint32Length(exifData), ExifTag, exifData, 0);
      DistinctInsert(chunks, e);
      chunks := chunks[..1] + [e] + chunks[1..];
      e.UpdateCrc32();
      RecordsAfterInsert(cs, e, before);
    }

    /**
     * Writes the signature and then every chunk in order, stopping at the
     * first chunk that cannot be written.
     */
    method WriteTo(w: Buffer) returns (r: Outcome<SliceError>)
      modifies w
      ensures r == WriteOutcome(old(Records()))
      ensures w.bytes == old(w.bytes) + Written(old(Records()))
    {
      ghost var rs := Records();
      ghost var start := w.bytes;
      w.Write(Signature);
      var i := 0;
      while i < |chunks|
        invariant 0 <= i <= |chunks| == |rs|
        invariant forall j :: 0 <= j < i ==> LengthConsistent(rs[j])
        invariant w.bytes == (start + Signature) + EncodeAll(rs[..i])
      {
        var c := chunks[i];
        assert c.Record() == rs[i];
        var written := c.WriteTo(w);
        if written.Failure? {
          StopAt(rs, i);
          AppendAssoc(start, Signature, EncodeAll(rs[..i]));
          return Fail(Unwritable(i, written.error));
        }
        assert c.length == |c.data|;
        EncodeAllPrefix(rs, i);
        AppendAssoc(start + Signature, EncodeAll(rs[..i]), Encode(rs[i]));
        i := i + 1;
      }
      WriteAll(rs);
      AppendAssoc(start, Signature, EncodeAll(rs[..i]));
      r := Pass;
    }
  }

  /** When every chunk can be written, the whole file is written and the write succeeds. */
  lemma WriteAll(rs: seq<ChunkRecord>)
    requires forall i :: 0 <= i < |rs| ==> LengthConsistent(rs[i])
    ensures WriteOutcome(rs) == Pass
    ensures Written(rs) == Signature + EncodeAll(rs[..|rs|])
  {
    assert FirstInconsistent(rs).None?;
    assert rs[..|rs|] == rs;
  }

  /** Well-formed chunks are all written: the write succeeds and emits the whole file. */
  lemma WrittenWellFormed(rs: seq<ChunkRecord>)
    requires AllWellFormed(rs)
    ensures WriteOutcome(rs) == Pass && Written(rs) == EncodeFile(rs)
  {
    assert forall i :: 0 <= i < |rs| ==> LengthConsistent(rs[i]);
    WriteAll(rs);
    assert rs[..|rs|] == rs;
  }

  /** When chunk `k` is the first that cannot be written, the write stops there and reports it. */
  lemma StopAt(rs: seq<ChunkRecord>, k: nat)
    requires k < |rs| && !LengthConsistent(rs[k])
    requires forall i :: 0 <= i < k ==> LengthConsistent(rs[i])
    ensures WriteOutcome(rs) == Fail(Unwritable(k, LengthMismatch(rs[k].length, |rs[k].data|)))
    ensures Written(rs) == Signature + EncodeAll(rs[..k])
  {
    FirstInconsistentIs(rs, k);
  }

  /** A position whose chunk is inconsistent and has none before it is the first inconsistent one. */
  lemma FirstInconsistentIs(rs: seq<ChunkRecord>, k: nat)
    requires k < |rs| && !LengthConsistent(rs[k])
    requires forall i :: 0 <= i < k ==> LengthConsistent(rs[i])
    ensures FirstInconsistent(rs) == Some(k)
  {
    var f := FirstInconsistent(rs);
    assert f.Some?;
    assert !(f.value < k) && !(k < f.value);
  }
}
