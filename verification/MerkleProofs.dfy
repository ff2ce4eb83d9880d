/** What a key commits to, and what every entry of a reachable store looks like. */
module MerkleProofs {
  import opened Bytes
  import opened Schema
  import opened Storage
  import opened MerkleDag

  // ----- Binding: equal keys, equal files

  lemma LargeFilesHaveLinks(hash: Hash, file: Bytes)
    requires |file| > CHUNK_SIZE
    ensures |MetaOf(hash, file).links| >= 2
  {
    assert |Chunks(file)| == 1 + |Chunks(file[CHUNK_SIZE..])|;
  }

  lemma EqualBlobsEqualChunks(a: Bytes, b: Bytes)
    requires |a| <= CHUNK_SIZE && |b| <= CHUNK_SIZE
    requires ChunkBlob(a) == ChunkBlob(b)
    ensures a == b
  {
    ChunkDecodes(a);
    ChunkDecodes(b);
  }

  lemma LargeBinding(hash: Hash, f: Bytes, g: Bytes)
    requires |f| > CHUNK_SIZE && |g| > CHUNK_SIZE
    requires MetaOf(hash, f) == MetaOf(hash, g)
    requires !HasCollision(hash, SetOf(Blobs(hash, f)) + SetOf(Blobs(hash, g)))
    ensures f == g
  {
    var a, b := ChunkBlobs(Chunks(f)), ChunkBlobs(Chunks(g));
    assert Digests(hash, a) == Digests(hash, b);
    assert |a| == |Digests(hash, a)| == |b|;
    forall i | 0 <= i < |a| ensures Chunks(f)[i] == Chunks(g)[i] {
      assert a[i] == Blobs(hash, f)[i] && b[i] == Blobs(hash, g)[i];
      assert a[i] in SetOf(Blobs(hash, f)) && b[i] in SetOf(Blobs(hash, g));
      assert Digests(hash, a)[i] == Digests(hash, b)[i];
      assert !Collide(hash, a[i], b[i]);
      EqualBlobsEqualChunks(Chunks(f)[i], Chunks(g)[i]);
    }
    assert Chunks(f) == Chunks(g);
    ConcatChunks(f);
    ConcatChunks(g);
  }

  /** A key commits to its file: two files with one key are equal, or two of their blobs collide. */
  lemma Binding(hash: Hash, f: Bytes, g: Bytes)
    requires FileKey(hash, f) == FileKey(hash, g)
    ensures f == g || HasCollision(hash, SetOf(Blobs(hash, f)) + SetOf(Blobs(hash, g)))
  {
    var all := SetOf(Blobs(hash, f)) + SetOf(Blobs(hash, g));
    if !HasCollision(hash, all) {
      var mf, mg := MetaBlob(hash, f), MetaBlob(hash, g);
      assert mf == Blobs(hash, f)[|Blobs(hash, f)| - 1] && mg == Blobs(hash, g)[|Blobs(hash, g)| - 1];
      assert mf in all && mg in all;
      assert !Collide(hash, mf, mg);
      MetaDecodes(hash, f);
      MetaDecodes(hash, g);
      if |f| > CHUNK_SIZE && |g| > CHUNK_SIZE {
        LargeBinding(hash, f, g);
      } else if |f| > CHUNK_SIZE {
        LargeFilesHaveLinks(hash, f);
      } else if |g| > CHUNK_SIZE {
        LargeFilesHaveLinks(hash, g);
      }
    }
  }

  // ----- The store invariant

  predicate IsDagKey(key: Bytes) { DagPrefix() <= key }

  ghost function DagValues(s: Store): set<Bytes> {
    set k | k in s && IsDagKey(k) :: s[k]
  }

  ghost predicate IsChunkBlob(b: Bytes) {
    exists c: Bytes :: 1 <= |c| <= CHUNK_SIZE && b == ChunkBlob(c)
  }

  ghost predicate IsCompleteMeta(hash: Hash, s: Store, b: Bytes) {
    exists f: Bytes :: b == MetaBlob(hash, f) && Stored(hash, s, Blobs(hash, f))
  }

  /** Each entry sits under its own hash, and is a chunk or the top of a file that is all there. */
  ghost predicate DagInv(hash: Hash, s: Store) {
    forall k :: k in s && IsDagKey(k) ==>
      k == DagKey(hash(s[k])) && (IsChunkBlob(s[k]) || IsCompleteMeta(hash, s, s[k]))
  }

  /** `s'` still has every entry of the file store that `s` has. */
  ghost predicate DagExtends(s: Store, s': Store) {
    forall k :: k in s && IsDagKey(k) ==> k in s' && s'[k] == s[k]
  }

  lemma DagKeyIsDagKey(id: Bytes)
    ensures IsDagKey(DagKey(id))
  {
  }

  lemma StoredExtends(hash: Hash, s: Store, s': Store, blobs: seq<Bytes>)
    requires DagExtends(s, s') && Stored(hash, s, blobs)
    ensures Stored(hash, s', blobs)
  {
    forall i | 0 <= i < |blobs| ensures Lookup(s', DagKey(hash(blobs[i]))) == Found(blobs[i]) {
      DagKeyIsDagKey(hash(blobs[i]));
      assert Lookup(s, DagKey(hash(blobs[i]))) == Found(blobs[i]);
    }
  }

  /** Every entry after writing was there before or is one of the blobs under its own hash. */
  lemma {:induction false} WriteAllOrigin(hash: Hash, s: Store, blobs: seq<Bytes>, k: Bytes)
    requires k in WriteAll(hash, s, blobs)
    ensures var v := WriteAll(hash, s, blobs)[k];
            (k in s && s[k] == v) || (v in blobs && k == DagKey(hash(v)))
  {
    if |blobs| > 0 {
      var last := blobs[|blobs| - 1];
      if k != DagKey(hash(last)) {
        WriteAllOrigin(hash, s, blobs[..|blobs| - 1], k);
      }
    }
  }

  lemma WriteAllExtends(hash: Hash, s: Store, blobs: seq<Bytes>)
    requires DagInv(hash, s)
    requires !HasCollision(hash, DagValues(s) + SetOf(blobs))
    ensures DagExtends(s, WriteAll(hash, s, blobs))
  {
    forall k | k in s && IsDagKey(k)
      ensures Lookup(WriteAll(hash, s, blobs), k) == Found(s[k])
    {
      var b := s[k];
      forall i | 0 <= i < |blobs| ensures !Collide(hash, b, blobs[i]) {
        assert b in DagValues(s) && blobs[i] in SetOf(blobs);
      }
      WriteAllKeeps(hash, s, blobs, b);
    }
  }

  lemma BlobIsExplained(hash: Hash, s: Store, file: Bytes, n: nat, b: Bytes)
    requires n <= |Blobs(hash, file)| && b in Blobs(hash, file)[..n]
    requires Stored(hash, s, Blobs(hash, file)[..n])
    ensures IsChunkBlob(b) || IsCompleteMeta(hash, s, b)
  {
    hide EncodeNode;
    var blobs := Blobs(hash, file);
    var i :| 0 <= i < n && blobs[..n][i] == b;
    if i == |blobs| - 1 {
      assert blobs[..n] == blobs;
      assert b == MetaBlob(hash, file);
    } else {
      var c := Chunks(file)[i];
      assert b == ChunkBlob(c);
    }
  }

  lemma SubsetKeepsCollisionFree(hash: Hash, small: set<Bytes>, large: set<Bytes>)
    requires small <= large && !HasCollision(hash, large)
    ensures !HasCollision(hash, small)
  {
  }

  /** Saving a file, complete or cut short by a failed write, keeps the invariant, or a collision occurred. */
  lemma SavingKeepsDagInv(hash: Hash, s: Store, file: Bytes, n: nat)
    requires DagInv(hash, s) && n <= |Blobs(hash, file)|
    ensures DagInv(hash, WriteAll(hash, s, Blobs(hash, file)[..n]))
         || HasCollision(hash, DagValues(s) + SetOf(Blobs(hash, file)))
  {
    var blobs := Blobs(hash, file)[..n];
    var all := DagValues(s) + SetOf(Blobs(hash, file));
    var s' := WriteAll(hash, s, blobs);
    if !HasCollision(hash, all) {
      assert SetOf(blobs) <= SetOf(Blobs(hash, file));
      SubsetKeepsCollisionFree(hash, SetOf(blobs), all);
      SubsetKeepsCollisionFree(hash, DagValues(s) + SetOf(blobs), all);
      WriteAllStores(hash, s, blobs);
      WriteAllExtends(hash, s, blobs);
      forall k | k in s' && IsDagKey(k)
        ensures k == DagKey(hash(s'[k])) && (IsChunkBlob(s'[k]) || IsCompleteMeta(hash, s', s'[k]))
      {
        WriteAllOrigin(hash, s, blobs, k);
        if k in s && s[k] == s'[k] {
          ExplainedExtends(hash, s, s', s[k]);
        } else {
          BlobIsExplained(hash, s', file, n, s'[k]);
        }
      }
    }
  }

  lemma ExplainedExtends(hash: Hash, s: Store, s': Store, b: Bytes)
    requires DagExtends(s, s')
    requires IsChunkBlob(b) || IsCompleteMeta(hash, s, b)
    ensures IsChunkBlob(b) || IsCompleteMeta(hash, s', b)
  {
    if IsCompleteMeta(hash, s, b) {
      var f :| b == MetaBlob(hash, f) && Stored(hash, s, Blobs(hash, f));
      StoredExtends(hash, s, s', Blobs(hash, f));
    }
  }

  /** A write under any other prefix keeps the invariant. */
  lemma ForeignWriteKeepsDagInv(hash: Hash, s: Store, key: Bytes, value: Bytes)
    requires DagInv(hash, s) && !IsDagKey(key)
    ensures DagInv(hash, s[key := value]) && DagExtends(s, s[key := value])
    ensures DagValues(s[key := value]) == DagValues(s)
  {
    var s' := s[key := value];
    forall k | k in s' && IsDagKey(k)
      ensures k == DagKey(hash(s'[k])) && (IsChunkBlob(s'[k]) || IsCompleteMeta(hash, s', s'[k]))
    {
      ExplainedExtends(hash, s, s', s[k]);
    }
  }

  // ----- What the invariant says about an entry

  /** The node a link leads to. */
  function Child(s: Store, link: Bytes): MerkleNode {
    match Lookup(s, DagKey(link))
    case Found(b) => DecodeNode(b).node
    case _ => EmptyNode
  }

  function SumSizes(s: Store, links: seq<Bytes>): nat {
    if |links| == 0 then 0 else Child(s, links[0]).size + SumSizes(s, links[1..])
  }

  /** A link resolves to a FILE_CHUNK that says its own length. */
  ghost predicate ResolvesToChunk(s: Store, link: Bytes) {
    && DagKey(link) in s
    && DecodeNode(s[DagKey(link)]).ok
    && Child(s, link).kind == FILE_CHUNK
    && Child(s, link).links == []
    && Child(s, link).size == |Child(s, link).data|
    && 1 <= |Child(s, link).data| <= CHUNK_SIZE
  }

  ghost predicate WellFormedMeta(s: Store, n: MerkleNode) {
    && n.kind == META_LINK
    && (n.links == [] ==> |n.data| <= CHUNK_SIZE && n.size == |n.data|)
    && (n.links != [] ==>
      && n.data == [] && |n.links| >= 2
      && (forall i :: 0 <= i < |n.links| ==> ResolvesToChunk(s, n.links[i]))
      && (forall i :: 0 <= i < |n.links| - 1 ==> |Child(s, n.links[i]).data| == CHUNK_SIZE)
      && n.size == SumSizes(s, n.links) % TWO_64
      && exists f :: Assemble(s, n.links) == File(f) && n.size == |f| % TWO_64)
  }

  ghost predicate WellFormedChunk(n: MerkleNode) {
    n.kind == FILE_CHUNK && n.links == [] && n.size == |n.data| && 1 <= |n.data| <= CHUNK_SIZE
  }

  lemma {:induction false} SumOfChunkSizes(s: Store, links: seq<Bytes>, chunks: seq<Bytes>)
    requires |links| == |chunks|
    requires forall i :: 0 <= i < |links| ==> Child(s, links[i]).size == |chunks[i]|
    ensures SumSizes(s, links) == |Concat(chunks)|
  {
    if |chunks| > 0 {
      SumOfChunkSizes(s, links[1..], chunks[1..]);
    }
  }

  lemma LinkResolves(hash: Hash, s: Store, chunk: Bytes)
    requires 1 <= |chunk| <= CHUNK_SIZE
    requires Lookup(s, DagKey(hash(ChunkBlob(chunk)))) == Found(ChunkBlob(chunk))
    ensures ResolvesToChunk(s, hash(ChunkBlob(chunk)))
    ensures Child(s, hash(ChunkBlob(chunk))).data == chunk
  {
    ChunkDecodes(chunk);
  }

  lemma LargeMetaIsWellFormed(hash: Hash, s: Store, file: Bytes)
    requires |file| > CHUNK_SIZE && Stored(hash, s, Blobs(hash, file))
    ensures WellFormedMeta(s, MetaOf(hash, file))
  {
    var n, chunks := MetaOf(hash, file), Chunks(file);
    var blobs := ChunkBlobs(chunks);
    LargeFilesHaveLinks(hash, file);
    forall i | 0 <= i < |blobs| ensures Lookup(s, DagKey(hash(blobs[i]))) == Found(blobs[i]) {
      assert blobs[i] == Blobs(hash, file)[i];
    }
    forall i | 0 <= i < |n.links|
      ensures ResolvesToChunk(s, n.links[i]) && Child(s, n.links[i]).data == chunks[i]
      ensures Child(s, n.links[i]).size == |chunks[i]|
    {
      assert n.links[i] == hash(blobs[i]);
      LinkResolves(hash, s, chunks[i]);
    }
    SumOfChunkSizes(s, n.links, chunks);
    AssembleChunks(hash, s, chunks);
    ConcatChunks(file);
  }

  ghost predicate WellFormedEntry(s: Store, d: DecodedNode) {
    d.ok && (WellFormedChunk(d.node) || WellFormedMeta(s, d.node))
  }

  lemma FileMetaIsWellFormed(hash: Hash, s: Store, file: Bytes)
    requires Stored(hash, s, Blobs(hash, file))
    ensures WellFormedEntry(s, DecodedNode(MetaOf(hash, file), true))
  {
    if |file| > CHUNK_SIZE {
      LargeMetaIsWellFormed(hash, s, file);
    }
  }

  lemma CompleteMetaIsWellFormed(hash: Hash, s: Store, b: Bytes)
    requires IsCompleteMeta(hash, s, b)
    ensures WellFormedEntry(s, DecodeNode(b))
  {
    var f :| b == MetaBlob(hash, f) && Stored(hash, s, Blobs(hash, f));
    MetaDecodes(hash, f);
    FileMetaIsWellFormed(hash, s, f);
  }

  lemma ChunkIsWellFormed(s: Store, c: Bytes)
    requires 1 <= |c| <= CHUNK_SIZE
    ensures WellFormedEntry(s, DecodedNode(ChunkNode(c), true))
  {
  }

  lemma ChunkBlobIsWellFormed(s: Store, b: Bytes)
    requires IsChunkBlob(b)
    ensures WellFormedEntry(s, DecodeNode(b))
  {
    var c: Bytes :| 1 <= |c| <= CHUNK_SIZE && b == ChunkBlob(c);
    ChunkDecodes(c);
    ChunkIsWellFormed(s, c);
  }

  /** Every entry decodes, to a chunk or to a META_LINK all of whose links resolve with matching sizes. */
  lemma EveryEntryIsWellFormed(hash: Hash, s: Store, key: Bytes)
    requires DagInv(hash, s) && key in s && IsDagKey(key)
    ensures key == DagKey(hash(s[key])) && WellFormedEntry(s, DecodeNode(s[key]))
  {
    var b := s[key];
    if IsChunkBlob(b) {
      ChunkBlobIsWellFormed(s, b);
    } else {
      CompleteMetaIsWellFormed(hash, s, b);
    }
  }

  // ----- What a key is answered with

  lemma AbsentIsMissing(s: Store, id: Bytes)
    requires DagKey(id) !in s
    ensures FindFile(s, id) == Missing
  {
  }

  lemma UndecodableIsCorrupt(s: Store, id: Bytes)
    requires DagKey(id) in s && !DecodeNode(s[DagKey(id)]).ok
    ensures FindFile(s, id) == Corrupt
  {
  }

  function ChildData(s: Store, links: seq<Bytes>): (parts: seq<Bytes>)
    ensures |parts| == |links|
    ensures forall i :: 0 <= i < |links| ==> parts[i] == Child(s, links[i]).data
  {
    seq(|links|, i requires 0 <= i < |links| => Child(s, links[i]).data)
  }

  /** Links assemble to the data of their children in order; one absent child fails them all. */
  lemma {:induction false} AssembleExactly(s: Store, links: seq<Bytes>)
    ensures Assemble(s, links) ==
            if forall i :: 0 <= i < |links| ==> DagKey(links[i]) in s then File(Concat(ChildData(s, links)))
            else Missing
  {
    hide DecodeNode, DagKey;
    if |links| > 0 {
      AssembleExactly(s, links[1..]);
      assert ChildData(s, links)[1..] == ChildData(s, links[1..]);
      if forall i :: 0 <= i < |links| ==> DagKey(links[i]) in s {
        forall i | 0 <= i < |links[1..]| ensures DagKey(links[1..][i]) in s {
          assert links[1..][i] == links[i + 1];
        }
      } else if DagKey(links[0]) in s {
        var i :| 0 <= i < |links| && DagKey(links[i]) !in s;
        assert links[1..][i - 1] == links[i];
      }
    }
  }

  /** Any stored node is read: a META_LINK without data from its links, every other node from its own data. */
  lemma StoredNodeIsRead(s: Store, id: Bytes, n: MerkleNode)
    requires NodeFits(n) && Lookup(s, DagKey(id)) == Found(EncodeNode(n))
    ensures FindFile(s, id) ==
            if n.kind != META_LINK || n.data != [] then File(n.data)
            else if forall i :: 0 <= i < |n.links| ==> DagKey(n.links[i]) in s then File(Concat(ChildData(s, n.links)))
            else Missing
  {
    hide EncodeNode, DecodeNode;
    NodeRoundTrip(n);
    AssembleExactly(s, n.links);
  }

  /** So a chunk is found under its own hash. */
  lemma StoredChunkIsFound(hash: Hash, s: Store, chunk: Bytes)
    requires |chunk| <= CHUNK_SIZE && Lookup(s, DagKey(hash(ChunkBlob(chunk)))) == Found(ChunkBlob(chunk))
    ensures FindFile(s, hash(ChunkBlob(chunk))) == File(chunk)
  {
    StoredNodeIsRead(s, hash(ChunkBlob(chunk)), ChunkNode(chunk));
  }

  /** And a file of which one chunk is absent is not found at all. */
  lemma AbsentChunkIsMissing(hash: Hash, s: Store, file: Bytes, i: nat)
    requires |file| > CHUNK_SIZE && Lookup(s, DagKey(FileKey(hash, file))) == Found(MetaBlob(hash, file))
    requires i < |Chunks(file)| && DagKey(hash(ChunkBlob(Chunks(file)[i]))) !in s
    ensures FindFile(s, FileKey(hash, file)) == Missing
  {
    hide EncodeNode, DecodeNode;
    var n := MetaOf(hash, file);
    MetaDecodes(hash, file);
    AssembleExactly(s, n.links);
    assert n.links[i] == hash(ChunkBlobs(Chunks(file))[i]);
  }
}
