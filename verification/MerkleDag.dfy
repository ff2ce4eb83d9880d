/**
 The content-addressed file store: a small file is one META_LINK node, a larger one is
 a FILE_CHUNK node per 256 KiB and a META_LINK node listing their hashes. `hash` is an
 arbitrary function to 32 bytes; every guarantee reads "or a collision is exhibited".
 */
module MerkleDag {
  import opened Bytes
  import opened Wire
  import opened Schema
  import opened Storage

  const CHUNK_SIZE: nat := 1024 * 256

  type Hash = Bytes -> Digest

  // ----- What is written

  function DagPrefix(): Bytes { Ascii("dag_storage:") }

  function DagKey(id: Bytes): Bytes { DagPrefix() + id }

  function ChunkNode(chunk: Bytes): MerkleNode {
    MerkleNode(FILE_CHUNK, chunk, [], |chunk| % TWO_64)
  }

  function ChunkBlob(chunk: Bytes): Bytes { EncodeNode(ChunkNode(chunk)) }

  function MetaNode(data: Bytes, links: seq<Bytes>, size: nat): MerkleNode {
    MerkleNode(META_LINK, data, links, size % TWO_64)
  }

  /** The file cut into pieces of CHUNK_SIZE bytes, the last one possibly shorter. */
  function Chunks(file: Bytes): (cs: seq<Bytes>)
    ensures forall i :: 0 <= i < |cs| ==> 1 <= |cs[i]| <= CHUNK_SIZE
    ensures forall i :: 0 <= i < |cs| - 1 ==> |cs[i]| == CHUNK_SIZE
    decreases |file|
  {
    if |file| == 0 then []
    else if |file| <= CHUNK_SIZE then [file]
    else [file[..CHUNK_SIZE]] + Chunks(file[CHUNK_SIZE..])
  }

  function ChunkBlobs(chunks: seq<Bytes>): (bs: seq<Bytes>)
    ensures |bs| == |chunks|
    ensures forall i :: 0 <= i < |bs| ==> bs[i] == ChunkBlob(chunks[i])
  {
    seq(|chunks|, i requires 0 <= i < |chunks| => ChunkBlob(chunks[i]))
  }

  function Digests(hash: Hash, blobs: seq<Bytes>): (ds: seq<Bytes>)
    ensures |ds| == |blobs|
    ensures forall i :: 0 <= i < |ds| ==> ds[i] == hash(blobs[i])
  {
    seq(|blobs|, i requires 0 <= i < |blobs| => hash(blobs[i]))
  }

  /** The top node of a file. */
  function MetaOf(hash: Hash, file: Bytes): MerkleNode {
    if |file| <= CHUNK_SIZE then MetaNode(file, [], |file|)
    else MetaNode([], Digests(hash, ChunkBlobs(Chunks(file))), |file|)
  }

  function MetaBlob(hash: Hash, file: Bytes): Bytes { EncodeNode(MetaOf(hash, file)) }

  /** The chunk nodes of a file, none if it fits in its META_LINK. */
  function FileChunkBlobs(file: Bytes): seq<Bytes> {
    if |file| <= CHUNK_SIZE then [] else ChunkBlobs(Chunks(file))
  }

  /** Everything a file writes, in order; the META_LINK comes last. */
  function Blobs(hash: Hash, file: Bytes): seq<Bytes> {
    FileChunkBlobs(file) + [MetaBlob(hash, file)]
  }

  function FileKey(hash: Hash, file: Bytes): Digest { hash(MetaBlob(hash, file)) }

  /** The store after the blobs were written in order, each under its own hash. */
  function WriteAll(hash: Hash, s: Store, blobs: seq<Bytes>): Store {
    if |blobs| == 0 then s
    else
      var last := blobs[|blobs| - 1];
      WriteAll(hash, s, blobs[..|blobs| - 1])[DagKey(hash(last)) := last]
  }

  // ----- What is read back

  datatype FileResult = File(data: Bytes) | Missing | Corrupt | Unreadable

  function Prepend(data: Bytes, r: FileResult): FileResult {
    match r
    case File(rest) => File(data + rest)
    case _ => r
  }

  /** The children's data in link order; an error while unmarshalling a child is ignored. */
  function Assemble(s: Store, links: seq<Bytes>): FileResult {
    if |links| == 0 then File([])
    else
      match Lookup(s, DagKey(links[0]))
      case Found(b) => Prepend(DecodeNode(b).node.data, Assemble(s, links[1..]))
      case _ => Missing
  }

  function FindFile(s: Store, id: Bytes): FileResult {
    match Lookup(s, DagKey(id))
    case Found(b) =>
      var d := DecodeNode(b);
      if !d.ok then Corrupt
      else if d.node.kind == META_LINK && |d.node.data| == 0 then Assemble(s, d.node.links)
      else File(d.node.data)
    case _ => Missing
  }

  // ----- Collisions

  ghost predicate Collide(hash: Hash, a: Bytes, b: Bytes) {
    a != b && hash(a) == hash(b)
  }

  ghost predicate HasCollision(hash: Hash, blobs: set<Bytes>) {
    exists a, b :: a in blobs && b in blobs && Collide(hash, a, b)
  }

  ghost function SetOf(blobs: seq<Bytes>): set<Bytes> { set b | b in blobs }

  ghost predicate Stored(hash: Hash, s: Store, blobs: seq<Bytes>) {
    forall i :: 0 <= i < |blobs| ==> Lookup(s, DagKey(hash(blobs[i]))) == Found(blobs[i])
  }

  lemma DagKeyInjective(a: Bytes, b: Bytes)
    requires DagKey(a) == DagKey(b)
    ensures a == b
  {
    assert a == DagKey(a)[|DagPrefix()|..];
    assert b == DagKey(b)[|DagPrefix()|..];
  }

  /** A stored blob stays stored while other blobs are written, unless one of them has its hash. */
  lemma {:induction false} WriteAllKeeps(hash: Hash, s: Store, blobs: seq<Bytes>, b: Bytes)
    requires Lookup(s, DagKey(hash(b))) == Found(b)
    requires forall i :: 0 <= i < |blobs| ==> !Collide(hash, b, blobs[i])
    ensures Lookup(WriteAll(hash, s, blobs), DagKey(hash(b))) == Found(b)
  {
    if |blobs| > 0 {
      WriteAllKeeps(hash, s, blobs[..|blobs| - 1], b);
      var last := blobs[|blobs| - 1];
      if DagKey(hash(last)) == DagKey(hash(b)) {
        DagKeyInjective(hash(last), hash(b));
        assert !Collide(hash, b, last);
      }
    }
  }

  lemma {:induction false} WriteAllStores(hash: Hash, s: Store, blobs: seq<Bytes>)
    requires !HasCollision(hash, SetOf(blobs))
    ensures Stored(hash, WriteAll(hash, s, blobs), blobs)
  {
    if |blobs| > 0 {
      var n := |blobs| - 1;
      var front, last := blobs[..n], blobs[n];
      assert SetOf(front) <= SetOf(blobs);
      WriteAllStores(hash, s, front);
      var s' := WriteAll(hash, s, blobs);
      forall i | 0 <= i < n ensures Lookup(s', DagKey(hash(blobs[i]))) == Found(blobs[i]) {
        assert blobs[i] == front[i];
        assert blobs[i] in SetOf(blobs) && last in SetOf(blobs);
        assert !Collide(hash, blobs[i], last);
        if DagKey(hash(last)) == DagKey(hash(blobs[i])) {
          DagKeyInjective(hash(last), hash(blobs[i]));
        }
      }
    }
  }

  /** Writing what is already stored changes nothing. */
  lemma {:induction false} WriteAllIdempotent(hash: Hash, s: Store, blobs: seq<Bytes>)
    requires Stored(hash, s, blobs)
    ensures WriteAll(hash, s, blobs) == s
  {
    if |blobs| > 0 {
      WriteAllIdempotent(hash, s, blobs[..|blobs| - 1]);
    }
  }

  // ----- Round trip

  lemma ChunkDecodes(chunk: Bytes)
    requires |chunk| <= CHUNK_SIZE
    ensures DecodeNode(ChunkBlob(chunk)) == DecodedNode(ChunkNode(chunk), true)
  {
    NodeRoundTrip(ChunkNode(chunk));
  }

  lemma MetaDecodes(hash: Hash, file: Bytes)
    ensures DecodeNode(MetaBlob(hash, file)) == DecodedNode(MetaOf(hash, file), true)
  {
    var n := MetaOf(hash, file);
    forall i | 0 <= i < |n.links| ensures Sized(n.links[i]) {
      assert n.links[i] == hash(ChunkBlobs(Chunks(file))[i]);
    }
    NodeRoundTrip(n);
  }

  lemma {:induction false} ConcatChunks(file: Bytes)
    ensures Concat(Chunks(file)) == file
    decreases |file|
  {
    if |file| > CHUNK_SIZE {
      ConcatChunks(file[CHUNK_SIZE..]);
      assert file == file[..CHUNK_SIZE] + file[CHUNK_SIZE..];
    } else if |file| > 0 {
      assert Concat([file]) == file + Concat([file][1..]);
    }
  }

  lemma {:induction false} AssembleChunks(hash: Hash, s: Store, chunks: seq<Bytes>)
    requires forall i :: 0 <= i < |chunks| ==> |chunks[i]| <= CHUNK_SIZE
    requires Stored(hash, s, ChunkBlobs(chunks))
    ensures Assemble(s, Digests(hash, ChunkBlobs(chunks))) == File(Concat(chunks))
  {
    var blobs := ChunkBlobs(chunks);
    var links := Digests(hash, blobs);
    if |chunks| > 0 {
      assert blobs[1..] == ChunkBlobs(chunks[1..]);
      assert links[1..] == Digests(hash, blobs[1..]);
      assert Stored(hash, s, blobs[1..]) by {
        forall i | 0 <= i < |blobs[1..]|
          ensures Lookup(s, DagKey(hash(blobs[1..][i]))) == Found(blobs[1..][i])
        {
          assert blobs[1..][i] == blobs[i + 1];
        }
      }
      AssembleChunks(hash, s, chunks[1..]);
      ChunkDecodes(chunks[0]);
      assert Lookup(s, DagKey(links[0])) == Found(blobs[0]);
    }
  }

  /** A file whose blobs are all in the store is found under its key. */
  lemma StoredFileIsFound(hash: Hash, s: Store, file: Bytes)
    requires Stored(hash, s, Blobs(hash, file))
    ensures FindFile(s, FileKey(hash, file)) == File(file)
  {
    var blobs := Blobs(hash, file);
    assert blobs[|blobs| - 1] == MetaBlob(hash, file);
    MetaDecodes(hash, file);
    if |file| > CHUNK_SIZE {
      var chunks := ChunkBlobs(Chunks(file));
      forall i | 0 <= i < |chunks| ensures Lookup(s, DagKey(hash(chunks[i]))) == Found(chunks[i]) {
        assert blobs[i] == chunks[i];
      }
      AssembleChunks(hash, s, Chunks(file));
      ConcatChunks(file);
    }
  }

  /** Saving a file and reading its key back gives the file, or two of the blobs written collide. */
  lemma RoundTrip(hash: Hash, s: Store, file: Bytes)
    ensures FindFile(WriteAll(hash, s, Blobs(hash, file)), FileKey(hash, file)) == File(file)
         || HasCollision(hash, SetOf(Blobs(hash, file)))
  {
    if !HasCollision(hash, SetOf(Blobs(hash, file))) {
      WriteAllStores(hash, s, Blobs(hash, file));
      StoredFileIsFound(hash, WriteAll(hash, s, Blobs(hash, file)), file);
    }
  }

  /** Saving the same file again changes nothing, or two of its blobs collide. */
  lemma SavingTwiceIsSavingOnce(hash: Hash, s: Store, file: Bytes)
    ensures var s' := WriteAll(hash, s, Blobs(hash, file));
            WriteAll(hash, s', Blobs(hash, file)) == s' || HasCollision(hash, SetOf(Blobs(hash, file)))
  {
    var blobs := Blobs(hash, file);
    if !HasCollision(hash, SetOf(blobs)) {
      WriteAllStores(hash, s, blobs);
      WriteAllIdempotent(hash, WriteAll(hash, s, blobs), blobs);
    }
  }
}
