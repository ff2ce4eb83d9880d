/** The file store's operations on the shared key/value store. */
module MerkleStore {
  import opened Bytes
  import opened Schema
  import opened Storage
  import opened MerkleDag

  class MerkleDagStorage {
    const db: KeyValueStore
    const hash: Hash

    constructor (db: KeyValueStore, hash: Hash)
      ensures this.db == db && this.hash == hash
    {
      this.db := db;
      this.hash := hash;
    }

    method SaveAndHashData(data: Bytes) returns (key: Option<Bytes>)
      modifies db
      ensures key == Some(hash(data)) || key == None
      ensures db.failures == old(db.failures) + if key.Some? then 0 else 1
      ensures db.data == if key.Some? then old(db.data)[Ascii("dag_storage:") + hash(data) := data] else old(db.data)
    {
      var ok := db.Set(DagKey(hash(data)), data);
      key := if ok then Some(hash(data)) else None;
    }

    /**
     Writes the file's blobs in order and stops at the first write that fails: `written`
     of them are in the store, and a key is returned exactly when that is all of them.
     */
    method CalculateFileChunk(file: Bytes) returns (key: Option<Bytes>, ghost written: nat)
      modifies db
      ensures written <= |Blobs(hash, file)|
      ensures db.data == WriteAll(hash, old(db.data), Blobs(hash, file)[..written])
      ensures written == |Blobs(hash, file)| ==> key == Some(FileKey(hash, file))
      ensures written < |Blobs(hash, file)| ==> key == None
      ensures db.failures == old(db.failures) + if key.Some? then 0 else 1
    {
      hide EncodeNode, Blobs, WriteAll, Progress, CreateMetaLink, CreateFileChunk, MetaBlob, Ascii;
      if |file| <= CHUNK_SIZE {
        OnlyStep(hash, db.data, file);
        key := SaveAndHashData(CreateMetaLink(file, [], |file|));
        written := if key.Some? then 1 else 0;
        return;
      }

      var fileChunksKeys: seq<Bytes> := [];
      var i := 0;
      ghost var done: seq<Bytes> := [];
      FirstStep(hash, db.data, file);
      while i < |file|
        invariant 0 <= i
        invariant db.failures == old(db.failures)
        invariant Progress(hash, old(db.data), db.data, file, i, done, fileChunksKeys)
      {
        var end := i + CHUNK_SIZE;
        if end > |file| {
          end := |file|;
        }
        var chunk := CreateFileChunk(file[i..end]);
        StoppedEarly(hash, old(db.data), db.data, file, i, done, fileChunksKeys);
        NextStep(hash, old(db.data), db.data, file, i, done, fileChunksKeys, file[i..end]);
        var chunkKey := SaveAndHashData(chunk);
        if chunkKey == None {
          return None, |done|;
        }
        fileChunksKeys := fileChunksKeys + [chunkKey.value];
        done := done + [file[i..end]];
        i := i + CHUNK_SIZE;
      }
      LastStep(hash, old(db.data), db.data, file, i, done, fileChunksKeys);
      var metaLink := CreateMetaLink([], fileChunksKeys, |file|);
      key := SaveAndHashData(metaLink);
      written := if key.Some? then |done| + 1 else |done|;
    }

    /** A read that fails is reported; otherwise the answer is the specified one. */
    method FindFileByID(id: Bytes) returns (r: FileResult)
      modifies db`failures
      ensures if db.failures == old(db.failures) then r == FindFile(db.data, id)
              else db.failures == old(db.failures) + 1 && r == Unreadable
    {
      var nodeBytes := db.Get(DagKey(id));
      if nodeBytes == ReadError {
        return Unreadable;
      }
      if nodeBytes == KeyNotFound {
        return Missing;
      }
      var d := DecodeNode(nodeBytes.value);
      if !d.ok {
        return Corrupt;
      }
      var node := d.node;
      if node.kind == META_LINK {
        if |node.data| > 0 {
          return File(node.data);
        }
        var fullFile := [];
        var i := 0;
        while i < |node.links|
          invariant 0 <= i <= |node.links| && db.failures == old(db.failures)
          invariant Assemble(db.data, node.links) == Prepend(fullFile, Assemble(db.data, node.links[i..]))
        {
          var childBytes := db.Get(DagKey(node.links[i]));
          if childBytes == ReadError {
            return Unreadable;
          }
          if childBytes == KeyNotFound {
            return Missing;
          }
          var childNode := DecodeNode(childBytes.value).node;
          assert node.links[i..][1..] == node.links[i + 1..];
          PrependTwice(fullFile, childNode.data, Assemble(db.data, node.links[i + 1..]));
          fullFile := fullFile + childNode.data;
          i := i + 1;
        }
        assert fullFile + [] == fullFile;
        return File(fullFile);
      }
      return File(node.data);
    }

    method HashExists(id: Bytes) returns (present: bool)
      modifies db`failures
      ensures if db.failures == old(db.failures) then present <==> Ascii("dag_storage:") + id in db.data
              else db.failures == old(db.failures) + 1 && !present
    {
      present := db.Exists(DagKey(id));
    }
  }

  function CreateMetaLink(data: Bytes, links: seq<Bytes>, size: nat): Bytes {
    EncodeNode(MetaNode(data, links, size))
  }

  function CreateFileChunk(data: Bytes): Bytes { ChunkBlob(data) }

  ghost function Rest(file: Bytes, i: nat): Bytes {
    if i <= |file| then file[i..] else []
  }

  lemma NextChunk(file: Bytes, i: nat)
    requires i < |file|
    ensures var end := if i + CHUNK_SIZE > |file| then |file| else i + CHUNK_SIZE;
            Chunks(Rest(file, i)) == [file[i..end]] + Chunks(Rest(file, i + CHUNK_SIZE))
  {
    var rest := file[i..];
    if |rest| > CHUNK_SIZE {
      assert rest[CHUNK_SIZE..] == Rest(file, i + CHUNK_SIZE);
      assert rest[..CHUNK_SIZE] == file[i..i + CHUNK_SIZE];
    } else {
      assert Rest(file, i + CHUNK_SIZE) == [];
      assert rest == file[i..|file|];
      assert Chunks(rest) == [rest];
    }
  }

  lemma WriteOneMore(hash: Hash, s: Store, blobs: seq<Bytes>, b: Bytes)
    ensures WriteAll(hash, s, blobs + [b]) == WriteAll(hash, s, blobs)[DagKey(hash(b)) := b]
  {
    assert (blobs + [b])[..|blobs|] == blobs;
  }

  lemma OneMoreChunk(hash: Hash, done: seq<Bytes>, chunk: Bytes)
    ensures ChunkBlobs(done + [chunk]) == ChunkBlobs(done) + [ChunkBlob(chunk)]
    ensures Digests(hash, ChunkBlobs(done) + [ChunkBlob(chunk)])
         == Digests(hash, ChunkBlobs(done)) + [hash(ChunkBlob(chunk))]
  {
  }

  lemma ChunksDone(hash: Hash, file: Bytes, all: seq<Bytes>, done: seq<Bytes>)
    requires |file| > CHUNK_SIZE && all == Chunks(file) && done <= all
    ensures |done| <= |Blobs(hash, file)| && Blobs(hash, file)[..|done|] == ChunkBlobs(done)
  {
    var blobs := ChunkBlobs(all);
    assert FileChunkBlobs(file) == blobs;
    assert blobs[..|done|] == ChunkBlobs(done);
    assert (blobs + [MetaBlob(hash, file)])[..|done|] == blobs[..|done|];
  }

  /** The loop has saved the chunks `done` and stands at offset `i`. */
  ghost predicate Progress(hash: Hash, s0: Store, s: Store, file: Bytes, i: nat, done: seq<Bytes>, keys: seq<Bytes>) {
    && Chunks(file) == done + Chunks(Rest(file, i))
    && keys == Digests(hash, ChunkBlobs(done))
    && s == WriteAll(hash, s0, ChunkBlobs(done))
  }

  /** A small file is one META_LINK. */
  lemma OnlyStep(hash: Hash, s: Store, file: Bytes)
    requires |file| <= CHUNK_SIZE
    ensures |Blobs(hash, file)| == 1 && CreateMetaLink(file, [], |file|) == MetaBlob(hash, file)
    ensures WriteAll(hash, s, Blobs(hash, file)[..0]) == s
    ensures WriteAll(hash, s, Blobs(hash, file)[..1]) == s[DagKey(FileKey(hash, file)) := MetaBlob(hash, file)]
  {
    hide EncodeNode;
    LastBlob(hash, s, file);
  }

  lemma FirstStep(hash: Hash, s: Store, file: Bytes)
    ensures Progress(hash, s, s, file, 0, [], [])
  {
    hide EncodeNode;
    assert file[0..] == file;
    assert [] + Chunks(file) == Chunks(file);
  }

  lemma StoppedEarly(hash: Hash, s0: Store, s: Store, file: Bytes, i: nat, done: seq<Bytes>, keys: seq<Bytes>)
    requires |file| > CHUNK_SIZE && i < |file| && Progress(hash, s0, s, file, i, done, keys)
    ensures |done| < |Blobs(hash, file)| && s == WriteAll(hash, s0, Blobs(hash, file)[..|done|])
  {
    ChunksDone(hash, file, Chunks(file), done);
  }

  lemma NextStep(hash: Hash, s0: Store, s: Store, file: Bytes, i: nat, done: seq<Bytes>, keys: seq<Bytes>, chunk: Bytes)
    requires i < |file| && Progress(hash, s0, s, file, i, done, keys)
    requires chunk == file[i..if i + CHUNK_SIZE > |file| then |file| else i + CHUNK_SIZE]
    ensures var key := hash(CreateFileChunk(chunk));
            Progress(hash, s0, s[DagKey(key) := CreateFileChunk(chunk)], file, i + CHUNK_SIZE,
                     done + [chunk], keys + [key])
  {
    hide EncodeNode, WriteAll, Chunks, Rest, Digests, ChunkBlobs;
    NextChunk(file, i);
    OneMoreChunk(hash, done, chunk);
    WriteOneMore(hash, s0, ChunkBlobs(done), ChunkBlob(chunk));
    assert done + ([chunk] + Chunks(Rest(file, i + CHUNK_SIZE))) == done + [chunk] + Chunks(Rest(file, i + CHUNK_SIZE));
  }

  lemma LastStep(hash: Hash, s0: Store, s: Store, file: Bytes, i: nat, done: seq<Bytes>, keys: seq<Bytes>)
    requires |file| > CHUNK_SIZE && |file| <= i && Progress(hash, s0, s, file, i, done, keys)
    ensures |Blobs(hash, file)| == |done| + 1 && s == WriteAll(hash, s0, Blobs(hash, file)[..|done|])
    ensures CreateMetaLink([], keys, |file|) == MetaBlob(hash, file)
    ensures s[DagKey(FileKey(hash, file)) := MetaBlob(hash, file)] == WriteAll(hash, s0, Blobs(hash, file))
    ensures Blobs(hash, file)[..|done| + 1] == Blobs(hash, file)
  {
    assert Chunks(Rest(file, i)) == [];
    assert done == Chunks(file);
    LastBlob(hash, s0, file);
  }

  /** Where the store stands before and after the META_LINK is written. */
  lemma LastBlob(hash: Hash, s: Store, file: Bytes)
    ensures var blobs, n := Blobs(hash, file), |FileChunkBlobs(file)|;
            && |blobs| == n + 1
            && blobs[..n] == FileChunkBlobs(file)
            && blobs[..n + 1] == blobs
            && WriteAll(hash, s, blobs)
               == WriteAll(hash, s, FileChunkBlobs(file))[DagKey(FileKey(hash, file)) := MetaBlob(hash, file)]
  {
    var blobs, n := Blobs(hash, file), |FileChunkBlobs(file)|;
    assert blobs[..n] == FileChunkBlobs(file) && blobs[..n + 1] == blobs;
  }

  lemma PrependTwice(a: Bytes, b: Bytes, r: FileResult)
    ensures Prepend(a, Prepend(b, r)) == Prepend(a + b, r)
  {
    if r.File? {
      assert a + (b + r.data) == a + b + r.data;
    }
  }
}
