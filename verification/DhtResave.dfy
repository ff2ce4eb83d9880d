/**
 Saving files that may be there already. The early return looks the hash of the raw file up
 among the hashes of encoded nodes, so a file that equals a stored node, its own or another
 file's, is reported as present, with no key; every other file gets its key, again if need be.
 */
module DhtResave {
  import opened Bytes
  import opened Wire
  import opened Schema
  import opened Storage
  import opened Kademlia
  import opened MerkleDag
  import opened MerkleProofs
  import opened Dht

  /** A save during which the store does not fail is one more event of a run. */
  lemma SaveOnceExtendsRun(hash: Hash, myID: PeerID, states: seq<Store>, events: seq<Event>, file: Bytes)
    returns (e: Event)
    requires Run(hash, myID, states, events)
    ensures var r := SaveFileOnce(hash, states[|events|], file);
            && e.FileSave? && e.file == file && e.outcome == r.outcome
            && Run(hash, myID, states + [r.store], events + [e])
  {
    hide Blobs, FileKey;
    var s, blobs := states[|events|], Blobs(hash, file);
    var r := SaveFileOnce(hash, s, file);
    e := FileSave(file, r.outcome, if r.outcome == AlreadyThere then 0 else |blobs|);
    assert blobs[..|blobs|] == blobs;
    assert Step(hash, myID, s, e, r.store);
  }

  // ----- The nodes a run wrote

  function Front(blobs: seq<Bytes>, n: nat): seq<Bytes> {
    if n <= |blobs| then blobs[..n] else blobs
  }

  /** The nodes that reached the store, those of unfinished saves included. */
  ghost function NodesWritten(hash: Hash, events: seq<Event>): set<Bytes> {
    if |events| == 0 then {}
    else
      NodesWritten(hash, events[..|events| - 1]) +
      match events[|events| - 1]
      case FileSave(file, _, written) => SetOf(Front(Blobs(hash, file), written))
      case PeerSave(_, _) => {}
  }

  lemma WriteAllAddsValues(hash: Hash, s: Store, blobs: seq<Bytes>)
    requires DagInv(hash, s) && !HasCollision(hash, DagValues(s) + SetOf(blobs))
    ensures DagValues(WriteAll(hash, s, blobs)) == DagValues(s) + SetOf(blobs)
  {
    var s' := WriteAll(hash, s, blobs);
    SubsetKeepsCollisionFree(hash, SetOf(blobs), DagValues(s) + SetOf(blobs));
    WriteAllExtends(hash, s, blobs);
    WriteAllStores(hash, s, blobs);
    forall k | k in s' && IsDagKey(k) ensures s'[k] in DagValues(s) + SetOf(blobs) {
      WriteAllOrigin(hash, s, blobs, k);
      assert k in s && s[k] == s'[k] ==> s[k] in DagValues(s);
    }
    forall b | b in DagValues(s) + SetOf(blobs) ensures b in DagValues(s') {
      if b in DagValues(s) {
        var k :| k in s && IsDagKey(k) && s[k] == b;
        assert s'[k] in DagValues(s');
      } else {
        DagKeyIsDagKey(hash(b));
        assert Lookup(s', DagKey(hash(b))) == Found(b);
        assert s'[DagKey(hash(b))] in DagValues(s');
      }
    }
  }

  lemma StepAddsValues(hash: Hash, myID: PeerID, s: Store, e: Event, s': Store)
    requires Step(hash, myID, s, e, s') && DagInv(hash, s)
    requires !HasCollision(hash, DagValues(s) + FileBlobs(hash, [e]))
    ensures DagValues(s') == DagValues(s) + NodesWritten(hash, [e])
  {
    hide PeerStep, Blobs;
    assert [e][..0] == [];
    match e
    case PeerSave(peer, ok) => PeerStepKeepsFiles(myID, s, peer, ok, s');
    case FileSave(file, _, written) =>
      var blobs := Blobs(hash, file)[..written];
      assert SetOf(blobs) <= SetOf(Blobs(hash, file));
      SubsetKeepsCollisionFree(hash, DagValues(s) + SetOf(blobs), DagValues(s) + FileBlobs(hash, [e]));
      WriteAllAddsValues(hash, s, blobs);
  }

  /** The stored nodes are those there at first and those the run wrote, and no others. */
  lemma {:induction false} RunAddsNodesWritten(hash: Hash, myID: PeerID, states: seq<Store>, events: seq<Event>)
    requires Run(hash, myID, states, events) && DagInv(hash, states[0])
    requires !HasCollision(hash, DagValues(states[0]) + FileBlobs(hash, events))
    ensures DagInv(hash, states[|events|])
    ensures DagValues(states[|events|]) == DagValues(states[0]) + NodesWritten(hash, events)
    decreases |events|
  {
    hide Step, Blobs, DagInv;
    var all := DagValues(states[0]) + FileBlobs(hash, events);
    RunKeepsDagInv(hash, myID, states, events);
    if |events| > 0 {
      var n := |events| - 1;
      PrefixRun(hash, myID, states, events);
      var before := DagValues(states[0]) + FileBlobs(hash, events[..n]);
      SubsetKeepsCollisionFree(hash, before, all);
      RunAddsNodesWritten(hash, myID, states[..n + 1], events[..n]);
      RunKeepsDagInv(hash, myID, states[..n + 1], events[..n]);
      assert DagValues(states[n]) <= before;
      assert [events[n]][..0] == [];
      assert FileBlobs(hash, [events[n]]) <= FileBlobs(hash, events);
      SubsetKeepsCollisionFree(hash, DagValues(states[n]) + FileBlobs(hash, [events[n]]), all);
      StepAddsValues(hash, myID, states[n], events[n], states[n + 1]);
    }
  }

  // ----- When a save returns nothing

  lemma PresentMeansStored(hash: Hash, s: Store, file: Bytes)
    requires DagInv(hash, s) && !HasCollision(hash, DagValues(s) + {file})
    ensures DagKey(hash(file)) in s <==> file in DagValues(s)
  {
    DagKeyIsDagKey(hash(file));
    if DagKey(hash(file)) in s {
      var b := s[DagKey(hash(file))];
      DagKeyInjective(hash(file), hash(b));
      assert b in DagValues(s) && !Collide(hash, b, file);
    }
  }

  /**
     After any run, failed saves included, saving a file returns neither key nor error exactly
     when the file equals, byte for byte, a node that was in the store at first or that some
     save of the run wrote; or two of the byte strings involved collide.
   */
  lemma SaveReturnsNothingExactlyWhen(hash: Hash, myID: PeerID, states: seq<Store>, events: seq<Event>, file: Bytes)
    requires Run(hash, myID, states, events) && DagInv(hash, states[0])
    ensures || HasCollision(hash, DagValues(states[0]) + FileBlobs(hash, events) + {file})
            || (SaveFileOnce(hash, states[|events|], file).outcome == AlreadyThere
                <==> file in DagValues(states[0]) + NodesWritten(hash, events))
  {
    hide DagInv, SetOf, Blobs, Step, NodesWritten;
    var all := DagValues(states[0]) + FileBlobs(hash, events) + {file};
    if !HasCollision(hash, all) {
      SubsetKeepsCollisionFree(hash, DagValues(states[0]) + FileBlobs(hash, events), all);
      RunAddsNodesWritten(hash, myID, states, events);
      RunKeepsDagInv(hash, myID, states, events);
      SubsetKeepsCollisionFree(hash, DagValues(states[|events|]) + {file}, all);
      PresentMeansStored(hash, states[|events|], file);
    }
  }

  lemma {:induction false} SavedFileIsWritten(hash: Hash, events: seq<Event>, i: nat)
    requires i < |events| && events[i].FileSave? && events[i].written == |Blobs(hash, events[i].file)|
    ensures SetOf(Blobs(hash, events[i].file)) <= NodesWritten(hash, events)
    decreases |events|
  {
    hide Blobs;
    var n := |events| - 1;
    if i < n {
      SavedFileIsWritten(hash, events[..n], i);
    }
  }

  lemma ValuesAreStored(hash: Hash, s: Store, blobs: seq<Bytes>)
    requires DagInv(hash, s) && SetOf(blobs) <= DagValues(s)
    ensures Stored(hash, s, blobs)
  {
    forall i | 0 <= i < |blobs| ensures Lookup(s, DagKey(hash(blobs[i]))) == Found(blobs[i]) {
      assert blobs[i] in SetOf(blobs);
      var k :| k in s && IsDagKey(k) && s[k] == blobs[i];
    }
  }

  /**
     A file for which some save of the run returned a key gets that key again, and the store stays
     as it is, exactly when the file equals none of the nodes stored; otherwise nothing is returned.
   */
  lemma ResaveReturnsTheKey(hash: Hash, myID: PeerID, states: seq<Store>, events: seq<Event>, i: nat, key: Bytes)
    requires Run(hash, myID, states, events) && DagInv(hash, states[0])
    requires i < |events| && events[i].FileSave? && events[i].outcome == SavedAs(key)
    ensures var s, file := states[|events|], events[i].file;
            || HasCollision(hash, DagValues(states[0]) + FileBlobs(hash, events) + {file})
            || SaveFileOnce(hash, s, file) ==
               if file in DagValues(states[0]) + NodesWritten(hash, events) then FileSaving(s, AlreadyThere)
               else FileSaving(s, SavedAs(key))
  {
    hide DagInv, SetOf, Blobs, NodesWritten, WriteAll;
    var s, file := states[|events|], events[i].file;
    var all := DagValues(states[0]) + FileBlobs(hash, events) + {file};
    assert Step(hash, myID, states[i], events[i], states[i + 1]);
    if !HasCollision(hash, all) {
      SubsetKeepsCollisionFree(hash, DagValues(states[0]) + FileBlobs(hash, events), all);
      SaveReturnsNothingExactlyWhen(hash, myID, states, events, file);
      RunAddsNodesWritten(hash, myID, states, events);
      SavedFileIsWritten(hash, events, i);
      ValuesAreStored(hash, s, Blobs(hash, file));
      WriteAllIdempotent(hash, s, Blobs(hash, file));
    }
  }

  /** A blob written is present under its hash afterwards, whatever was written later. */
  lemma {:induction false} WrittenKeysArePresent(hash: Hash, s: Store, blobs: seq<Bytes>, b: Bytes)
    requires b in blobs
    ensures DagKey(hash(b)) in WriteAll(hash, s, blobs)
  {
    var n := |blobs| - 1;
    if b != blobs[n] {
      assert b in blobs[..n];
      WrittenKeysArePresent(hash, s, blobs[..n], b);
    }
  }

  /**
     So saving a file can hide another one: once any file is saved, saving a file that equals one
     of its nodes returns nothing, for every hash, even if that file had a key before.
   */
  lemma AnotherFileHidesAFile(hash: Hash, s: Store, other: Bytes, file: Bytes)
    requires file in Blobs(hash, other)
    requires SaveFileOnce(hash, s, other).outcome.SavedAs?
    ensures var after := SaveFileOnce(hash, s, other).store;
            SaveFileOnce(hash, after, file) == FileSaving(after, AlreadyThere)
  {
    WrittenKeysArePresent(hash, s, Blobs(hash, other), file);
  }

  /** The stored form of the one-byte file [1]. */
  function OneByteNode(): Bytes { [0x08, 0x01, 0x12, 0x01, 0x01, 0x20, 0x01] }

  lemma OneByteBlob(hash: Hash)
    ensures MetaBlob(hash, [1]) == OneByteNode()
  {
    var fs := NodeFields(MetaOf(hash, [1]));
    assert fs == [Varint(1, 1), Len(2, [1]), Varint(4, 1)];
    assert PutVarint(0x08) == [0x08] && PutVarint(0x12) == [0x12] && PutVarint(0x20) == [0x20];
    assert PutField(fs[0]) == [0x08, 0x01] && PutField(fs[1]) == [0x12, 0x01, 0x01] && PutField(fs[2]) == [0x20, 0x01];
    assert fs[1..] == [fs[1], fs[2]] && fs[1..][1..] == [fs[2]] && fs[1..][1..][1..] == [];
    assert PutFields(fs[1..][1..]) == PutField(fs[2]) + [];
    assert PutFields(fs[1..]) == PutField(fs[1]) + PutFields(fs[1..][1..]);
    assert PutFields(fs) == PutField(fs[0]) + PutFields(fs[1..]);
  }

  lemma OneByteIsNoNode(hash: Hash, file: Bytes)
    ensures MetaBlob(hash, file) != [1]
  {
    MetaDecodes(hash, file);
  }

  /**
     A file can lose its key to another: from an empty store, saving these seven bytes returns a
     key, saving the one-byte file [1] returns a key, and saving the seven bytes again returns
     nothing, for every hash under which [1] does not collide with the first node.
   */
  lemma SavedFileCanBeHidden(hash: Hash)
    requires !Collide(hash, [1], MetaBlob(hash, OneByteNode()))
    ensures var first := SaveFileOnce(hash, map[], OneByteNode());
            var second := SaveFileOnce(hash, first.store, [1]);
            && first.outcome.SavedAs? && second.outcome.SavedAs?
            && SaveFileOnce(hash, second.store, OneByteNode()) == FileSaving(second.store, AlreadyThere)
            && OneByteNode() !in Blobs(hash, OneByteNode())
  {
    OneByteBlob(hash);
    OneByteIsNoNode(hash, OneByteNode());
    var first := SaveFileOnce(hash, map[], OneByteNode());
    if DagKey(hash([1])) in first.store {
      NewKeysAreWritten(hash, map[], Blobs(hash, OneByteNode()), hash([1]));
      assert false;
    }
    AnotherFileHidesAFile(hash, first.store, [1], OneByteNode());
    MetaDecodes(hash, OneByteNode());
    MetaDecodes(hash, [1]);
  }

  lemma {:induction false} NewKeysAreWritten(hash: Hash, s: Store, blobs: seq<Bytes>, id: Digest)
    requires DagKey(id) in WriteAll(hash, s, blobs) && DagKey(id) !in s
    ensures exists b :: b in blobs && hash(b) == id
  {
    var n := |blobs| - 1;
    if |blobs| > 0 {
      if DagKey(id) == DagKey(hash(blobs[n])) {
        DagKeyInjective(id, hash(blobs[n]));
      } else {
        NewKeysAreWritten(hash, s, blobs[..n], id);
        var b :| b in blobs[..n] && hash(b) == id;
        assert b in blobs;
      }
    }
  }

  lemma PresentOnlyIfOwnNode(hash: Hash, s: Store, file: Bytes)
    requires DagKey(hash(file)) !in s
    requires !HasCollision(hash, SetOf(Blobs(hash, file)) + {file})
    ensures DagKey(hash(file)) in WriteAll(hash, s, Blobs(hash, file)) ==> file in Blobs(hash, file)
  {
    var blobs := Blobs(hash, file);
    if DagKey(hash(file)) in WriteAll(hash, s, blobs) {
      NewKeysAreWritten(hash, s, blobs, hash(file));
      var b :| b in blobs && hash(b) == hash(file);
      assert b in SetOf(blobs) && !Collide(hash, b, file);
    }
  }

  /**
     With nothing saved in between, whatever else the store holds, only the file's own nodes matter:
     the second save returns the key again exactly when the file is not one of them.
   */
  lemma ResaveAtOnceReturnsTheKey(hash: Hash, s: Store, file: Bytes)
    requires SaveFileOnce(hash, s, file).outcome != AlreadyThere
    ensures var first := SaveFileOnce(hash, s, file);
            var second := SaveFileOnce(hash, first.store, file);
            || HasCollision(hash, SetOf(Blobs(hash, file)) + {file})
            || ((second == first <==> file !in Blobs(hash, file))
                && (second.outcome == AlreadyThere <==> file in Blobs(hash, file)))
  {
    var blobs := Blobs(hash, file);
    var first := SaveFileOnce(hash, s, file);
    if !HasCollision(hash, SetOf(blobs) + {file}) {
      if file in blobs {
        WrittenKeysArePresent(hash, s, blobs, file);
      } else {
        PresentOnlyIfOwnNode(hash, s, file);
        SavingTwiceIsSavingOnce(hash, s, file);
        forall a, b | a in SetOf(blobs) && b in SetOf(blobs) ensures !Collide(hash, a, b) {
        }
      }
    }
  }

  // ----- A file that is one of its own nodes

  /** The start of an encoded full chunk: the data field's tag and its length, 262144. */
  function ChunkHeader(): (h: Bytes)
    ensures |h| == 4
  {
    [0x12, 0x80, 0x80, 0x10]
  }

  /** One chunk of header repeated, one more header, and the size field of a full chunk. */
  function SelfEncoding(): (file: Bytes)
    ensures |file| == CHUNK_SIZE + 8
  {
    seq(CHUNK_SIZE + 4, i requires 0 <= i => ChunkHeader()[i % 4]) + [0x20, 0x80, 0x80, 0x10]
  }

  lemma FullChunkLength()
    ensures PutVarint(CHUNK_SIZE) == [0x80, 0x80, 0x10]
    ensures PutVarint(0x12) == [0x12] && PutVarint(0x20) == [0x20]
  {
    assert PutVarint(16) == [16];
    assert PutVarint(2048) == [0x80] + PutVarint(16);
    assert PutVarint(262144) == [0x80] + PutVarint(2048);
  }

  lemma FullChunkBlob(chunk: Bytes)
    requires |chunk| == CHUNK_SIZE
    ensures ChunkBlob(chunk) == ChunkHeader() + chunk + [0x20, 0x80, 0x80, 0x10]
  {
    var fs := NodeFields(ChunkNode(chunk));
    assert fs == [Len(2, chunk), Varint(4, CHUNK_SIZE)];
    FullChunkLength();
    assert PutField(fs[0]) == [0x12] + ([0x80, 0x80, 0x10] + chunk);
    assert PutField(fs[1]) == [0x20] + [0x80, 0x80, 0x10];
    assert fs[1..] == [fs[1]] && fs[1..][1..] == [];
    assert PutFields(fs[1..]) == PutField(fs[1]) + [];
    assert PutFields(fs) == PutField(fs[0]) + PutFields(fs[1..]);
  }

  lemma SelfEncodingIsItsOwnChunk()
    ensures ChunkBlob(SelfEncoding()[..CHUNK_SIZE]) == SelfEncoding()
    ensures forall hash: Hash :: SelfEncoding() in Blobs(hash, SelfEncoding())
  {
    var file := SelfEncoding();
    var chunk := file[..CHUNK_SIZE];
    FullChunkBlob(chunk);
    assert ChunkHeader() + chunk == file[..CHUNK_SIZE + 4] by {
      forall i | 0 <= i < CHUNK_SIZE + 4 ensures (ChunkHeader() + chunk)[i] == file[i] {
        assert i >= 4 ==> chunk[i - 4] == file[i - 4] == ChunkHeader()[(i - 4) % 4];
      }
    }
    assert file[..CHUNK_SIZE + 4] + [0x20, 0x80, 0x80, 0x10] == file;
    forall hash: Hash ensures file in Blobs(hash, file) {
      assert Chunks(file)[0] == chunk;
      assert Blobs(hash, file)[0] == file;
    }
  }

  /** So saving that file twice returns a key once and nothing the second time, whatever the hash. */
  lemma ResaveCanReturnNothing(hash: Hash, s: Store)
    requires DagKey(hash(SelfEncoding())) !in s
    ensures var first := SaveFileOnce(hash, s, SelfEncoding());
            && first.outcome.SavedAs?
            && SaveFileOnce(hash, first.store, SelfEncoding()) == FileSaving(first.store, AlreadyThere)
  {
    SelfEncodingIsItsOwnChunk();
    WrittenKeysArePresent(hash, s, Blobs(hash, SelfEncoding()), SelfEncoding());
  }
}
