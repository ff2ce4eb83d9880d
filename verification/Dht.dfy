/**
 The DHT over one shared store: files under `dag_storage:`, buckets under
 `routing_table:`, and what any sequence of its operations keeps, failed writes included.
 */
module Dht {
  import opened Bytes
  import opened Schema
  import opened Storage
  import opened Kademlia
  import opened MerkleDag
  import opened MerkleProofs
  import opened MerkleStore
  import opened Routing

  // ----- The operations

  /** `AlreadyThere` is the early return that hands back neither a key nor an error. */
  datatype FileOutcome = AlreadyThere | SavedAs(key: Bytes) | WriteFailed

  class DHT {
    const storage: KeyValueStore
    const hash: Hash
    const myID: PeerID
    const routingTable: RoutingTable
    const merkle: MerkleDagStorage

    ghost predicate Valid() {
      routingTable.storage == storage && merkle.db == storage && merkle.hash == hash
    }

    constructor (storage: KeyValueStore, hash: Hash, myPubKey: Bytes)
      ensures Valid() && this.storage == storage && this.hash == hash && myID == hash(myPubKey)
    {
      this.storage := storage;
      this.hash := hash;
      this.myID := hash(myPubKey);
      this.routingTable := new RoutingTable(storage);
      this.merkle := new MerkleDagStorage(storage, hash);
    }

    method GetNearPeers(peerID: PeerID) returns (peers: Option<seq<PeerEntry>>)
      requires Valid()
      modifies storage`failures
      ensures if storage.failures == old(storage.failures)
              then peers == PeersAt(storage.data, BucketIndex(myID, peerID))
              else storage.failures == old(storage.failures) + 1 && peers == None
    {
      var index := GetBucketIndex(myID, peerID);
      peers := routingTable.GetPeers(index);
    }

    method SavePeer(peerID: PeerID, pubKey: Bytes, addr: Bytes, lastSeen: uint64, trustScore: uint32)
      returns (outcome: SaveOutcome)
      requires Valid()
      modifies storage
      ensures PeerStep(myID, old(storage.data), PeerEntry(pubKey, peerID, addr, lastSeen, trustScore),
                       outcome == Done, storage.data)
      ensures storage.failures == old(storage.failures) ==>
                var r := SaveInBucket(old(storage.data), BucketIndex(myID, peerID),
                                      PeerEntry(pubKey, peerID, addr, lastSeen, trustScore));
                storage.data == r.store && outcome == if r.result == Saved then Done else Rejected(r.result)
      ensures storage.failures != old(storage.failures) ==>
                storage.failures == old(storage.failures) + 1 && outcome == StorageFailed
    {
      var index := GetBucketIndex(myID, peerID);
      var peer := PeerEntry(pubKey, peerID, addr, lastSeen, trustScore);
      outcome := routingTable.SaveInKBucket(index, peer);
    }

    /** `written` counts the nodes that reached the store. */
    method SaveFile(file: Bytes) returns (outcome: FileOutcome, ghost written: nat)
      requires Valid()
      modifies storage
      ensures FileStep(hash, old(storage.data), file, outcome, written, storage.data)
      ensures storage.failures == old(storage.failures) ==>
                SaveFileOnce(hash, old(storage.data), file) == FileSaving(storage.data, outcome)
      ensures storage.failures >= old(storage.failures) + if outcome == WriteFailed then 1 else 0
    {
      var present := merkle.HashExists(hash(file));
      if present {
        return AlreadyThere, 0;
      }
      var key;
      key, written := merkle.CalculateFileChunk(file);
      assert Blobs(hash, file)[..|Blobs(hash, file)|] == Blobs(hash, file);
      outcome := if key.Some? then SavedAs(key.value) else WriteFailed;
    }

    method GetFileChunk(chunkHash: Bytes) returns (r: FileResult)
      requires Valid()
      modifies storage`failures
      ensures if storage.failures == old(storage.failures) then r == FindFile(storage.data, chunkHash)
              else storage.failures == old(storage.failures) + 1 && r == Unreadable
    {
      r := merkle.FindFileByID(chunkHash);
    }

    method CalculateDistance(peerID: PeerID) returns (index: nat)
      ensures index == BucketIndex(myID, peerID)
    {
      index := GetBucketIndex(myID, peerID);
    }
  }

  // ----- What one operation does when the store does not fail

  datatype FileSaving = FileSaving(store: Store, outcome: FileOutcome)

  /** A file is written unless the hash of its raw bytes is a key already. */
  function SaveFileOnce(hash: Hash, s: Store, file: Bytes): FileSaving {
    if DagKey(hash(file)) in s then FileSaving(s, AlreadyThere)
    else FileSaving(WriteAll(hash, s, Blobs(hash, file)), SavedAs(FileKey(hash, file)))
  }

  // ----- What one operation may do to the store

  predicate HasId(peer: PeerEntry) { |peer.hashId| == 32 }

  /** A save either succeeds as specified or, for whatever reason, leaves the store alone. */
  ghost predicate PeerStep(myID: PeerID, s: Store, peer: PeerEntry, ok: bool, s': Store)
  {
    && HasId(peer)
    && if ok then SaveInBucket(s, BucketIndex(myID, peer.hashId), peer) == Saving(s', Saved) else s' == s
  }

  /** A save writes some front of the file's nodes: none, all, or what a failure let through. */
  ghost predicate FileStep(hash: Hash, s: Store, file: Bytes, outcome: FileOutcome, written: nat, s': Store) {
    && written <= |Blobs(hash, file)|
    && s' == WriteAll(hash, s, Blobs(hash, file)[..written])
    && match outcome
       case AlreadyThere => DagKey(hash(file)) in s && written == 0
       case SavedAs(key) => key == FileKey(hash, file) && written == |Blobs(hash, file)|
       case WriteFailed => written < |Blobs(hash, file)|
  }

  // ----- Runs

  datatype Event = PeerSave(peer: PeerEntry, ok: bool) | FileSave(file: Bytes, outcome: FileOutcome, written: nat)

  ghost predicate Step(hash: Hash, myID: PeerID, s: Store, e: Event, s': Store) {
    match e
    case PeerSave(peer, ok) => EntryFits(peer) && PeerStep(myID, s, peer, ok, s')
    case FileSave(file, outcome, written) => FileStep(hash, s, file, outcome, written, s')
  }

  /** `states` are the stores before, between and after the events. */
  ghost predicate Run(hash: Hash, myID: PeerID, states: seq<Store>, events: seq<Event>) {
    && |states| == |events| + 1
    && forall i :: 0 <= i < |events| ==> Step(hash, myID, states[i], events[i], states[i + 1])
  }

  /** The blobs of every file a run tried to save. */
  ghost function FileBlobs(hash: Hash, events: seq<Event>): set<Bytes> {
    if |events| == 0 then {}
    else
      FileBlobs(hash, events[..|events| - 1]) +
      match events[|events| - 1]
      case FileSave(file, _, _) => SetOf(Blobs(hash, file))
      case PeerSave(_, _) => {}
  }

  lemma PrefixRun(hash: Hash, myID: PeerID, states: seq<Store>, events: seq<Event>)
    requires Run(hash, myID, states, events) && |events| > 0
    ensures var n := |events| - 1;
            Run(hash, myID, states[..n + 1], events[..n]) && Step(hash, myID, states[n], events[n], states[n + 1])
  {
  }

  // ----- The two key spaces

  lemma TableKeysAreNotDagKeys(index: int64)
    ensures !IsDagKey(TableKey(index))
  {
    assert TableKey(index)[0] == TablePrefix()[0] == 'r' as int;
    assert DagPrefix()[0] == 'd' as int;
  }

  lemma PeerStepKeepsFiles(myID: PeerID, s: Store, peer: PeerEntry, ok: bool, s': Store)
    requires PeerStep(myID, s, peer, ok, s')
    ensures DagExtends(s, s') && DagExtends(s', s) && DagValues(s') == DagValues(s)
  {
    hide EncodeBucket, DecodeBucket;
    TableKeysAreNotDagKeys(BucketIndex(myID, peer.hashId));
    assert forall k :: IsDagKey(k) ==> (k in s' <==> k in s) && (k in s ==> s'[k] == s[k]);
  }

  // ----- Durability

  lemma StepKeepsBlob(hash: Hash, myID: PeerID, s: Store, e: Event, s': Store, b: Bytes)
    requires Step(hash, myID, s, e, s')
    requires Lookup(s, DagKey(hash(b))) == Found(b)
    requires forall c :: c in FileBlobs(hash, [e]) ==> !Collide(hash, b, c)
    ensures Lookup(s', DagKey(hash(b))) == Found(b)
  {
    match e
    case PeerSave(peer, ok) =>
      PeerStepKeepsFiles(myID, s, peer, ok, s');
      DagKeyIsDagKey(hash(b));
    case FileSave(file, _, written) =>
      var blobs := Blobs(hash, file)[..written];
      forall i | 0 <= i < |blobs| ensures !Collide(hash, b, blobs[i]) {
        assert blobs[i] in SetOf(Blobs(hash, file));
        assert [e][..0] == [];
      }
      WriteAllKeeps(hash, s, blobs, b);
  }

  lemma {:induction false} RunKeepsBlob(hash: Hash, myID: PeerID, states: seq<Store>, events: seq<Event>, b: Bytes)
    requires Run(hash, myID, states, events)
    requires Lookup(states[0], DagKey(hash(b))) == Found(b)
    requires forall c :: c in FileBlobs(hash, events) ==> !Collide(hash, b, c)
    ensures Lookup(states[|events|], DagKey(hash(b))) == Found(b)
    decreases |events|
  {
    hide Step, WriteAll, Blobs, SaveInBucket;
    if |events| > 0 {
      var n := |events| - 1;
      PrefixRun(hash, myID, states, events);
      RunKeepsBlob(hash, myID, states[..n + 1], events[..n], b);
      assert FileBlobs(hash, [events[n]]) <= FileBlobs(hash, events) by {
        assert [events[n]][..0] == [];
      }
      StepKeepsBlob(hash, myID, states[n], events[n], states[n + 1], b);
    }
  }

  lemma RunKeepsStored(hash: Hash, myID: PeerID, states: seq<Store>, events: seq<Event>, blobs: seq<Bytes>)
    requires Run(hash, myID, states, events) && Stored(hash, states[0], blobs)
    requires !HasCollision(hash, SetOf(blobs) + FileBlobs(hash, events))
    ensures Stored(hash, states[|events|], blobs)
  {
    hide Step, FileBlobs;
    forall i | 0 <= i < |blobs| ensures Lookup(states[|events|], DagKey(hash(blobs[i]))) == Found(blobs[i]) {
      assert blobs[i] in SetOf(blobs);
      forall c | c in FileBlobs(hash, events) ensures !Collide(hash, blobs[i], c) {
      }
      RunKeepsBlob(hash, myID, states, events, blobs[i]);
    }
  }

  /**
     Once `SaveFile` has handed out a key, that key gives the file back after any later run of
     saves, complete or cut short, unless two blobs of the files involved collide.
   */
  lemma Durability(hash: Hash, myID: PeerID, s: Store, file: Bytes, key: Bytes,
                   states: seq<Store>, events: seq<Event>)
    requires Run(hash, myID, states, events)
    requires FileStep(hash, s, file, SavedAs(key), |Blobs(hash, file)|, states[0])
    ensures FindFile(states[|events|], key) == File(file)
         || HasCollision(hash, SetOf(Blobs(hash, file)) + FileBlobs(hash, events))
  {
    hide Step, Blobs, FileBlobs, WriteAll, FindFile;
    var blobs, later := Blobs(hash, file), FileBlobs(hash, events);
    if !HasCollision(hash, SetOf(blobs) + later) {
      SubsetKeepsCollisionFree(hash, SetOf(blobs), SetOf(blobs) + later);
      assert blobs[..|blobs|] == blobs;
      WriteAllStores(hash, s, blobs);
      RunKeepsStored(hash, myID, states, events, blobs);
      StoredFileIsFound(hash, states[|events|], file);
    }
  }

  // ----- The store invariant over runs

  lemma StepKeepsDagInv(hash: Hash, myID: PeerID, s: Store, e: Event, s': Store, all: set<Bytes>)
    requires Step(hash, myID, s, e, s') && DagInv(hash, s)
    requires DagValues(s) + FileBlobs(hash, [e]) <= all && !HasCollision(hash, all)
    ensures DagInv(hash, s') && DagValues(s') <= all
  {
    match e
    case PeerSave(peer, ok) =>
      PeerStepKeepsFiles(myID, s, peer, ok, s');
      forall k | k in s' && IsDagKey(k)
        ensures k == DagKey(hash(s'[k])) && (IsChunkBlob(s'[k]) || IsCompleteMeta(hash, s', s'[k]))
      {
        ExplainedExtends(hash, s, s', s[k]);
      }
    case FileSave(file, _, n) =>
      assert [e][..0] == [];
      SubsetKeepsCollisionFree(hash, DagValues(s) + SetOf(Blobs(hash, file)), all);
      SavingKeepsDagInv(hash, s, file, n);
      forall k | k in s' && IsDagKey(k) ensures s'[k] in all {
        WriteAllOrigin(hash, s, Blobs(hash, file)[..n], k);
        if k in s && s[k] == s'[k] {
          assert s[k] in DagValues(s);
        } else {
          assert s'[k] in SetOf(Blobs(hash, file));
        }
      }
  }

  /** Every run keeps the file store well formed, or two of the blobs involved collide. */
  lemma {:induction false} RunKeepsDagInv(hash: Hash, myID: PeerID, states: seq<Store>, events: seq<Event>)
    requires Run(hash, myID, states, events) && DagInv(hash, states[0])
    ensures var all := DagValues(states[0]) + FileBlobs(hash, events);
            (DagInv(hash, states[|events|]) && DagValues(states[|events|]) <= all) || HasCollision(hash, all)
    decreases |events|
  {
    hide Step, WriteAll, Blobs, SaveInBucket;
    var all := DagValues(states[0]) + FileBlobs(hash, events);
    if |events| > 0 && !HasCollision(hash, all) {
      var n := |events| - 1;
      PrefixRun(hash, myID, states, events);
      RunKeepsDagInv(hash, myID, states[..n + 1], events[..n]);
      var before := DagValues(states[0]) + FileBlobs(hash, events[..n]);
      SubsetKeepsCollisionFree(hash, before, all);
      assert FileBlobs(hash, [events[n]]) <= FileBlobs(hash, events) by {
        assert [events[n]][..0] == [];
      }
      StepKeepsDagInv(hash, myID, states[n], events[n], states[n + 1], all);
    }
  }
}
