/** After any run of the DHT, the encoded buckets are the peers saved, filed by index, in order. */
module DhtTable {
  import opened Bytes
  import opened Schema
  import opened Storage
  import opened Utf8
  import opened Kademlia
  import opened MerkleDag
  import opened MerkleProofs
  import opened Routing
  import opened Dht

  function IndexOf(myID: PeerID, peer: PeerEntry): nat
    requires HasId(peer)
  {
    BucketIndex(myID, peer.hashId)
  }

  predicate FilesUnder(myID: PeerID, peer: PeerEntry, index: int64) {
    HasId(peer) && IndexOf(myID, peer) == index
  }

  /** The peers a run saved under an index, oldest first. */
  function SavedAt(myID: PeerID, events: seq<Event>, index: int64): (peers: seq<PeerEntry>)
    ensures forall i :: 0 <= i < |peers| ==> FilesUnder(myID, peers[i], index)
  {
    if |events| == 0 then []
    else
      var front := SavedAt(myID, events[..|events| - 1], index);
      match events[|events| - 1]
      case PeerSave(peer, ok) => if ok && FilesUnder(myID, peer, index) then front + [peer] else front
      case FileSave(_, _, _) => front
  }

  /** The same, for every peer whose save was tried with an address that can be stored. */
  function TriedAt(myID: PeerID, events: seq<Event>, index: int64): seq<PeerEntry> {
    if |events| == 0 then []
    else
      var front := TriedAt(myID, events[..|events| - 1], index);
      match events[|events| - 1]
      case PeerSave(peer, _) =>
        if IsUtf8(peer.addr) && FilesUnder(myID, peer, index) then front + [peer] else front
      case FileSave(_, _, _) => front
  }

  function Saves(events: seq<Event>): nat {
    if |events| == 0 then 0
    else
      Saves(events[..|events| - 1]) +
      match events[|events| - 1]
      case PeerSave(peer, ok) => if ok then 1 else 0
      case FileSave(_, _, _) => 0
  }

  /** The table that lists under each index the peers saved there. */
  ghost predicate Lists(myID: PeerID, events: seq<Event>, t: Table) {
    forall index :: (index in t <==> SavedAt(myID, events, index) != [])
                 && (index in t ==> t[index] == SavedAt(myID, events, index))
  }

  // ----- Refinement

  lemma {:induction false} WriteAllKeepsForeign(hash: Hash, s: Store, blobs: seq<Bytes>, key: Bytes)
    requires !IsDagKey(key)
    ensures Lookup(WriteAll(hash, s, blobs), key) == Lookup(s, key)
  {
    if |blobs| > 0 {
      WriteAllKeepsForeign(hash, s, blobs[..|blobs| - 1], key);
      DagKeyIsDagKey(hash(blobs[|blobs| - 1]));
    }
  }

  lemma FileStepKeepsTable(hash: Hash, s: Store, file: Bytes, outcome: FileOutcome, n: nat, s': Store, t: Table)
    requires FileStep(hash, s, file, outcome, n, s') && Refines(s, t)
    ensures Refines(s', t)
  {
    forall index ensures BlobMatches(s', t, index) {
      assert BlobMatches(s, t, index);
      TableKeysAreNotDagKeys(index);
      WriteAllKeepsForeign(hash, s, Blobs(hash, file)[..n], TableKey(index));
    }
  }

  lemma ListsAfterSave(myID: PeerID, events: seq<Event>, t: Table)
    requires |events| > 0 && Lists(myID, events[..|events| - 1], t)
    requires events[|events| - 1].PeerSave? && events[|events| - 1].ok && HasId(events[|events| - 1].peer)
    ensures var peer := events[|events| - 1].peer;
            Lists(myID, events, AbstractSave(t, IndexOf(myID, peer), peer))
  {
    var peer := events[|events| - 1].peer;
    var t' := AbstractSave(t, IndexOf(myID, peer), peer);
    forall index
      ensures (index in t' <==> SavedAt(myID, events, index) != [])
           && (index in t' ==> t'[index] == SavedAt(myID, events, index))
    {
      assert index in t <==> SavedAt(myID, events[..|events| - 1], index) != [];
    }
  }

  lemma ListsUnchanged(myID: PeerID, events: seq<Event>, t: Table)
    requires |events| > 0 && Lists(myID, events[..|events| - 1], t)
    requires events[|events| - 1].PeerSave? ==> !events[|events| - 1].ok
    ensures Lists(myID, events, t)
  {
    forall index
      ensures (index in t <==> SavedAt(myID, events, index) != [])
           && (index in t ==> t[index] == SavedAt(myID, events, index))
    {
      assert index in t <==> SavedAt(myID, events[..|events| - 1], index) != [];
    }
  }

  /** From a store with no buckets, the store always refines the table of the peers saved. */
  lemma {:induction false} RunRefinesTable(hash: Hash, myID: PeerID, states: seq<Store>, events: seq<Event>)
    returns (t: Table)
    requires Run(hash, myID, states, events) && Refines(states[0], map[])
    ensures Lists(myID, events, t) && Refines(states[|events|], t)
    decreases |events|
  {
    hide SaveInBucket, Blobs, WriteAll;
    if |events| == 0 {
      t := map[];
    } else {
      var n := |events| - 1;
      PrefixRun(hash, myID, states, events);
      t := RunRefinesTable(hash, myID, states[..n + 1], events[..n]);
      match events[n]
      case FileSave(file, outcome, written) =>
        FileStepKeepsTable(hash, states[n], file, outcome, written, states[n + 1], t);
        ListsUnchanged(myID, events, t);
      case PeerSave(peer, ok) =>
        if ok {
          SaveRefines(states[n], t, IndexOf(myID, peer), peer);
          ListsAfterSave(myID, events, t);
          t := AbstractSave(t, IndexOf(myID, peer), peer);
        } else {
          ListsUnchanged(myID, events, t);
        }
    }
  }

  lemma SmallIndexKeepsValue(index: int64)
    requires 0 <= index <= 255
    ensures Truncate32(index) == index
  {
  }

  /**
     After any run from a store with no buckets, each bucket blob decodes to its index and exactly
     the peers saved under it, at most 20, in order; reading it gives those peers.
   */
  lemma BucketsHoldTheSavedPeers(hash: Hash, myID: PeerID, states: seq<Store>, events: seq<Event>, index: int64)
    requires Run(hash, myID, states, events) && Refines(states[0], map[])
    requires 0 <= index <= 255
    ensures var s, saved := states[|events|], SavedAt(myID, events, index);
            && |saved| <= 20
            && PeersAt(s, index) == (if saved == [] then None else Some(saved))
            && (saved != [] ==>
                  TableKey(index) in s && DecodeBucket(s[TableKey(index)]) == Some(KBucket(index, saved)))
  {
    var t := RunRefinesTable(hash, myID, states, events);
    var s, saved := states[|events|], SavedAt(myID, events, index);
    assert index in t <==> saved != [];
    PeersAtIsTable(s, t, index);
    assert BlobMatches(s, t, index);
    SmallIndexKeepsValue(index);
    if index in t {
      GoodBucketRoundTrip(index, t[index]);
    }
  }

  // ----- Conservation

  /** The peers listed under the indices below `n`. */
  function Listed(myID: PeerID, events: seq<Event>, n: nat): nat
    requires n <= 256
  {
    if n == 0 then 0 else Listed(myID, events, n - 1) + |SavedAt(myID, events, n - 1)|
  }

  lemma {:induction false} ListedStep(myID: PeerID, events: seq<Event>, n: nat)
    requires n <= 256 && |events| > 0
    ensures var e, front := events[|events| - 1], events[..|events| - 1];
            Listed(myID, events, n) == Listed(myID, front, n) +
              if e.PeerSave? && e.ok && HasId(e.peer) && IndexOf(myID, e.peer) < n then 1 else 0
  {
    hide BucketIndex;
    if n > 0 {
      ListedStep(myID, events, n - 1);
    }
  }

  lemma {:induction false} ListedNothing(myID: PeerID, n: nat)
    requires n <= 256
    ensures Listed(myID, [], n) == 0
  {
    if n > 0 {
      ListedNothing(myID, n - 1);
    }
  }

  lemma {:induction false} ListedAreTheSaves(hash: Hash, myID: PeerID, states: seq<Store>, events: seq<Event>)
    requires Run(hash, myID, states, events)
    ensures Listed(myID, events, 256) == Saves(events)
    decreases |events|
  {
    if |events| == 0 {
      ListedNothing(myID, 256);
    } else {
      PrefixRun(hash, myID, states, events);
      ListedAreTheSaves(hash, myID, states[..|events|], events[..|events| - 1]);
      ListedStep(myID, events, 256);
    }
  }

  /** The peers read back from the buckets with indices below `n`. */
  function StoredPeers(s: Store, n: nat): nat
    requires n <= 256
  {
    if n == 0 then 0
    else
      StoredPeers(s, n - 1) +
      match PeersAt(s, n - 1)
      case Some(peers) => |peers|
      case None => 0
  }

  lemma {:induction false} StoredAreListed(hash: Hash, myID: PeerID, states: seq<Store>, events: seq<Event>, n: nat)
    requires Run(hash, myID, states, events) && Refines(states[0], map[]) && n <= 256
    ensures StoredPeers(states[|events|], n) == Listed(myID, events, n)
    decreases n
  {
    if n > 0 {
      StoredAreListed(hash, myID, states, events, n - 1);
      BucketsHoldTheSavedPeers(hash, myID, states, events, n - 1);
    }
  }

  /**
     No saved peer is lost or stored twice: after any run from a store with no buckets, the 256
     stored buckets together hold one peer per successful save.
   */
  lemma PeersAreConserved(hash: Hash, myID: PeerID, states: seq<Store>, events: seq<Event>)
    requires Run(hash, myID, states, events) && Refines(states[0], map[])
    ensures StoredPeers(states[|events|], 256) == Saves(events)
  {
    StoredAreListed(hash, myID, states, events, 256);
    ListedAreTheSaves(hash, myID, states, events);
  }

  // ----- Without failures: the first twenty

  /** A save reports failure only when the bucket is full or the address cannot be stored. */
  ghost predicate FaultFree(myID: PeerID, states: seq<Store>, events: seq<Event>) {
    && |states| == |events| + 1
    && forall i :: 0 <= i < |events| && events[i].PeerSave? && HasId(events[i].peer) ==>
         (events[i].ok <==> SaveInBucket(states[i], IndexOf(myID, events[i].peer), events[i].peer).result == Saved)
  }

  function FirstTwenty(peers: seq<PeerEntry>): seq<PeerEntry> {
    if |peers| <= 20 then peers else peers[..20]
  }

  /** Without failures, a save succeeds exactly when its bucket has room and its address can be stored. */
  lemma SaveSucceedsWhen(hash: Hash, myID: PeerID, states: seq<Store>, events: seq<Event>)
    requires Run(hash, myID, states, events) && Refines(states[0], map[]) && FaultFree(myID, states, events)
    requires |events| > 0 && events[|events| - 1].PeerSave? && HasId(events[|events| - 1].peer)
    ensures var e, front := events[|events| - 1], events[..|events| - 1];
            e.ok <==> IsUtf8(e.peer.addr) && |SavedAt(myID, front, IndexOf(myID, e.peer))| < 20
  {
    hide SaveInBucket, Blobs, WriteAll, FileStep;
    var n := |events| - 1;
    var peer := events[n].peer;
    var index := IndexOf(myID, peer);
    PrefixRun(hash, myID, states, events);
    var t := RunRefinesTable(hash, myID, states[..n + 1], events[..n]);
    assert states[..n + 1][n] == states[n];
    SaveRefines(states[n], t, index, peer);
    assert index in t <==> SavedAt(myID, events[..n], index) != [];
  }

  /** If no storage operation fails, a bucket holds the first twenty peers tried with its index. */
  lemma {:induction false} BucketsHoldTheFirstTwenty(hash: Hash, myID: PeerID, states: seq<Store>, events: seq<Event>,
                                                     index: int64)
    requires Run(hash, myID, states, events) && Refines(states[0], map[]) && FaultFree(myID, states, events)
    requires 0 <= index <= 255
    ensures SavedAt(myID, events, index) == FirstTwenty(TriedAt(myID, events, index))
    decreases |events|
  {
    hide SaveInBucket, Blobs, WriteAll, Step;
    if |events| > 0 {
      var n := |events| - 1;
      var front := events[..n];
      PrefixRun(hash, myID, states, events);
      BucketsHoldTheFirstTwenty(hash, myID, states[..n + 1], front, index);
      if events[n].PeerSave? && FilesUnder(myID, events[n].peer, index) {
        SaveSucceedsWhen(hash, myID, states, events);
        AppendToFirstTwenty(TriedAt(myID, front, index), events[n].peer);
      }
    }
  }

  lemma AppendToFirstTwenty(peers: seq<PeerEntry>, peer: PeerEntry)
    ensures FirstTwenty(peers + [peer]) ==
            if |FirstTwenty(peers)| < 20 then FirstTwenty(peers) + [peer] else FirstTwenty(peers)
  {
  }
}
