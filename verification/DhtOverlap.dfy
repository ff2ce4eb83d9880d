/**
 Saving a peer reads the bucket, appends, and writes it back, with no lock around the three. Here
 any number of saves run at once: a step is one read or one write of the shared store.
 */
module DhtOverlap {
  import opened Bytes
  import opened Schema
  import opened Storage
  import opened Utf8
  import opened Routing

  /** A save that has read its bucket. `doneThen` counts the saves of that index that were through by then. */
  datatype Pending = Pending(index: int64, peer: PeerEntry, seen: Read, doneThen: nat)

  /** `done` is history: the index of every save that went through. */
  datatype State = State(store: Store, open: map<nat, Pending>, done: multiset<int64>)

  datatype Action =
    | Fetch(call: nat, index: int64, peer: PeerEntry)
    | Put(call: nat)
    | GiveUp(call: nat)               // a full bucket, an address that is not UTF-8, or a failed write

  /** What a save writes back, given what it read. */
  function ToWrite(p: Pending): Option<Bytes> {
    match p.seen
    case KeyNotFound => EncodeBucket(KBucket(Truncate32(p.index), [p.peer]))
    case ReadError => None
    case Found(blob) =>
      match DecodeBucket(blob)
      case None => None
      case Some(b) => if |b.peers| >= MAX_BUCKET_SIZE then None else EncodeBucket(b.(peers := b.peers + [p.peer]))
  }

  ghost predicate Enabled(s: State, a: Action) {
    match a
    case Fetch(call, _, peer) => call !in s.open && EntryFits(peer)
    case Put(call) => call in s.open && ToWrite(s.open[call]).Some?
    case GiveUp(call) => call in s.open
  }

  function AfterPut(s: State, p: Pending, blob: Bytes, open: map<nat, Pending>): State {
    State(s.store[TableKey(p.index) := blob], open, s.done + multiset{p.index})
  }

  ghost function Apply(s: State, a: Action): State
    requires Enabled(s, a)
  {
    match a
    case Fetch(call, index, peer) =>
      s.(open := s.open[call := Pending(index, peer, Lookup(s.store, TableKey(index)), s.done[index])])
    case Put(call) => AfterPut(s, s.open[call], ToWrite(s.open[call]).value, s.open - {call})
    case GiveUp(call) => s.(open := s.open - {call})
  }

  ghost predicate Run(states: seq<State>, actions: seq<Action>) {
    && |states| == |actions| + 1
    && forall i :: 0 <= i < |actions| ==>
         Enabled(states[i], actions[i]) && states[i + 1] == Apply(states[i], actions[i])
  }

  /** Nothing saved, nothing going on. */
  ghost predicate IsEmpty(s: State) {
    s.open == map[] && s.done == multiset{} && forall index: int64 :: TableKey(index) !in s.store
  }

  /** A save read and written with nothing in between is the save of the specification. */
  lemma UninterruptedSave(s: State, call: nat, index: int64, peer: PeerEntry)
    requires Enabled(s, Fetch(call, index, peer))
    ensures var s1, r := Apply(s, Fetch(call, index, peer)), SaveInBucket(s.store, index, peer);
            && (Enabled(s1, Put(call)) <==> r.result == Saved)
            && (r.result == Saved ==> Apply(s1, Put(call)).store == r.store)
  {
    hide EncodeBucket, DecodeBucket;
  }

  // ----- Lost updates

  /** The peers in what was read of a bucket. */
  function Held(r: Read): nat {
    match r
    case Found(blob) =>
      (match DecodeBucket(blob)
       case Some(b) => |b.peers|
       case None => 0)
    case _ => 0
  }

  function Stored(s: State, index: int64): nat { Held(Lookup(s.store, TableKey(index))) }

  /** This write goes over another save of the same index, which went through after this one read the bucket. */
  ghost predicate Overtaken(s: State, a: Action, index: int64) {
    a.Put? && a.call in s.open && s.open[a.call].index == index && s.open[a.call].doneThen != s.done[index]
  }

  ghost predicate NoneOvertaken(states: seq<State>, actions: seq<Action>, index: int64) {
    |states| == |actions| + 1 && forall i :: 0 <= i < |actions| ==> !Overtaken(states[i], actions[i], index)
  }

  ghost predicate GoodRead(r: Read, index: int64) {
    match r
    case KeyNotFound => true
    case ReadError => false
    case Found(blob) => exists peers :: GoodPeers(peers) && blob == EncodedBucket(index, peers)
  }

  /** A read bucket is no newer than the stored one, and the same if no save of the index went through since. */
  ghost predicate GoodPending(s: State, p: Pending) {
    && EntryFits(p.peer) && GoodRead(p.seen, p.index)
    && Held(p.seen) <= p.doneThen <= s.done[p.index]
    && (p.doneThen == s.done[p.index] ==> p.seen == Lookup(s.store, TableKey(p.index)))
  }

  ghost predicate Inv(s: State) {
    && (forall index: int64 :: GoodRead(Lookup(s.store, TableKey(index)), index) && Stored(s, index) <= s.done[index])
    && (forall call :: call in s.open ==> GoodPending(s, s.open[call]))
  }

  /** What is written back is a good bucket with one peer more than what was read. */
  lemma WriteAddsOne(p: Pending)
    requires GoodRead(p.seen, p.index) && EntryFits(p.peer) && ToWrite(p).Some?
    ensures GoodRead(Found(ToWrite(p).value), p.index)
    ensures Held(Found(ToWrite(p).value)) == Held(p.seen) + 1
  {
    hide EncodeBucket, DecodeBucket, IsUtf8;
    var before: seq<PeerEntry> := [];
    if p.seen.Found? {
      before :| GoodPeers(before) && p.seen.value == EncodedBucket(p.index, before);
      GoodBucketRoundTrip(p.index, before);
    }
    var after := before + [p.peer];
    assert before == [] ==> after == [p.peer];
    EncodedMeansUtf8(KBucket(Truncate32(p.index), after));
    assert IsUtf8(after[|before|].addr);
    assert GoodPeers(after);
    GoodBucketRoundTrip(p.index, after);
  }

  lemma EncodedMeansUtf8(b: KBucket)
    ensures EncodeBucket(b).Some? ==> forall i :: 0 <= i < |b.peers| ==> IsUtf8(b.peers[i].addr)
  {
  }

  lemma PutKeepsInv(s: State, call: nat)
    requires Inv(s) && Enabled(s, Put(call))
    ensures Inv(Apply(s, Put(call)))
  {
    hide ToWrite, Held, GoodRead, TableKey;
    var p := s.open[call];
    var s' := Apply(s, Put(call));
    WriteAddsOne(p);
    forall index: int64
      ensures GoodRead(Lookup(s'.store, TableKey(index)), index) && Stored(s', index) <= s'.done[index]
      ensures index != p.index ==> Lookup(s'.store, TableKey(index)) == Lookup(s.store, TableKey(index))
    {
      OtherKey(p.index, index);
      assert GoodRead(Lookup(s.store, TableKey(index)), index) && Stored(s, index) <= s.done[index];
    }
    forall other | other in s'.open ensures GoodPending(s', s'.open[other]) {
      assert GoodPending(s, s.open[other]);
    }
  }

  lemma OtherKey(i: int64, j: int64)
    ensures TableKey(i) == TableKey(j) ==> i == j
  {
    if TableKey(i) == TableKey(j) {
      TableKeyInjective(i, j);
    }
  }

  lemma FetchKeepsInv(s: State, call: nat, index: int64, peer: PeerEntry)
    requires Inv(s) && Enabled(s, Fetch(call, index, peer))
    ensures Inv(Apply(s, Fetch(call, index, peer)))
  {
    hide ToWrite, Held, GoodRead, TableKey, EntryFits;
    var s' := Apply(s, Fetch(call, index, peer));
    assert Stored(s, index) <= s.done[index];
    assert GoodPending(s', s'.open[call]);
    forall other | other in s'.open && other != call ensures GoodPending(s', s'.open[other]) {
      assert GoodPending(s, s.open[other]);
    }
    forall i: int64 ensures GoodRead(Lookup(s'.store, TableKey(i)), i) && Stored(s', i) <= s'.done[i] {
      assert GoodRead(Lookup(s.store, TableKey(i)), i) && Stored(s, i) <= s.done[i];
    }
  }

  lemma GiveUpKeepsInv(s: State, call: nat)
    requires Inv(s) && Enabled(s, GiveUp(call))
    ensures Inv(Apply(s, GiveUp(call)))
  {
    hide ToWrite, Held, GoodRead, TableKey, EntryFits;
    var s' := Apply(s, GiveUp(call));
    forall other | other in s'.open ensures GoodPending(s', s'.open[other]) {
      assert GoodPending(s, s.open[other]);
    }
    forall i: int64 ensures GoodRead(Lookup(s'.store, TableKey(i)), i) && Stored(s', i) <= s'.done[i] {
      assert GoodRead(Lookup(s.store, TableKey(i)), i) && Stored(s, i) <= s.done[i];
    }
  }

  lemma StepKeepsInv(s: State, a: Action)
    requires Inv(s) && Enabled(s, a)
    ensures Inv(Apply(s, a))
  {
    hide Inv, Apply;
    match a
    case Fetch(call, index, peer) => FetchKeepsInv(s, call, index, peer);
    case Put(call) => PutKeepsInv(s, call);
    case GiveUp(call) => GiveUpKeepsInv(s, call);
  }

  /** A write keeps the count of an index exact only if it was exact and no save went through in between. */
  lemma StepConserves(s: State, a: Action, index: int64)
    requires Inv(s) && Enabled(s, a)
    ensures var s' := Apply(s, a);
            Stored(s', index) == s'.done[index] <==> Stored(s, index) == s.done[index] && !Overtaken(s, a, index)
  {
    hide Held, GoodRead, TableKey, ToWrite;
    assert Stored(s, index) <= s.done[index];
    if a.Put? {
      var p := s.open[a.call];
      assert GoodPending(s, p);
      WriteAddsOne(p);
      OtherKey(p.index, index);
    }
  }

  /**
     However saves of peers interleave, the peers stored under an index number the saves of it that
     went through exactly when none of them wrote over one that went through after it had read.
   */
  lemma {:induction false} ConservedExactlyWhen(states: seq<State>, actions: seq<Action>, index: int64)
    requires Run(states, actions) && IsEmpty(states[0])
    ensures Inv(states[|actions|])
    ensures Stored(states[|actions|], index) == states[|actions|].done[index] <==> NoneOvertaken(states, actions, index)
    decreases |actions|
  {
    hide Apply, Enabled, Overtaken, Inv, Stored;
    if |actions| == 0 {
      EmptyIsInv(states[0], index);
    } else {
      var n := |actions| - 1;
      var front, frontActions := states[..n + 1], actions[..n];
      ConservedExactlyWhen(front, frontActions, index);
      StepKeepsInv(states[n], actions[n]);
      StepConserves(states[n], actions[n], index);
      assert NoneOvertaken(states, actions, index) <==>
             NoneOvertaken(front, frontActions, index) && !Overtaken(states[n], actions[n], index) by {
        if NoneOvertaken(states, actions, index) {
          forall i | 0 <= i < n ensures !Overtaken(front[i], frontActions[i], index) {
            assert !Overtaken(states[i], actions[i], index);
          }
          assert !Overtaken(states[n], actions[n], index);
        }
        if NoneOvertaken(front, frontActions, index) && !Overtaken(states[n], actions[n], index) {
          forall i | 0 <= i < |actions| ensures !Overtaken(states[i], actions[i], index) {
            assert i < n ==> !Overtaken(front[i], frontActions[i], index);
          }
        }
      }
    }
  }

  lemma EmptyIsInv(s: State, index: int64)
    requires IsEmpty(s)
    ensures Inv(s) && Stored(s, index) == s.done[index] == 0
  {
    hide TableKey;
  }

  /** Two saves to an empty bucket that both read before either writes: both succeed, the first peer is lost. */
  lemma FirstUpdateIsLost(s: State, index: int64, p: PeerEntry, q: PeerEntry)
    returns (states: seq<State>)
    requires IsEmpty(s) && EntryFits(p) && EntryFits(q) && IsUtf8(p.addr) && IsUtf8(q.addr)
    ensures Run(states, [Fetch(0, index, p), Fetch(1, index, q), Put(0), Put(1)]) && states[0] == s
    ensures states[4].done[index] == 2 && PeersAt(states[4].store, index) == Some([q])
  {
    hide EncodeBucket, DecodeBucket, TableKey, IsUtf8;
    GoodBucketRoundTrip(index, [p]);
    GoodBucketRoundTrip(index, [q]);
    var s1 := Apply(s, Fetch(0, index, p));
    var s2 := Apply(s1, Fetch(1, index, q));
    var s3 := Apply(s2, Put(0));
    var s4 := Apply(s3, Put(1));
    states := [s, s1, s2, s3, s4];
  }
}
