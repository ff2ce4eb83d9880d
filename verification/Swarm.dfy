/**
 The registry of connected peers. One registration loop adds peers in two critical sections with
 the construction of the peer between them; RemovePeer is one section; BanPeer looks the peer up
 in one and closes it outside any. A step is one of these pieces.
 */
module Swarm {
  import opened Bytes

  type PeerID = Digest

  type PublicKey = Digest

  type Hash = Bytes -> Digest

  /** A connection whose handshake is over. The transport computes the ID from the key. */
  datatype ConnEvent = ConnEvent(pubKey: PublicKey, peerID: PeerID)

  ghost predicate FromTransport(hash: Hash, e: ConnEvent) { e.peerID == hash(e.pubKey) }

  /** Where the registration loop stands; `P` is the type of peer references. */
  datatype Loop<P> = Idle | Adding(event: ConnEvent) | Registering(event: ConnEvent, peer: P)

  datatype Registry<P(==)> = Registry(
    active: map<PeerID, P>,
    keys: map<P, PublicKey>,   // every peer ever created, with its key
    closed: set<P>,
    loop: Loop<P>,
    banning: set<P>)           // looked up by a BanPeer that has not closed them yet

  datatype Step<P> =
    | CloseOld(event: ConnEvent)
    | Create(peer: P)
    | Install
    | Remove(id: PeerID)
    | BanLookup(id: PeerID)
    | BanClose(banned: P)

  ghost predicate Enabled<P>(hash: Hash, s: Registry<P>, step: Step<P>) {
    match step
    case CloseOld(e) => s.loop.Idle? && FromTransport(hash, e)
    case Create(p) => s.loop.Adding? && p !in s.keys
    case Install => s.loop.Registering?
    case Remove(_) => true
    case BanLookup(_) => true
    case BanClose(p) => p in s.banning
  }

  ghost function Apply<P>(hash: Hash, s: Registry<P>, step: Step<P>): Registry<P>
    requires Enabled(hash, s, step)
  {
    match step
    case CloseOld(e) =>
      s.(closed := s.closed + At(s.active, e.peerID), loop := Adding(e))
    case Create(p) =>
      s.(keys := s.keys[p := s.loop.event.pubKey], loop := Registering(s.loop.event, p))
    case Install =>
      s.(active := s.active[s.loop.event.peerID := s.loop.peer], loop := Idle)
    case Remove(id) =>
      s.(closed := s.closed + At(s.active, id), active := s.active - {id})
    case BanLookup(id) =>
      s.(banning := s.banning + At(s.active, id))
    case BanClose(p) =>
      s.(closed := s.closed + {p}, banning := s.banning - {p})
  }

  ghost function At<P>(active: map<PeerID, P>, id: PeerID): set<P> {
    if id in active then {active[id]} else {}
  }

  // ----- The invariant

  ghost predicate IsCurrent<P>(hash: Hash, s: Registry<P>, p: P)
    requires p in s.keys
  {
    hash(s.keys[p]) in s.active && s.active[hash(s.keys[p])] == p
  }

  ghost predicate IsBeingRegistered<P>(s: Registry<P>, p: P) {
    s.loop.Registering? && s.loop.peer == p
  }

  ghost predicate Inv<P>(hash: Hash, s: Registry<P>) {
    && (forall id :: id in s.active ==> s.active[id] in s.keys && hash(s.keys[s.active[id]]) == id)
    && (forall p :: p in s.keys ==> p in s.closed || IsCurrent(hash, s, p) || IsBeingRegistered(s, p))
    && s.closed <= s.keys.Keys && s.banning <= s.keys.Keys
    && (!s.loop.Idle? ==>
          FromTransport(hash, s.loop.event) && At(s.active, s.loop.event.peerID) <= s.closed)
    && (s.loop.Registering? ==> s.loop.peer in s.keys && s.keys[s.loop.peer] == s.loop.event.pubKey)
    && (s.loop.Registering? ==>
          s.loop.peer !in s.closed && s.loop.peer !in s.banning && !IsCurrent(hash, s, s.loop.peer))
  }

  ghost predicate IsEmpty<P>(s: Registry<P>) {
    s.active == map[] && s.keys == map[] && s.closed == {} && s.loop.Idle? && s.banning == {}
  }

  lemma CloseOldKeepsInv<P>(hash: Hash, s: Registry<P>, e: ConnEvent)
    requires Inv(hash, s) && Enabled(hash, s, CloseOld(e))
    ensures Inv(hash, Apply(hash, s, CloseOld(e)))
  {
  }

  lemma CreateKeepsInv<P>(hash: Hash, s: Registry<P>, p: P)
    requires Inv(hash, s) && Enabled(hash, s, Create(p))
    ensures Inv(hash, Apply(hash, s, Create(p)))
  {
    var s' := Apply(hash, s, Create(p));
    assert forall id :: id in s.active ==> s.active[id] != p;
    forall q | q in s'.keys ensures q in s'.closed || IsCurrent(hash, s', q) || IsBeingRegistered(s', q) {
      if q != p {
        assert q in s.closed || IsCurrent(hash, s, q);
      }
    }
  }

  lemma InstallKeepsInv<P>(hash: Hash, s: Registry<P>)
    requires Inv(hash, s) && Enabled(hash, s, Install)
    ensures Inv(hash, Apply(hash, s, Install))
  {
    var s' := Apply(hash, s, Install);
    var id := s.loop.event.peerID;
    forall q | q in s'.keys ensures q in s'.closed || IsCurrent(hash, s', q) {
      assert q in s.closed || IsCurrent(hash, s, q) || IsBeingRegistered(s, q);
      if q !in s.closed && IsCurrent(hash, s, q) {
        assert hash(s.keys[q]) == id ==> q in At(s.active, id);
      }
    }
  }

  lemma RemoveKeepsInv<P>(hash: Hash, s: Registry<P>, id: PeerID)
    requires Inv(hash, s)
    ensures Inv(hash, Apply(hash, s, Remove(id)))
  {
    var s' := Apply(hash, s, Remove(id));
    assert forall x :: x in s'.active ==> x in s.active && s'.active[x] == s.active[x];
    forall q | q in s'.keys ensures q in s'.closed || IsCurrent(hash, s', q) || IsBeingRegistered(s', q) {
      assert q in s.closed || IsCurrent(hash, s, q) || IsBeingRegistered(s, q);
      if IsCurrent(hash, s, q) {
        assert hash(s.keys[q]) == id ==> q in At(s.active, id);
      }
    }
    if s.loop.Registering? && id in s.active {
      assert s.active[id] != s.loop.peer;
    }
  }

  lemma BanKeepsInv<P>(hash: Hash, s: Registry<P>, step: Step<P>)
    requires Inv(hash, s) && Enabled(hash, s, step) && (step.BanLookup? || step.BanClose?)
    ensures Inv(hash, Apply(hash, s, step))
  {
    var s' := Apply(hash, s, step);
    forall q | q in s'.keys ensures q in s'.closed || IsCurrent(hash, s', q) || IsBeingRegistered(s', q) {
      assert q in s.closed || IsCurrent(hash, s, q) || IsBeingRegistered(s, q);
    }
  }

  /** Every step keeps the registry in order. */
  lemma StepKeepsInv<P>(hash: Hash, s: Registry<P>, step: Step<P>)
    requires Inv(hash, s) && Enabled(hash, s, step)
    ensures Inv(hash, Apply(hash, s, step))
  {
    hide Inv, Apply;
    match step
    case CloseOld(e) => CloseOldKeepsInv(hash, s, e);
    case Create(p) => CreateKeepsInv(hash, s, p);
    case Install => InstallKeepsInv(hash, s);
    case Remove(id) => RemoveKeepsInv(hash, s, id);
    case _ => BanKeepsInv(hash, s, step);
  }

  // ----- Runs

  ghost predicate Run<P>(hash: Hash, states: seq<Registry<P>>, steps: seq<Step<P>>) {
    && |states| == |steps| + 1 && IsEmpty(states[0])
    && forall i :: 0 <= i < |steps| ==>
         Enabled(hash, states[i], steps[i]) && states[i + 1] == Apply(hash, states[i], steps[i])
  }

  lemma {:induction false} RunKeepsInv<P>(hash: Hash, states: seq<Registry<P>>, steps: seq<Step<P>>)
    requires Run(hash, states, steps)
    ensures Inv(hash, states[|steps|])
    decreases |steps|
  {
    if |steps| > 0 {
      hide Inv, Apply, Enabled;
      var n := |steps| - 1;
      RunKeepsInv(hash, states[..n + 1], steps[..n]);
      StepKeepsInv(hash, states[n], steps[n]);
    }
  }

  /** Every map entry is a created peer and sits under the hash of that peer's own key. */
  lemma EntriesSitUnderTheirKey<P>(hash: Hash, states: seq<Registry<P>>, steps: seq<Step<P>>, id: PeerID)
    requires Run(hash, states, steps) && id in states[|steps|].active
    ensures var s := states[|steps|]; s.active[id] in s.keys && hash(s.keys[s.active[id]]) == id
  {
    RunKeepsInv(hash, states, steps);
  }

  /** No peer leaks: each one created is closed, is the entry for its ID, or is just being registered. */
  lemma NoPeerLeaks<P>(hash: Hash, states: seq<Registry<P>>, steps: seq<Step<P>>, p: P)
    requires Run(hash, states, steps) && p in states[|steps|].keys
    ensures var s := states[|steps|]; p in s.closed || IsCurrent(hash, s, p) || IsBeingRegistered(s, p)
  {
    RunKeepsInv(hash, states, steps);
  }

  /** At any moment at most one peer per ID is live, even while its successor is being registered. */
  lemma AtMostOneLivePeerPerId<P>(hash: Hash, states: seq<Registry<P>>, steps: seq<Step<P>>, p: P, q: P)
    requires Run(hash, states, steps)
    requires p in states[|steps|].keys && q in states[|steps|].keys
    requires p !in states[|steps|].closed && q !in states[|steps|].closed
    requires hash(states[|steps|].keys[p]) == hash(states[|steps|].keys[q])
    ensures p == q
  {
    var s := states[|steps|];
    RunKeepsInv(hash, states, steps);
    if IsCurrent(hash, s, p) {
      assert p in At(s.active, hash(s.keys[p]));
    }
    if IsCurrent(hash, s, q) {
      assert q in At(s.active, hash(s.keys[q]));
    }
  }

  /** Only installing a peer under an ID puts that ID into the map. */
  lemma OnlyInstallAdds<P>(hash: Hash, s: Registry<P>, step: Step<P>, id: PeerID)
    requires Enabled(hash, s, step) && id !in s.active
    requires step.Install? ==> s.loop.event.peerID != id
    ensures id !in Apply(hash, s, step).active
  {
  }

  /** A removed entry is gone at once, and stays gone until a peer is installed under its ID. */
  lemma {:induction false} RemovedStaysGone<P>(hash: Hash, states: seq<Registry<P>>, steps: seq<Step<P>>,
                                               i: nat, j: nat, id: PeerID)
    requires Run(hash, states, steps) && i < j <= |steps| && steps[i] == Remove(id)
    requires forall k :: i < k < j && steps[k].Install? ==> states[k].loop.event.peerID != id
    ensures id !in states[j].active
    decreases j
  {
    if j > i + 1 {
      RemovedStaysGone(hash, states, steps, i, j - 1, id);
      OnlyInstallAdds(hash, states[j - 1], steps[j - 1], id);
    }
  }

  // ----- The operations

  class Peer {
    const pubKey: PublicKey
    const id: PeerID
    var closed: bool

    constructor (hash: Hash, pubKey: PublicKey)
      ensures this.pubKey == pubKey && id == hash(pubKey) && !closed
    {
      this.pubKey := pubKey;
      this.id := hash(pubKey);
      this.closed := false;
    }

    method Close()
      modifies this`closed
      ensures closed
    {
      closed := true;
    }
  }

  predicate Distinct(peers: seq<Peer>) {
    forall i, j :: 0 <= i < j < |peers| ==> peers[i] != peers[j]
  }

  class PeerSwarm {
    const hash: Hash
    var activePeers: map<PeerID, Peer>
    ghost var created: set<Peer>
    ghost var loop: Loop<Peer>
    ghost var banning: set<Peer>

    ghost function View(): Registry<Peer>
      reads this, created
    {
      Registry(activePeers, (map p | p in created :: p.pubKey), (set p | p in created && p.closed), loop, banning)
    }

    ghost predicate Valid()
      reads this, created
    {
      Inv(hash, View())
    }

    constructor (hash: Hash)
      ensures Valid() && IsEmpty(View()) && this.hash == hash
    {
      this.hash := hash;
      activePeers := map[];
      created := {};
      loop := Idle;
      banning := {};
    }

    /** The first critical section of AddPeer. */
    method CloseOldPeer(event: ConnEvent)
      requires Valid() && loop.Idle? && FromTransport(hash, event)
      modifies this`loop, created`closed
      ensures Valid() && created == old(created) && View() == Apply(hash, old(View()), CloseOld(event))
    {
      StepKeepsInv(hash, View(), CloseOld(event));
      if event.peerID in activePeers {
        assert activePeers[event.peerID] in View().keys;
        activePeers[event.peerID].Close();
      }
      loop := Adding(event);
      assert View() == Apply(hash, old(View()), CloseOld(event));
    }

    /** What AddPeer does between its critical sections. */
    method CreatePeer(pubKey: PublicKey) returns (p: Peer)
      requires Valid() && loop.Adding? && loop.event.pubKey == pubKey
      modifies this`loop, this`created
      ensures fresh(p) && created == old(created) + {p}
      ensures Valid() && View() == Apply(hash, old(View()), Create(p))
    {
      p := new Peer(hash, pubKey);
      StepKeepsInv(hash, View(), Create(p));
      created := created + {p};
      loop := Registering(loop.event, p);
      assert View() == Apply(hash, old(View()), Create(p));
    }

    /** The second critical section of AddPeer. */
    method InstallPeer(peerID: PeerID, p: Peer)
      requires Valid() && loop.Registering? && loop.peer == p && loop.event.peerID == peerID
      modifies this`loop, this`activePeers
      ensures Valid() && created == old(created) && View() == Apply(hash, old(View()), Install)
    {
      StepKeepsInv(hash, View(), Install);
      activePeers := activePeers[peerID := p];
      loop := Idle;
    }

    /** Uninterrupted, adding a peer closes the one it replaces and leaves all others as they were. */
    method AddPeer(event: ConnEvent) returns (p: Peer)
      requires Valid() && loop.Idle? && FromTransport(hash, event)
      modifies this`loop, this`created, this`activePeers, created`closed
      ensures Valid() && fresh(p) && created == old(created) + {p} && !p.closed && p.pubKey == event.pubKey
      ensures activePeers == old(activePeers)[event.peerID := p] && loop.Idle?
      ensures forall q :: q in old(created) ==>
        (q.closed <==> old(q.closed) || (event.peerID in old(activePeers) && q == old(activePeers)[event.peerID]))
    {
      CloseOldPeer(event);
      ghost var closedThen := View().closed;
      p := CreatePeer(event.pubKey);
      assert View().closed == closedThen;
      InstallPeer(event.peerID, p);
      assert View().closed == closedThen;
      forall q | q in old(created)
        ensures q.closed <==> old(q.closed) || (event.peerID in old(activePeers) && q == old(activePeers)[event.peerID])
      {
        assert q.closed <==> q in View().closed;
        assert old(q.closed) <==> q in old(View()).closed;
      }
    }

    method RemovePeer(peerID: PeerID)
      requires Valid()
      modifies this`activePeers, created`closed
      ensures Valid() && created == old(created) && View() == Apply(hash, old(View()), Remove(peerID))
      ensures activePeers == old(activePeers) - {peerID}
      ensures forall q :: q in created ==>
        (q.closed <==> old(q.closed) || (peerID in old(activePeers) && q == old(activePeers)[peerID]))
    {
      StepKeepsInv(hash, View(), Remove(peerID));
      if peerID in activePeers {
        assert activePeers[peerID] in View().keys;
        activePeers[peerID].Close();
        activePeers := activePeers - {peerID};
      }
      assert activePeers == old(activePeers) - {peerID};
      assert View() == Apply(hash, old(View()), Remove(peerID));
    }

    /** The read section of BanPeer. */
    method LookUpBanned(peerID: PeerID) returns (p: Option<Peer>)
      requires Valid()
      modifies this`banning
      ensures Valid() && created == old(created) && View() == Apply(hash, old(View()), BanLookup(peerID))
      ensures p == if peerID in activePeers then Some(activePeers[peerID]) else None
      ensures p.Some? ==> p.value in created && p.value in banning
    {
      StepKeepsInv(hash, View(), BanLookup(peerID));
      p := None;
      if peerID in activePeers {
        assert activePeers[peerID] in View().keys;
        p := Some(activePeers[peerID]);
        banning := banning + {activePeers[peerID]};
      }
      assert View() == Apply(hash, old(View()), BanLookup(peerID));
    }

    method CloseBanned(p: Peer)
      requires Valid() && p in banning && p in created
      modifies this`banning, p`closed
      ensures Valid() && created == old(created) && View() == Apply(hash, old(View()), BanClose(p))
    {
      StepKeepsInv(hash, View(), BanClose(p));
      p.Close();
      banning := banning - {p};
      assert View() == Apply(hash, old(View()), BanClose(p));
    }

    /** Uninterrupted, banning closes the peer if it is connected and leaves its entry in the map. */
    method BanPeer(peerID: PeerID)
      requires Valid()
      modifies this`banning, created`closed
      ensures Valid() && created == old(created)
      ensures peerID in activePeers ==> activePeers[peerID] in created
      ensures forall q :: q in created ==>
        (q.closed <==> old(q.closed) || (peerID in activePeers && q == activePeers[peerID]))
    {
      var p := LookUpBanned(peerID);
      assert forall q :: q in created ==> (q.closed <==> q in View().closed);
      assert forall q :: q in created ==> (old(q.closed) <==> q in old(View()).closed);
      if p.Some? {
        ghost var closedThen := View().closed;
        CloseBanned(p.value);
        assert View().closed == closedThen + {p.value};
        assert forall q :: q in created ==> (q.closed <==> q in View().closed);
      }
    }

    /** Every active peer exactly once, in no particular order. */
    method GetAllPeers() returns (res: seq<Peer>)
      ensures |res| == |activePeers|
      ensures Valid() ==> Distinct(res)
      ensures forall id :: id in activePeers ==> activePeers[id] in res
      ensures forall p :: p in res ==> p in activePeers.Values
    {
      res := CollectPeers(|activePeers|);
    }

    /** `count` different active peers, or all of them if there are fewer. */
    method GetMyRandomPeers(count: nat) returns (res: seq<Peer>)
      ensures Valid() ==> Distinct(res)
      ensures |res| == if count < |activePeers| then count else |activePeers|
      ensures forall p :: p in res ==> p in activePeers.Values
    {
      res := CollectPeers(if count < |activePeers| then count else |activePeers|);
    }

    /** In a registry in order, no peer is the entry of two IDs. */
    lemma EntriesAreDistinct()
      requires Valid()
      ensures forall a, b :: a in activePeers && b in activePeers && activePeers[a] == activePeers[b] ==> a == b
    {
      var s := View();
      forall id | id in activePeers ensures hash(activePeers[id].pubKey) == id {
        assert s.active[id] in s.keys && hash(s.keys[s.active[id]]) == id;
      }
    }

    /** Takes the peers of `count` distinct IDs from the map, in whatever order it yields them. */
    method CollectPeers(count: nat) returns (res: seq<Peer>)
      requires count <= |activePeers|
      ensures |res| == count
      ensures Valid() ==> Distinct(res)
      ensures forall p :: p in res ==> p in activePeers.Values
      ensures count == |activePeers| ==> forall id :: id in activePeers ==> activePeers[id] in res
    {
      res := [];
      var left := activePeers.Keys;
      if Valid() {
        EntriesAreDistinct();
      }
      while |res| < count
        invariant left <= activePeers.Keys && |res| + |left| == |activePeers| && |res| <= count
        invariant forall p :: p in res ==> exists id :: id in activePeers && id !in left && activePeers[id] == p
        invariant Valid() ==> Distinct(res)
        invariant forall id :: id in activePeers && id !in left ==> activePeers[id] in res
        decreases count - |res|
      {
        var id :| id in left;
        assert Valid() ==> activePeers[id] !in res;
        left := left - {id};
        res := res + [activePeers[id]];
      }
      if count == |activePeers| {
        assert left == {};
      }
    }
  }
}
