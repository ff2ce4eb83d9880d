/**
 How far one broadcast reaches. `o` broadcasts `m` with hop limit H = m.hop, once, while any
 other messages circulate; the accepted hop limit of a node is H minus the length of the path
 its copy came along.
 */
module GossipFlood {
  import opened Bytes
  import opened Gossip
  import opened GossipRuns

  // ----- Paths

  /** Some path of exactly `d` links leads from `o` to `v`. */
  ghost predicate Walk(net: Network, o: PeerID, v: PeerID, d: nat)
    decreases d
  {
    if d == 0 then v == o
    else exists u :: u in net.peers && v in net.peers[u] && Walk(net, o, u, d - 1)
  }

  ghost predicate Reachable(net: Network, o: PeerID, v: PeerID) {
    exists d: nat :: Walk(net, o, v, d)
  }

  ghost predicate Within(net: Network, o: PeerID, v: PeerID, k: int) {
    exists d: nat :: d <= k && Walk(net, o, v, d)
  }

  lemma WalkStep(net: Network, o: PeerID, u: PeerID, v: PeerID, d: nat)
    requires Walk(net, o, u, d) && u in net.peers && v in net.peers[u]
    ensures Walk(net, o, v, d + 1)
  {
  }

  // ----- The invariant of one broadcast

  ghost predicate Marked(s: State, v: PeerID, id: MessageID) { (v, id) in s.seen }

  function HopAt(s: State, v: PeerID, id: MessageID): nat
    requires (v, id) in s.seen
  {
    s.seen[(v, id)].hop
  }

  /** A marked node accepted the message over a path, from a node that accepted it one hop earlier. */
  ghost predicate GoodMark(net: Network, o: PeerID, m: Message, s: State, v: PeerID) {
    Marked(s, v, m.id) ==>
      && s.seen[(v, m.id)].origin == m.origin && s.seen[(v, m.id)].id == m.id
      && v in net.nodes && (v == m.origin ==> v == o)
      && 1 <= HopAt(s, v, m.id) <= m.hop
      && Walk(net, o, v, m.hop - HopAt(s, v, m.id))
      && (HopAt(s, v, m.id) < m.hop ==>
            exists u :: Marked(s, u, m.id) && HopAt(s, u, m.id) == HopAt(s, v, m.id) + 1)
  }

  /** A copy sent by a marked node: one hop less than that node accepted. */
  ghost predicate GoodCopy(net: Network, o: PeerID, m: Message, s: State, c: Copy) {
    && c.msg.origin == m.origin && c.to != m.origin
    && 1 <= c.msg.hop <= m.hop - 1
    && Marked(s, c.from, m.id) && HopAt(s, c.from, m.id) == c.msg.hop + 1
    && c.from in net.peers && c.to in net.peers[c.from]
    && Walk(net, o, c.to, m.hop - c.msg.hop)
  }

  /** The call that starts the broadcast. */
  function Call(o: PeerID, m: Message): Copy { Copy(o, o, m) }

  /** A network where nothing happened but that `o` is about to broadcast. */
  function StartOf(o: PeerID, m: Message): State { State(map[], multiset{}, multiset{Call(o, m)}, multiset{}) }

  ghost predicate Flood(net: Network, o: PeerID, m: Message, s: State) {
    && o in net.nodes
    && (forall v :: GoodMark(net, o, m, s, v))
    && (forall c :: c in s.flying && c.msg.id == m.id ==> GoodCopy(net, o, m, s, c))
    && (forall c :: c in s.pending && c.msg.id == m.id ==> c == Call(o, m) || GoodCopy(net, o, m, s, c))
    && (Call(o, m) in s.pending || Marked(s, o, m.id))
    && (forall v :: Marked(s, v, m.id) ==> Marked(s, o, m.id) && HopAt(s, o, m.id) == m.hop)
  }

  /** Node `o` is about to broadcast `m`, whose ID no node has met; anything may be true of other IDs. */
  ghost predicate AboutToBroadcast(net: Network, o: PeerID, m: Message, s: State) {
    && o in net.nodes
    && Call(o, m) in s.pending
    && (forall v :: !Marked(s, v, m.id))
    && (forall c :: c in s.flying ==> c.msg.id != m.id)
    && (forall c :: c in s.pending && c.msg.id == m.id ==> c == Call(o, m))
  }

  lemma StartsFlood(net: Network, o: PeerID, m: Message, s: State)
    requires AboutToBroadcast(net, o, m, s)
    ensures Flood(net, o, m, s)
  {
  }

  /** Marking a node does not disturb what holds of the others. */
  lemma MarkKeepsGood(net: Network, o: PeerID, m: Message, s: State, s': State, c: Copy)
    requires Key(c) !in s.seen && s'.seen == s.seen[Key(c) := c.msg]
    ensures forall v :: v != c.to && GoodMark(net, o, m, s, v) ==> GoodMark(net, o, m, s', v)
    ensures forall d :: GoodCopy(net, o, m, s, d) ==> GoodCopy(net, o, m, s', d)
  {
    forall v | v != c.to && GoodMark(net, o, m, s, v) ensures GoodMark(net, o, m, s', v) {
      if Marked(s', v, m.id) && HopAt(s', v, m.id) < m.hop {
        var u :| Marked(s, u, m.id) && HopAt(s, u, m.id) == HopAt(s, v, m.id) + 1;
        assert Marked(s', u, m.id);
      }
    }
  }

  lemma SameMarksKeepGood(net: Network, o: PeerID, m: Message, s: State, s': State)
    requires s'.seen == s.seen
    ensures forall v :: Marked(s, v, m.id) <==> Marked(s', v, m.id)
    ensures forall v :: GoodMark(net, o, m, s, v) ==> GoodMark(net, o, m, s', v)
    ensures forall d :: GoodCopy(net, o, m, s, d) ==> GoodCopy(net, o, m, s', d)
  {
    forall v | GoodMark(net, o, m, s, v) ensures GoodMark(net, o, m, s', v) {
      if Marked(s', v, m.id) && HopAt(s', v, m.id) < m.hop {
        assert Marked(s, v, m.id);
        var u :| Marked(s, u, m.id) && HopAt(s, u, m.id) == HopAt(s, v, m.id) + 1;
        assert Marked(s', u, m.id);
      }
    }
  }

  lemma FanOutIsGood(net: Network, o: PeerID, m: Message, s': State, c: Copy, d: Copy)
    requires net.Valid() && c.to in net.peers && c.msg.id == m.id && c.msg.origin == m.origin
    requires Marked(s', c.to, m.id) && s'.seen[Key(c)] == c.msg && 1 <= c.msg.hop <= m.hop
    requires Walk(net, o, c.to, m.hop - c.msg.hop)
    requires d in FanOut(c.to, net.peers[c.to], c.msg)
    ensures GoodCopy(net, o, m, s', d)
  {
    WalkStep(net, o, c.to, d.to, m.hop - c.msg.hop);
  }

  lemma RelayedNodeIsGood(net: Network, o: PeerID, m: Message, s: State, s': State, c: Copy)
    requires m.hop >= 1 && o in net.nodes && net.Valid()
    requires Key(c) !in s.seen && s'.seen == s.seen[Key(c) := c.msg] && c.msg.id == m.id
    requires c == Call(o, m) || GoodCopy(net, o, m, s, c)
    requires forall v :: Marked(s, v, m.id) ==> Marked(s, o, m.id) && HopAt(s, o, m.id) == m.hop
    ensures GoodMark(net, o, m, s', c.to)
    ensures c.msg.origin == m.origin && 1 <= c.msg.hop <= m.hop && Walk(net, o, c.to, m.hop - c.msg.hop)
    ensures Marked(s', o, m.id) && HopAt(s', o, m.id) == m.hop
  {
    if c != Call(o, m) {
      assert Marked(s', c.from, m.id) && HopAt(s', c.from, m.id) == c.msg.hop + 1;
    }
  }

  lemma RelayKeepsFlood(net: Network, o: PeerID, m: Message, s: State, c: Copy)
    requires net.Valid() && m.hop >= 1 && Flood(net, o, m, s) && o in net.nodes
    requires Enabled(net, s, Relay(c)) && Key(c) !in s.seen && c.msg.id == m.id
    ensures Flood(net, o, m, Apply(net, s, Relay(c)))
  {
    hide FanOut, Walk, GoodMark, GoodCopy;
    var s' := Apply(net, s, Relay(c));
    MarkKeepsGood(net, o, m, s, s', c);
    RelayedNodeIsGood(net, o, m, s, s', c);
    forall d | d in s'.flying && d.msg.id == m.id ensures GoodCopy(net, o, m, s', d) {
      if d in FanOut(c.to, net.peers[c.to], c.msg) {
        FanOutIsGood(net, o, m, s', c, d);
      } else {
        assert d in s.flying;
      }
    }
    forall d | d in s'.pending && d.msg.id == m.id ensures d == Call(o, m) || GoodCopy(net, o, m, s', d) {
      assert d in s.pending;
    }
  }

  lemma OtherMessageKeepsFlood(net: Network, o: PeerID, m: Message, s: State, c: Copy)
    requires net.Valid() && Flood(net, o, m, s) && Enabled(net, s, Relay(c))
    requires Key(c) !in s.seen && c.msg.id != m.id
    ensures Flood(net, o, m, Apply(net, s, Relay(c)))
  {
    hide FanOut;
    var s' := Apply(net, s, Relay(c));
    OtherMarksKeepGood(net, o, m, s, s', c);
    forall d | d in s'.flying && d.msg.id == m.id ensures GoodCopy(net, o, m, s', d) {
      FanOutKeepsId(c.to, net.peers[c.to], c.msg, d);
      assert d in s.flying;
    }
  }

  lemma FanOutKeepsId(v: PeerID, peers: set<PeerID>, m: Message, d: Copy)
    ensures d in FanOut(v, peers, m) ==> d.msg.id == m.id
  {
  }

  lemma OtherMarksKeepGood(net: Network, o: PeerID, m: Message, s: State, s': State, c: Copy)
    requires c.msg.id != m.id && s'.seen == s.seen[Key(c) := c.msg]
    ensures forall v :: Marked(s, v, m.id) <==> Marked(s', v, m.id)
    ensures forall v :: GoodMark(net, o, m, s, v) ==> GoodMark(net, o, m, s', v)
    ensures forall d :: GoodCopy(net, o, m, s, d) ==> GoodCopy(net, o, m, s', d)
  {
    forall v | GoodMark(net, o, m, s, v) ensures GoodMark(net, o, m, s', v) {
      if Marked(s', v, m.id) && HopAt(s', v, m.id) < m.hop {
        assert Marked(s, v, m.id);
        var u :| Marked(s, u, m.id) && HopAt(s, u, m.id) == HopAt(s, v, m.id) + 1;
        assert Marked(s', u, m.id);
      }
    }
  }

  /** Every outstanding copy was outstanding before, or was just fanned out. */
  lemma OutstandingAfter(net: Network, s: State, a: Action, d: Copy)
    requires Enabled(net, s, a) && Outstanding(Apply(net, s, a), d)
    ensures Outstanding(s, d) ||
            (a.Relay? && Key(a.c) !in s.seen && d in FanOut(a.c.to, net.peers[a.c.to], a.c.msg))
    ensures d in Apply(net, s, a).pending ==> d in s.pending || (d == a.c && d in s.flying)
    ensures d in Apply(net, s, a).flying ==>
              d in s.flying || (a.Relay? && Key(a.c) !in s.seen && d in FanOut(a.c.to, net.peers[a.c.to], a.c.msg))
  {
    hide FanOut;
  }

  lemma CallStaysOrIsMarked(net: Network, s: State, a: Action, d: Copy)
    requires Enabled(net, s, a) && d in s.pending
    ensures d in Apply(net, s, a).pending || Key(d) in Apply(net, s, a).seen
  {
    hide FanOut;
  }

  lemma UnmarkingStepKeepsFlood(net: Network, o: PeerID, m: Message, s: State, a: Action)
    requires net.Valid() && Flood(net, o, m, s) && Enabled(net, s, a)
    requires a.Check? || Key(a.c) in s.seen
    ensures Flood(net, o, m, Apply(net, s, a))
  {
    hide FanOut, Walk, GoodMark, GoodCopy, Apply;
    var s' := Apply(net, s, a);
    OtherSizes(net, s, a);
    SameMarksKeepGood(net, o, m, s, s');
    forall d | d in s'.flying && d.msg.id == m.id ensures GoodCopy(net, o, m, s', d) {
      OutstandingAfter(net, s, a, d);
    }
    forall d | d in s'.pending && d.msg.id == m.id ensures d == Call(o, m) || GoodCopy(net, o, m, s', d) {
      OutstandingAfter(net, s, a, d);
    }
    if Call(o, m) in s.pending {
      CallStaysOrIsMarked(net, s, a, Call(o, m));
    }
  }

  lemma StepKeepsFlood(net: Network, o: PeerID, m: Message, s: State, a: Action)
    requires net.Valid() && m.hop >= 1 && Flood(net, o, m, s) && Enabled(net, s, a)
    ensures Flood(net, o, m, Apply(net, s, a))
  {
    if a.Relay? && Key(a.c) !in s.seen && a.c.msg.id == m.id {
      RelayKeepsFlood(net, o, m, s, a.c);
    } else if a.Relay? && Key(a.c) !in s.seen {
      OtherMessageKeepsFlood(net, o, m, s, a.c);
    } else {
      UnmarkingStepKeepsFlood(net, o, m, s, a);
    }
  }

  lemma {:induction false} RunKeepsFlood(net: Network, o: PeerID, m: Message, states: seq<State>, actions: seq<Action>)
    requires net.Valid() && m.hop >= 1
    requires Run(net, states, actions) && AboutToBroadcast(net, o, m, states[0])
    ensures Flood(net, o, m, states[|actions|])
    decreases |actions|
  {
    hide Flood, Apply, Enabled;
    if |actions| == 0 {
      StartsFlood(net, o, m, states[0]);
    } else {
      var n := |actions| - 1;
      PrefixRun(net, states, actions);
      RunKeepsFlood(net, o, m, states[..n + 1], actions[..n]);
      StepKeepsFlood(net, o, m, states[n], actions[n]);
    }
  }

  // ----- Hop limits and reach, in any order of delivery

  /**
     A copy still to be handled, in flight or past the check, has travelled some path, whose length
     it has paid for with its hop limit: H at the originator's own call, between 1 and H - 1 at any
     other copy. So decrementing it never wraps.
   */
  lemma HopLimitIsPathLength(net: Network, o: PeerID, m: Message, states: seq<State>, actions: seq<Action>, c: Copy)
    requires net.Valid() && m.hop >= 1
    requires Run(net, states, actions) && AboutToBroadcast(net, o, m, states[0])
    requires Outstanding(states[|actions|], c) && c.msg.id == m.id
    ensures if c == Call(o, m) then c.msg.hop == m.hop else 1 <= c.msg.hop <= m.hop - 1
    ensures Walk(net, o, c.to, m.hop - c.msg.hop)
    ensures Decrement(c.msg.hop) == c.msg.hop - 1
  {
    RunKeepsFlood(net, o, m, states, actions);
  }

  /** No node farther than H - 1 links from the originator ever marks the message. */
  lemma Reach(net: Network, o: PeerID, m: Message, states: seq<State>, actions: seq<Action>, v: PeerID)
    requires net.Valid() && m.hop >= 1
    requires Run(net, states, actions) && AboutToBroadcast(net, o, m, states[0])
    ensures Marked(states[|actions|], v, m.id) ==> Within(net, o, v, m.hop - 1)
  {
    RunKeepsFlood(net, o, m, states, actions);
    assert GoodMark(net, o, m, states[|actions|], v);
  }

  /** A node that the origin field names is neither marked nor sent the message, unless it broadcasts it. */
  ghost predicate SkipsOrigin(m: Message, s: State) {
    && !Marked(s, m.origin, m.id)
    && forall c :: Outstanding(s, c) && c.msg.id == m.id ==> c.msg.origin == m.origin && c.to != m.origin
  }

  lemma FanOutSkipsOrigin(v: PeerID, peers: set<PeerID>, m: Message, c: Copy)
    requires c in FanOut(v, peers, m)
    ensures c.msg.id == m.id && c.msg.origin == m.origin && c.to != m.origin
  {
  }

  lemma StepSkipsOrigin(net: Network, m: Message, s: State, a: Action)
    requires Enabled(net, s, a) && SkipsOrigin(m, s)
    ensures SkipsOrigin(m, Apply(net, s, a))
  {
    hide FanOut;
    var s' := Apply(net, s, a);
    assert Outstanding(s, a.c);
    forall c | Outstanding(s', c) && c.msg.id == m.id ensures c.msg.origin == m.origin && c.to != m.origin {
      OutstandingAfter(net, s, a, c);
      if !Outstanding(s, c) {
        FanOutSkipsOrigin(a.c.to, net.peers[a.c.to], a.c.msg, c);
      }
    }
  }

  lemma {:induction false} RunSkipsOrigin(net: Network, o: PeerID, m: Message, states: seq<State>, actions: seq<Action>)
    requires Run(net, states, actions) && AboutToBroadcast(net, o, m, states[0]) && m.origin != o
    ensures SkipsOrigin(m, states[|actions|])
    decreases |actions|
  {
    hide Apply, Enabled;
    if |actions| > 0 {
      var n := |actions| - 1;
      PrefixRun(net, states, actions);
      RunSkipsOrigin(net, o, m, states[..n + 1], actions[..n]);
      StepSkipsOrigin(net, m, states[n], actions[n]);
    }
  }

  /**
     If the origin field names a node other than the originator, no run on any network, whatever the
     hop limit, marks the message there.
   */
  lemma OriginIsNeverReached(net: Network, o: PeerID, m: Message, states: seq<State>, actions: seq<Action>)
    requires Run(net, states, actions) && AboutToBroadcast(net, o, m, states[0]) && m.origin != o
    ensures !Marked(states[|actions|], m.origin, m.id)
  {
    RunSkipsOrigin(net, o, m, states, actions);
  }

  /** Broadcasting with hop limit 0 wraps: the copies leave with the largest 32-bit number. */
  lemma ZeroHopLimitWraps(net: Network, o: PeerID, m: Message, s: State, p: PeerID)
    requires net.Valid() && m.hop == 0 && AboutToBroadcast(net, o, m, s)
    requires p in net.peers[o] && p != m.origin
    ensures Enabled(net, s, Relay(Call(o, m)))
    ensures Copy(o, p, m.(hop := TWO_32 - 1)) in Apply(net, s, Relay(Call(o, m))).flying
  {
    var c := Copy(o, p, Forwarded(m));
    assert c in FanOut(o, net.peers[o], m);
    assert c == Copy(o, p, m.(hop := TWO_32 - 1));
    assert Key(Call(o, m)) !in s.seen by { assert !Marked(s, o, m.id); }
  }

  // ----- Nothing is lost

  /** Every copy of the message that a marked node sent is still outstanding, or its target is marked. */
  ghost predicate NothingLost(net: Network, s: State, id: MessageID) {
    forall v, c :: Marked(s, v, id) && v in net.peers && c in FanOut(v, net.peers[v], s.seen[(v, id)]) ==>
      Key(c) in s.seen || Outstanding(s, c)
  }

  lemma StepKeepsNothingLost(net: Network, s: State, a: Action, id: MessageID)
    requires Enabled(net, s, a) && NothingLost(net, s, id)
    ensures NothingLost(net, Apply(net, s, a), id)
  {
    hide FanOut;
    var s' := Apply(net, s, a);
    forall v, c | Marked(s', v, id) && v in net.peers && c in FanOut(v, net.peers[v], s'.seen[(v, id)])
      ensures Key(c) in s'.seen || Outstanding(s', c)
    {
      if !Marked(s, v, id) {
        assert c in s'.flying;
      } else {
        assert Key(c) in s.seen || Outstanding(s, c);
      }
    }
  }

  lemma {:induction false} RunKeepsNothingLost(net: Network, states: seq<State>, actions: seq<Action>, id: MessageID)
    requires Run(net, states, actions) && NothingLost(net, states[0], id)
    ensures NothingLost(net, states[|actions|], id)
    decreases |actions|
  {
    if |actions| > 0 {
      var n := |actions| - 1;
      PrefixRun(net, states, actions);
      RunKeepsNothingLost(net, states[..n + 1], actions[..n], id);
      StepKeepsNothingLost(net, states[n], actions[n], id);
    }
  }

  // ----- Coverage of small networks

  /** The first arrivals form a tree: a node that accepted hop h has H - h ancestors, each one hop earlier. */
  lemma {:induction false} Ancestors(net: Network, o: PeerID, m: Message, s: State, v: PeerID)
    returns (line: set<PeerID>)
    requires Flood(net, o, m, s) && Marked(s, v, m.id)
    ensures |line| == m.hop - HopAt(s, v, m.id) + 1
    ensures forall u :: u in line ==> Marked(s, u, m.id) && u in net.nodes && HopAt(s, u, m.id) >= HopAt(s, v, m.id)
    decreases m.hop - HopAt(s, v, m.id)
  {
    assert GoodMark(net, o, m, s, v);
    if HopAt(s, v, m.id) == m.hop {
      line := {v};
    } else {
      var u :| Marked(s, u, m.id) && HopAt(s, u, m.id) == HopAt(s, v, m.id) + 1;
      assert GoodMark(net, o, m, s, u);
      line := Ancestors(net, o, m, s, u);
      assert v !in line;
      line := line + {v};
    }
  }

  /** While some node is unmarked, every marked node of a network of at most H nodes had hops to spare. */
  lemma HopsToSpare(net: Network, o: PeerID, m: Message, s: State, v: PeerID, w: PeerID)
    requires Flood(net, o, m, s) && Marked(s, v, m.id)
    requires |net.nodes| <= m.hop && w in net.nodes && !Marked(s, w, m.id)
    ensures HopAt(s, v, m.id) >= 2
  {
    var line := Ancestors(net, o, m, s, v);
    assert w !in line;
    SubsetSize(line + {w}, net.nodes);
  }

  /** A path from a marked node to an unmarked one leaves the marked nodes somewhere. */
  lemma {:induction false} Frontier(net: Network, o: PeerID, s: State, id: MessageID, v: PeerID, d: nat)
    returns (u: PeerID, w: PeerID)
    requires net.Valid() && o in net.nodes && Walk(net, o, v, d) && Marked(s, o, id) && !Marked(s, v, id)
    ensures u in net.peers && w in net.peers[u] && Marked(s, u, id) && !Marked(s, w, id)
    decreases d
  {
    var t :| t in net.peers && v in net.peers[t] && Walk(net, o, t, d - 1);
    if Marked(s, t, id) {
      return t, v;
    }
    u, w := Frontier(net, o, s, id, t, d - 1);
  }

  /** The message is settled: no copy of it is left to handle. */
  predicate Settled(s: State, id: MessageID) {
    forall c :: c in s.flying + s.pending ==> c.msg.id != id
  }

  /**
     In a network of at most H nodes, as long as some node the originator can reach is unmarked,
     a copy for an unmarked node is outstanding.
   */
  lemma UnmarkedMeansOutstanding(net: Network, o: PeerID, m: Message, s: State, v: PeerID) returns (c: Copy)
    requires net.Valid() && Flood(net, o, m, s) && NothingLost(net, s, m.id)
    requires o in net.nodes && |net.nodes| <= m.hop
    requires m.origin == o || m.origin !in net.nodes
    requires Reachable(net, o, v) && !Marked(s, v, m.id)
    ensures Outstanding(s, c) && c.msg.id == m.id && !Marked(s, c.to, m.id)
  {
    if !Marked(s, o, m.id) {
      return Call(o, m);
    }
    var d: nat :| Walk(net, o, v, d);
    var u, w := Frontier(net, o, s, m.id, v, d);
    assert w in net.nodes;
    HopsToSpare(net, o, m, s, u, w);
    assert GoodMark(net, o, m, s, u);
    c := Copy(u, w, Forwarded(s.seen[(u, m.id)]));
    assert c in FanOut(u, net.peers[u], s.seen[(u, m.id)]);
  }

  lemma SettledSmallNetworkIsCovered(net: Network, o: PeerID, m: Message, s: State, v: PeerID)
    requires net.Valid() && Flood(net, o, m, s) && NothingLost(net, s, m.id) && Settled(s, m.id)
    requires o in net.nodes && |net.nodes| <= m.hop
    requires m.origin == o || m.origin !in net.nodes
    requires Reachable(net, o, v)
    ensures Marked(s, v, m.id)
  {
    if !Marked(s, v, m.id) {
      var c := UnmarkedMeansOutstanding(net, o, m, s, v);
      OutstandingIsUnsettled(s, c);
    }
  }

  lemma OutstandingIsUnsettled(s: State, c: Copy)
    requires Outstanding(s, c)
    ensures !Settled(s, c.msg.id)
  {
    assert c in s.flying + s.pending;
  }

  lemma SettledHasNoCopies(s: State, id: MessageID)
    requires Settled(s, id)
    ensures forall c :: Outstanding(s, c) ==> c.msg.id != id
  {
    forall c | Outstanding(s, c) ensures c.msg.id != id {
      assert c in s.flying + s.pending;
    }
  }

  /**
     On a network of at most H nodes, all of which the originator can reach, every settled state
     of every run, whatever the order of delivery, has the message marked at every node exactly
     when the message's origin field names the originator or no node at all.
   */
  lemma Coverage(net: Network, o: PeerID, m: Message, states: seq<State>, actions: seq<Action>)
    requires net.Valid() && |net.nodes| <= m.hop
    requires forall v :: v in net.nodes ==> Reachable(net, o, v)
    requires Run(net, states, actions) && AboutToBroadcast(net, o, m, states[0])
    requires Settled(states[|actions|], m.id)
    ensures (forall v :: v in net.nodes ==> Marked(states[|actions|], v, m.id))
       <==> (m.origin == o || m.origin !in net.nodes)
  {
    var s := states[|actions|];
    assert |net.nodes| >= 1 by { SubsetSize({o}, net.nodes); }
    RunKeepsFlood(net, o, m, states, actions);
    RunKeepsNothingLost(net, states, actions, m.id);
    if m.origin == o || m.origin !in net.nodes {
      forall v | v in net.nodes ensures Marked(s, v, m.id) {
        SettledSmallNetworkIsCovered(net, o, m, s, v);
      }
    } else {
      assert GoodMark(net, o, m, s, m.origin);
    }
  }

  lemma QuiescentIsSettled(s: State, id: MessageID)
    requires Quiescent(s)
    ensures Settled(s, id)
  {
  }

  /** In particular, when nothing at all is left to handle, all nodes of such a network have the message. */
  lemma QuiescentMeansCovered(net: Network, o: PeerID, m: Message, states: seq<State>, actions: seq<Action>, v: PeerID)
    requires net.Valid() && |net.nodes| <= m.hop && v in net.nodes
    requires forall w :: w in net.nodes ==> Reachable(net, o, w)
    requires m.origin == o || m.origin !in net.nodes
    requires Run(net, states, actions) && AboutToBroadcast(net, o, m, states[0]) && Quiescent(states[|actions|])
    ensures m.id in SeenAt(states[|actions|], v)
  {
    QuiescentIsSettled(states[|actions|], m.id);
    Coverage(net, o, m, states, actions);
    assert Marked(states[|actions|], v, m.id);
    assert (v, m.id).1 in SeenAt(states[|actions|], v);
  }

  // ----- Round-by-round delivery

  /** Copies of the message are handled oldest round first: one with the highest hop limit left. */
  predicate OldestFirst(s: State, a: Action, id: MessageID) {
    a.c.msg.id == id ==>
      forall c :: c in s.flying + s.pending && c.msg.id == id ==> c.msg.hop <= a.c.msg.hop
  }

  ghost predicate RoundByRound(states: seq<State>, actions: seq<Action>, id: MessageID) {
    |states| == |actions| + 1 && forall i :: 0 <= i < |actions| ==> OldestFirst(states[i], actions[i], id)
  }

  /** Marked nodes accepted the message no later than any copy still outstanding would arrive. */
  ghost predicate InRounds(s: State, id: MessageID) {
    forall v, c :: Marked(s, v, id) && Outstanding(s, c) && c.msg.id == id ==> HopAt(s, v, id) >= c.msg.hop
  }

  /** Every copy sent is outstanding, or its target accepted the message at least as early. */
  ghost predicate ArrivesInTime(net: Network, s: State, id: MessageID) {
    forall u, c ::
      Marked(s, u, id) && u in net.peers && c in FanOut(u, net.peers[u], s.seen[(u, id)]) && c.msg.id == id ==>
        (Marked(s, c.to, id) && HopAt(s, c.to, id) >= c.msg.hop) || Outstanding(s, c)
  }

  ghost predicate Rounds(net: Network, o: PeerID, m: Message, s: State) {
    Flood(net, o, m, s) && InRounds(s, m.id) && ArrivesInTime(net, s, m.id)
  }

  lemma NewCopyIsNextRound(net: Network, o: PeerID, m: Message, s: State, a: Action, c: Copy)
    requires m.hop >= 1 && Flood(net, o, m, s) && Enabled(net, s, a) && a.Relay? && c.msg.id == m.id
    requires c in FanOut(a.c.to, net.peers[a.c.to], a.c.msg)
    ensures a.c.msg.id == m.id && c.msg.hop == a.c.msg.hop - 1
  {
    hide Walk;
    assert a.c == Call(o, m) || GoodCopy(net, o, m, s, a.c);
  }

  lemma NewMark(net: Network, s: State, a: Action, v: PeerID, id: MessageID)
    requires Enabled(net, s, a) && Marked(Apply(net, s, a), v, id)
    ensures if Marked(s, v, id) then HopAt(Apply(net, s, a), v, id) == HopAt(s, v, id)
            else a.c.msg.id == id && v == a.c.to && HopAt(Apply(net, s, a), v, id) == a.c.msg.hop
  {
    hide FanOut;
  }

  lemma StepKeepsInRounds(net: Network, o: PeerID, m: Message, s: State, a: Action)
    requires Enabled(net, s, a) && Rounds(net, o, m, s) && OldestFirst(s, a, m.id) && m.hop >= 1
    ensures InRounds(Apply(net, s, a), m.id)
  {
    hide Flood, FanOut, Apply;
    var s' := Apply(net, s, a);
    assert Outstanding(s, a.c);
    forall v, c | Marked(s', v, m.id) && Outstanding(s', c) && c.msg.id == m.id
      ensures HopAt(s', v, m.id) >= c.msg.hop
    {
      NewMark(net, s, a, v, m.id);
      OutstandingAfter(net, s, a, c);
      if Outstanding(s, c) {
        assert c in s.flying + s.pending;
      } else {
        NewCopyIsNextRound(net, o, m, s, a, c);
      }
    }
  }

  lemma StepKeepsArrivesInTime(net: Network, o: PeerID, m: Message, s: State, a: Action)
    requires Enabled(net, s, a) && Rounds(net, o, m, s) && OldestFirst(s, a, m.id)
    ensures ArrivesInTime(net, Apply(net, s, a), m.id)
  {
    hide Flood, FanOut;
    var s' := Apply(net, s, a);
    assert a.c in s.flying + s.pending;
    forall u, c |
      Marked(s', u, m.id) && u in net.peers && c in FanOut(u, net.peers[u], s'.seen[(u, m.id)]) && c.msg.id == m.id
      ensures (Marked(s', c.to, m.id) && HopAt(s', c.to, m.id) >= c.msg.hop) || Outstanding(s', c)
    {
      if !Marked(s, u, m.id) {
        assert c in s'.flying;
      } else if Outstanding(s, c) && !Outstanding(s', c) {
        assert c == a.c;
        assert Marked(s', c.to, m.id);
      } else if Outstanding(s, c) {
      } else {
        assert Marked(s, c.to, m.id) && HopAt(s, c.to, m.id) >= c.msg.hop;
      }
    }
  }

  lemma {:induction false} RunKeepsRounds(net: Network, o: PeerID, m: Message, states: seq<State>, actions: seq<Action>)
    requires net.Valid() && m.hop >= 1
    requires Run(net, states, actions) && AboutToBroadcast(net, o, m, states[0]) && RoundByRound(states, actions, m.id)
    ensures Rounds(net, o, m, states[|actions|])
    decreases |actions|
  {
    hide Flood, Apply, Enabled, OldestFirst;
    if |actions| == 0 {
      StartsFlood(net, o, m, states[0]);
    } else {
      var n := |actions| - 1;
      PrefixRun(net, states, actions);
      RunKeepsRounds(net, o, m, states[..n + 1], actions[..n]);
      StepKeepsFlood(net, o, m, states[n], actions[n]);
      StepKeepsInRounds(net, o, m, states[n], actions[n]);
      StepKeepsArrivesInTime(net, o, m, states[n], actions[n]);
    }
  }

  /** Once every copy of rounds up to k is handled, each node k links away accepted the message by round k. */
  lemma {:induction false} BallIsMarked(net: Network, o: PeerID, m: Message, s: State, v: PeerID, d: nat)
    requires net.Valid() && Rounds(net, o, m, s) && o in net.nodes
    requires m.origin == o || m.origin !in net.nodes
    requires d <= m.hop - 1 && Walk(net, o, v, d)
    requires forall c :: Outstanding(s, c) && c.msg.id == m.id ==> c.msg.hop < m.hop - d
    ensures Marked(s, v, m.id) && HopAt(s, v, m.id) >= m.hop - d
    decreases d
  {
    if d == 0 {
      assert !Outstanding(s, Call(o, m));
    } else {
      var u :| u in net.peers && v in net.peers[u] && Walk(net, o, u, d - 1);
      BallIsMarked(net, o, m, s, u, d - 1);
      assert GoodMark(net, o, m, s, u);
      if v != m.origin {
        var c := Copy(u, v, Forwarded(s.seen[(u, m.id)]));
        assert c in FanOut(u, net.peers[u], s.seen[(u, m.id)]);
        assert c.msg.id == m.id;
      } else {
        BallIsMarked(net, o, m, s, o, 0);
      }
    }
  }

  /**
     Delivered round by round, the flood is breadth-first search: when no copy of the first k
     rounds is left, the nodes that accepted the message by round k are those within k links.
   */
  lemma FloodIsBreadthFirst(net: Network, o: PeerID, m: Message, states: seq<State>, actions: seq<Action>,
                            v: PeerID, k: nat)
    requires net.Valid() && m.hop >= 1 && k <= m.hop - 1
    requires m.origin == o || m.origin !in net.nodes
    requires Run(net, states, actions) && AboutToBroadcast(net, o, m, states[0]) && RoundByRound(states, actions, m.id)
    requires forall c :: Outstanding(states[|actions|], c) && c.msg.id == m.id ==> c.msg.hop < m.hop - k
    ensures (Marked(states[|actions|], v, m.id) && HopAt(states[|actions|], v, m.id) >= m.hop - k)
       <==> Within(net, o, v, k)
  {
    var s := states[|actions|];
    RunKeepsRounds(net, o, m, states, actions);
    if Within(net, o, v, k) {
      var d: nat :| d <= k && Walk(net, o, v, d);
      BallIsMarked(net, o, m, s, v, d);
    } else {
      assert GoodMark(net, o, m, s, v);
    }
  }

  /** Delivered round by round, the final marked set is exactly the ball of radius H - 1. */
  lemma SettledFloodIsTheBall(net: Network, o: PeerID, m: Message, states: seq<State>, actions: seq<Action>, v: PeerID)
    requires net.Valid() && m.hop >= 1
    requires m.origin == o || m.origin !in net.nodes
    requires Run(net, states, actions) && AboutToBroadcast(net, o, m, states[0]) && RoundByRound(states, actions, m.id)
    requires Settled(states[|actions|], m.id)
    ensures Marked(states[|actions|], v, m.id) <==> Within(net, o, v, m.hop - 1)
  {
    var s := states[|actions|];
    SettledHasNoCopies(s, m.id);
    FloodIsBreadthFirst(net, o, m, states, actions, v, m.hop - 1);
    RunKeepsFlood(net, o, m, states, actions);
    assert GoodMark(net, o, m, s, v);
  }
}
