/**
 How large a network may be for every node within H - 1 links of the originator to be reached in
 any order of delivery: at most H nodes, or any number if H is at most 2. A node marks a message
 before it looks at the hop limit, so a copy that took a detour can arrive first, use up its last
 hop, and cause the copy with hops to spare to be dropped.
 */
module GossipLate {
  import opened Bytes
  import opened Gossip
  import opened GossipRuns
  import opened GossipFlood
  import opened GossipLine

  // ----- A node behind used-up copies

  /** `v` is unmarked, and every node that could send it a copy accepted the message with its last hop. */
  ghost predicate Suppressed(net: Network, m: Message, s: State, v: PeerID) {
    && !Marked(s, v, m.id)
    && forall u :: u in net.peers && v in net.peers[u] ==> Marked(s, u, m.id) && HopAt(s, u, m.id) == 1
  }

  lemma NoCopyForSuppressed(net: Network, o: PeerID, m: Message, s: State, v: PeerID, c: Copy)
    requires Flood(net, o, m, s) && v != o && Suppressed(net, m, s, v)
    requires c.to == v && c.msg.id == m.id
    ensures c !in s.pending
  {
    hide Walk, GoodMark;
    assert c in s.pending ==> GoodCopy(net, o, m, s, c);
  }

  lemma StepKeepsSuppressed(net: Network, o: PeerID, m: Message, s: State, a: Action, v: PeerID)
    requires net.Valid() && Flood(net, o, m, s) && Enabled(net, s, a)
    requires v != o && Suppressed(net, m, s, v)
    ensures Suppressed(net, m, Apply(net, s, a), v)
  {
    hide FanOut, Flood;
    if a.c.to == v && a.c.msg.id == m.id {
      NoCopyForSuppressed(net, o, m, s, v, a.c);
    }
  }

  /** Such a node is never marked any more. */
  lemma {:induction false} RunKeepsSuppressed(net: Network, o: PeerID, m: Message,
                                              states: seq<State>, actions: seq<Action>, v: PeerID)
    requires net.Valid() && m.hop >= 1 && Run(net, states, actions)
    requires Flood(net, o, m, states[0]) && v != o && Suppressed(net, m, states[0], v)
    ensures Flood(net, o, m, states[|actions|]) && Suppressed(net, m, states[|actions|], v)
    decreases |actions|
  {
    hide Flood, Suppressed, Apply, Enabled;
    if |actions| > 0 {
      var n := |actions| - 1;
      PrefixRun(net, states, actions);
      RunKeepsSuppressed(net, o, m, states[..n + 1], actions[..n], v);
      StepKeepsFlood(net, o, m, states[n], actions[n]);
      StepKeepsSuppressed(net, o, m, states[n], actions[n], v);
    }
  }

  // ----- A long way round

  /**
     Node 0 has a path 0, 1, ..., h - 1 to node h - 1 and a direct link to it. Behind node h - 1 sits
     node h; the nodes after h hang on node 0.
   */
  predicate Arc(h: nat, i: nat, j: nat) {
    (j == i + 1 && j <= h) || (i == 0 && (j == h - 1 || j > h))
  }

  predicate Linked(h: nat, i: nat, j: nat) { Arc(h, i, j) || Arc(h, j, i) }

  ghost function Detour(h: nat, n: nat): Network {
    Network(LineNodes(n), map v | v in LineNodes(n) :: set w | w in LineNodes(n) && Linked(h, Number(v), Number(w)))
  }

  lemma DetourLink(h: nat, n: nat, i: nat, j: nat)
    requires i < n <= Pow256(32) && j < n && Linked(h, i, j)
    ensures Id(i) in Detour(h, n).peers && Id(j) in Detour(h, n).peers[Id(i)]
  {
    hide Id, Number, Pow256;
    LineNodesAre(n);
    NumberOfId(i);
    NumberOfId(j);
  }

  lemma {:induction false} DetourIsConnected(h: nat, n: nat, k: nat)
    requires 3 <= h < n <= Pow256(32) && k < n
    ensures Reachable(Detour(h, n), Id(0), Id(k))
  {
    hide Id, Number, Pow256, Detour, Walk;
    var net, o := Detour(h, n), Id(0);
    WalkNowhere(net, o);
    if 0 < k <= h {
      DetourIsConnected(h, n, k - 1);
      var d: nat :| Walk(net, o, Id(k - 1), d);
      DetourLink(h, n, k - 1, k);
      WalkStep(net, o, Id(k - 1), Id(k), d);
    } else if k > h {
      DetourLink(h, n, 0, k);
      WalkStep(net, o, o, Id(k), 0);
    }
  }

  lemma WalkNowhere(net: Network, o: PeerID)
    ensures Walk(net, o, o, 0)
  {
  }

  lemma DetourIsSymmetric(h: nat, n: nat)
    requires n <= Pow256(32)
    ensures Detour(h, n).Valid() && |Detour(h, n).nodes| == n && Symmetric(Detour(h, n))
  {
    hide Id, Number, Pow256, Arc;
    LineNodesAre(n);
  }

  lemma DetourReaches(h: nat, n: nat, v: PeerID)
    requires 3 <= h < n <= Pow256(32) && v in Detour(h, n).nodes
    ensures Reachable(Detour(h, n), Id(0), v)
  {
    hide Id, Number, Pow256, Linked, Reachable;
    LineNodesAre(n);
    DetourIsConnected(h, n, Number(v));
  }

  lemma DetourConnected(h: nat, n: nat)
    requires 3 <= h < n <= Pow256(32)
    ensures Connected(Detour(h, n), Id(0), n)
  {
    hide Id, Pow256, Reachable, Detour;
    var net := Detour(h, n);
    DetourIsSymmetric(h, n);
    DetourLink(h, n, 0, 1);
    forall v | v in net.nodes ensures Reachable(net, Id(0), v) {
      DetourReaches(h, n, v);
    }
  }

  lemma ShortWay(h: nat, n: nat)
    requires 3 <= h < n <= Pow256(32)
    ensures Within(Detour(h, n), Id(0), Id(h), 2)
  {
    hide Id, Number, Pow256, Walk, Detour;
    var net, o := Detour(h, n), Id(0);
    WalkNowhere(net, o);
    DetourLink(h, n, 0, h - 1);
    DetourLink(h, n, h - 1, h);
    WalkStep(net, o, o, Id(h - 1), 0);
    WalkStep(net, o, Id(h - 1), Id(h), 1);
  }

  lemma OnlyOneWayIn(h: nat, n: nat, u: PeerID)
    requires 3 <= h < n <= Pow256(32)
    requires u in Detour(h, n).peers && Id(h) in Detour(h, n).peers[u]
    ensures u == Id(h - 1)
  {
    hide Id, Number, Pow256;
    LineNodesAre(n);
    NumberOfId(h);
  }

  // ----- The copy that goes the long way arrives first

  /** The message as node i of the path accepts it. */
  function Along(m: Message, i: nat): Message
    requires i <= m.hop
  {
    m.(hop := m.hop - i)
  }

  function OnwardCopy(m: Message, i: nat): Copy
    requires i < m.hop
  {
    Copy(Id(i), Id(i + 1), Along(m, i + 1))
  }

  /** The message went along the path to node i, no other node has it, and the next copy is on its way. */
  ghost predicate ReachedAlong(m: Message, s: State, i: nat)
    requires i < m.hop
  {
    && (Id(i), m.id) in s.seen && s.seen[(Id(i), m.id)] == Along(m, i)
    && (forall v :: Marked(s, v, m.id) ==> Number(v) <= i)
    && (i < m.hop - 1 ==> OnwardCopy(m, i) in s.flying)
  }

  lemma NextIsAPeer(n: nat, m: Message, i: nat)
    requires 3 <= m.hop < n <= Pow256(32) && i < m.hop - 1
    ensures Id(i) in Detour(m.hop, n).peers && Id(i + 1) in Detour(m.hop, n).peers[Id(i)] && Id(i + 1) != Id(0)
  {
    hide Id, Number, Pow256, Detour;
    DetourLink(m.hop, n, i, i + 1);
    NumberOfId(0);
    NumberOfId(i + 1);
  }

  lemma OnwardIsSent(n: nat, m: Message, i: nat)
    requires 3 <= m.hop < n <= Pow256(32) && i < m.hop && m.origin == Id(0)
    ensures Id(i) in Detour(m.hop, n).peers
    ensures i < m.hop - 1 ==> OnwardCopy(m, i) in FanOut(Id(i), Detour(m.hop, n).peers[Id(i)], Along(m, i))
  {
    hide Id, Number, Pow256, Detour;
    if i < m.hop - 1 {
      NextIsAPeer(n, m, i);
    } else {
      DetourLink(m.hop, n, i, i + 1);
    }
  }

  lemma UnmarkedIsRelayed(net: Network, s: State, c: Copy)
    requires Enabled(net, s, Relay(c)) && Key(c) !in s.seen
    ensures Apply(net, s, Relay(c)).seen == s.seen[Key(c) := c.msg]
    ensures forall d :: d in FanOut(c.to, net.peers[c.to], c.msg) ==> d in Apply(net, s, Relay(c)).flying
  {
    hide FanOut;
  }

  lemma UnmarkedPassesTheCheck(net: Network, s: State, c: Copy)
    requires Enabled(net, s, Check(c)) && Key(c) !in s.seen
    ensures Apply(net, s, Check(c)).seen == s.seen && c in Apply(net, s, Check(c)).pending
  {
  }

  lemma RelayOnward(n: nat, m: Message, s: State, c: Copy, i: nat)
    requires 3 <= m.hop < n <= Pow256(32) && i < m.hop && m.origin == Id(0)
    requires c.to == Id(i) && c.msg == Along(m, i) && c in s.pending
    requires forall v :: Marked(s, v, m.id) ==> Number(v) < i
    ensures Enabled(Detour(m.hop, n), s, Relay(c))
    ensures ReachedAlong(m, Apply(Detour(m.hop, n), s, Relay(c)), i)
  {
    OnwardIsSent(n, m, i);
    NumberOfId(i);
    hide Id, Number, Pow256, Detour, FanOut, Apply;
    assert Key(c) !in s.seen by { assert !Marked(s, Id(i), m.id); }
    UnmarkedIsRelayed(Detour(m.hop, n), s, c);
  }

  /** The run in which each node of the path handles the copy from its predecessor, and nothing else happens. */
  lemma {:induction false} LongWayRun(n: nat, m: Message, i: nat) returns (states: seq<State>, actions: seq<Action>)
    requires 3 <= m.hop < n <= Pow256(32) && i < m.hop && m.origin == Id(0)
    ensures Run(Detour(m.hop, n), states, actions) && states[0] == StartOf(Id(0), m)
    ensures ReachedAlong(m, states[|actions|], i)
    decreases i
  {
    hide Id, Number, Pow256, Detour, Apply, ReachedAlong;
    var net := Detour(m.hop, n);
    if i == 0 {
      var call := Relay(Call(Id(0), m));
      RelayOnward(n, m, StartOf(Id(0), m), call.c, 0);
      SingleStepRun(net, StartOf(Id(0), m), call);
      return [StartOf(Id(0), m), Apply(net, StartOf(Id(0), m), call)], [call];
    }
    states, actions := LongWayRun(n, m, i - 1);
    var s := states[|actions|];
    var c := OnwardCopy(m, i - 1);
    CheckOnward(n, m, s, i);
    var s1 := Apply(net, s, Check(c));
    RelayOnward(n, m, s1, c, i);
    SingleStepRun(net, s, Check(c));
    SingleStepRun(net, s1, Relay(c));
    JoinRuns(net, [s, s1], [Check(c)], [s1, Apply(net, s1, Relay(c))], [Relay(c)]);
    var more, moreActions := [s, s1] + [s1, Apply(net, s1, Relay(c))][1..], [Check(c)] + [Relay(c)];
    JoinRuns(net, states, actions, more, moreActions);
    states, actions := states + more[1..], actions + moreActions;
  }

  lemma CheckOnward(n: nat, m: Message, s: State, i: nat)
    requires 3 <= m.hop < n <= Pow256(32) && 1 <= i < m.hop && ReachedAlong(m, s, i - 1)
    ensures var c, net := OnwardCopy(m, i - 1), Detour(m.hop, n);
            && Enabled(net, s, Check(c))
            && c in Apply(net, s, Check(c)).pending
            && forall v :: Marked(Apply(net, s, Check(c)), v, m.id) ==> Number(v) < i
  {
    hide Id, Number, Pow256, Detour, Apply;
    DetourLink(m.hop, n, i, i + 1);
    NumberOfId(i);
    assert Key(OnwardCopy(m, i - 1)) !in s.seen by { assert !Marked(s, Id(i), m.id); }
    UnmarkedPassesTheCheck(Detour(m.hop, n), s, OnwardCopy(m, i - 1));
  }

  /**
     For every hop limit H of at least 3 and every n > H, some run on some connected symmetric network
     of n nodes ends with nothing left to handle and a node two links from the originator unmarked.
   */
  lemma LateCopyIsSuppressed(m: Message, n: nat)
    returns (net: Network, v: PeerID, states: seq<State>, actions: seq<Action>)
    requires 3 <= m.hop < n <= Pow256(32) && m.origin == Id(0)
    ensures Connected(net, m.origin, n) && Within(net, m.origin, v, 2)
    ensures Run(net, states, actions) && Quiet(states[0]) && AboutToBroadcast(net, m.origin, m, states[0])
    ensures Quiescent(states[|actions|]) && !Marked(states[|actions|], v, m.id)
  {
    hide Id, Number, Pow256, Detour, Apply, Enabled, Flood, FanOut, Walk, Within, Reachable;
    net, v := Detour(m.hop, n), Id(m.hop);
    DetourConnected(m.hop, n);
    ShortWay(m.hop, n);
    states, actions := LongWayRun(n, m, m.hop - 1);
    var s := states[|actions|];
    assert AboutToBroadcast(net, m.origin, m, states[0]);
    RunKeepsFlood(net, m.origin, m, states, actions);
    NumberOfId(0);
    NumberOfId(m.hop);
    forall u | u in net.peers && v in net.peers[u] ensures u == Id(m.hop - 1) {
      OnlyOneWayIn(m.hop, n, u);
    }
    assert Suppressed(net, m, s, v);
    LongWayIsClosed(net, m, states, actions);
    var later, laterActions := RunsToQuiescence(net, {m.id}, s);
    RunKeepsSuppressed(net, m.origin, m, later, laterActions, v);
    JoinRuns(net, states, actions, later, laterActions);
    states, actions := states + later[1..], actions + laterActions;
  }

  lemma LongWayIsClosed(net: Network, m: Message, states: seq<State>, actions: seq<Action>)
    requires net.Valid() && Id(0) in net.nodes && Run(net, states, actions) && states[0] == StartOf(Id(0), m)
    ensures Closed(net, {m.id}, states[|actions|])
  {
    hide Id, Apply, Enabled, Measure;
    RunsTerminate(net, {m.id}, states, actions);
  }

  // ----- The exact condition

  /** A settled run of a broadcast with this hop limit on a connected network of this size. */
  ghost predicate SettledRun(hop: nat, n: nat, net: Network, m: Message, o: PeerID,
                             states: seq<State>, actions: seq<Action>) {
    && Connected(net, o, n) && m.hop == hop && (m.origin == o || m.origin !in net.nodes)
    && Run(net, states, actions) && AboutToBroadcast(net, o, m, states[0])
    && Settled(states[|actions|], m.id)
  }

  /** Whatever the network, the message and the order of delivery, every node within `hop - 1` links is reached. */
  ghost predicate BallIsAlwaysMarked(hop: nat, n: nat) {
    forall net, m, o, states, actions, v ::
      SettledRun(hop, n, net, m, o, states, actions) && Within(net, o, v, hop - 1) ==>
        Marked(states[|actions|], v, m.id)
  }

  /** With a hop limit of 1 or 2 only the originator's own copies matter, and none of those is lost. */
  lemma SmallBallIsMarked(net: Network, m: Message, o: PeerID, states: seq<State>, actions: seq<Action>, v: PeerID)
    requires net.Valid() && 1 <= m.hop <= 2 && (m.origin == o || m.origin !in net.nodes)
    requires Run(net, states, actions) && AboutToBroadcast(net, o, m, states[0]) && Settled(states[|actions|], m.id)
    requires Within(net, o, v, m.hop - 1)
    ensures Marked(states[|actions|], v, m.id)
  {
    var s := states[|actions|];
    RunKeepsFlood(net, o, m, states, actions);
    RunKeepsNothingLost(net, states, actions, m.id);
    SettledHasNoCopies(s, m.id);
    assert !Outstanding(s, Call(o, m));
    assert GoodMark(net, o, m, s, o);
    var d: nat :| d <= m.hop - 1 && Walk(net, o, v, d);
    if d == 1 && v != o {
      var u :| u in net.peers && v in net.peers[u] && Walk(net, o, u, 0);
      var c := Copy(o, v, Forwarded(s.seen[(o, m.id)]));
      assert c in FanOut(o, net.peers[o], s.seen[(o, m.id)]);
      assert c.msg.id == m.id;
    }
  }

  /** Exactly when there are at most H nodes, or H is at most 2. */
  lemma BallIsAlwaysMarkedExactlyWhen(hop: Hop, n: nat)
    requires 1 <= hop && n <= Pow256(32)
    ensures BallIsAlwaysMarked(hop, n) <==> n <= hop || hop <= 2
  {
    hide Pow256, AboutToBroadcast, Settled, Enabled, Apply, Walk, Within, Reachable;
    if n <= hop || hop <= 2 {
      forall net, m, o, states, actions, v |
        SettledRun(hop, n, net, m, o, states, actions) && Within(net, o, v, hop - 1)
        ensures Marked(states[|actions|], v, m.id)
      {
        if n <= hop {
          Coverage(net, o, m, states, actions);
          WithinIsANode(net, o, v, hop - 1);
        } else {
          SmallBallIsMarked(net, m, o, states, actions, v);
        }
      }
    } else {
      var m := Message(seq(16, _ => 0), Id(0), hop);
      var net, v, states, actions := LateCopyIsSuppressed(m, n);
      QuiescentIsSettled(states[|actions|], m.id);
      WithinMore(net, Id(0), v, 2, hop - 1);
      assert SettledRun(hop, n, net, m, Id(0), states, actions);
    }
  }

  lemma WithinIsANode(net: Network, o: PeerID, v: PeerID, k: nat)
    requires net.Valid() && o in net.nodes && Within(net, o, v, k)
    ensures v in net.nodes
  {
    var d: nat :| d <= k && Walk(net, o, v, d);
  }

  lemma WithinMore(net: Network, o: PeerID, v: PeerID, k: nat, l: nat)
    requires Within(net, o, v, k) && k <= l
    ensures Within(net, o, v, l)
  {
  }
}
