/** What holds of every run of the network, whatever messages are broadcast and however calls interleave. */
module GossipRuns {
  import opened Bytes
  import opened Gossip

  // ----- The lock gap

  /** The same network when handling a copy is one atomic step. */
  datatype AtomicState = AtomicState(
    seen: map<(PeerID, MessageID), Message>,
    waiting: multiset<Copy>,
    sent: multiset<Copy>)

  function Handle(net: Network, s: AtomicState, c: Copy): AtomicState
    requires c in s.waiting && c.to in net.peers
  {
    var rest := s.waiting - multiset{c};
    if Key(c) in s.seen then s.(waiting := rest)
    else
      var out := multiset(FanOut(c.to, net.peers[c.to], c.msg));
      AtomicState(s.seen[Key(c) := c.msg], rest + out, s.sent + out)
  }

  function Abstract(s: State): AtomicState {
    AtomicState(s.seen, s.flying + s.pending, s.sent)
  }

  /** How the copies still to be handled change when one is moved, dropped, or replaced by others. */
  lemma MoveOne(flying: multiset<Copy>, pending: multiset<Copy>, out: multiset<Copy>, c: Copy)
    ensures c in flying ==> flying - multiset{c} + (pending + multiset{c}) == flying + pending
    ensures c in flying ==> flying - multiset{c} + pending == flying + pending - multiset{c}
    ensures c in pending ==> flying + (pending - multiset{c}) == flying + pending - multiset{c}
    ensures c in pending ==> flying + out + (pending - multiset{c}) == flying + pending - multiset{c} + out
  {
  }

  /** A check that finds the message unseen decides nothing; every other step is one atomic step. */
  lemma StepRefinesAtomic(net: Network, s: State, a: Action)
    requires Enabled(net, s, a)
    ensures a.c in Abstract(s).waiting
    ensures Abstract(Apply(net, s, a)) ==
            if a.Check? && Key(a.c) !in s.seen then Abstract(s) else Handle(net, Abstract(s), a.c)
  {
    hide FanOut;
    MoveOne(s.flying, s.pending, multiset(FanOut(a.c.to, net.peers[a.c.to], a.c.msg)), a.c);
  }

  ghost predicate AtomicRun(net: Network, states: seq<AtomicState>, handled: seq<Copy>) {
    && |states| == |handled| + 1
    && forall i :: 0 <= i < |handled| ==>
         handled[i] in states[i].waiting && handled[i].to in net.peers
         && states[i + 1] == Handle(net, states[i], handled[i])
  }

  /** Every run with the gap ends where some run without it ends. */
  lemma {:induction false} RunRefinesAtomic(net: Network, states: seq<State>, actions: seq<Action>)
    returns (atomic: seq<AtomicState>, handled: seq<Copy>)
    requires Run(net, states, actions)
    ensures AtomicRun(net, atomic, handled)
    ensures atomic[0] == Abstract(states[0]) && atomic[|handled|] == Abstract(states[|actions|])
    decreases |actions|
  {
    hide Handle, Apply, FanOut;
    if |actions| == 0 {
      return [Abstract(states[0])], [];
    }
    var n := |actions| - 1;
    PrefixRun(net, states, actions);
    atomic, handled := RunRefinesAtomic(net, states[..n + 1], actions[..n]);
    StepRefinesAtomic(net, states[n], actions[n]);
    if !(actions[n].Check? && Key(actions[n].c) !in states[n].seen) {
      atomic := ExtendAtomicRun(net, atomic, handled, actions[n].c);
      handled := handled + [actions[n].c];
    }
  }

  lemma ExtendAtomicRun(net: Network, states: seq<AtomicState>, handled: seq<Copy>, c: Copy)
    returns (longer: seq<AtomicState>)
    requires AtomicRun(net, states, handled)
    requires c in states[|handled|].waiting && c.to in net.peers
    ensures AtomicRun(net, longer, handled + [c])
    ensures longer[0] == states[0] && longer[|handled| + 1] == Handle(net, states[|handled|], c)
  {
    hide Handle;
    longer := states + [Handle(net, states[|handled|], c)];
  }

  lemma PrefixRun(net: Network, states: seq<State>, actions: seq<Action>)
    requires Run(net, states, actions) && |actions| > 0
    ensures var n := |actions| - 1;
            && Run(net, states[..n + 1], actions[..n])
            && Enabled(net, states[n], actions[n])
            && states[n + 1] == Apply(net, states[n], actions[n])
  {
  }

  // ----- Each node fans out each message at most once

  /** Exactly the fan-outs of the marked messages were sent, each copy once. */
  ghost predicate SentExactly(net: Network, s: State) {
    forall c: Copy :: s.sent[c] ==
      if SentBy(net, s, c) then 1 else 0
  }

  ghost predicate SentBy(net: Network, s: State, c: Copy) {
    && (c.from, c.msg.id) in s.seen && c.from in net.peers
    && c in FanOut(c.from, net.peers[c.from], s.seen[(c.from, c.msg.id)])
  }

  lemma StepKeepsSentExactly(net: Network, s: State, a: Action)
    requires Enabled(net, s, a) && SentExactly(net, s)
    requires forall k :: k in s.seen ==> s.seen[k].id == k.1
    ensures SentExactly(net, Apply(net, s, a))
    ensures forall k :: k in Apply(net, s, a).seen ==> Apply(net, s, a).seen[k].id == k.1
  {
    var s' := Apply(net, s, a);
    var d := a.c;
    if a.Relay? && Key(d) !in s.seen {
      var out := FanOut(d.to, net.peers[d.to], d.msg);
      forall c: Copy ensures s'.sent[c] == if SentBy(net, s', c) then 1 else 0 {
        assert s.sent[c] == if SentBy(net, s, c) then 1 else 0;
        if (c.from, c.msg.id) == Key(d) {
          assert !SentBy(net, s, c);
        } else {
          assert c !in out;
          assert SentBy(net, s, c) == SentBy(net, s', c);
        }
      }
    } else {
      forall c: Copy ensures s'.sent[c] == if SentBy(net, s', c) then 1 else 0 {
        assert s.sent[c] == if SentBy(net, s, c) then 1 else 0;
        assert SentBy(net, s, c) == SentBy(net, s', c);
      }
    }
  }

  /** A state in which nothing was marked or sent yet. */
  predicate Quiet(s: State) { s.seen == map[] && s.sent == multiset{} }

  lemma {:induction false} RunSendsExactly(net: Network, states: seq<State>, actions: seq<Action>)
    requires Run(net, states, actions) && Quiet(states[0])
    ensures SentExactly(net, states[|actions|])
    ensures forall k :: k in states[|actions|].seen ==> states[|actions|].seen[k].id == k.1
    decreases |actions|
  {
    if |actions| > 0 {
      var n := |actions| - 1;
      PrefixRun(net, states, actions);
      RunSendsExactly(net, states[..n + 1], actions[..n]);
      StepKeepsSentExactly(net, states[n], actions[n]);
    }
  }

  // ----- How many copies of one message are ever sent

  ghost function SendsOf(s: State, id: MessageID): set<Copy> {
    set c | c in s.sent && c.msg.id == id
  }

  /** The sum of the peer-set sizes over some nodes. */
  ghost function SumDegrees(net: Network, vs: set<PeerID>): nat
    requires vs <= net.peers.Keys
  {
    if vs == {} then 0
    else
      var v :| v in vs;
      |net.peers[v]| + SumDegrees(net, vs - {v})
  }

  ghost function SendsFrom(sends: set<Copy>, vs: set<PeerID>): set<Copy> {
    set c | c in sends && c.from in vs
  }

  lemma {:induction false} AtMostOnePerPeer(sends: set<Copy>, peers: set<PeerID>)
    requires forall c :: c in sends ==> c.to in peers
    requires forall c, d :: c in sends && d in sends && c.to == d.to ==> c == d
    ensures |sends| <= |peers|
    decreases peers
  {
    if sends != {} {
      var c :| c in sends;
      AtMostOnePerPeer(sends - {c}, peers - {c.to});
    }
  }

  lemma {:induction false} SendsFromAtMostDegrees(net: Network, sends: set<Copy>, vs: set<PeerID>)
    requires vs <= net.peers.Keys
    requires forall c :: c in sends ==> c.from in net.peers && c.to in net.peers[c.from]
    requires forall c, d :: c in sends && d in sends && c.from == d.from && c.to == d.to ==> c == d
    ensures |SendsFrom(sends, vs)| <= SumDegrees(net, vs)
    decreases vs
  {
    if vs == {} {
      assert SendsFrom(sends, vs) == {};
    } else {
      var v :| v in vs && SumDegrees(net, vs) == |net.peers[v]| + SumDegrees(net, vs - {v});
      SendsFromAtMostDegrees(net, sends, vs - {v});
      AtMostOnePerPeer(SendsFrom(sends, {v}), net.peers[v]);
      assert SendsFrom(sends, vs) == SendsFrom(sends, {v}) + SendsFrom(sends, vs - {v});
    }
  }

  /** Over a whole run no copy is sent twice, and one message costs at most one send per peer link. */
  lemma SendsAreBounded(net: Network, states: seq<State>, actions: seq<Action>, id: MessageID)
    requires net.Valid() && Run(net, states, actions) && Quiet(states[0])
    ensures forall c: Copy :: states[|actions|].sent[c] <= 1
    ensures |SendsOf(states[|actions|], id)| <= SumDegrees(net, net.nodes)
  {
    var s := states[|actions|];
    RunSendsExactly(net, states, actions);
    var sends := SendsOf(s, id);
    forall c | c in sends ensures SentBy(net, s, c) {
      assert s.sent[c] == if SentBy(net, s, c) then 1 else 0;
    }
    assert SendsFrom(sends, net.nodes) == sends;
    SendsFromAtMostDegrees(net, sends, net.nodes);
  }

  // ----- Termination

  ghost predicate Closed(net: Network, ids: set<MessageID>, s: State) {
    && (forall k :: k in s.seen ==> k.0 in net.nodes && k.1 in ids)
    && (forall c :: c in s.flying || c in s.pending ==> c.to in net.nodes && c.msg.id in ids)
  }

  ghost function Keys(net: Network, ids: set<MessageID>): set<(PeerID, MessageID)> {
    set v, id | v in net.nodes && id in ids :: (v, id)
  }

  /** Every pair not yet marked may still cost a full fan-out; a flying copy costs two steps, a pending one. */
  ghost function Measure(net: Network, ids: set<MessageID>, s: State): int {
    Weight(|Keys(net, ids)| - |s.seen.Keys|, |net.nodes|, |s.flying|, |s.pending|)
  }

  function Weight(unmarked: int, n: nat, flying: nat, pending: nat): int {
    unmarked * (2 * n + 1) + 2 * flying + pending
  }

  lemma MeasureIsNatural(net: Network, ids: set<MessageID>, s: State)
    requires Closed(net, ids, s)
    ensures Measure(net, ids, s) >= 0
  {
    hide Weight;
    forall k | k in s.seen.Keys ensures k in Keys(net, ids) {
      assert k == (k.0, k.1);
    }
    SubsetSize(s.seen.Keys, Keys(net, ids));
    WeightIsNatural(|Keys(net, ids)| - |s.seen.Keys|, |net.nodes|, |s.flying|, |s.pending|);
  }

  lemma WeightIsNatural(left: nat, n: nat, flying: nat, pending: nat)
    ensures Weight(left, n, flying, pending) >= 0
  {
    assert left * (2 * n + 1) >= 0;
  }

  lemma {:induction false} SubsetSize<T>(a: set<T>, b: set<T>)
    requires a <= b
    ensures |a| <= |b|
    decreases a
  {
    if a != {} {
      var x :| x in a;
      SubsetSize(a - {x}, b - {x});
    }
  }

  lemma FanOutSize(net: Network, v: PeerID, m: Message)
    requires net.Valid() && v in net.nodes
    ensures |FanOut(v, net.peers[v], m)| <= |net.nodes|
  {
    AtMostOnePerPeer(FanOut(v, net.peers[v], m), net.nodes);
  }

  lemma StepKeepsClosed(net: Network, ids: set<MessageID>, s: State, a: Action)
    requires net.Valid() && Closed(net, ids, s) && Enabled(net, s, a)
    ensures Closed(net, ids, Apply(net, s, a))
  {
  }

  /** Marking one more pair pays for a fan-out of at most `n` copies. */
  lemma MarkingPays(left: int, n: nat, flying: nat, pending: nat, out: nat)
    requires out <= n && pending > 0
    ensures Weight(left - 1, n, flying + out, pending - 1) < Weight(left, n, flying, pending)
  {
    assert (left - 1) * (2 * n + 1) == left * (2 * n + 1) - (2 * n + 1);
  }

  lemma MovingPays(left: int, n: nat, flying: nat, pending: nat)
    ensures flying > 0 ==> Weight(left, n, flying - 1, pending + 1) < Weight(left, n, flying, pending)
    ensures flying > 0 ==> Weight(left, n, flying - 1, pending) < Weight(left, n, flying, pending)
    ensures pending > 0 ==> Weight(left, n, flying, pending - 1) < Weight(left, n, flying, pending)
  {
  }

  lemma MarkingSizes(net: Network, s: State, c: Copy)
    requires Enabled(net, s, Relay(c)) && Key(c) !in s.seen
    ensures var s', out := Apply(net, s, Relay(c)), FanOut(c.to, net.peers[c.to], c.msg);
            && |s'.seen.Keys| == |s.seen.Keys| + 1
            && |s'.flying| == |s.flying| + |out|
            && |s'.pending| == |s.pending| - 1
  {
    hide FanOut;
    var s' := Apply(net, s, Relay(c));
    assert s'.seen.Keys == s.seen.Keys + {Key(c)};
  }

  lemma OtherSizes(net: Network, s: State, a: Action)
    requires Enabled(net, s, a) && (a.Relay? ==> Key(a.c) in s.seen)
    ensures var s' := Apply(net, s, a);
            && s'.seen == s.seen
            && (|s'.flying|, |s'.pending|) ==
               if a.Relay? then (|s.flying|, |s.pending| - 1)
               else if Key(a.c) in s.seen then (|s.flying| - 1, |s.pending|)
               else (|s.flying| - 1, |s.pending| + 1)
  {
  }

  lemma StepLowersMeasure(net: Network, ids: set<MessageID>, s: State, a: Action)
    requires net.Valid() && Closed(net, ids, s) && Enabled(net, s, a)
    ensures Measure(net, ids, Apply(net, s, a)) < Measure(net, ids, s)
  {
    hide FanOut, Weight, Apply, Keys;
    var left := |Keys(net, ids)| - |s.seen.Keys|;
    if a.Relay? && Key(a.c) !in s.seen {
      FanOutSize(net, a.c.to, a.c.msg);
      MarkingSizes(net, s, a.c);
      MarkingPays(left, |net.nodes|, |s.flying|, |s.pending|, |FanOut(a.c.to, net.peers[a.c.to], a.c.msg)|);
    } else {
      OtherSizes(net, s, a);
      MovingPays(left, |net.nodes|, |s.flying|, |s.pending|);
    }
  }

  /** Every run is finite: it has at most as many steps as the measure of its first state. */
  lemma {:induction false} RunsTerminate(net: Network, ids: set<MessageID>, states: seq<State>, actions: seq<Action>)
    requires net.Valid() && Run(net, states, actions) && Closed(net, ids, states[0])
    ensures Closed(net, ids, states[|actions|])
    ensures 0 <= Measure(net, ids, states[|actions|]) <= Measure(net, ids, states[0]) - |actions|
    decreases |actions|
  {
    MeasureIsNatural(net, ids, states[0]);
    if |actions| > 0 {
      var n := |actions| - 1;
      PrefixRun(net, states, actions);
      RunsTerminate(net, ids, states[..n + 1], actions[..n]);
      StepKeepsClosed(net, ids, states[n], actions[n]);
      StepLowersMeasure(net, ids, states[n], actions[n]);
      MeasureIsNatural(net, ids, states[n + 1]);
    }
  }

  /** There is no deadlock: while anything is left to handle, some step is possible. */
  lemma UnfinishedCanStep(net: Network, ids: set<MessageID>, s: State) returns (a: Action)
    requires net.Valid() && Closed(net, ids, s) && !Quiescent(s)
    ensures Enabled(net, s, a)
  {
    if s.flying != multiset{} {
      var c :| c in s.flying;
      a := Check(c);
    } else {
      var c :| c in s.pending;
      a := Relay(c);
    }
  }

  lemma JoinRuns(net: Network, states: seq<State>, actions: seq<Action>, states': seq<State>, actions': seq<Action>)
    requires Run(net, states, actions) && Run(net, states', actions') && states[|actions|] == states'[0]
    ensures Run(net, states + states'[1..], actions + actions')
    ensures (states + states'[1..])[0] == states[0]
    ensures (states + states'[1..])[|actions + actions'|] == states'[|actions'|]
  {
    hide Apply, Enabled;
  }

  lemma SingleStepRun(net: Network, s: State, a: Action)
    requires Enabled(net, s, a)
    ensures Run(net, [s, Apply(net, s, a)], [a])
  {
    hide Apply, Enabled;
  }

  /** From any state some run goes on until nothing is left to handle. */
  lemma {:induction false} RunsToQuiescence(net: Network, ids: set<MessageID>, s: State)
    returns (states: seq<State>, actions: seq<Action>)
    requires net.Valid() && Closed(net, ids, s)
    ensures Run(net, states, actions) && states[0] == s && Quiescent(states[|actions|])
    decreases Measure(net, ids, s)
  {
    hide Apply, Enabled, Measure, Closed;
    if Quiescent(s) {
      return [s], [];
    }
    var a := UnfinishedCanStep(net, ids, s);
    StepKeepsClosed(net, ids, s, a);
    StepLowersMeasure(net, ids, s, a);
    MeasureIsNatural(net, ids, s);
    MeasureIsNatural(net, ids, Apply(net, s, a));
    states, actions := RunsToQuiescence(net, ids, Apply(net, s, a));
    SingleStepRun(net, s, a);
    JoinRuns(net, [s, Apply(net, s, a)], [a], states, actions);
    states, actions := [s, Apply(net, s, a)] + states[1..], [a] + actions;
  }
}
