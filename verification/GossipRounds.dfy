/** Every network has a round-by-round run, so the ball of radius H - 1 is reached on each of them. */
module GossipRounds {
  import opened Bytes
  import opened Gossip
  import opened GossipRuns
  import opened GossipFlood

  /** One of the copies with the most hops left. */
  lemma {:induction false} OldestCopy(copies: multiset<Copy>) returns (c: Copy)
    requires copies != multiset{}
    ensures c in copies && forall d :: d in copies ==> d.msg.hop <= c.msg.hop
    decreases |copies|
  {
    c :| c in copies;
    var rest := copies - multiset{c};
    assert forall d :: d in copies ==> d == c || d in rest;
    if rest != multiset{} {
      var oldest := OldestCopy(rest);
      if c.msg.hop < oldest.msg.hop {
        c := oldest;
      }
    }
  }

  lemma OldestIsNext(net: Network, ids: set<MessageID>, s: State, id: MessageID) returns (a: Action)
    requires net.Valid() && Closed(net, ids, s) && !Quiescent(s)
    ensures Enabled(net, s, a) && OldestFirst(s, a, id)
  {
    assert s.flying + s.pending != multiset{} by {
      assert |s.flying + s.pending| == |s.flying| + |s.pending| > 0;
    }
    var c := OldestCopy(s.flying + s.pending);
    a := if c in s.flying then Check(c) else Relay(c);
  }

  lemma PrependRounds(s: State, a: Action, states: seq<State>, actions: seq<Action>, id: MessageID)
    requires OldestFirst(s, a, id) && RoundByRound(states, actions, id)
    ensures RoundByRound([s] + states, [a] + actions, id)
  {
    hide OldestFirst;
    forall i | 0 <= i < |actions| + 1 ensures OldestFirst(([s] + states)[i], ([a] + actions)[i], id) {
      assert i > 0 ==> OldestFirst(states[i - 1], actions[i - 1], id);
    }
  }

  lemma PrependRun(net: Network, s: State, a: Action, states: seq<State>, actions: seq<Action>)
    requires Enabled(net, s, a) && Run(net, states, actions) && states[0] == Apply(net, s, a)
    ensures Run(net, [s] + states, [a] + actions)
  {
    hide Apply, Enabled;
  }

  /** From any state some run delivers everything left, round by round. */
  lemma {:induction false} RoundsToQuiescence(net: Network, ids: set<MessageID>, s: State, id: MessageID)
    returns (states: seq<State>, actions: seq<Action>)
    requires net.Valid() && Closed(net, ids, s)
    ensures Run(net, states, actions) && states[0] == s && Quiescent(states[|actions|])
    ensures RoundByRound(states, actions, id)
    decreases Measure(net, ids, s)
  {
    hide Apply, Enabled, Measure, Closed, OldestFirst;
    if Quiescent(s) {
      return [s], [];
    }
    var a := OldestIsNext(net, ids, s, id);
    StepKeepsClosed(net, ids, s, a);
    StepLowersMeasure(net, ids, s, a);
    MeasureIsNatural(net, ids, s);
    MeasureIsNatural(net, ids, Apply(net, s, a));
    states, actions := RoundsToQuiescence(net, ids, Apply(net, s, a), id);
    PrependRun(net, s, a, states, actions);
    PrependRounds(s, a, states, actions, id);
    states, actions := [s] + states, [a] + actions;
  }

  /**
     On every network, from every originator, some run marks exactly the nodes within H - 1 links:
     the bound no run exceeds is attained everywhere at once.
   */
  lemma ReachIsAttained(net: Network, o: PeerID, m: Message) returns (states: seq<State>, actions: seq<Action>)
    requires net.Valid() && o in net.nodes && m.hop >= 1
    requires m.origin == o || m.origin !in net.nodes
    ensures Run(net, states, actions) && states[0] == StartOf(o, m) && Quiescent(states[|actions|])
    ensures forall v :: Marked(states[|actions|], v, m.id) <==> Within(net, o, v, m.hop - 1)
  {
    hide Apply, Enabled, Walk, OldestFirst;
    states, actions := RoundsToQuiescence(net, {m.id}, StartOf(o, m), m.id);
    QuiescentIsSettled(states[|actions|], m.id);
    assert AboutToBroadcast(net, o, m, states[0]);
    forall v ensures Marked(states[|actions|], v, m.id) <==> Within(net, o, v, m.hop - 1) {
      SettledFloodIsTheBall(net, o, m, states, actions, v);
    }
  }
}
