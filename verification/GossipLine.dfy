/**
 Coverage cannot be promised for more than H nodes: on a line of n > H nodes no run at all, in
 any order of delivery, takes a message with hop limit H from one end to the node H links away.
 */
module GossipLine {
  import opened Bytes
  import opened Gossip
  import opened GossipFlood

  function Id(k: nat): PeerID { ToBigEndian(k, 32) }

  function Number(v: PeerID): nat { FromBigEndian(v) }

  ghost function LineNodes(n: nat): set<PeerID> {
    if n == 0 then {} else LineNodes(n - 1) + {Id(n - 1)}
  }

  predicate Adjacent(v: PeerID, w: PeerID) {
    Number(v) == Number(w) + 1 || Number(w) == Number(v) + 1
  }

  ghost function Line(n: nat): Network {
    Network(LineNodes(n), map v | v in LineNodes(n) :: set w | w in LineNodes(n) && Adjacent(v, w))
  }

  lemma NumberOfId(k: nat)
    requires k < Pow256(32)
    ensures Number(Id(k)) == k
  {
    FromToBigEndian(k, 32);
  }

  lemma {:induction false} LineNodesAre(n: nat)
    requires n <= Pow256(32)
    ensures |LineNodes(n)| == n
    ensures forall v :: v in LineNodes(n) ==> Number(v) < n && v == Id(Number(v))
    ensures forall k :: 0 <= k < n ==> Id(k) in LineNodes(n)
  {
    hide Id, Number, Pow256;
    if n > 0 {
      LineNodesAre(n - 1);
      NumberOfId(n - 1);
    }
  }

  /** A path of d links from the end of the line gets no farther than the d-th node. */
  lemma {:induction false} LineWalk(n: nat, v: PeerID, d: nat)
    requires Walk(Line(n), Id(0), v, d)
    ensures Number(v) <= d
    decreases d
  {
    hide Id, Number;
    if d == 0 {
      Pow256Positive();
      NumberOfId(0);
    } else {
      var net := Line(n);
      var u :| u in net.peers && v in net.peers[u] && Walk(net, Id(0), u, d - 1);
      LineWalk(n, u, d - 1);
    }
  }

  lemma Pow256Positive()
    ensures Pow256(32) > 0
  {
  }

  lemma {:induction false} LineIsConnected(n: nat, k: nat)
    requires k < n <= Pow256(32)
    ensures Walk(Line(n), Id(0), Id(k), k)
  {
    hide Id, Number, Pow256;
    LineNodesAre(n);
    if k > 0 {
      LineIsConnected(n, k - 1);
      NumberOfId(k);
      NumberOfId(k - 1);
      assert Id(k) in Line(n).peers[Id(k - 1)];
    }
  }

  ghost predicate Symmetric(net: Network)
    requires net.Valid()
  {
    forall a, b :: a in net.nodes && b in net.nodes ==> (a in net.peers[b] <==> b in net.peers[a])
  }

  /** A symmetric network of n nodes, all of which the originator can reach. */
  ghost predicate Connected(net: Network, o: PeerID, n: nat) {
    && net.Valid() && |net.nodes| == n && o in net.nodes && Symmetric(net)
    && forall v :: v in net.nodes ==> Reachable(net, o, v)
  }

  lemma LineIsSymmetric(n: nat)
    requires n <= Pow256(32)
    ensures Line(n).Valid() && |Line(n).nodes| == n && Symmetric(Line(n))
    ensures forall k :: 0 <= k < n ==> Id(k) in Line(n).nodes
  {
    hide Id, Number, Pow256;
    LineNodesAre(n);
  }

  lemma LineReaches(n: nat, v: PeerID)
    requires n <= Pow256(32) && v in Line(n).nodes
    ensures Reachable(Line(n), Id(0), v)
  {
    hide Id, Number, Pow256, Walk;
    LineNodesAre(n);
    LineIsConnected(n, Number(v));
  }

  lemma FarNodeIsFar(n: nat, h: nat)
    requires 1 <= h < Pow256(32)
    ensures !Within(Line(n), Id(0), Id(h), h - 1)
  {
    hide Id, Number, Pow256, Walk, Line;
    NumberOfId(h);
    forall d: nat | d <= h - 1 ensures !Walk(Line(n), Id(0), Id(h), d) {
      if Walk(Line(n), Id(0), Id(h), d) {
        LineWalk(n, Id(h), d);
      }
    }
  }

  /**
     For every hop limit H and every n > H there is a connected network of n nodes, symmetric, in
     which one node is never marked, whatever the run.
   */
  lemma LargerNetworksAreNotCovered(m: Message, n: nat) returns (net: Network, o: PeerID, v: PeerID)
    requires 1 <= m.hop < n <= Pow256(32)
    ensures Connected(net, o, n) && v in net.nodes
    ensures forall states, actions :: Run(net, states, actions) && AboutToBroadcast(net, o, m, states[0]) ==>
              !Marked(states[|actions|], v, m.id)
  {
    hide Id, Pow256, Line, Reachable, Within;
    net, o, v := Line(n), Id(0), Id(m.hop);
    LineIsSymmetric(n);
    forall w | w in net.nodes ensures Reachable(net, o, w) {
      LineReaches(n, w);
    }
    FarNodeIsFar(n, m.hop);
    forall states, actions | Run(net, states, actions) && AboutToBroadcast(net, o, m, states[0])
      ensures !Marked(states[|actions|], v, m.id)
    {
      Reach(net, o, m, states, actions, v);
    }
  }
}
