/**
 The gossip manager of one node, and the network of nodes that run it. A relayed message
 passes two critical sections: a check under the read lock, then a check-and-mark under the
 write lock. Any number of calls may stand between the two.
 */
module Gossip {
  import opened Bytes

  type PeerID = Digest

  type MessageID = b: Bytes | |b| == 16 witness seq(16, _ => 0)

  type Hop = x: int | 0 <= x < TWO_32

  /** The part of a message the manager looks at. */
  datatype Message = Message(id: MessageID, origin: PeerID, hop: Hop)

  /** A message on its way to a node; a node's own broadcast comes from itself. */
  datatype Copy = Copy(from: PeerID, to: PeerID, msg: Message)

  /** Decrementing an unsigned 32-bit number wraps below zero. */
  function Decrement(h: Hop): Hop {
    if h == 0 then TWO_32 - 1 else h - 1
  }

  function Forwarded(m: Message): Message { m.(hop := Decrement(m.hop)) }

  /** What a node sends after it marked a message. */
  function FanOut(self: PeerID, peers: set<PeerID>, m: Message): set<Copy> {
    if Decrement(m.hop) == 0 then {}
    else set p | p in peers && p != m.origin :: Copy(self, p, Forwarded(m))
  }

  // ----- One node

  class MessageData {
    const messageId: Bytes
    const originId: Bytes
    var hopLimit: Hop

    constructor (messageId: Bytes, originId: Bytes, hopLimit: Hop)
      ensures this.messageId == messageId && this.originId == originId && this.hopLimit == hopLimit
    {
      this.messageId := messageId;
      this.originId := originId;
      this.hopLimit := hopLimit;
    }
  }

  /** A message ID is exactly 16 bytes. */
  function ParseMessageID(data: Bytes): Option<MessageID> {
    if |data| == 16 then Some(data) else None
  }

  /** Converting an origin field to a node's ID takes its first 32 bytes, and panics if it has fewer. */
  function OriginOf(originId: Bytes): Option<PeerID> {
    if |originId| < 32 then None else Some(originId[..32])
  }

  /** The copies that leave a node for a message it had not seen. */
  ghost function Sends(self: PeerID, peers: seq<PeerID>, messageId: Bytes, originId: Bytes, hop: Hop): set<Copy> {
    match ParseMessageID(messageId)
    case None => {}
    case Some(id) =>
      match OriginOf(originId)
      case None => {}
      case Some(origin) => FanOut(self, Members(peers), Message(id, origin, hop))
  }

  predicate Distinct(peers: seq<PeerID>) {
    forall i, j :: 0 <= i < j < |peers| ==> peers[i] != peers[j]
  }

  ghost function Members(peers: seq<PeerID>): set<PeerID> { set p | p in peers }

  class Manager {
    const self: PeerID
    var seenCache: map<MessageID, bool>

    constructor (self: PeerID)
      ensures this.self == self && Seen() == {}
    {
      this.self := self;
      this.seenCache := map[];
    }

    ghost function Seen(): set<MessageID>
      reads this
    {
      set id | id in seenCache && seenCache[id]
    }

    /** The critical section of `HandleIncoming`. */
    method CheckSeen(id: MessageID) returns (seen: bool)
      ensures seen <==> id in Seen()
    {
      seen := id in seenCache && seenCache[id];
    }

    /** The critical section of `Broadcast`. */
    method MarkSeen(id: MessageID) returns (wasSeen: bool)
      modifies this`seenCache
      ensures wasSeen <==> id in old(Seen())
      ensures Seen() == old(Seen()) + {id}
    {
      wasSeen := id in seenCache && seenCache[id];
      if !wasSeen {
        seenCache := seenCache[id := true];
      }
    }

    /**
     Marks an unseen message, decrements its hop limit in place, and sends it to every peer but
     its originator unless the limit reached zero. `peers` is what the swarm reports. The call panics,
     with the message marked and nothing sent, exactly when there is a peer to compare with an origin
     field of fewer than 32 bytes.
     */
    method Broadcast(msgData: MessageData, peers: seq<PeerID>)
      returns (sends: seq<Copy>, panicked: bool)
      requires Distinct(peers)
      modifies this`seenCache, msgData`hopLimit
      ensures if |msgData.messageId| != 16 || msgData.messageId in old(Seen())
        then Seen() == old(Seen()) && msgData.hopLimit == old(msgData.hopLimit) && sends == [] && !panicked
        else
          && Seen() == old(Seen()) + {msgData.messageId}
          && msgData.hopLimit == (if old(msgData.hopLimit) == 0 then 0xFFFF_FFFF else old(msgData.hopLimit) - 1)
          && (panicked <==> msgData.hopLimit != 0 && peers != [] && |msgData.originId| < 32)
          && multiset(sends) ==
             if msgData.hopLimit == 0 || |msgData.originId| < 32 then multiset{}
             else multiset(set p | p in peers && p != msgData.originId[..32] ::
                             Copy(self, p, Message(msgData.messageId, msgData.originId[..32], msgData.hopLimit)))
    {
      hide Sends, OriginOf;
      sends, panicked := [], false;
      SendsNothing(self, peers, msgData.messageId, msgData.originId, msgData.hopLimit);
      var parsed := ParseMessageID(msgData.messageId);
      if parsed == None {
        return;
      }
      var wasSeen := MarkSeen(parsed.value);
      if wasSeen {
        return;
      }
      ghost var hop := msgData.hopLimit;
      msgData.hopLimit := Decrement(msgData.hopLimit);
      if msgData.hopLimit <= 0 {
        return;
      }
      for i := 0 to |peers|
        invariant Seen() == old(Seen()) + {parsed.value}
        invariant msgData.hopLimit == Decrement(hop)
        invariant i > 0 ==> |msgData.originId| >= 32
        invariant multiset(sends) == multiset(Sends(self, peers[..i], msgData.messageId, msgData.originId, hop))
      {
        var origin := OriginOf(msgData.originId);
        OriginNeedsBytes(msgData.originId);
        if origin == None {
          return sends, true;
        }
        SendsOneMore(self, peers[..i], peers[i], msgData.messageId, msgData.originId, hop);
        assert peers[..i + 1] == peers[..i] + [peers[i]];
        if peers[i] != origin.value {
          sends := sends + [Copy(self, peers[i], Message(parsed.value, origin.value, msgData.hopLimit))];
        }
      }
      assert peers[..|peers|] == peers;
      if peers == [] {
        assert sends == [];
      }
      if |msgData.originId| >= 32 {
        SendsSpelledOut(self, peers, msgData.messageId, msgData.originId, hop);
      }
    }

    /** Drops a message it has seen; otherwise broadcasts it. */
    method HandleIncoming(msgData: MessageData, peers: seq<PeerID>)
      returns (sends: seq<Copy>, panicked: bool)
      requires Distinct(peers)
      modifies this`seenCache, msgData`hopLimit
      ensures if |msgData.messageId| != 16 || msgData.messageId in old(Seen())
        then Seen() == old(Seen()) && msgData.hopLimit == old(msgData.hopLimit) && sends == [] && !panicked
        else
          && Seen() == old(Seen()) + {msgData.messageId}
          && msgData.hopLimit == (if old(msgData.hopLimit) == 0 then 0xFFFF_FFFF else old(msgData.hopLimit) - 1)
          && (panicked <==> msgData.hopLimit != 0 && peers != [] && |msgData.originId| < 32)
          && multiset(sends) ==
             if msgData.hopLimit == 0 || |msgData.originId| < 32 then multiset{}
             else multiset(set p | p in peers && p != msgData.originId[..32] ::
                             Copy(self, p, Message(msgData.messageId, msgData.originId[..32], msgData.hopLimit)))
    {
      sends, panicked := [], false;
      var parsed := ParseMessageID(msgData.messageId);
      if parsed == None {
        return;
      }
      var seen := CheckSeen(parsed.value);
      if seen {
        return;
      }
      sends, panicked := Broadcast(msgData, peers);
    }
  }

  /** Each peer but the originator gets one copy of the message with its limit decremented. */
  lemma SendsSpelledOut(self: PeerID, peers: seq<PeerID>, messageId: Bytes, originId: Bytes, hop: Hop)
    requires |messageId| == 16 && |originId| >= 32 && Decrement(hop) != 0
    ensures var origin := originId[..32];
            Sends(self, peers, messageId, originId, hop) ==
            set p | p in peers && p != origin :: Copy(self, p, Message(messageId, origin, Decrement(hop)))
  {
    var m := Message(messageId, originId[..32], hop);
    assert Forwarded(m) == Message(messageId, originId[..32], Decrement(hop));
    assert Sends(self, peers, messageId, originId, hop) == FanOut(self, Members(peers), m);
    FanOutSpelledOut(self, peers, m);
  }

  lemma FanOutSpelledOut(self: PeerID, peers: seq<PeerID>, m: Message)
    requires Decrement(m.hop) != 0
    ensures FanOut(self, Members(peers), m) ==
            set p | p in peers && p != m.origin :: Copy(self, p, Message(m.id, m.origin, Decrement(m.hop)))
  {
    assert Forwarded(m) == Message(m.id, m.origin, Decrement(m.hop));
    assert forall p :: p in Members(peers) <==> p in peers;
  }

  lemma OriginNeedsBytes(originId: Bytes)
    ensures OriginOf(originId) == None <==> |originId| < 32
  {
  }

  lemma SendsNothing(self: PeerID, peers: seq<PeerID>, messageId: Bytes, originId: Bytes, hop: Hop)
    ensures Sends(self, [], messageId, originId, hop) == {}
    ensures |originId| < 32 || Decrement(hop) == 0 ==> Sends(self, peers, messageId, originId, hop) == {}
  {
  }

  lemma SendsOneMore(self: PeerID, peers: seq<PeerID>, p: PeerID, messageId: Bytes, originId: Bytes, hop: Hop)
    requires p !in peers && Decrement(hop) != 0 && ParseMessageID(messageId).Some? && OriginOf(originId).Some?
    ensures var id, origin := ParseMessageID(messageId).value, OriginOf(originId).value;
            multiset(Sends(self, peers + [p], messageId, originId, hop)) ==
            multiset(Sends(self, peers, messageId, originId, hop)) +
            if p != origin then multiset{Copy(self, p, Message(id, origin, Decrement(hop)))} else multiset{}
  {
    hide FanOut;
    FanOutToOneMore(self, peers, p, Message(ParseMessageID(messageId).value, OriginOf(originId).value, hop));
  }

  lemma FanOutToOneMore(self: PeerID, peers: seq<PeerID>, p: PeerID, m: Message)
    requires p !in peers && Decrement(m.hop) != 0
    ensures multiset(FanOut(self, Members(peers + [p]), m)) ==
            multiset(FanOut(self, Members(peers), m)) +
            if p != m.origin then multiset{Copy(self, p, Forwarded(m))} else multiset{}
  {
    var a, b := FanOut(self, Members(peers), m), FanOut(self, Members(peers + [p]), m);
    var c := Copy(self, p, Forwarded(m));
    assert c !in a;
    assert b == if p != m.origin then a + {c} else a;
  }

  // ----- The network

  /** A fixed set of nodes, each with the peers its swarm is connected to. */
  datatype Network = Network(nodes: set<PeerID>, peers: map<PeerID, set<PeerID>>) {
    ghost predicate Valid() {
      peers.Keys == nodes && forall v :: v in nodes ==> peers[v] <= nodes
    }
  }

  /**
     `seen` records, for each node and message ID marked there, the message as it was when it was
     marked. `flying` are the copies sent and not yet handled, `pending` the calls that passed the
     check and have not reached the write lock, `sent` everything ever sent.
   */
  datatype State = State(
    seen: map<(PeerID, MessageID), Message>,
    flying: multiset<Copy>,
    pending: multiset<Copy>,
    sent: multiset<Copy>)

  function Key(c: Copy): (PeerID, MessageID) { (c.to, c.msg.id) }

  /** The critical sections, in the order a handled copy passes them. */
  datatype Action = Check(c: Copy) | Relay(c: Copy)

  predicate Enabled(net: Network, s: State, a: Action) {
    a.c.to in net.peers && if a.Check? then a.c in s.flying else a.c in s.pending
  }

  function Apply(net: Network, s: State, a: Action): State
    requires Enabled(net, s, a)
  {
    var c := a.c;
    match a
    case Check(_) =>
      if Key(c) in s.seen then s.(flying := s.flying - multiset{c})
      else s.(flying := s.flying - multiset{c}, pending := s.pending + multiset{c})
    case Relay(_) =>
      if Key(c) in s.seen then s.(pending := s.pending - multiset{c})
      else
        var out := multiset(FanOut(c.to, net.peers[c.to], c.msg));
        State(s.seen[Key(c) := c.msg], s.flying + out, s.pending - multiset{c}, s.sent + out)
  }

  ghost predicate Run(net: Network, states: seq<State>, actions: seq<Action>) {
    && |states| == |actions| + 1
    && forall i :: 0 <= i < |actions| ==>
         Enabled(net, states[i], actions[i]) && states[i + 1] == Apply(net, states[i], actions[i])
  }

  /** A copy that still has to be handled. */
  predicate Outstanding(s: State, c: Copy) { c in s.flying || c in s.pending }

  predicate Quiescent(s: State) { s.flying == multiset{} && s.pending == multiset{} }

  /** The message IDs a node has marked. */
  ghost function SeenAt(s: State, v: PeerID): set<MessageID> {
    set k | k in s.seen && k.0 == v :: k.1
  }

  /** A relay does at its node what `Broadcast` does, and nothing at any other node. */
  lemma RelayIsBroadcast(net: Network, s: State, c: Copy)
    requires Enabled(net, s, Relay(c))
    ensures var s' := Apply(net, s, Relay(c));
            && SeenAt(s', c.to) == SeenAt(s, c.to) + {c.msg.id}
            && (forall v :: v != c.to ==> SeenAt(s', v) == SeenAt(s, v))
            && s'.flying == s.flying +
               if c.msg.id in SeenAt(s, c.to) then multiset{} else multiset(FanOut(c.to, net.peers[c.to], c.msg))
  {
    var s' := Apply(net, s, Relay(c));
    assert c.msg.id in SeenAt(s, c.to) <==> Key(c) in s.seen;
    forall id ensures id in SeenAt(s', c.to) <==> id in SeenAt(s, c.to) + {c.msg.id} {
      assert id in SeenAt(s', c.to) <==> (c.to, id) in s'.seen;
      assert id in SeenAt(s, c.to) <==> (c.to, id) in s.seen;
    }
    forall v | v != c.to ensures SeenAt(s', v) == SeenAt(s, v) {
      forall id ensures id in SeenAt(s', v) <==> id in SeenAt(s, v) {
        assert id in SeenAt(s', v) <==> (v, id) in s'.seen;
        assert id in SeenAt(s, v) <==> (v, id) in s.seen;
      }
    }
  }
}
