/**
 Two honest parties, the dialer (0) and the acceptor (1), run the handshake over a pair of FIFO
 byte streams. A step is one write, one read of a whole frame, or the arrival of some bytes.
 */
module HandshakeRuns {
  import opened Bytes
  import opened Schema
  import opened Framing
  import opened Handshake

  /** A party's position in the handshake. Only the acceptor starts out waiting for a stream. */
  datatype Stage =
    | Waiting
    | Starting
    | AwaitingInit
    | Answering(answer: Bytes)
    | AwaitingResponse
    | Authenticated(key: PublicKey)
    | Done(key: PublicKey)
    | Refused

  datatype Party = Party(priv: PrivateKey, version: uint32, nonce: Bytes)

  datatype Setup = Setup(scheme: Scheme, dialer: Party, acceptor: Party) {
    function Of(p: nat): Party {
      if p == 0 then dialer else acceptor
    }

    ghost predicate Honest() {
      && Accepts(scheme, dialer.priv) && Accepts(scheme, acceptor.priv)
      && |dialer.nonce| == 32 && |acceptor.nonce| == 32
    }
  }

  /** Bytes sent to a party: those still travelling, and those that arrived and are unread. */
  datatype Inbox = Inbox(net: Bytes, buf: Bytes)

  datatype State = State(stage: seq<Stage>, inbox: seq<Inbox>)

  const Start: State := State([Starting, Waiting], [Inbox([], []), Inbox([], [])])

  datatype Step =
    | Arrive(to: nat, count: nat)
    | AcceptStream
    | SendInit(p: nat)
    | ReadInit(p: nat)
    | SendResponse(p: nat)
    | ReadResponse(p: nat)
    | SendReady
    | ReadReady

  predicate Shaped(s: State) { |s.stage| == 2 && |s.inbox| == 2 }

  predicate Enabled(s: State, step: Step)
    requires Shaped(s)
  {
    match step
    case Arrive(to, count) => to < 2 && 1 <= count <= |s.inbox[to].net|
    case AcceptStream => s.stage[1].Waiting? && s.inbox[1].buf != []
    case SendInit(p) => p < 2 && s.stage[p].Starting?
    case ReadInit(p) => p < 2 && s.stage[p].AwaitingInit? && !ReadOne(s.inbox[p].buf).EndOfStream?
    case SendResponse(p) => p < 2 && s.stage[p].Answering?
    case ReadResponse(p) => p < 2 && s.stage[p].AwaitingResponse? && !ReadOne(s.inbox[p].buf).EndOfStream?
    case SendReady => s.stage[0].Authenticated?
    case ReadReady => s.stage[1].Authenticated? && s.inbox[1].buf != []
  }

  function Write(s: State, p: nat, data: Bytes, next: Stage): State
    requires Shaped(s) && p < 2
  {
    var other := s.inbox[1 - p];
    State(s.stage[p := next], s.inbox[1 - p := other.(net := other.net + data)])
  }

  function Read(s: State, p: nat, rest: Bytes, next: Stage): State
    requires Shaped(s) && p < 2
  {
    State(s.stage[p := next], s.inbox[p := s.inbox[p].(buf := rest)])
  }

  function AfterInit(setup: Setup, p: nat, m: StreamMessage): Stage {
    match Answer(setup.scheme, setup.Of(p).priv, setup.Of(p).version, m)
    case Some(answer) => Answering(answer)
    case None => Refused
  }

  function AfterResponse(setup: Setup, p: nat, m: StreamMessage): Stage {
    match CheckResponse(setup.scheme, setup.Of(p).nonce, m)
    case Accepted(key) => Authenticated(key)
    case _ => Refused
  }

  function Apply(setup: Setup, s: State, step: Step): (s': State)
    requires Shaped(s) && Enabled(s, step)
    ensures Shaped(s')
  {
    match step
    case Arrive(to, count) =>
      var b := s.inbox[to];
      s.(inbox := s.inbox[to := Inbox(b.net[count..], b.buf + b.net[..count])])
    case AcceptStream => s.(stage := s.stage[1 := Starting])
    case SendInit(p) => Write(s, p, InitFrame(setup.Of(p).nonce), AwaitingInit)
    case ReadInit(p) =>
      (match ReadOne(s.inbox[p].buf)
       case Got(m, rest) => Read(s, p, rest, AfterInit(setup, p, m))
       case _ => s.(stage := s.stage[p := Refused]))
    case SendResponse(p) => Write(s, p, s.stage[p].answer, AwaitingResponse)
    case ReadResponse(p) =>
      (match ReadOne(s.inbox[p].buf)
       case Got(m, rest) => Read(s, p, rest, AfterResponse(setup, p, m))
       case _ => s.(stage := s.stage[p := Refused]))
    case SendReady => Write(s, 0, [TYPE_READY], Done(s.stage[0].key))
    case ReadReady =>
      var buf := s.inbox[1].buf;
      Read(s, 1, buf[1..], if buf[0] == TYPE_READY then Done(s.stage[1].key) else Refused)
  }

  ghost predicate Run(setup: Setup, states: seq<State>, steps: seq<Step>) {
    && |states| == |steps| + 1 && states[0] == Start
    && (forall i :: 0 <= i < |states| ==> Shaped(states[i]))
    && (forall i :: 0 <= i < |steps| ==>
          Enabled(states[i], steps[i]) && states[i + 1] == Apply(setup, states[i], steps[i]))
  }

  // ----- What each party sends and consumes

  function InitOf(setup: Setup, p: nat): Bytes { InitFrame(setup.Of(p).nonce) }

  function ResponseOf(setup: Setup, p: nat): Bytes
    requires p < 2
  {
    ResponseFrame(setup.scheme, setup.Of(p).priv, setup.Of(p).version, setup.Of(1 - p).nonce)
  }

  /** Everything a party has sent when it is at a stage. */
  function Sent(setup: Setup, p: nat, stage: Stage): Bytes
    requires p < 2
  {
    match stage
    case Waiting => []
    case Starting => []
    case AwaitingInit => InitOf(setup, p)
    case Answering(_) => InitOf(setup, p)
    case Done(_) => InitOf(setup, p) + ResponseOf(setup, p) + if p == 0 then [TYPE_READY] else []
    case _ => InitOf(setup, p) + ResponseOf(setup, p)
  }

  /** Everything a party has read of what the other sends. */
  function Consumed(setup: Setup, p: nat, stage: Stage): Bytes
    requires p < 2
  {
    match stage
    case Answering(_) => InitOf(setup, 1 - p)
    case AwaitingResponse => InitOf(setup, 1 - p)
    case Authenticated(_) => InitOf(setup, 1 - p) + ResponseOf(setup, 1 - p)
    case Done(_) => InitOf(setup, 1 - p) + ResponseOf(setup, 1 - p) + if p == 1 then [TYPE_READY] else []
    case _ => []
  }

  /** No stage is a failure, an answer is the right one, and a key is the other party's. */
  predicate GoodStage(setup: Setup, p: nat, stage: Stage)
    requires p < 2
  {
    match stage
    case Waiting => p == 1
    case Answering(answer) => answer == ResponseOf(setup, p)
    case Authenticated(key) => key == PublicOf(setup.Of(1 - p).priv)
    case Done(key) => key == PublicOf(setup.Of(1 - p).priv)
    case Refused => false
    case _ => true
  }

  /** What is on its way to a party is what the other sent and it has not consumed. */
  predicate InStep(setup: Setup, s: State, p: nat)
    requires Shaped(s) && p < 2
  {
    Consumed(setup, p, s.stage[p]) + (s.inbox[p].buf + s.inbox[p].net) == Sent(setup, 1 - p, s.stage[1 - p])
  }

  predicate Inv(setup: Setup, s: State) {
    && Shaped(s)
    && GoodStage(setup, 0, s.stage[0]) && GoodStage(setup, 1, s.stage[1])
    && InStep(setup, s, 0) && InStep(setup, s, 1)
  }

  // ----- Every step keeps the parties in step

  /** Reading a frame of which only a front has arrived, with more bytes behind it on the wire. */
  lemma FirstFrame(buf: Bytes, net: Bytes, m: StreamMessage, rest: Bytes)
    requires Framable(m) && buf + net == Frame(m) + rest
    ensures if |Frame(m)| <= |buf|
            then ReadOne(buf) == Got(m, buf[|Frame(m)|..]) && buf[|Frame(m)|..] + net == rest
            else ReadOne(buf) == EndOfStream
  {
    var f := Frame(m);
    if |f| <= |buf| {
      assert buf[..|f|] == (buf + net)[..|f|] == f;
      assert buf == f + buf[|f|..];
      assert (buf + net)[|f|..] == buf[|f|..] + net;
      FrameRoundTrip(m, buf[|f|..]);
    } else {
      assert buf <= f by {
        assert buf == (buf + net)[..|buf|] == (f + rest)[..|buf|];
      }
      CutFrameIsTooShort(m, buf);
    }
  }

  lemma NothingToRead(buf: Bytes, net: Bytes)
    requires buf + net == []
    ensures ReadOne(buf) == EndOfStream
  {
  }

  lemma InitIsUnderstood(setup: Setup, p: nat)
    requires setup.Honest() && p < 2
    ensures var m := StreamMessage(TYPE_HANDSHAKE, EncodeInit(setup.Of(1 - p).nonce));
            && Framable(m) && Frame(m) == InitOf(setup, 1 - p)
            && AfterInit(setup, p, m) == Answering(ResponseOf(setup, p))
  {
    InitSize(setup.Of(1 - p).nonce);
    AnswersInit(setup.scheme, setup.Of(p).priv, setup.Of(p).version, setup.Of(1 - p).nonce);
  }

  lemma ResponseIsAccepted(setup: Setup, p: nat)
    requires setup.Honest() && p < 2
    ensures var other := setup.Of(1 - p);
            var pub := PublicOf(other.priv);
            var m := StreamMessage(TYPE_HANDSHAKE,
                       EncodeResponse(pub, setup.scheme.sign(other.priv, setup.Of(p).nonce + pub), other.version));
            && Framable(m) && Frame(m) == ResponseOf(setup, 1 - p)
            && AfterResponse(setup, p, m) == Authenticated(pub)
  {
    AcceptsResponse(setup.scheme, setup.Of(1 - p).priv, setup.Of(1 - p).version, setup.Of(p).nonce);
  }

  lemma ArriveKeepsInv(setup: Setup, s: State, to: nat, count: nat)
    requires Inv(setup, s) && Enabled(s, Arrive(to, count))
    ensures Inv(setup, Apply(setup, s, Arrive(to, count)))
  {
    hide Consumed, Sent;
    var b := s.inbox[to];
    assert b.buf + b.net[..count] + b.net[count..] == b.buf + b.net;
  }

  /** A write that extends what a party has sent so far keeps the streams in step. */
  lemma WriteKeepsInv(setup: Setup, s: State, p: nat, data: Bytes, next: Stage)
    requires Inv(setup, s) && p < 2 && GoodStage(setup, p, next)
    requires Sent(setup, p, next) == Sent(setup, p, s.stage[p]) + data
    requires Consumed(setup, p, next) == Consumed(setup, p, s.stage[p])
    ensures Inv(setup, Write(s, p, data, next))
  {
    hide Consumed, Sent, GoodStage;
    var q := 1 - p;
    var b := s.inbox[q];
    var s' := Write(s, p, data, next);
    assert Consumed(setup, q, s.stage[q]) + (b.buf + (b.net + data))
        == Consumed(setup, q, s.stage[q]) + (b.buf + b.net) + data;
    assert InStep(setup, s', q) && InStep(setup, s', p);
    assert s'.stage[q] == s.stage[q];
  }

  /** A read that moves bytes from unread to consumed keeps the streams in step. */
  lemma ReadKeepsInv(setup: Setup, s: State, p: nat, taken: Bytes, rest: Bytes, next: Stage)
    requires Inv(setup, s) && p < 2 && GoodStage(setup, p, next)
    requires s.inbox[p].buf == taken + rest
    requires Consumed(setup, p, next) == Consumed(setup, p, s.stage[p]) + taken
    requires Sent(setup, p, next) == Sent(setup, p, s.stage[p])
    ensures Inv(setup, Read(s, p, rest, next))
  {
    hide Consumed, Sent, GoodStage;
    var q := 1 - p;
    var net := s.inbox[p].net;
    var s' := Read(s, p, rest, next);
    assert Consumed(setup, p, s.stage[p]) + (taken + rest + net)
        == Consumed(setup, p, s.stage[p]) + taken + (rest + net);
    assert InStep(setup, s', q) && InStep(setup, s', p);
    assert s'.stage[q] == s.stage[q];
  }

  /** What follows the init of the other party on its stream. */
  function AfterInitBytes(setup: Setup, q: nat, stage: Stage): Bytes
    requires q < 2
  {
    match stage
    case Done(_) => ResponseOf(setup, q) + if q == 0 then [TYPE_READY] else []
    case Authenticated(_) => ResponseOf(setup, q)
    case AwaitingResponse => ResponseOf(setup, q)
    case _ => []
  }

  predicate HasSentInit(stage: Stage) { !stage.Waiting? && !stage.Starting? && !stage.Refused? }

  predicate HasSentResponse(stage: Stage) { stage.AwaitingResponse? || stage.Authenticated? || stage.Done? }

  lemma SentSplits(setup: Setup, q: nat, stage: Stage)
    requires q < 2 && !stage.Refused?
    ensures if HasSentInit(stage) then Sent(setup, q, stage) == InitOf(setup, q) + AfterInitBytes(setup, q, stage)
            else Sent(setup, q, stage) == []
    ensures HasSentResponse(stage) ==>
              AfterInitBytes(setup, q, stage)
              == ResponseOf(setup, q) + if q == 0 && stage.Done? then [TYPE_READY] else []
    ensures !HasSentResponse(stage) ==> AfterInitBytes(setup, q, stage) == []
  {
    hide InitOf, ResponseOf;
    assert InitOf(setup, q) + [] == InitOf(setup, q);
    assert ResponseOf(setup, q) + [] == ResponseOf(setup, q);
    if stage.Done? {
      var init, response := InitOf(setup, q), ResponseOf(setup, q);
      assert init + response + [TYPE_READY] == init + (response + [TYPE_READY]);
      assert init + response + [] == init + (response + []);
    }
  }

  lemma FrontOf(buf: Bytes, net: Bytes, f: Bytes, rest: Bytes)
    requires buf + net == f + rest && |f| <= |buf|
    ensures f + buf[|f|..] == buf
  {
    assert buf[..|f|] == (buf + net)[..|f|] == f;
  }

  /** Reading where the other party has sent a frame, and perhaps more, or nothing yet. */
  lemma ReadsNext(buf: Bytes, net: Bytes, sent: bool, m: StreamMessage, rest: Bytes)
    requires Framable(m) && buf + net == if sent then Frame(m) + rest else []
    ensures if sent && |Frame(m)| <= |buf|
            then ReadOne(buf).Got? && ReadOne(buf).m == m && Frame(m) + ReadOne(buf).rest == buf
            else ReadOne(buf) == EndOfStream
  {
    hide Frame;
    if sent {
      FirstFrame(buf, net, m, rest);
      if |Frame(m)| <= |buf| {
        FrontOf(buf, net, Frame(m), rest);
      }
    } else {
      NothingToRead(buf, net);
    }
  }

  /** A party waiting for the other's init reads just that, as soon as all of it arrived. */
  lemma ReadsInit(setup: Setup, s: State, p: nat)
    requires setup.Honest() && Inv(setup, s) && p < 2 && s.stage[p].AwaitingInit?
    ensures var buf, f := s.inbox[p].buf, InitOf(setup, 1 - p);
            if HasSentInit(s.stage[1 - p]) && |f| <= |buf|
            then ReadOne(buf).Got? && f + ReadOne(buf).rest == buf
              && AfterInit(setup, p, ReadOne(buf).m) == Answering(ResponseOf(setup, p))
            else ReadOne(buf) == EndOfStream
  {
    hide AfterInit, Frame, ReadOne, EncodeInit, AfterInitBytes, Sent, InitOf, ResponseOf, Framable, GoodStage;
    var q, b := 1 - p, s.inbox[p];
    InitIsUnderstood(setup, p);
    NoneRefused(setup, s, q);
    SentSplits(setup, q, s.stage[q]);
    assert [] + (b.buf + b.net) == b.buf + b.net;
    ReadsNext(b.buf, b.net, HasSentInit(s.stage[q]), StreamMessage(TYPE_HANDSHAKE, EncodeInit(setup.Of(q).nonce)),
              AfterInitBytes(setup, q, s.stage[q]));
  }

  lemma NoneRefused(setup: Setup, s: State, q: nat)
    requires Inv(setup, s) && q < 2
    ensures !s.stage[q].Refused?
  {
    hide InStep;
  }

  /** Once a party has read the other's init, what is on its way is what the other sent after it. */
  lemma OnTheWayAfterInit(setup: Setup, s: State, p: nat)
    requires Inv(setup, s) && p < 2 && s.stage[p].AwaitingResponse?
    ensures s.inbox[p].buf + s.inbox[p].net == AfterInitBytes(setup, 1 - p, s.stage[1 - p])
  {
    hide InitOf, ResponseOf, Sent, AfterInitBytes, GoodStage;
    var q, b := 1 - p, s.inbox[p];
    NoneRefused(setup, s, q);
    SentSplits(setup, q, s.stage[q]);
    InitNotEmpty(setup, q);
    assert |InitOf(setup, q) + (b.buf + b.net)| > 0;
    CutFronts(InitOf(setup, q), b.buf + b.net, AfterInitBytes(setup, q, s.stage[q]));
  }

  /** A party waiting for the other's response reads just that, as soon as all of it arrived. */
  lemma ReadsResponse(setup: Setup, s: State, p: nat)
    requires setup.Honest() && Inv(setup, s) && p < 2 && s.stage[p].AwaitingResponse?
    ensures var buf, f := s.inbox[p].buf, ResponseOf(setup, 1 - p);
            if HasSentResponse(s.stage[1 - p]) && |f| <= |buf|
            then ReadOne(buf).Got? && f + ReadOne(buf).rest == buf
              && AfterResponse(setup, p, ReadOne(buf).m) == Authenticated(PublicOf(setup.Of(1 - p).priv))
            else ReadOne(buf) == EndOfStream
  {
    hide AfterResponse, Frame, ReadOne, EncodeResponse, AfterInitBytes, Sent, Consumed, InitOf, ResponseOf;
    hide Framable, GoodStage;
    var q, b := 1 - p, s.inbox[p];
    var other := setup.Of(q);
    var pub := PublicOf(other.priv);
    ResponseIsAccepted(setup, p);
    OnTheWayAfterInit(setup, s, p);
    NoneRefused(setup, s, q);
    SentSplits(setup, q, s.stage[q]);
    ReadsNext(b.buf, b.net, HasSentResponse(s.stage[q]),
              StreamMessage(TYPE_HANDSHAKE,
                EncodeResponse(pub, setup.scheme.sign(other.priv, setup.Of(p).nonce + pub), other.version)),
              if q == 0 && s.stage[q].Done? then [TYPE_READY] else []);
  }

  lemma InitNotEmpty(setup: Setup, q: nat)
    ensures |InitOf(setup, q)| > 0
  {
  }

  lemma ResponseNotEmpty(setup: Setup, q: nat)
    requires q < 2
    ensures |ResponseOf(setup, q)| > 0
  {
  }

  /** At the acceptor, the next unread byte after the handshake is the ready byte and nothing follows it. */
  lemma ReadyByteIsNext(setup: Setup, s: State)
    requires Inv(setup, s) && s.stage[1].Authenticated?
    ensures s.inbox[1].buf + s.inbox[1].net == if s.stage[0].Done? then [TYPE_READY] else []
    ensures HasSentResponse(s.stage[0])
  {
    var b, both := s.inbox[1], InitOf(setup, 0) + ResponseOf(setup, 0);
    InitNotEmpty(setup, 0);
    ResponseNotEmpty(setup, 0);
    hide InitOf, ResponseOf;
    assert |both + (b.buf + b.net)| >= |both|;
    if HasSentResponse(s.stage[0]) {
      assert both + [] == both;
      CutFronts(both, b.buf + b.net, if s.stage[0].Done? then [TYPE_READY] else []);
    }
  }

  /** Whatever reaches the acceptor, it is done exactly when the next byte is the ready byte, and takes only that. */
  lemma ReadyStepTakesOneByte(setup: Setup, s: State)
    requires Shaped(s) && Enabled(s, ReadReady)
    ensures var s' := Apply(setup, s, ReadReady);
            && s'.stage[1] == (if s.inbox[1].buf[0] == 2 then Done(s.stage[1].key) else Refused)
            && s'.inbox[1] == Inbox(s.inbox[1].net, s.inbox[1].buf[1..])
            && s'.stage[0] == s.stage[0] && s'.inbox[0] == s.inbox[0]
  {
  }

  lemma ReadInitKeepsInv(setup: Setup, s: State, p: nat)
    requires setup.Honest() && Inv(setup, s) && Enabled(s, ReadInit(p))
    ensures Inv(setup, Apply(setup, s, ReadInit(p)))
  {
    hide AfterInit, ReadOne, InitOf, ResponseOf, Read;
    ReadsInit(setup, s, p);
    assert [] + InitOf(setup, 1 - p) == InitOf(setup, 1 - p);
    ReadKeepsInv(setup, s, p, InitOf(setup, 1 - p), ReadOne(s.inbox[p].buf).rest, Answering(ResponseOf(setup, p)));
  }

  lemma ReadResponseKeepsInv(setup: Setup, s: State, p: nat)
    requires setup.Honest() && Inv(setup, s) && Enabled(s, ReadResponse(p))
    ensures Inv(setup, Apply(setup, s, ReadResponse(p)))
  {
    hide AfterResponse, ReadOne, InitOf, ResponseOf, Read;
    ReadsResponse(setup, s, p);
    ReadKeepsInv(setup, s, p, ResponseOf(setup, 1 - p), ReadOne(s.inbox[p].buf).rest,
                 Authenticated(PublicOf(setup.Of(1 - p).priv)));
  }

  lemma ReadReadyKeepsInv(setup: Setup, s: State)
    requires Inv(setup, s) && Enabled(s, ReadReady)
    ensures Inv(setup, Apply(setup, s, ReadReady))
  {
    var b := s.inbox[1];
    ReadyByteIsNext(setup, s);
    hide InitOf, ResponseOf;
    assert (b.buf + b.net)[0] == b.buf[0];
    assert b.buf == [TYPE_READY] + b.buf[1..];
    ReadKeepsInv(setup, s, 1, [TYPE_READY], b.buf[1..], Done(s.stage[1].key));
  }

  lemma AcceptStreamKeepsInv(setup: Setup, s: State)
    requires Inv(setup, s) && Enabled(s, AcceptStream)
    ensures Inv(setup, Apply(setup, s, AcceptStream))
  {
    hide InitOf, ResponseOf;
    var s' := Apply(setup, s, AcceptStream);
    assert InStep(setup, s', 0) && InStep(setup, s', 1);
  }

  lemma SendInitKeepsInv(setup: Setup, s: State, p: nat)
    requires Inv(setup, s) && Enabled(s, SendInit(p))
    ensures Inv(setup, Apply(setup, s, SendInit(p)))
  {
    hide InitFrame, ResponseOf, Write;
    assert [] + InitOf(setup, p) == InitOf(setup, p);
    WriteKeepsInv(setup, s, p, InitOf(setup, p), AwaitingInit);
  }

  lemma SendResponseKeepsInv(setup: Setup, s: State, p: nat)
    requires Inv(setup, s) && Enabled(s, SendResponse(p))
    ensures Inv(setup, Apply(setup, s, SendResponse(p)))
  {
    hide InitOf, ResponseOf, Write;
    WriteKeepsInv(setup, s, p, ResponseOf(setup, p), AwaitingResponse);
  }

  lemma SendReadyKeepsInv(setup: Setup, s: State)
    requires Inv(setup, s) && Enabled(s, SendReady)
    ensures Inv(setup, Apply(setup, s, SendReady))
  {
    hide InitOf, ResponseOf, Write;
    var base := InitOf(setup, 1) + ResponseOf(setup, 1);
    assert base + [] == base;
    WriteKeepsInv(setup, s, 0, [TYPE_READY], Done(s.stage[0].key));
  }

  lemma StepKeepsInv(setup: Setup, s: State, step: Step)
    requires setup.Honest() && Inv(setup, s) && Enabled(s, step)
    ensures Inv(setup, Apply(setup, s, step))
  {
    hide Inv, Apply;
    match step
    case Arrive(to, count) => ArriveKeepsInv(setup, s, to, count);
    case ReadInit(p) => ReadInitKeepsInv(setup, s, p);
    case ReadResponse(p) => ReadResponseKeepsInv(setup, s, p);
    case ReadReady => ReadReadyKeepsInv(setup, s);
    case AcceptStream => AcceptStreamKeepsInv(setup, s);
    case SendInit(p) => SendInitKeepsInv(setup, s, p);
    case SendResponse(p) => SendResponseKeepsInv(setup, s, p);
    case SendReady => SendReadyKeepsInv(setup, s);
  }

  lemma {:induction false} RunKeepsInv(setup: Setup, states: seq<State>, steps: seq<Step>)
    requires setup.Honest() && Run(setup, states, steps)
    ensures Inv(setup, states[|steps|])
    decreases |steps|
  {
    if |steps| == 0 {
      assert Inv(setup, Start);
    } else {
      hide Inv, Apply, Enabled;
      var n := |steps| - 1;
      RunKeepsInv(setup, states[..n + 1], steps[..n]);
      StepKeepsInv(setup, states[n], steps[n]);
    }
  }

  // ----- Agreement

  /** In no interleaving does a party fail, and a party that finished holds the other's public key. */
  lemma Agreement(setup: Setup, states: seq<State>, steps: seq<Step>, p: nat)
    requires setup.Honest() && Run(setup, states, steps) && p < 2
    ensures var stage := states[|steps|].stage[p];
            && stage != Refused
            && (stage.Authenticated? || stage.Done? ==> stage.key == PublicOf(setup.Of(1 - p).priv))
  {
    RunKeepsInv(setup, states, steps);
  }

  /** In every reachable state where the acceptor waits for it, the ready byte is exactly what is left to read. */
  lemma ReadyByteIsExact(setup: Setup, states: seq<State>, steps: seq<Step>)
    requires setup.Honest() && Run(setup, states, steps) && states[|steps|].stage[1].Authenticated?
    ensures var s := states[|steps|];
            s.inbox[1].buf + s.inbox[1].net == if s.stage[0].Done? then [TYPE_READY] else []
  {
    RunKeepsInv(setup, states, steps);
    ReadyByteIsNext(setup, states[|steps|]);
  }

  // ----- No deadlock

  predicate Finished(s: State)
    requires Shaped(s)
  {
    s.stage[0].Done? && s.stage[1].Done?
  }

  lemma InitAllArrived(setup: Setup, s: State, p: nat)
    requires Inv(setup, s) && p < 2 && s.inbox[p].net == []
    requires s.stage[p].AwaitingInit? && HasSentInit(s.stage[1 - p])
    ensures |InitOf(setup, 1 - p)| <= |s.inbox[p].buf|
  {
    hide InitOf, ResponseOf;
    SentSplits(setup, 1 - p, s.stage[1 - p]);
  }

  lemma InitIsReadable(setup: Setup, s: State, p: nat)
    requires setup.Honest() && Inv(setup, s) && p < 2 && s.inbox[p].net == []
    requires s.stage[p].AwaitingInit? && HasSentInit(s.stage[1 - p])
    ensures Enabled(s, ReadInit(p))
  {
    hide ReadOne, InitOf, Inv, AfterInit;
    assert Shaped(s) by { InvIsShaped(setup, s); }
    InitAllArrived(setup, s, p);
    ReadsInit(setup, s, p);
  }

  lemma InvIsShaped(setup: Setup, s: State)
    requires Inv(setup, s)
    ensures Shaped(s)
  {
    hide GoodStage, InStep;
  }

  lemma ResponseAllArrived(setup: Setup, s: State, p: nat)
    requires Inv(setup, s) && p < 2 && s.inbox[p].net == []
    requires s.stage[p].AwaitingResponse? && HasSentResponse(s.stage[1 - p])
    ensures |ResponseOf(setup, 1 - p)| <= |s.inbox[p].buf|
  {
    hide InitOf, ResponseOf;
    SentSplits(setup, 1 - p, s.stage[1 - p]);
    assert |Sent(setup, 1 - p, s.stage[1 - p])| == |InitOf(setup, 1 - p)| + |s.inbox[p].buf|;
  }

  lemma ResponseIsReadable(setup: Setup, s: State, p: nat)
    requires setup.Honest() && Inv(setup, s) && p < 2 && s.inbox[p].net == []
    requires s.stage[p].AwaitingResponse? && HasSentResponse(s.stage[1 - p])
    ensures Enabled(s, ReadResponse(p))
  {
    hide ReadOne, ResponseOf, Inv, AfterResponse;
    assert Shaped(s) by { InvIsShaped(setup, s); }
    ResponseAllArrived(setup, s, p);
    ReadsResponse(setup, s, p);
  }

  lemma StreamIsVisible(setup: Setup, s: State)
    requires Inv(setup, s) && s.inbox[1].net == [] && s.stage[1].Waiting? && HasSentInit(s.stage[0])
    ensures Enabled(s, AcceptStream)
  {
    InitNotEmpty(setup, 0);
    SentSplits(setup, 0, s.stage[0]);
    hide InitOf, ResponseOf;
  }

  /** Reading needs the other party to be far enough; the party that is behind can always move. */
  lemma NoDeadlock(setup: Setup, s: State) returns (step: Step)
    requires setup.Honest() && Inv(setup, s) && !Finished(s)
    ensures Enabled(s, step)
  {
    hide ReadOne, InStep;
    var d, a := s.stage[0], s.stage[1];
    if s.inbox[0].net != [] {
      step := Arrive(0, 1);
    } else if s.inbox[1].net != [] {
      step := Arrive(1, 1);
    } else if d.Starting? {
      step := SendInit(0);
    } else if d.Answering? {
      step := SendResponse(0);
    } else if d.Authenticated? {
      step := SendReady;
    } else if a.Waiting? {
      StreamIsVisible(setup, s);
      step := AcceptStream;
    } else if a.Starting? {
      step := SendInit(1);
    } else if a.Answering? {
      step := SendResponse(1);
    } else if d.AwaitingInit? {
      InitIsReadable(setup, s, 0);
      step := ReadInit(0);
    } else if a.AwaitingInit? {
      InitIsReadable(setup, s, 1);
      step := ReadInit(1);
    } else if d.AwaitingResponse? {
      ResponseIsReadable(setup, s, 0);
      step := ReadResponse(0);
    } else if a.AwaitingResponse? {
      ResponseIsReadable(setup, s, 1);
      step := ReadResponse(1);
    } else {
      assert d.Done? && a.Authenticated?;
      ReadyByteIsNext(setup, s);
      assert s.inbox[1].buf + [] == s.inbox[1].buf;
      step := ReadReady;
    }
  }

  // ----- Both finish

  /** How many stages a party has left. */
  function Left(stage: Stage): nat {
    match stage
    case Waiting => 6
    case Starting => 5
    case AwaitingInit => 4
    case Answering(_) => 3
    case AwaitingResponse => 2
    case Authenticated(_) => 1
    case _ => 0
  }

  /** More than any single write puts on the wire. */
  function Unit(setup: Setup): nat {
    |InitOf(setup, 0)| + |InitOf(setup, 1)| + |ResponseOf(setup, 0)| + |ResponseOf(setup, 1)| + 2
  }

  function Weight(left: nat, unit: nat, travelling: nat): nat {
    left * unit + travelling
  }

  function Measure(setup: Setup, s: State): nat
    requires Shaped(s)
  {
    Weight(Left(s.stage[0]) + Left(s.stage[1]), Unit(setup), |s.inbox[0].net| + |s.inbox[1].net|)
  }

  lemma WeightDrops(left: nat, unit: nat, travelling: nat, added: nat)
    requires left > 0 && added < unit
    ensures Weight(left - 1, unit, travelling + added) < Weight(left, unit, travelling)
  {
    assert (left - 1) * unit == left * unit - unit;
  }

  lemma ArrivalLowersMeasure(setup: Setup, s: State, to: nat, count: nat)
    requires Shaped(s) && Enabled(s, Arrive(to, count))
    ensures Measure(setup, Apply(setup, s, Arrive(to, count))) < Measure(setup, s)
  {
    hide Unit, Left;
  }

  /** A step of a party takes it one stage on and writes less than one unit. */
  lemma MoveSizes(setup: Setup, s: State, step: Step) returns (added: nat)
    requires setup.Honest() && Inv(setup, s) && Enabled(s, step) && !step.Arrive?
    ensures var s' := Apply(setup, s, step);
            && Left(s'.stage[0]) + Left(s'.stage[1]) == Left(s.stage[0]) + Left(s.stage[1]) - 1
            && |s'.inbox[0].net| + |s'.inbox[1].net| == |s.inbox[0].net| + |s.inbox[1].net| + added
            && added < Unit(setup)
  {
    hide ReadOne, AfterInit, AfterResponse, InitFrame, ResponseOf, InStep;
    match step
    case AcceptStream => added := 0;
    case SendInit(p) => added := |InitOf(setup, p)|;
    case ReadInit(p) =>
      ReadsInit(setup, s, p);
      added := 0;
    case SendResponse(p) => added := |ResponseOf(setup, p)|;
    case ReadResponse(p) =>
      ReadsResponse(setup, s, p);
      added := 0;
    case SendReady => added := 1;
    case ReadReady =>
      ReadyByteIsNext(setup, s);
      assert (s.inbox[1].buf + s.inbox[1].net)[0] == s.inbox[1].buf[0];
      added := 0;
  }

  lemma StepLowersMeasure(setup: Setup, s: State, step: Step)
    requires setup.Honest() && Inv(setup, s) && Enabled(s, step)
    ensures Measure(setup, Apply(setup, s, step)) < Measure(setup, s)
  {
    hide Apply, Weight, Unit, Inv, Left, Enabled;
    InvIsShaped(setup, s);
    if step.Arrive? {
      ArrivalLowersMeasure(setup, s, step.to, step.count);
    } else {
      var added := MoveSizes(setup, s, step);
      WeightDrops(Left(s.stage[0]) + Left(s.stage[1]), Unit(setup), |s.inbox[0].net| + |s.inbox[1].net|, added);
    }
  }

  lemma {:induction false} RunsTerminate(setup: Setup, states: seq<State>, steps: seq<Step>)
    requires setup.Honest() && Run(setup, states, steps)
    ensures |steps| + Measure(setup, states[|steps|]) <= Measure(setup, Start)
    decreases |steps|
  {
    hide Inv, Apply, Enabled, Measure;
    if |steps| > 0 {
      var n := |steps| - 1;
      RunsTerminate(setup, states[..n + 1], steps[..n]);
      RunKeepsInv(setup, states[..n + 1], steps[..n]);
      StepLowersMeasure(setup, states[n], steps[n]);
    }
  }

  /**
     Every run is finite, and one that cannot be continued has both parties finished, each with
     the other's public key, and every byte read.
   */
  lemma BothFinish(setup: Setup, states: seq<State>, steps: seq<Step>)
    requires setup.Honest() && Run(setup, states, steps)
    ensures |steps| <= Measure(setup, Start)
    ensures var s := states[|steps|];
            (forall step :: !Enabled(s, step)) ==>
              && s.stage[0] == Done(PublicOf(setup.acceptor.priv))
              && s.stage[1] == Done(PublicOf(setup.dialer.priv))
              && s.inbox[0] == Inbox([], []) && s.inbox[1] == Inbox([], [])
  {
    var s := states[|steps|];
    RunsTerminate(setup, states, steps);
    RunKeepsInv(setup, states, steps);
    if forall step :: !Enabled(s, step) {
      if !Finished(s) {
        var step := NoDeadlock(setup, s);
        assert false;
      }
      EverythingIsRead(setup, s);
    }
  }

  lemma EverythingIsRead(setup: Setup, s: State)
    requires Inv(setup, s) && Finished(s)
    ensures s.inbox[0] == Inbox([], []) && s.inbox[1] == Inbox([], [])
  {
    hide InitOf, ResponseOf;
    forall p | 0 <= p < 2 ensures |s.inbox[p].buf + s.inbox[p].net| == 0 {
      assert InStep(setup, s, p);
      assert |Sent(setup, 1 - p, s.stage[1 - p])| == |Consumed(setup, p, s.stage[p])|;
    }
  }
}
