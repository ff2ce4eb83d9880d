/**
 A bidirectional stream between two endpoints. Each endpoint runs a write loop and a read loop as
 goroutines; a step is one thing one of them, the application, or the network does. Direction d
 carries messages from endpoint d to endpoint 1 - d.
 */
module StreamPipe {
  import opened Bytes
  import opened Framing

  const BUFFER: nat := 100

  /** One direction: the sender's `Outgoing` and write loop, the wire, the receiver's read loop and `Incoming`. */
  datatype Direction = Direction(
    outgoing: seq<StreamMessage>,
    writing: Option<StreamMessage>,   // taken by the write loop, not yet written
    writerRuns: bool,
    wire: Bytes,                      // written, not yet read
    broken: bool,                     // a write failed or the sender closed: nothing more gets through
    partial: Bytes,                   // read by the read loop, not yet a whole frame
    decoded: Option<StreamMessage>,   // a whole frame, not yet put on Incoming
    readerRuns: bool,
    incoming: seq<StreamMessage>,
    // history
    enqueued: seq<StreamMessage>,     // ever put on Outgoing
    written: seq<StreamMessage>,      // written whole
    parsed: seq<StreamMessage>,       // ever decoded
    delivered: seq<StreamMessage>,    // ever put on Incoming
    received: seq<StreamMessage>)     // ever taken from Incoming by the application

  const Fresh: Direction :=
    Direction([], None, true, [], false, [], None, true, [], [], [], [], [], [])

  /** Both directions, and whether each endpoint's context is cancelled. */
  datatype State = State(dirs: seq<Direction>, closed: seq<bool>)

  const Start: State := State([Fresh, Fresh], [false, false])

  datatype Event =
    | Send(m: StreamMessage)
    | Take
    | Write
    | WriteFails(sent: nat)
    | WriterStops
    | ReadBytes(count: nat)
    | Decode
    | ReaderPanics
    | Push
    | ReaderDrops
    | ReadFails
    | Receive

  datatype Step = On(d: nat, e: Event) | Close(endpoint: nat)

  /** The bytes the read loop wants for the frame it is reading: the header, then what the header says. */
  function Need(partial: Bytes): nat {
    if |partial| < 4 then 4 else 4 + FromBigEndian(partial[..4])
  }

  predicate Can(dir: Direction, senderClosed: bool, receiverClosed: bool, e: Event) {
    match e
    case Send(m) => |dir.outgoing| < BUFFER && Framable(m)
    case Take => dir.writerRuns && dir.writing == None && |dir.outgoing| > 0
    case Write => dir.writing.Some? && !dir.broken
    case WriteFails(sent) => dir.writing.Some? && sent <= if dir.broken then 0 else |Frame(dir.writing.value)|
    case WriterStops => dir.writerRuns && dir.writing == None && senderClosed
    case ReadBytes(count) =>
      && dir.readerRuns && dir.decoded == None
      && 1 <= count <= |dir.wire| && |dir.partial| + count <= Need(dir.partial)
    case Decode =>
      dir.readerRuns && dir.decoded == None && |dir.partial| == Need(dir.partial) && ReadOne(dir.partial).Got?
    case ReaderPanics => dir.readerRuns && dir.decoded == None && ReadOne(dir.partial).Panicked?
    case Push => dir.readerRuns && dir.decoded.Some? && |dir.incoming| < BUFFER
    case ReaderDrops => dir.readerRuns && dir.decoded.Some? && receiverClosed
    case ReadFails => dir.readerRuns && dir.decoded == None
    case Receive => |dir.incoming| > 0
  }

  function Do(dir: Direction, e: Event): Direction
    requires exists senderClosed, receiverClosed :: Can(dir, senderClosed, receiverClosed, e)
  {
    match e
    case Send(m) => dir.(outgoing := dir.outgoing + [m], enqueued := dir.enqueued + [m])
    case Take => dir.(writing := Some(dir.outgoing[0]), outgoing := dir.outgoing[1..])
    case Write =>
      var m := dir.writing.value;
      dir.(writing := None, wire := dir.wire + Frame(m), written := dir.written + [m])
    case WriteFails(sent) =>
      dir.(writing := None, wire := dir.wire + Frame(dir.writing.value)[..sent], broken := true)
    case WriterStops => dir.(writerRuns := false)
    case ReadBytes(count) => dir.(partial := dir.partial + dir.wire[..count], wire := dir.wire[count..])
    case Decode =>
      var m := ReadOne(dir.partial).m;
      dir.(partial := [], decoded := Some(m), parsed := dir.parsed + [m])
    case ReaderPanics => dir.(readerRuns := false)
    case Push =>
      var m := dir.decoded.value;
      dir.(decoded := None, incoming := dir.incoming + [m], delivered := dir.delivered + [m])
    case ReaderDrops => dir.(decoded := None, readerRuns := false)
    case ReadFails => dir.(readerRuns := false)
    case Receive => dir.(incoming := dir.incoming[1..], received := dir.received + [dir.incoming[0]])
  }

  predicate Enabled(s: State, step: Step)
    requires |s.dirs| == 2 && |s.closed| == 2
  {
    match step
    case On(d, e) => d < 2 && Can(s.dirs[d], s.closed[d], s.closed[1 - d], e)
    case Close(endpoint) => endpoint < 2
  }

  /** Closing an endpoint cancels its context and ends its sending side. */
  function CloseEndpoint(s: State, endpoint: nat): State
    requires |s.dirs| == 2 && |s.closed| == 2 && endpoint < 2
  {
    s.(dirs := s.dirs[endpoint := s.dirs[endpoint].(broken := true)], closed := s.closed[endpoint := true])
  }

  /** A loop that ends closes its endpoint on the way out. */
  function Apply(s: State, step: Step): (s': State)
    requires |s.dirs| == 2 && |s.closed| == 2 && Enabled(s, step)
    ensures |s'.dirs| == 2 && |s'.closed| == 2
  {
    match step
    case Close(endpoint) => CloseEndpoint(s, endpoint)
    case On(d, e) =>
      assert Can(s.dirs[d], s.closed[d], s.closed[1 - d], e);
      var s1 := s.(dirs := s.dirs[d := Do(s.dirs[d], e)]);
      match e
      case WriterStops => CloseEndpoint(s1, d)
      case ReaderPanics => CloseEndpoint(s1, 1 - d)
      case ReaderDrops => CloseEndpoint(s1, 1 - d)
      case ReadFails => CloseEndpoint(s1, 1 - d)
      case _ => s1
  }

  ghost predicate Run(states: seq<State>, steps: seq<Step>) {
    && |states| == |steps| + 1
    && states[0] == Start
    && (forall i :: 0 <= i < |states| ==> |states[i].dirs| == 2 && |states[i].closed| == 2)
    && (forall i :: 0 <= i < |steps| ==> Enabled(states[i], steps[i]) && states[i + 1] == Apply(states[i], steps[i]))
  }

  // ----- The invariant of one direction

  function Held(m: Option<StreamMessage>): seq<StreamMessage> {
    match m
    case Some(x) => [x]
    case None => []
  }

  /** Every byte ever put on the wire. */
  ghost function Sent(dir: Direction): Bytes {
    Frames(dir.parsed) + dir.partial + dir.wire
  }

  ghost predicate Inv(dir: Direction) {
    && AllFramable(dir.enqueued)
    && |dir.outgoing| <= BUFFER && |dir.incoming| <= BUFFER
    && dir.received + dir.incoming == dir.delivered
    && (if dir.readerRuns then dir.delivered + Held(dir.decoded) == dir.parsed else dir.delivered <= dir.parsed)
    && dir.parsed <= dir.enqueued
    && Sent(dir) <= Frames(dir.enqueued)
    && |dir.partial| <= Need(dir.partial)
    && (dir.decoded.Some? ==> dir.partial == [])
    && (!dir.broken ==>
         dir.enqueued == dir.written + Held(dir.writing) + dir.outgoing && Sent(dir) == Frames(dir.written))
  }

  lemma FramesPrefix(a: seq<StreamMessage>, b: seq<StreamMessage>)
    requires a <= b
    ensures Frames(a) <= Frames(b) && Frames(b) == Frames(a) + Frames(b[|a|..])
  {
    assert b == a + b[|a|..];
    FramesAppend(a, b[|a|..]);
  }

  lemma SendKeepsInv(dir: Direction, m: StreamMessage)
    requires Inv(dir) && |dir.outgoing| < BUFFER && Framable(m)
    ensures Inv(dir.(outgoing := dir.outgoing + [m], enqueued := dir.enqueued + [m]))
  {
    var dir' := dir.(outgoing := dir.outgoing + [m], enqueued := dir.enqueued + [m]);
    FramesPrefix(dir.enqueued, dir'.enqueued);
    var before := dir.written + Held(dir.writing);
    assert before + (dir.outgoing + [m]) == before + dir.outgoing + [m];
  }

  lemma TakeKeepsInv(dir: Direction)
    requires Inv(dir) && dir.writing == None && |dir.outgoing| > 0
    ensures Inv(dir.(writing := Some(dir.outgoing[0]), outgoing := dir.outgoing[1..]))
  {
    assert dir.written + [] + dir.outgoing == dir.written + [dir.outgoing[0]] + dir.outgoing[1..];
  }

  lemma FramesOfOne(m: StreamMessage)
    ensures Frames([m]) == Frame(m)
  {
    hide Frame;
    assert [m][1..] == [];
    assert Frame(m) + [] == Frame(m);
  }

  /** A whole or partial frame of the message being written is next in line of what was enqueued. */
  lemma WritingIsNext(dir: Direction, sent: nat)
    requires Inv(dir) && dir.writing.Some? && !dir.broken && sent <= |Frame(dir.writing.value)|
    ensures Frames(dir.written) + Frame(dir.writing.value)[..sent] <= Frames(dir.enqueued)
    ensures Frames(dir.written + [dir.writing.value]) == Frames(dir.written) + Frame(dir.writing.value)
  {
    hide Frame, Framable, Frames, Sent, Need;
    var m := dir.writing.value;
    FramesAppend(dir.written, [m]);
    FramesOfOne(m);
    assert dir.written + [m] <= dir.enqueued;
    FramesPrefix(dir.written + [m], dir.enqueued);
    assert Frame(m)[..sent] <= Frame(m);
  }

  lemma WriteKeepsInv(dir: Direction)
    requires Inv(dir) && dir.writing.Some? && !dir.broken
    ensures var m := dir.writing.value;
            Inv(dir.(writing := None, wire := dir.wire + Frame(m), written := dir.written + [m]))
  {
    hide Frame, Need;
    var m := dir.writing.value;
    WritingIsNext(dir, |Frame(m)|);
    assert Frame(m)[..|Frame(m)|] == Frame(m);
    assert Frames(dir.parsed) + dir.partial + (dir.wire + Frame(m)) == Sent(dir) + Frame(m);
    assert dir.written + [m] + [] + dir.outgoing == dir.written + [m] + dir.outgoing;
  }

  lemma WriteFailsKeepsInv(dir: Direction, sent: nat)
    requires Inv(dir) && dir.writing.Some? && sent <= if dir.broken then 0 else |Frame(dir.writing.value)|
    ensures Inv(dir.(writing := None, wire := dir.wire + Frame(dir.writing.value)[..sent], broken := true))
  {
    var piece := Frame(dir.writing.value)[..sent];
    assert Frames(dir.parsed) + dir.partial + (dir.wire + piece) == Sent(dir) + piece;
    if dir.broken {
      assert Sent(dir) + piece == Sent(dir);
    } else {
      WritingIsNext(dir, sent);
    }
  }

  lemma ReadBytesKeepsInv(dir: Direction, count: nat)
    requires Inv(dir) && dir.decoded == None
    requires 1 <= count <= |dir.wire| && |dir.partial| + count <= Need(dir.partial)
    ensures Inv(dir.(partial := dir.partial + dir.wire[..count], wire := dir.wire[count..]))
  {
    var partial' := dir.partial + dir.wire[..count];
    assert dir.wire == dir.wire[..count] + dir.wire[count..];
    assert Frames(dir.parsed) + partial' + dir.wire[count..] == Sent(dir);
    if |dir.partial| >= 4 {
      assert partial'[..4] == dir.partial[..4];
    }
  }

  lemma CutFront(a: Bytes, b: Bytes, c: Bytes)
    requires a + b <= a + c
    ensures b <= c
  {
    assert b == (a + b)[|a|..] && c == (a + c)[|a|..];
    forall i | 0 <= i < |b| ensures b[i] == c[i] {
      assert (a + b)[|a| + i] == (a + c)[|a| + i];
    }
  }

  /** What the read loop has of a frame is the start of the frames not parsed yet. */
  lemma PartialStartsTheNext(dir: Direction)
    requires Inv(dir)
    ensures dir.partial <= Frames(dir.enqueued[|dir.parsed|..])
  {
    hide Frame, Frames, Need, Framable;
    FramesPrefix(dir.parsed, dir.enqueued);
    assert Sent(dir) == Frames(dir.parsed) + (dir.partial + dir.wire);
    CutFront(Frames(dir.parsed), dir.partial + dir.wire, Frames(dir.enqueued[|dir.parsed|..]));
  }

  /** The bytes of a whole frame decode to the next message that was enqueued. */
  lemma DecodesTheNext(dir: Direction)
    requires Inv(dir) && dir.decoded == None && ReadOne(dir.partial).Got? && |dir.partial| == Need(dir.partial)
    ensures |dir.parsed| < |dir.enqueued|
    ensures ReadOne(dir.partial).m == dir.enqueued[|dir.parsed|]
    ensures dir.partial == Frame(dir.enqueued[|dir.parsed|])
  {
    var later := dir.enqueued[|dir.parsed|..];
    PartialStartsTheNext(dir);
    ReadPrefixOfFrames(dir.partial, later);
    assert ReadOne(dir.partial).rest == dir.partial[|Frame(later[0])|..];
    assert ReadOne(dir.partial).rest == [];
  }

  lemma DecodeKeepsInv(dir: Direction)
    requires Inv(dir) && dir.readerRuns && dir.decoded == None
    requires ReadOne(dir.partial).Got? && |dir.partial| == Need(dir.partial)
    ensures var m := ReadOne(dir.partial).m;
            Inv(dir.(partial := [], decoded := Some(m), parsed := dir.parsed + [m]))
  {
    hide Frame, ReadOne, Framable, Frames;
    var m := ReadOne(dir.partial).m;
    DecodesTheNext(dir);
    FramesOfOne(m);
    FramesAppend(dir.parsed, [m]);
    assert Frames(dir.parsed + [m]) + [] + dir.wire == Sent(dir);
    assert dir.delivered + [] == dir.delivered;
  }

  lemma PushKeepsInv(dir: Direction)
    requires Inv(dir) && dir.readerRuns && dir.decoded.Some? && |dir.incoming| < BUFFER
    ensures var m := dir.decoded.value;
            Inv(dir.(decoded := None, incoming := dir.incoming + [m], delivered := dir.delivered + [m]))
  {
    var m := dir.decoded.value;
    assert dir.received + (dir.incoming + [m]) == dir.received + dir.incoming + [m];
    assert dir.delivered + [m] + [] == dir.delivered + [m];
  }

  lemma ReaderEndKeepsInv(dir: Direction)
    requires Inv(dir)
    ensures Inv(dir.(decoded := None, readerRuns := false)) && Inv(dir.(readerRuns := false))
  {
  }

  lemma ReceiveKeepsInv(dir: Direction)
    requires Inv(dir) && |dir.incoming| > 0
    ensures Inv(dir.(incoming := dir.incoming[1..], received := dir.received + [dir.incoming[0]]))
  {
    assert dir.received + [dir.incoming[0]] + dir.incoming[1..] == dir.received + dir.incoming;
  }

  /** Frames that were enqueued are never empty, so the read loop never dies on one. */
  lemma ReaderNeverPanics(dir: Direction)
    requires Inv(dir) && dir.decoded == None
    ensures !ReadOne(dir.partial).Panicked?
  {
    var later := dir.enqueued[|dir.parsed|..];
    PartialStartsTheNext(dir);
    ReadPrefixOfFrames(dir.partial, later);
  }

  lemma EventKeepsInv(dir: Direction, senderClosed: bool, receiverClosed: bool, e: Event)
    requires Inv(dir) && Can(dir, senderClosed, receiverClosed, e)
    ensures Inv(Do(dir, e))
  {
    hide Inv;
    match e
    case Send(m) => SendKeepsInv(dir, m);
    case Take => TakeKeepsInv(dir);
    case Write => WriteKeepsInv(dir);
    case WriteFails(sent) => WriteFailsKeepsInv(dir, sent);
    case WriterStops => StopKeepsInv(dir);
    case ReadBytes(count) => ReadBytesKeepsInv(dir, count);
    case Decode => DecodeKeepsInv(dir);
    case ReaderPanics => ReaderEndKeepsInv(dir);
    case Push => PushKeepsInv(dir);
    case ReaderDrops => ReaderEndKeepsInv(dir);
    case ReadFails => ReaderEndKeepsInv(dir);
    case Receive => ReceiveKeepsInv(dir);
  }

  lemma StopKeepsInv(dir: Direction)
    requires Inv(dir)
    ensures Inv(dir.(writerRuns := false)) && Inv(dir.(broken := true))
    ensures Inv(dir.(writerRuns := false, broken := true))
  {
  }

  // ----- All runs

  ghost predicate Sound(s: State) {
    && |s.dirs| == 2 && |s.closed| == 2 && Inv(s.dirs[0]) && Inv(s.dirs[1])
    && Undisturbed(s, 0) && Undisturbed(s, 1)
  }

  /** Nothing but closing an endpoint stops a loop. */
  ghost predicate Undisturbed(s: State, d: nat)
    requires |s.dirs| == 2 && |s.closed| == 2 && d < 2
  {
    && (!s.closed[d] ==> s.dirs[d].writerRuns)
    && (!s.closed[1 - d] ==> s.dirs[d].readerRuns)
  }

  lemma CloseKeepsInv(s: State, endpoint: nat)
    requires |s.dirs| == 2 && |s.closed| == 2 && endpoint < 2 && Inv(s.dirs[0]) && Inv(s.dirs[1])
    ensures Inv(CloseEndpoint(s, endpoint).dirs[0]) && Inv(CloseEndpoint(s, endpoint).dirs[1])
  {
    StopKeepsInv(s.dirs[endpoint]);
  }

  lemma StepKeepsInv(s: State, step: Step)
    requires Sound(s) && Enabled(s, step)
    ensures Inv(Apply(s, step).dirs[0]) && Inv(Apply(s, step).dirs[1])
  {
    hide Inv, Do, Undisturbed, CloseEndpoint;
    match step
    case Close(endpoint) => CloseKeepsInv(s, endpoint);
    case On(d, e) =>
      EventKeepsInv(s.dirs[d], s.closed[d], s.closed[1 - d], e);
      var s1 := s.(dirs := s.dirs[d := Do(s.dirs[d], e)]);
      assert Inv(s1.dirs[0]) && Inv(s1.dirs[1]);
      CloseKeepsInv(s1, 0);
      CloseKeepsInv(s1, 1);
  }

  predicate EndsReader(e: Event) { e.ReaderPanics? || e.ReaderDrops? || e.ReadFails? }

  lemma LoopsAfter(dir: Direction, senderClosed: bool, receiverClosed: bool, e: Event)
    requires Can(dir, senderClosed, receiverClosed, e)
    ensures Do(dir, e).writerRuns == (dir.writerRuns && !e.WriterStops?)
    ensures Do(dir, e).readerRuns == (dir.readerRuns && !EndsReader(e))
  {
  }

  lemma StepKeepsUndisturbed(s: State, step: Step, x: nat)
    requires |s.dirs| == 2 && |s.closed| == 2 && Enabled(s, step) && x < 2 && Undisturbed(s, x)
    ensures Undisturbed(Apply(s, step), x)
  {
    hide Do, Can;
    if step.On? {
      LoopsAfter(s.dirs[step.d], s.closed[step.d], s.closed[1 - step.d], step.e);
    }
  }

  lemma StepKeepsSound(s: State, step: Step)
    requires Sound(s) && Enabled(s, step)
    ensures Sound(Apply(s, step))
  {
    hide Inv, Apply, Enabled, Undisturbed;
    StepKeepsInv(s, step);
    StepKeepsUndisturbed(s, step, 0);
    StepKeepsUndisturbed(s, step, 1);
  }

  lemma {:induction false} RunIsSound(states: seq<State>, steps: seq<Step>)
    requires Run(states, steps)
    ensures Sound(states[|steps|])
    decreases |steps|
  {
    hide Inv, Apply, Enabled;
    if |steps| == 0 {
      FreshIsSound();
    } else {
      var n := |steps| - 1;
      RunIsSound(states[..n + 1], steps[..n]);
      StepKeepsSound(states[n], steps[n]);
    }
  }

  lemma FreshIsSound()
    ensures Sound(Start)
  {
    assert Frames([]) == [];
  }

  /**
     In every reachable state and in both directions, what was put on the receiver's `Incoming` is
     a prefix, in order, of what was put on the sender's `Outgoing`, and so is what the application
     took; neither buffer ever holds more than 100 messages.
   */
  lemma DeliveryIsAPrefix(states: seq<State>, steps: seq<Step>, d: nat)
    requires Run(states, steps) && d < 2
    ensures var dir := states[|steps|].dirs[d];
            && dir.delivered <= dir.enqueued
            && dir.received <= dir.delivered
            && |dir.outgoing| <= 100 && |dir.incoming| <= 100
  {
    RunIsSound(states, steps);
    assert Inv(states[|steps|].dirs[d]);
  }

  /** Sending blocks exactly on 100 messages not yet taken, and so does the read loop at the other end. */
  lemma BlocksExactlyWhen(dir: Direction, senderClosed: bool, receiverClosed: bool, m: StreamMessage)
    ensures Can(dir, senderClosed, receiverClosed, Send(m)) <==> |dir.outgoing| < 100 && Framable(m)
    ensures Can(dir, senderClosed, receiverClosed, Push) <==>
              dir.readerRuns && dir.decoded.Some? && |dir.incoming| < 100
  {
  }

  // ----- After closing

  lemma BrokenSendsNoMore(dir: Direction, senderClosed: bool, receiverClosed: bool, e: Event)
    requires Inv(dir) && dir.broken && Can(dir, senderClosed, receiverClosed, e)
    ensures Do(dir, e).broken && Sent(Do(dir, e)) == Sent(dir)
  {
    hide Frame, Frames, ReadOne, Framable, Need;
    if e.WriteFails? {
      assert dir.wire + Frame(dir.writing.value)[..0] == dir.wire;
    } else if e.ReadBytes? {
      assert dir.wire == dir.wire[..e.count] + dir.wire[e.count..];
      assert Frames(dir.parsed) + (dir.partial + dir.wire[..e.count]) + dir.wire[e.count..] == Sent(dir);
    } else if e.Decode? {
      var m := ReadOne(dir.partial).m;
      DecodesTheNext(dir);
      FramesOfOne(m);
      FramesAppend(dir.parsed, [m]);
      assert Frames(dir.parsed + [m]) + [] + dir.wire == Sent(dir);
    }
  }

  ghost predicate ClosedIsBroken(s: State, d: nat)
    requires |s.dirs| == 2 && |s.closed| == 2 && d < 2
  {
    s.closed[d] ==> s.dirs[d].broken
  }

  /** A step changes a direction by its own event at most, except that closing its sender breaks it. */
  lemma StepOnDirection(s: State, step: Step, d: nat)
    requires |s.dirs| == 2 && |s.closed| == 2 && Enabled(s, step) && d < 2
    ensures var s' := Apply(s, step);
            var dir := if step.On? && step.d == d then Do(s.dirs[d], step.e) else s.dirs[d];
            && (s'.dirs[d] == dir || s'.dirs[d] == dir.(broken := true))
            && (s.closed[d] ==> s'.closed[d])
            && (s'.closed[d] ==> s.closed[d] || s'.dirs[d].broken)
  {
    hide Can, Do;
  }

  lemma StepAfterClosing(s: State, step: Step, d: nat)
    requires Sound(s) && Enabled(s, step) && d < 2 && ClosedIsBroken(s, d)
    ensures ClosedIsBroken(Apply(s, step), d)
    ensures s.closed[d] ==> Apply(s, step).closed[d] && Sent(Apply(s, step).dirs[d]) == Sent(s.dirs[d])
  {
    hide Can, Do, Inv, Apply, Frames;
    StepOnDirection(s, step, d);
    if step.On? && step.d == d && s.closed[d] {
      BrokenSendsNoMore(s.dirs[d], s.closed[d], s.closed[1 - d], step.e);
    }
  }

  lemma {:induction false} RunKeepsClosedBroken(states: seq<State>, steps: seq<Step>, d: nat)
    requires Run(states, steps) && d < 2
    ensures ClosedIsBroken(states[|steps|], d)
    decreases |steps|
  {
    hide Apply, Enabled, Sound;
    if |steps| > 0 {
      var n := |steps| - 1;
      RunKeepsClosedBroken(states[..n + 1], steps[..n], d);
      RunIsSound(states[..n + 1], steps[..n]);
      StepAfterClosing(states[n], steps[n], d);
    }
  }

  /** Closing takes effect at once, and from then on the endpoint puts no byte on the wire. */
  lemma {:induction false} ClosedSendsNoMore(states: seq<State>, steps: seq<Step>, i: nat, d: nat)
    requires Run(states, steps) && i < |steps| && d < 2 && (steps[i] == Close(d) || states[i].closed[d])
    ensures states[|steps|].closed[d]
    ensures Sent(states[|steps|].dirs[d]) == Sent(states[i].dirs[d])
    decreases |steps|
  {
    var n := |steps| - 1;
    var front, frontSteps := states[..n + 1], steps[..n];
    RunIsSound(front, frontSteps);
    RunKeepsClosedBroken(front, frontSteps, d);
    if i == n {
      if !states[i].closed[d] {
        hide Sound, Frames;
        assert Apply(states[i], Close(d)).dirs[d] == states[i].dirs[d].(broken := true);
      } else {
        StepAfterClosing(states[n], steps[n], d);
      }
    } else {
      ClosedSendsNoMore(front, frontSteps, i, d);
      StepAfterClosing(states[n], steps[n], d);
    }
  }

  // ----- Nothing is lost on a healthy stream

  /** What brings a message on its way: the loops at work, and the receiving application. */
  predicate Moves(e: Event) {
    e.Take? || e.Write? || e.ReadBytes? || e.Decode? || e.Push? || e.Receive?
  }

  /** Neither the loops of a direction nor the receiving application can do anything. */
  ghost predicate Quiescent(s: State, d: nat)
    requires |s.dirs| == 2 && |s.closed| == 2 && d < 2
  {
    forall e :: Moves(e) ==> !Can(s.dirs[d], s.closed[d], s.closed[1 - d], e)
  }

  /** A whole frame at the start of the wire is decodable once it was read. */
  lemma WholeFrameDecodes(dir: Direction)
    requires Inv(dir) && dir.decoded == None && |dir.partial| == Need(dir.partial)
    ensures ReadOne(dir.partial).Got?
  {
    ReaderNeverPanics(dir);
  }

  /** What a direction that is neither broken nor stopped can still do while anything is on its way. */
  lemma UndeliveredCanMove(dir: Direction, senderClosed: bool, receiverClosed: bool) returns (e: Event)
    requires Inv(dir) && !dir.broken && dir.writerRuns && dir.readerRuns
    requires dir.received != dir.enqueued
    ensures Can(dir, senderClosed, receiverClosed, e)
    ensures Moves(e)
  {
    if |dir.incoming| > 0 {
      e := Receive;
    } else if dir.decoded.Some? {
      e := Push;
    } else if |dir.partial| == Need(dir.partial) {
      WholeFrameDecodes(dir);
      e := Decode;
    } else if |dir.wire| > 0 {
      e := ReadBytes(1);
    } else if dir.writing.Some? {
      e := Write;
    } else {
      AllParsed(dir);
      e := Take;
    }
  }

  lemma FramesLeftAreFramable(dir: Direction)
    requires Inv(dir) && !dir.broken && dir.parsed <= dir.written
    ensures AllFramable(dir.written[|dir.parsed|..])
  {
    hide Sent, Need;
    assert dir.written <= dir.enqueued;
    forall i | 0 <= i < |dir.written| ensures Framable(dir.written[i]) {
      assert dir.written[i] == dir.enqueued[i];
    }
  }

  /** A partial frame that is all the frames left is none at all. */
  lemma NoFrameIsPartial(partial: Bytes, later: seq<StreamMessage>)
    requires AllFramable(later) && partial == Frames(later) && |partial| < Need(partial)
    ensures later == []
  {
    if |later| > 0 {
      FrameNeedsItsLength(later[0], Frames(later[1..]));
    }
  }

  /** With the wire empty and no whole frame read, everything written has been parsed. */
  lemma AllParsed(dir: Direction)
    requires Inv(dir) && !dir.broken && dir.decoded == None
    requires dir.wire == [] && |dir.partial| < Need(dir.partial)
    ensures dir.parsed == dir.written
  {
    hide Need, Frame;
    ParsedIsWritten(dir);
    var later := dir.written[|dir.parsed|..];
    FramesPrefix(dir.parsed, dir.written);
    assert Sent(dir) == Frames(dir.parsed) + dir.partial;
    CutFront(Frames(dir.parsed), dir.partial, Frames(later));
    assert dir.partial == Frames(later);
    FramesLeftAreFramable(dir);
    NoFrameIsPartial(dir.partial, later);
  }

  lemma FrameNeedsItsLength(m: StreamMessage, rest: Bytes)
    requires Framable(m)
    ensures Need(Frame(m) + rest) == |Frame(m)| <= |Frame(m) + rest|
  {
    hide FromBigEndian, ToBigEndian;
    var n := |m.payload| + 1;
    HeaderRoundTrip(n);
    assert Frame(m)[..4] == ToBigEndian(n, 4);
    assert (Frame(m) + rest)[..4] == Frame(m)[..4];
  }

  lemma LongerListMoreBytes(a: seq<StreamMessage>, b: seq<StreamMessage>)
    requires a < b
    ensures |Frames(a)| < |Frames(b)|
  {
    FramesPrefix(a, b);
    assert |Frames(b[|a|..])| >= |Frame(b[|a|])|;
  }

  lemma ParsedIsWritten(dir: Direction)
    requires Inv(dir) && !dir.broken
    ensures dir.parsed <= dir.written
  {
    assert dir.written <= dir.enqueued && dir.parsed <= dir.enqueued;
    assert |Sent(dir)| >= |Frames(dir.parsed)|;
    if |dir.written| < |dir.parsed| {
      LongerListMoreBytes(dir.written, dir.parsed);
    }
  }

  /**
     If no endpoint was closed, no write failed, and nothing can move any more, then everything
     put on `Outgoing` came out of the far side's `Incoming`, in order.
   */
  lemma QuiescentMeansDelivered(states: seq<State>, steps: seq<Step>, d: nat)
    requires Run(states, steps) && d < 2
    requires !states[|steps|].closed[0] && !states[|steps|].closed[1] && !states[|steps|].dirs[d].broken
    requires Quiescent(states[|steps|], d)
    ensures states[|steps|].dirs[d].received == states[|steps|].dirs[d].delivered == states[|steps|].dirs[d].enqueued
  {
    var s := states[|steps|];
    RunIsSound(states, steps);
    assert Undisturbed(s, d) && Inv(s.dirs[d]);
    if s.dirs[d].received != s.dirs[d].enqueued {
      var e := UndeliveredCanMove(s.dirs[d], s.closed[d], s.closed[1 - d]);
      assert false;
    }
  }
}
