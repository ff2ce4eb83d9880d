/** A stream that nothing closes or breaks delivers everything, after a bounded number of moves. */
module StreamProgress {
  import opened Bytes
  import opened Framing
  import opened StreamPipe

  // ----- Every move brings something nearer to its receiver

  function Queued(ms: seq<StreamMessage>): nat {
    if |ms| == 0 then 0 else 3 * |Frame(ms[0])| + 2 + Queued(ms[1..])
  }

  /** A byte counts three times before it is written and on the wire, twice when it was read. */
  function Measure(dir: Direction): nat {
    Queued(dir.outgoing) + (if dir.writing.Some? then 3 * |Frame(dir.writing.value)| + 1 else 0)
    + 3 * |dir.wire| + 2 * |dir.partial| + (if dir.decoded.Some? then 2 else 0) + |dir.incoming|
  }

  lemma MoveLowersMeasure(dir: Direction, senderClosed: bool, receiverClosed: bool, e: Event)
    requires Can(dir, senderClosed, receiverClosed, e) && Moves(e)
    ensures Measure(Do(dir, e)) < Measure(dir)
  {
    hide Frame, ReadOne;
  }

  lemma MoveLeavesTheRest(dir: Direction, senderClosed: bool, receiverClosed: bool, e: Event)
    requires Can(dir, senderClosed, receiverClosed, e) && Moves(e)
    ensures Do(dir, e).enqueued == dir.enqueued && Do(dir, e).broken == dir.broken
  {
  }

  // ----- Runs

  /** No endpoint is closed and no write of the direction failed. */
  predicate Healthy(s: State, d: nat)
    requires |s.dirs| == 2 && d < 2
  {
    s.closed == [false, false] && !s.dirs[d].broken
  }

  lemma ExtendRun(states: seq<State>, steps: seq<Step>, step: Step)
    requires Run(states, steps) && Enabled(states[|steps|], step)
    ensures Run(states + [Apply(states[|steps|], step)], steps + [step])
  {
    hide Enabled, Apply;
  }

  /** What one move of a direction does to the whole state. */
  lemma MoveStep(s: State, d: nat, e: Event)
    requires |s.dirs| == 2 && |s.closed| == 2 && d < 2 && Healthy(s, d)
    requires Can(s.dirs[d], s.closed[d], s.closed[1 - d], e) && Moves(e)
    ensures var s' := Apply(s, On(d, e));
            && Healthy(s', d) && s'.dirs[1 - d] == s.dirs[1 - d]
            && s'.dirs[d].enqueued == s.dirs[d].enqueued
            && Measure(s'.dirs[d]) < Measure(s.dirs[d])
  {
    MoveLowersMeasure(s.dirs[d], s.closed[d], s.closed[1 - d], e);
    MoveLeavesTheRest(s.dirs[d], s.closed[d], s.closed[1 - d], e);
    hide Can, Do, Measure;
  }

  /** From any reachable state of a healthy direction, moves of it alone deliver all that was sent. */
  lemma {:induction false} DirectionDelivers(states: seq<State>, steps: seq<Step>, d: nat)
    returns (states': seq<State>, steps': seq<Step>)
    requires Run(states, steps) && d < 2 && Healthy(states[|steps|], d)
    ensures Run(states', steps') && steps <= steps' && |steps'| - |steps| <= Measure(states[|steps|].dirs[d])
    ensures var s, s' := states[|steps|], states'[|steps'|];
            && Healthy(s', d) && s'.dirs[1 - d] == s.dirs[1 - d]
            && s'.dirs[d].enqueued == s.dirs[d].enqueued
            && s'.dirs[d].received == s.dirs[d].enqueued
    decreases Measure(states[|steps|].dirs[d])
  {
    hide Can, Do, Inv, Measure, Apply;
    var s := states[|steps|];
    RunIsSound(states, steps);
    if s.dirs[d].received == s.dirs[d].enqueued {
      return states, steps;
    }
    var e := UndeliveredCanMove(s.dirs[d], s.closed[d], s.closed[1 - d]);
    MoveStep(s, d, e);
    ExtendRun(states, steps, On(d, e));
    var next := states + [Apply(s, On(d, e))];
    assert next[|steps + [On(d, e)]|] == Apply(s, On(d, e));
    states', steps' := DirectionDelivers(next, steps + [On(d, e)], d);
  }

  /**
     Any run in which no endpoint was closed and no write failed goes on to one in which each
     application has received, in order, exactly what the other had sent.
   */
  lemma HealthyStreamDelivers(states: seq<State>, steps: seq<Step>)
    returns (states': seq<State>, steps': seq<Step>)
    requires Run(states, steps) && Healthy(states[|steps|], 0) && Healthy(states[|steps|], 1)
    ensures Run(states', steps') && steps <= steps'
    ensures forall d :: 0 <= d < 2 ==>
              states'[|steps'|].dirs[d].received == states[|steps|].dirs[d].enqueued
  {
    hide Measure;
    states', steps' := DirectionDelivers(states, steps, 0);
    var middle := states'[|steps'|];
    assert Healthy(middle, 1);
    states', steps' := DirectionDelivers(states', steps', 1);
  }

  // ----- Closing ends the loops

  lemma StopWriter(s: State, e: nat) returns (steps: seq<Step>)
    requires |s.dirs| == 2 && |s.closed| == 2 && e < 2 && s.closed[e] && s.dirs[e].writerRuns
    ensures 1 <= |steps| <= 2 && Enabled(s, steps[0])
    ensures |steps| == 2 ==> Enabled(Apply(s, steps[0]), steps[1])
    ensures var s' := if |steps| == 1 then Apply(s, steps[0]) else Apply(Apply(s, steps[0]), steps[1]);
            !s'.dirs[e].writerRuns && s'.closed[e] && s'.dirs[1 - e].readerRuns == s.dirs[1 - e].readerRuns
  {
    hide Frame;
    if s.dirs[e].writing == None {
      return [On(e, WriterStops)];
    }
    return [On(e, WriteFails(0)), On(e, WriterStops)];
  }

  /** The read loop of a closed endpoint can stop whatever it is doing. */
  lemma StopReader(s: State, e: nat) returns (step: Step)
    requires |s.dirs| == 2 && |s.closed| == 2 && e < 2 && s.closed[e] && s.dirs[1 - e].readerRuns
    ensures Enabled(s, step)
    ensures var s' := Apply(s, step);
            !s'.dirs[1 - e].readerRuns && s'.closed[e] && s'.dirs[e].writerRuns == s.dirs[e].writerRuns
  {
    step := On(1 - e, if s.dirs[1 - e].decoded.Some? then ReaderDrops else ReadFails);
  }

  /** From any reachable state in which an endpoint is closed, three steps at most end both of its loops. */
  lemma ClosedLoopsEnd(states: seq<State>, steps: seq<Step>, e: nat) returns (states': seq<State>, steps': seq<Step>)
    requires Run(states, steps) && e < 2 && states[|steps|].closed[e]
    ensures Run(states', steps') && steps <= steps' && |steps'| <= |steps| + 3
    ensures !states'[|steps'|].dirs[e].writerRuns && !states'[|steps'|].dirs[1 - e].readerRuns
  {
    hide Apply, Enabled;
    states', steps' := states, steps;
    var s := states[|steps|];
    if s.dirs[e].writerRuns {
      var stops := StopWriter(s, e);
      ExtendRun(states', steps', stops[0]);
      states', steps' := states' + [Apply(s, stops[0])], steps' + [stops[0]];
      if |stops| == 2 {
        var s1 := states'[|steps'|];
        ExtendRun(states', steps', stops[1]);
        states', steps' := states' + [Apply(s1, stops[1])], steps' + [stops[1]];
      }
    }
    var t := states'[|steps'|];
    if t.dirs[1 - e].readerRuns {
      var stop := StopReader(t, e);
      ExtendRun(states', steps', stop);
      states', steps' := states' + [Apply(t, stop)], steps' + [stop];
    }
  }
}
