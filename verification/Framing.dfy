/** Length-prefixed frames: four bytes of length, one byte of message type, then the payload. */
module Framing {
  import opened Bytes

  const TYPE_HANDSHAKE: int := 1
  const TYPE_READY: int := 2

  datatype StreamMessage = StreamMessage(kind: int, payload: Bytes)

  // ----- What is written

  /** The length field holds 32 bits, so a longer length is cut down to its low 32 bits. */
  function LengthPrefixed(data: Bytes): Bytes {
    ToBigEndian(|data| % TWO_32, 4) + data
  }

  /** The type field holds one byte, so a larger type is cut down to its low 8 bits. */
  function Frame(m: StreamMessage): (f: Bytes)
    ensures |f| == 5 + |m.payload|
  {
    LengthPrefixed([m.kind % 256] + m.payload)
  }

  function Frames(ms: seq<StreamMessage>): Bytes {
    if |ms| == 0 then [] else Frame(ms[0]) + Frames(ms[1..])
  }

  // ----- What is read

  /** `Panicked` is what indexing the type byte of an empty frame does. Nothing recovers it: the process ends. */
  datatype FrameRead = Got(m: StreamMessage, rest: Bytes) | EndOfStream | Panicked

  datatype PrefixRead = Payload(data: Bytes, rest: Bytes) | TooShort

  function ReadPrefixed(b: Bytes): (r: PrefixRead)
    ensures r.Payload? ==> |r.rest| <= |b| - 4
  {
    if |b| < 4 then TooShort
    else
      var n := FromBigEndian(b[..4]);
      if |b| < 4 + n then TooShort else Payload(b[4..4 + n], b[4 + n..])
  }

  function ReadOne(b: Bytes): (r: FrameRead)
    ensures r.Got? ==> |r.rest| < |b|
  {
    match ReadPrefixed(b)
    case TooShort => EndOfStream
    case Payload(data, rest) =>
      if |data| == 0 then Panicked else Got(StreamMessage(data[0], data[1..]), rest)
  }

  /** All messages a reader gets before the stream ends. */
  function ReadAll(b: Bytes): seq<StreamMessage>
    decreases |b|
  {
    match ReadOne(b)
    case Got(m, rest) => [m] + ReadAll(rest)
    case _ => []
  }

  /** What is left of a stream where the next read gives no message. */
  function Leftover(b: Bytes): Bytes
    decreases |b|
  {
    match ReadOne(b)
    case Got(_, rest) => Leftover(rest)
    case _ => b
  }

  lemma ReadAllStep(b: Bytes)
    ensures match ReadOne(b)
            case Got(m, rest) => ReadAll(b) == [m] + ReadAll(rest) && Leftover(b) == Leftover(rest)
            case _ => ReadAll(b) == [] && Leftover(b) == b
  {
  }

  /** A read ends the process exactly when a frame header of four zero bytes is next, whatever follows it. */
  lemma PanicsExactlyWhen(b: Bytes)
    ensures ReadOne(b).Panicked? <==> [0, 0, 0, 0] <= b
  {
    hide FromBigEndian;
    if |b| >= 4 {
      ZeroHeader(b[..4]);
      assert b[..4] == [b[0], b[1], b[2], b[3]];
    }
  }

  lemma ZeroHeader(h: Bytes)
    requires |h| == 4
    ensures FromBigEndian(h) == 0 <==> h == [0, 0, 0, 0]
  {
    ToFromBigEndian(h);
    HeaderBytes(0);
    FromToBigEndian(0, 4);
  }

  lemma HeaderBytes(n: nat)
    ensures ToBigEndian(n, 4) == [n / 256 / 256 / 256 % 256, n / 256 / 256 % 256, n / 256 % 256, n % 256]
  {
    var a := n / 256;
    var b := a / 256;
    var c := b / 256;
    assert ToBigEndian(c, 1) == [c % 256];
    assert ToBigEndian(b, 2) == [c % 256, b % 256];
    assert ToBigEndian(a, 3) == [c % 256, b % 256, a % 256];
  }

  // ----- Round trip

  /** The messages the format can carry. */
  predicate Framable(m: StreamMessage) {
    0 <= m.kind < 256 && |m.payload| + 1 < TWO_32
  }

  predicate AllFramable(ms: seq<StreamMessage>) {
    forall i :: 0 <= i < |ms| ==> Framable(ms[i])
  }

  lemma HeaderRoundTrip(n: nat)
    requires n < TWO_32
    ensures FromBigEndian(ToBigEndian(n, 4)) == n
  {
    Pow256Values();
    FromToBigEndian(n, 4);
  }

  lemma ReadPrefixedBack(data: Bytes, rest: Bytes)
    requires |data| < TWO_32
    ensures ReadPrefixed(LengthPrefixed(data) + rest) == Payload(data, rest)
  {
    hide FromBigEndian, ToBigEndian;
    var b := LengthPrefixed(data) + rest;
    HeaderRoundTrip(|data|);
    assert b[..4] == ToBigEndian(|data|, 4);
    assert b[4..4 + |data|] == data;
    assert b[4 + |data|..] == rest;
  }

  lemma FrameRoundTrip(m: StreamMessage, rest: Bytes)
    requires Framable(m)
    ensures ReadOne(Frame(m) + rest) == Got(m, rest)
  {
    ReadPrefixedBack([m.kind % 256] + m.payload, rest);
    assert ([m.kind] + m.payload)[1..] == m.payload;
  }

  /** Reading back a single frame gives its message exactly when the format can carry the message. */
  lemma FrameRoundTripExactly(m: StreamMessage)
    ensures ReadOne(Frame(m)) == Got(m, []) <==> Framable(m)
  {
    var data := [m.kind % 256] + m.payload;
    if Framable(m) {
      FrameRoundTrip(m, []);
      assert Frame(m) + [] == Frame(m);
    } else if |data| >= TWO_32 {
      var n := |data| % TWO_32;
      HeaderRoundTrip(n);
      assert Frame(m)[..4] == ToBigEndian(n, 4);
      assert |Frame(m)[4..4 + n]| == n < |data|;
    } else {
      ReadPrefixedBack(data, []);
      assert Frame(m) + [] == Frame(m);
      assert data[0] != m.kind;
    }
  }

  /** Reading the start of a stream of frames gives its first message, or nothing if that is cut short. */
  lemma ReadPrefixOfFrames(b: Bytes, ms: seq<StreamMessage>)
    requires AllFramable(ms) && b <= Frames(ms)
    ensures if |ms| > 0 && |Frame(ms[0])| <= |b|
            then ReadOne(b) == Got(ms[0], b[|Frame(ms[0])|..]) && Frame(ms[0]) <= b
                 && b[|Frame(ms[0])|..] <= Frames(ms[1..])
            else ReadOne(b) == EndOfStream
  {
    if |ms| > 0 {
      var f := Frame(ms[0]);
      if |f| <= |b| {
        var rest := b[|f|..];
        assert b == f + rest;
        FrameRoundTrip(ms[0], rest);
      } else {
        assert b <= f;
        CutFrameIsTooShort(ms[0], b);
      }
    }
  }

  lemma CutFrameIsTooShort(m: StreamMessage, b: Bytes)
    requires Framable(m) && b <= Frame(m) && |b| < |Frame(m)|
    ensures ReadOne(b) == EndOfStream
  {
    hide FromBigEndian, ToBigEndian;
    if |b| >= 4 {
      var n := |m.payload| + 1;
      HeaderRoundTrip(n);
      assert Frame(m)[..4] == ToBigEndian(n, 4);
      assert b[..4] == Frame(m)[..4];
    }
  }

  /** The length and the type byte in front of a payload. */
  function FrameHead(m: StreamMessage): (h: Bytes)
    ensures |h| == 5
  {
    ToBigEndian((1 + |m.payload|) % TWO_32, 4) + [m.kind % 256]
  }

  /** Four bytes of length, most significant first, then the low byte of the type, then the payload. */
  lemma FrameLayout(m: StreamMessage)
    ensures var n := 1 + |m.payload|;
            Frame(m) == [n / 0x100_0000 % 256, n / 0x1_0000 % 256, n / 256 % 256, n % 256, m.kind % 256] + m.payload
  {
    var n := 1 + |m.payload|;
    HeaderBytes(n % TWO_32);
    LowBytes(n);
    hide ToBigEndian;
  }

  lemma LowBytes(n: nat)
    ensures var r := n % TWO_32;
            && r % 256 == n % 256 && r / 256 % 256 == n / 256 % 256
            && r / 256 / 256 % 256 == n / 0x1_0000 % 256 && r / 256 / 256 / 256 % 256 == n / 0x100_0000 % 256
  {
    var q, r := n / TWO_32, n % TWO_32;
    DropLowByte(q, r, 0x100_0000);
    DropLowByte(q, r / 256, 0x1_0000);
    DropLowByte(q, r / 256 / 256, 256);
    DropLowByte(q, r / 256 / 256 / 256, 1);
    DivTwice(n);
  }

  /** Dropping the low byte of a number drops it from the part below some power of 256. */
  lemma DropLowByte(q: nat, r: nat, e: nat)
    ensures (256 * (q * e) + r) / 256 == q * e + r / 256 && (256 * (q * e) + r) % 256 == r % 256
  {
  }

  lemma DivTwice(n: nat)
    ensures n / 256 / 256 == n / 0x1_0000 && n / 256 / 256 / 256 == n / 0x100_0000
  {
  }

  lemma FrameShape(m: StreamMessage)
    ensures Frame(m) == FrameHead(m) + m.payload
  {
    hide ToBigEndian;
  }

  lemma SameHead(m: StreamMessage, n: StreamMessage)
    requires m.kind == n.kind && |m.payload| == |n.payload|
    ensures FrameHead(m) == FrameHead(n)
  {
  }

  lemma SpliceAfter(head: Bytes, payload: Bytes, sent: nat, next: Bytes, borrowed: nat)
    requires sent <= |payload| && borrowed <= |next|
    ensures (head + payload)[..|head| + sent] + next == head + (payload[..sent] + next[..borrowed]) + next[borrowed..]
  {
    assert next == next[..borrowed] + next[borrowed..];
    assert (head + payload)[..|head| + sent] == head + payload[..sent];
  }

  /**
     A frame whose write stopped inside the payload, with other bytes behind it, reads as a message
     that borrows its tail from them: it is the message sent only if the bytes happen to agree.
   */
  lemma TornFrameIsSpliced(m: StreamMessage, sent: nat, next: Bytes)
    requires Framable(m) && sent < |m.payload| <= sent + |next|
    ensures var borrowed, r := |m.payload| - sent, ReadOne(Frame(m)[..5 + sent] + next);
            && r == Got(StreamMessage(m.kind, m.payload[..sent] + next[..borrowed]), next[borrowed..])
            && (r.m == m <==> next[..borrowed] == m.payload[sent..])
  {
    var borrowed := |m.payload| - sent;
    var spliced := StreamMessage(m.kind, m.payload[..sent] + next[..borrowed]);
    hide Frame, ReadOne, FrameHead;
    FrameRoundTrip(spliced, next[borrowed..]);
    FrameShape(m);
    FrameShape(spliced);
    SameHead(m, spliced);
    SpliceAfter(FrameHead(m), m.payload, sent, next, borrowed);
    assert m.payload == m.payload[..sent] + m.payload[sent..];
    CutFronts(m.payload[..sent], next[..borrowed], m.payload[sent..]);
  }

  lemma CutFronts(a: Bytes, b: Bytes, c: Bytes)
    ensures a + b == a + c <==> b == c
  {
    assert (a + b)[|a|..] == b && (a + c)[|a|..] == c;
  }

  lemma Associative(x: Bytes, y: Bytes, z: Bytes)
    ensures x + (y + z) == x + y + z
  {
  }

  lemma FramesOfTail(m: StreamMessage, ms: seq<StreamMessage>)
    ensures Frames([m] + ms) == Frame(m) + Frames(ms)
  {
    hide Frame;
    assert ([m] + ms)[1..] == ms;
  }

  /** How many whole frames lie within the first `n` bytes of a stream. */
  function Complete(ms: seq<StreamMessage>, n: nat): (k: nat)
    ensures k <= |ms|
  {
    if |ms| == 0 || n < |Frame(ms[0])| then 0 else 1 + Complete(ms[1..], n - |Frame(ms[0])|)
  }

  /**
     A stream cut anywhere yields exactly its complete messages, in order, and never a wrong one.
     The bytes after those are no frame: the next read reports an error and the reader survives it.
   */
  lemma {:induction false} CutStreamYieldsCompleteFrames(b: Bytes, ms: seq<StreamMessage>)
    requires AllFramable(ms) && b <= Frames(ms)
    ensures ReadAll(b) == ms[..Complete(ms, |b|)]
    ensures b == Frames(ms[..Complete(ms, |b|)]) + Leftover(b)
    ensures ReadOne(Leftover(b)) == EndOfStream
    decreases |ms|
  {
    hide Frame;
    ReadPrefixOfFrames(b, ms);
    if |ms| > 0 && |Frame(ms[0])| <= |b| {
      var rest, k := b[|Frame(ms[0])|..], Complete(ms, |b|);
      CutStreamYieldsCompleteFrames(rest, ms[1..]);
      assert ms[..k] == [ms[0]] + ms[1..][..k - 1];
      FramesOfTail(ms[0], ms[1..][..k - 1]);
      Associative(Frame(ms[0]), Frames(ms[1..][..k - 1]), Leftover(rest));
    } else {
      assert Frames(ms[..0]) == [];
    }
  }

  lemma CutStreamsEndInFailure(b: Bytes)
    ensures forall ms :: AllFramable(ms) && b <= Frames(ms) ==>
              ReadAll(b) == ms[..Complete(ms, |b|)] && ReadOne(Leftover(b)) == EndOfStream
  {
    hide *;
    forall ms | AllFramable(ms) && b <= Frames(ms)
      ensures ReadAll(b) == ms[..Complete(ms, |b|)] && ReadOne(Leftover(b)) == EndOfStream
    {
      CutStreamYieldsCompleteFrames(b, ms);
    }
  }

  /** So four zero bytes behind any frames end the process of whoever reads the stream, after those messages. */
  lemma {:induction false} EmptyFrameEndsTheReader(ms: seq<StreamMessage>, rest: Bytes)
    requires AllFramable(ms)
    ensures var b := Frames(ms) + ([0, 0, 0, 0] + rest);
            ReadAll(b) == ms && Leftover(b) == [0, 0, 0, 0] + rest && ReadOne(Leftover(b)) == Panicked
    decreases |ms|
  {
    hide Frame, ReadOne;
    var zeros := [0, 0, 0, 0] + rest;
    var b := Frames(ms) + zeros;
    if |ms| == 0 {
      assert b == zeros;
      PanicsExactlyWhen(zeros);
    } else {
      EmptyFrameEndsTheReader(ms[1..], rest);
      Associative(Frame(ms[0]), Frames(ms[1..]), zeros);
      FrameRoundTrip(ms[0], Frames(ms[1..]) + zeros);
    }
  }

  lemma {:induction false} WholeStreamIsComplete(ms: seq<StreamMessage>)
    ensures Complete(ms, |Frames(ms)|) == |ms|
  {
    if |ms| > 0 {
      WholeStreamIsComplete(ms[1..]);
    }
  }

  /** Reading a whole stream of frames gives back exactly the messages, uses up every byte, then reports an error. */
  lemma StreamRoundTrip(ms: seq<StreamMessage>)
    requires AllFramable(ms)
    ensures ReadAll(Frames(ms)) == ms
    ensures Leftover(Frames(ms)) == [] && ReadOne(Leftover(Frames(ms))) == EndOfStream
  {
    CutStreamYieldsCompleteFrames(Frames(ms), ms);
    WholeStreamIsComplete(ms);
    assert ms[..|ms|] == ms;
    assert |Frames(ms)| == |Frames(ms)| + |Leftover(Frames(ms))|;
  }

  lemma {:induction false} FramesAppend(a: seq<StreamMessage>, b: seq<StreamMessage>)
    ensures Frames(a + b) == Frames(a) + Frames(b)
  {
    hide Frame;
    if |a| == 0 {
      assert a + b == b;
    } else {
      var m, tail := a[0], a[1..];
      assert a == [m] + tail && a + b == [m] + (tail + b);
      FramesAppend(tail, b);
      FramesOfTail(m, tail);
      FramesOfTail(m, tail + b);
      hide Frames;
      Associative(Frame(m), Frames(tail), Frames(b));
    }
  }

  // ----- The reader and the writer

  /** `rest` is what the stream still delivers before it ends. */
  class Reader {
    var rest: Bytes

    constructor (rest: Bytes)
      ensures this.rest == rest
    {
      this.rest := rest;
    }

    /** Delivers between one and `max` bytes, as the transport pleases, or none at the end. */
    method Read(max: nat) returns (chunk: Bytes)
      requires max > 0
      modifies this
      ensures |chunk| <= max && old(rest) == chunk + rest
      ensures chunk == [] ==> old(rest) == []
    {
      var n := if |rest| < max then |rest| else max;
      if n > 0 {
        var k :| 1 <= k <= n;
        n := k;
      }
      chunk := rest[..n];
      rest := rest[n..];
    }

    /** Fills a buffer of `n` bytes, or fails having used up the stream; how reads are split does not matter. */
    method ReadFull(n: nat) returns (data: Option<Bytes>)
      modifies this
      ensures if |old(rest)| < n then data == None && rest == []
              else data == Some(old(rest)[..n]) && rest == old(rest)[n..]
    {
      var buf: Bytes := [];
      while |buf| < n
        invariant |buf| <= n && old(rest) == buf + rest
        decreases n - |buf|
      {
        var chunk := Read(n - |buf|);
        if chunk == [] {
          return None;
        }
        buf := buf + chunk;
      }
      data := Some(buf);
    }
  }

  /** `failures` counts the writes the transport reported as failed. */
  class Writer {
    var written: Bytes
    var failures: nat

    constructor ()
      ensures written == [] && failures == 0
    {
      written := [];
      failures := 0;
    }

    /** A failed write may have put a part of the data on the wire. */
    method Write(data: Bytes) returns (ok: bool)
      modifies this
      ensures failures == old(failures) + if ok then 0 else 1
      ensures ok ==> written == old(written) + data
      ensures !ok ==> exists k :: 0 <= k <= |data| && written == old(written) + data[..k]
    {
      if * {
        written := written + data;
        ok := true;
      } else {
        var k :| 0 <= k <= |data|;
        written := written + data[..k];
        failures := failures + 1;
        ok := false;
      }
    }
  }

  // ----- The operations

  method WriteLengthPrefix(w: Writer, data: Bytes) returns (ok: bool)
    modifies w
    ensures w.failures == old(w.failures) + if ok then 0 else 1
    ensures ok ==> w.written == old(w.written) + LengthPrefixed(data)
    ensures !ok ==>
      exists k :: 0 <= k <= 4 + |data| && w.written == old(w.written) + LengthPrefixed(data)[..k]
  {
    var buf := new byte[4 + |data|];
    var n := |data| % TWO_32;
    buf[3] := n % 256;
    buf[2] := n / 256 % 256;
    buf[1] := n / 256 / 256 % 256;
    buf[0] := n / 256 / 256 / 256 % 256;
    HeaderBytes(n);
    assert buf[..4] == ToBigEndian(n, 4);
    for i := 0 to |data|
      invariant w.written == old(w.written) && w.failures == old(w.failures)
      invariant buf[..4] == ToBigEndian(n, 4)
      invariant buf[4..4 + i] == data[..i]
    {
      buf[4 + i] := data[i];
      assert buf[4..4 + i + 1] == buf[4..4 + i] + [data[i]];
    }
    assert buf[..] == LengthPrefixed(data);
    ok := w.Write(buf[..]);
  }

  method WriteFrame(w: Writer, kind: int, data: Bytes) returns (ok: bool)
    modifies w
    ensures w.failures == old(w.failures) + if ok then 0 else 1
    ensures ok ==> w.written == old(w.written) + Frame(StreamMessage(kind, data))
    ensures !ok ==>
      exists k :: 0 <= k <= 5 + |data| && w.written == old(w.written) + Frame(StreamMessage(kind, data))[..k]
  {
    var payload := new byte[1 + |data|];
    for i := 0 to |data|
      invariant w.written == old(w.written) && w.failures == old(w.failures)
      invariant payload[1..1 + i] == data[..i]
    {
      payload[1 + i] := data[i];
      assert payload[1..1 + i + 1] == payload[1..1 + i] + [data[i]];
    }
    payload[0] := kind % 256;
    assert payload[..] == [kind % 256] + data;
    ok := WriteLengthPrefix(w, payload[..]);
    ghost var frame := Frame(StreamMessage(kind, data));
    assert frame == LengthPrefixed([kind % 256] + data);
    if !ok {
      ghost var k :| 0 <= k <= |frame| && w.written == old(w.written) + frame[..k];
    }
  }

  method ReadLengthPrefix(r: Reader) returns (payload: Option<Bytes>)
    modifies r
    ensures match ReadPrefixed(old(r.rest))
            case TooShort => payload == None && r.rest == []
            case Payload(data, rest) => payload == Some(data) && r.rest == rest
  {
    var header := r.ReadFull(4);
    if header == None {
      return None;
    }
    var length := FromBigEndian(header.value);
    payload := r.ReadFull(length);
    if payload.Some? {
      assert old(r.rest)[4..][..length] == old(r.rest)[4..4 + length];
      assert old(r.rest)[4..][length..] == old(r.rest)[4 + length..];
    }
  }

  /** What a reader is told: a message, an error, or nothing because the process died of a panic. */
  datatype FrameOutcome = Message(m: StreamMessage) | Failed | Died

  method ReadFrame(r: Reader) returns (outcome: FrameOutcome)
    modifies r
    ensures match ReadOne(old(r.rest))
            case Got(m, rest) => outcome == Message(m) && r.rest == rest
            case EndOfStream => outcome == Failed && r.rest == []
            case Panicked => outcome == Died
    ensures outcome == Died <==> [0, 0, 0, 0] <= old(r.rest)
  {
    PanicsExactlyWhen(r.rest);
    var data := ReadLengthPrefix(r);
    if data == None {
      return Failed;
    }
    if |data.value| == 0 {
      return Died;
    }
    return Message(StreamMessage(data.value[0], data.value[1..]));
  }

  /**
     Reads frames until one is not a message. On any front of a stream of frames that gives the
     complete messages, then an error with every byte used up. The process dies exactly when four
     zero bytes follow the complete messages.
   */
  method ReadFrames(r: Reader) returns (ms: seq<StreamMessage>, last: FrameOutcome)
    modifies r
    ensures ms == ReadAll(old(r.rest))
    ensures match ReadOne(Leftover(old(r.rest)))
            case EndOfStream => last == Failed && r.rest == []
            case _ => last == Died
    ensures last == Died <==> [0, 0, 0, 0] <= Leftover(old(r.rest))
    ensures forall sent :: AllFramable(sent) && old(r.rest) <= Frames(sent) ==>
      ms == sent[..Complete(sent, |old(r.rest)|)] && last == Failed && r.rest == []
  {
    hide *;
    ghost var input := r.rest;
    ms := [];
    last := ReadFrame(r);
    ReadAllStep(input);
    while last.Message?
      invariant match last
                case Message(m) => ReadAll(input) == ms + ([m] + ReadAll(r.rest)) && Leftover(input) == Leftover(r.rest)
                case Failed => ReadAll(input) == ms && ReadOne(Leftover(input)) == EndOfStream && r.rest == []
                case Died => ReadAll(input) == ms && ReadOne(Leftover(input)) == Panicked
      decreases last.Message?, |r.rest|
    {
      ms := ms + [last.m];
      ReadAllStep(r.rest);
      last := ReadFrame(r);
    }
    PanicsExactlyWhen(Leftover(input));
    CutStreamsEndInFailure(input);
  }

  method SendReadyFrame(w: Writer) returns (ok: bool)
    modifies w
    ensures w.failures == old(w.failures) + if ok then 0 else 1
    ensures ok ==> w.written == old(w.written) + [2]
  {
    ok := w.Write([TYPE_READY]);
  }

  method AcceptReadyFrame(r: Reader) returns (ok: bool)
    modifies r
    ensures ok <==> old(r.rest) != [] && old(r.rest)[0] == 2
    ensures r.rest == if old(r.rest) == [] then [] else old(r.rest)[1..]
  {
    var data := r.ReadFull(1);
    ok := data.Some? && data.value == [TYPE_READY];
  }
}
