/**
 The symmetric handshake over one stream: each side sends a nonce, signs the other's nonce
 together with its own public key, and checks the other's signature.
 */
module Handshake {
  import opened Bytes
  import opened Wire
  import opened Schema
  import opened Framing

  // ----- Messages

  /** The handshake payloads of a MessageData; `Other` is any other kind. */
  datatype Payload =
    | NoPayload
    | Init(nonce: Bytes)
    | Response(pubKey: Bytes, signature: Bytes, version: uint32)
    | Other

  function InitFields(nonce: Bytes): seq<Field> { OptLen(1, nonce) }

  function ResponseFields(pubKey: Bytes, signature: Bytes, version: uint32): seq<Field> {
    OptLen(1, pubKey) + OptLen(2, signature) + OptVarint(3, version)
  }

  function EncodeInit(nonce: Bytes): Bytes {
    PutFields([Len(6, PutFields(InitFields(nonce)))])
  }

  function EncodeResponse(pubKey: Bytes, signature: Bytes, version: uint32): Bytes {
    PutFields([Len(12, PutFields(ResponseFields(pubKey, signature, version)))])
  }

  function MergeInit(p: Payload, f: Field): Payload {
    if p.Init? && f.Len? && f.num == 1 then Init(f.data) else p
  }

  function MergeResponse(p: Payload, f: Field): Payload {
    if !p.Response? then p
    else
      match f
      case Len(num, d) =>
        if num == 1 then p.(pubKey := d) else if num == 2 then p.(signature := d) else p
      case Varint(num, v) => if num == 3 then p.(version := v % TWO_32) else p
      case _ => p
  }

  /** A repeated payload of one kind is merged into the earlier one; another kind replaces it. */
  function MergeMessage(acc: Option<Payload>, f: Field): Option<Payload> {
    if acc == None || !f.Len? then acc
    else if f.num == 6 then
      var p := GetFields(f.data);
      var start := if acc.value.Init? then acc.value else Init([]);
      if p.ok then Some(Fold(MergeInit, start, p.fields)) else None
    else if f.num == 12 then
      var p := GetFields(f.data);
      var start := if acc.value.Response? then acc.value else Response([], [], 0);
      if p.ok then Some(Fold(MergeResponse, start, p.fields)) else None
    else if 7 <= f.num <= 14 then Some(Other)
    else acc
  }

  function DecodeMessage(b: Bytes): Option<Payload> {
    var p := GetFields(b);
    if p.ok then Fold(MergeMessage, Some(NoPayload), p.fields) else None
  }

  lemma SingleRecordRoundTrip(num: nat, inner: Bytes)
    requires 1 <= num <= MAX_FIELD_NUMBER && Sized(inner)
    ensures DecodeMessage(PutFields([Len(num, inner)])) == MergeMessage(Some(NoPayload), Len(num, inner))
  {
    var fs := [Len(num, inner)];
    FieldsRoundTrip(fs);
    hide MergeMessage;
    assert fs[1..] == [];
    assert Fold(MergeMessage, Some(NoPayload), fs) == MergeMessage(Some(NoPayload), fs[0]);
  }

  lemma InitRoundTrip(nonce: Bytes)
    requires Sized(nonce) && Sized(PutFields(InitFields(nonce)))
    ensures DecodeMessage(EncodeInit(nonce)) == Some(Init(nonce))
  {
    var fs := InitFields(nonce);
    FieldsRoundTrip(fs);
    assert Fold(MergeInit, Init([]), fs) == Init(nonce);
    SingleRecordRoundTrip(6, PutFields(fs));
  }

  lemma FoldResponse(pubKey: Bytes, signature: Bytes, version: uint32)
    ensures Fold(MergeResponse, Response([], [], 0), ResponseFields(pubKey, signature, version))
         == Response(pubKey, signature, version)
  {
    var a, b, c := OptLen(1, pubKey), OptLen(2, signature), OptVarint(3, version);
    var z := Response([], [], 0);
    FoldAppend(MergeResponse, z, a + b, c);
    FoldAppend(MergeResponse, z, a, b);
    assert Fold(MergeResponse, z, a) == Response(pubKey, [], 0);
    assert Fold(MergeResponse, Response(pubKey, [], 0), b) == Response(pubKey, signature, 0);
  }

  lemma ResponseFieldsEncodable(pubKey: Bytes, signature: Bytes, version: uint32)
    requires Sized(pubKey) && Sized(signature)
    ensures var fs := ResponseFields(pubKey, signature, version); forall i :: 0 <= i < |fs| ==> Encodable(fs[i])
  {
    var front, back := OptLen(1, pubKey) + OptLen(2, signature), OptVarint(3, version);
    assert forall i :: 0 <= i < |front| ==> Encodable(front[i]);
    assert forall i :: 0 <= i < |back| ==> Encodable(back[i]);
  }

  lemma ResponseRoundTrip(pubKey: Bytes, signature: Bytes, version: uint32)
    requires Sized(pubKey) && Sized(signature) && Sized(PutFields(ResponseFields(pubKey, signature, version)))
    ensures DecodeMessage(EncodeResponse(pubKey, signature, version)) == Some(Response(pubKey, signature, version))
  {
    var fs := ResponseFields(pubKey, signature, version);
    ResponseFieldsEncodable(pubKey, signature, version);
    hide PutFields, GetFields, ResponseFields, Fold, DecodeMessage, MergeResponse, Encodable;
    FieldsRoundTrip(fs);
    FoldResponse(pubKey, signature, version);
    SingleRecordRoundTrip(12, PutFields(fs));
  }

  // ----- Sizes

  lemma {:induction false} VarintSize(v: nat, k: nat)
    requires k <= 9 && v < VarintLimit(k)
    ensures |PutVarint(v)| <= 10 - k
    decreases 9 - k
  {
    if v >= 128 {
      VarintSize(v / 128, k + 1);
    }
  }

  lemma LenSize(num: nat, data: Bytes)
    requires num <= MAX_FIELD_NUMBER && |data| < TWO_64
    ensures |PutField(Len(num, data))| <= 20 + |data|
  {
    VarintLimitIs64Bits();
    VarintSize(num * 8 + 2, 0);
    VarintSize(|data|, 0);
  }

  lemma InitSize(nonce: Bytes)
    requires |nonce| == 32
    ensures |PutFields(InitFields(nonce))| <= 52 && |EncodeInit(nonce)| <= 72
  {
    var fs := InitFields(nonce);
    LenSize(1, nonce);
    assert fs == [Len(1, nonce)] && fs[1..] == [];
    assert PutFields(fs) == PutField(fs[0]) + [];
    var inner := PutFields(fs);
    var outer := [Len(6, inner)];
    LenSize(6, inner);
    assert outer[1..] == [];
    assert PutFields(outer) == PutField(outer[0]) + [];
  }

  lemma ResponseSize(pubKey: Bytes, signature: Bytes, version: uint32)
    requires |pubKey| == 32 && |signature| == 64
    ensures |PutFields(ResponseFields(pubKey, signature, version))| <= 156
    ensures |EncodeResponse(pubKey, signature, version)| <= 176
  {
    hide PutField;
    var tail := OptVarint(3, version);
    var fs := ResponseFields(pubKey, signature, version);
    assert fs == [Len(1, pubKey), Len(2, signature)] + tail;
    LenSize(1, pubKey);
    LenSize(2, signature);
    OptVarintSize(3, version);
    assert fs[1..] == [Len(2, signature)] + tail && fs[1..][1..] == tail;
    assert PutFields(fs[1..]) == PutField(fs[1]) + PutFields(tail);
    var inner := PutFields(fs);
    var outer := [Len(12, inner)];
    LenSize(12, inner);
    assert outer[1..] == [];
    assert PutFields(outer) == PutField(outer[0]) + [];
  }

  lemma OptVarintSize(num: nat, v: nat)
    requires num <= MAX_FIELD_NUMBER && v < TWO_64
    ensures |PutFields(OptVarint(num, v))| <= 20
  {
    if v != 0 {
      VarintLimitIs64Bits();
      VarintSize(num * 8, 0);
      VarintSize(v, 0);
      var fs := [Varint(num, v)];
      assert fs[1..] == [];
      assert PutFields(fs) == PutField(fs[0]) + [];
    }
  }

  // ----- Keys and signatures

  type PrivateKey = b: Bytes | |b| == 64 witness seq(64, _ => 0)

  type PublicKey = Digest

  /** The last 32 bytes of a private key are its public key. */
  function PublicOf(priv: PrivateKey): PublicKey { priv[32..] }

  /** The signature scheme; nothing is assumed of it but `Accepts` below. */
  datatype Scheme = Scheme(sign: (Bytes, Bytes) -> Bytes, verify: (Bytes, Bytes, Bytes) -> bool)

  /**
     What this key signs has 64 bytes and verifies under its public half. Keys whose halves do not
     match need not satisfy this, and nothing is said of what else verifies.
   */
  ghost predicate Accepts(scheme: Scheme, priv: PrivateKey) {
    forall data: Bytes ::
      |scheme.sign(priv, data)| == 64 && scheme.verify(PublicOf(priv), data, scheme.sign(priv, data))
  }

  function VerifySignature(scheme: Scheme, pubKey: Bytes, data: Bytes, signature: Bytes): bool {
    |signature| == 64 && scheme.verify(pubKey, data, signature)
  }

  // ----- What each side says to what it reads

  function InitFrame(nonce: Bytes): Bytes {
    Frame(StreamMessage(TYPE_HANDSHAKE, EncodeInit(nonce)))
  }

  function ResponseFrame(scheme: Scheme, priv: PrivateKey, version: uint32, nonce: Bytes): Bytes {
    var pub := PublicOf(priv);
    Frame(StreamMessage(TYPE_HANDSHAKE, EncodeResponse(pub, scheme.sign(priv, nonce + pub), version)))
  }

  /** The frame that answers a message, if the message is the start of a handshake. */
  function Answer(scheme: Scheme, priv: PrivateKey, version: uint32, m: StreamMessage): Option<Bytes> {
    if m.kind != TYPE_HANDSHAKE then None
    else
      match DecodeMessage(m.payload)
      case Some(Init(nonce)) => Some(ResponseFrame(scheme, priv, version, nonce))
      case _ => None
  }

  /** `Crashed`: the process ends in a panic, on an empty frame or converting fewer than 32 bytes to a key. */
  datatype Verdict = Accepted(key: PublicKey) | Rejected | Crashed

  function CheckResponse(scheme: Scheme, nonce: Bytes, m: StreamMessage): Verdict {
    if m.kind != TYPE_HANDSHAKE then Rejected
    else
      match DecodeMessage(m.payload)
      case Some(Response(pubKey, signature, _)) =>
        if |pubKey| < 32 then Crashed
        else if VerifySignature(scheme, pubKey[..32], nonce + pubKey, signature) then Accepted(pubKey[..32])
        else Rejected
      case _ => Rejected
  }

  function CheckNext(scheme: Scheme, nonce: Bytes, input: Bytes): Verdict {
    match ReadOne(input)
    case Got(m, _) => CheckResponse(scheme, nonce, m)
    case EndOfStream => Rejected
    case Panicked => Crashed
  }

  /** The verdict on what the other side sends, and what this side sends meanwhile. */
  datatype Exchange = Exchange(verdict: Verdict, output: Bytes)

  function Authentication(scheme: Scheme, priv: PrivateKey, version: uint32, nonce: Bytes, input: Bytes): Exchange {
    match ReadOne(input)
    case EndOfStream => Exchange(Rejected, InitFrame(nonce))
    case Panicked => Exchange(Crashed, InitFrame(nonce))
    case Got(first, rest) =>
      match Answer(scheme, priv, version, first)
      case None => Exchange(Rejected, InitFrame(nonce))
      case Some(answer) => Exchange(CheckNext(scheme, nonce, rest), InitFrame(nonce) + answer)
  }

  predicate StartsHandshake(m: StreamMessage) {
    && m.kind == TYPE_HANDSHAKE
    && match DecodeMessage(m.payload)
       case Some(Init(_)) => true
       case _ => false
  }

  predicate CarriesShortKey(m: StreamMessage) {
    && m.kind == TYPE_HANDSHAKE
    && match DecodeMessage(m.payload)
       case Some(Response(pubKey, _, _)) => |pubKey| < 32
       case _ => false
  }

  /**
     Whatever the other side sends, authentication ends the process exactly when the first frame is
     empty, or it starts a handshake and the second is empty or is a response with too short a key.
   */
  lemma CrashesExactlyWhen(scheme: Scheme, priv: PrivateKey, version: uint32, nonce: Bytes, input: Bytes)
    ensures Authentication(scheme, priv, version, nonce, input).verdict == Crashed <==>
              || [0, 0, 0, 0] <= input
              || (exists first, rest :: ReadOne(input) == Got(first, rest) && StartsHandshake(first) &&
                   ([0, 0, 0, 0] <= rest || (ReadOne(rest).Got? && CarriesShortKey(ReadOne(rest).m))))
  {
    hide ReadOne, DecodeMessage, VerifySignature, InitFrame, ResponseFrame;
    PanicsExactlyWhen(input);
    if ReadOne(input).Got? {
      PanicsExactlyWhen(ReadOne(input).rest);
    }
  }

  /**
     A key is accepted exactly when the first frame starts a handshake and the second is a handshake
     response that carries it with a signature which verifies over the own nonce and that key.
   */
  lemma AcceptsExactlyWhen(scheme: Scheme, priv: PrivateKey, version: uint32, nonce: Bytes, input: Bytes,
                           key: PublicKey)
    ensures Authentication(scheme, priv, version, nonce, input).verdict == Accepted(key) <==>
              exists first, rest, second, last, pubKey, signature, v ::
                && ReadOne(input) == Got(first, rest) && StartsHandshake(first)
                && ReadOne(rest) == Got(second, last) && second.kind == 1
                && DecodeMessage(second.payload) == Some(Response(pubKey, signature, v))
                && |pubKey| >= 32 && key == pubKey[..32]
                && |signature| == 64 && scheme.verify(key, nonce + pubKey, signature)
  {
    hide ReadOne, DecodeMessage, InitFrame, ResponseFrame;
    if Authentication(scheme, priv, version, nonce, input).verdict == Accepted(key) {
      var first := ReadOne(input);
      var second := ReadOne(first.rest);
      var response := DecodeMessage(second.m.payload).value;
      assert ReadOne(input) == Got(first.m, first.rest) && ReadOne(first.rest) == Got(second.m, second.rest);
      assert DecodeMessage(second.m.payload) == Some(Response(response.pubKey, response.signature, response.version));
    }
  }

  // ----- The operations

  /** Writing `data` left only some front of it behind what was written before. */
  ghost predicate CutShort(before: Bytes, after: Bytes, data: Bytes) {
    exists k :: 0 <= k <= |data| && after == before + data[..k]
  }

  lemma CutInFirst(before: Bytes, after: Bytes, first: Bytes, second: Bytes)
    requires CutShort(before, after, first)
    ensures CutShort(before, after, first + second)
  {
    var k :| 0 <= k <= |first| && after == before + first[..k];
    assert (first + second)[..k] == first[..k];
  }

  lemma CutInSecond(before: Bytes, after: Bytes, first: Bytes, second: Bytes)
    requires CutShort(before + first, after, second)
    ensures CutShort(before, after, first + second)
  {
    var k :| 0 <= k <= |second| && after == before + first + second[..k];
    assert (first + second)[..|first| + k] == first + second[..k];
  }

  method SendHandshake(w: Writer, nonce: Bytes) returns (ok: bool)
    modifies w
    ensures ok ==> w.written == old(w.written) + InitFrame(nonce) && w.failures == old(w.failures)
    ensures !ok ==> w.failures == old(w.failures) + 1 && CutShort(old(w.written), w.written, InitFrame(nonce))
  {
    ok := WriteFrame(w, TYPE_HANDSHAKE, EncodeInit(nonce));
  }

  /** `Dies` is the end of the process on an empty frame. */
  datatype Progress = Answered | Refuses | Dies

  /** The answer goes out exactly when the next frame starts a handshake, unless the write fails. */
  method AcceptHandshake(scheme: Scheme, r: Reader, w: Writer, priv: PrivateKey, version: uint32) returns (p: Progress)
    modifies r, w
    ensures match ReadOne(old(r.rest))
            case EndOfStream => p == Refuses && w.written == old(w.written) && w.failures == old(w.failures)
            case Panicked => p == Dies && w.written == old(w.written) && w.failures == old(w.failures)
            case Got(m, rest) =>
              && r.rest == rest
              && match Answer(scheme, priv, version, m)
                 case None => p == Refuses && w.written == old(w.written) && w.failures == old(w.failures)
                 case Some(answer) =>
                   || (p == Answered && w.written == old(w.written) + answer && w.failures == old(w.failures))
                   || (p == Refuses && w.failures == old(w.failures) + 1 && CutShort(old(w.written), w.written, answer))
  {
    var outcome := ReadFrame(r);
    if outcome.Died? {
      return Dies;
    }
    if !outcome.Message? || outcome.m.kind != TYPE_HANDSHAKE {
      return Refuses;
    }
    var data := DecodeMessage(outcome.m.payload);
    if data == None || !data.value.Init? {
      return Refuses;
    }
    var myPubKey := PublicOf(priv);
    var signature := scheme.sign(priv, data.value.nonce + myPubKey);
    var ok := WriteFrame(w, TYPE_HANDSHAKE, EncodeResponse(myPubKey, signature, version));
    p := if ok then Answered else Refuses;
  }

  method CheckHandshakeResponse(scheme: Scheme, r: Reader, nonce: Bytes) returns (verdict: Verdict)
    modifies r
    ensures verdict == CheckNext(scheme, nonce, old(r.rest))
    ensures ReadOne(old(r.rest)).Got? ==> r.rest == ReadOne(old(r.rest)).rest
  {
    var outcome := ReadFrame(r);
    match outcome
    case Message(m) => verdict := CheckResponse(scheme, nonce, m);
    case Failed => verdict := Rejected;
    case Died => verdict := Crashed;
  }

  /**
     Unless a write fails, the verdict and everything written are those of the exchange: a key is
     accepted exactly when the first frame read starts a handshake, which is answered, and the
     second carries that key with a valid signature over this side's own nonce.
   */
  method AuthenticatePeer(scheme: Scheme, r: Reader, w: Writer, priv: PrivateKey, version: uint32, myNonce: Bytes)
    returns (verdict: Verdict)
    modifies r, w
    ensures var e := Authentication(scheme, priv, version, myNonce, old(r.rest));
      || (verdict == e.verdict && w.written == old(w.written) + e.output && w.failures == old(w.failures))
      || (verdict == Rejected && w.failures == old(w.failures) + 1 && CutShort(old(w.written), w.written, e.output))
    ensures verdict.Accepted? ==>
      var first := ReadOne(old(r.rest));
      first.Got? && ReadOne(first.rest).Got? && r.rest == ReadOne(first.rest).rest
  {
    hide InitFrame, Answer, CheckResponse;
    ghost var before, init := w.written, InitFrame(myNonce);
    ghost var e := Authentication(scheme, priv, version, myNonce, r.rest);
    ghost var answer := e.output[|init|..];
    assert e.output == init + answer;
    var sent := SendHandshake(w, myNonce);
    if !sent {
      CutInFirst(before, w.written, init, answer);
      return Rejected;
    }
    var progress := AcceptHandshake(scheme, r, w, priv, version);
    if progress != Answered {
      if CutShort(before + init, w.written, answer) {
        CutInSecond(before, w.written, init, answer);
      }
      return if progress == Dies then Crashed else Rejected;
    }
    verdict := CheckHandshakeResponse(scheme, r, myNonce);
    assert before + init + answer == before + e.output;
  }

  // ----- Two honest sides understand each other

  /** The nonce is signed as it came, whatever its length, followed by the own key and with nothing in front. */
  lemma AnswersInit(scheme: Scheme, priv: PrivateKey, version: uint32, nonce: Bytes)
    requires Sized(nonce) && Sized(PutFields(InitFields(nonce)))
    ensures Answer(scheme, priv, version, StreamMessage(TYPE_HANDSHAKE, EncodeInit(nonce)))
         == Some(ResponseFrame(scheme, priv, version, nonce))
    ensures |nonce| == 32 ==> Framable(StreamMessage(TYPE_HANDSHAKE, EncodeInit(nonce)))
  {
    InitRoundTrip(nonce);
    if |nonce| == 32 {
      InitSize(nonce);
    }
  }

  /** Every start of a handshake is answered, and nothing else is. */
  lemma AnswersExactlyWhen(scheme: Scheme, priv: PrivateKey, version: uint32, m: StreamMessage)
    ensures Answer(scheme, priv, version, m).Some? <==> StartsHandshake(m)
    ensures StartsHandshake(m) ==>
              Answer(scheme, priv, version, m).value
              == ResponseFrame(scheme, priv, version, DecodeMessage(m.payload).value.nonce)
  {
    hide DecodeMessage, ResponseFrame;
  }

  lemma AcceptsResponse(scheme: Scheme, priv: PrivateKey, version: uint32, nonce: Bytes)
    requires Accepts(scheme, priv)
    ensures var pub := PublicOf(priv);
            var m := StreamMessage(TYPE_HANDSHAKE, EncodeResponse(pub, scheme.sign(priv, nonce + pub), version));
            CheckResponse(scheme, nonce, m) == Accepted(pub) && Framable(m)
  {
    hide EncodeResponse, DecodeMessage;
    var pub := PublicOf(priv);
    var signature := scheme.sign(priv, nonce + pub);
    assert |signature| == 64;
    ResponseSize(pub, signature, version);
    ResponseRoundTrip(pub, signature, version);
    assert pub[..32] == pub;
  }

  /** The other side can do that by answering the handshake with the shortest response there is. */
  lemma ShortKeyCrashes(scheme: Scheme, priv: PrivateKey, version: uint32, nonce: Bytes, theirNonce: Bytes)
    requires |theirNonce| == 32
    ensures var response := StreamMessage(TYPE_HANDSHAKE, EncodeResponse([], [], 0));
            Authentication(scheme, priv, version, nonce, InitFrame(theirNonce) + Frame(response)).verdict == Crashed
  {
    hide Frame, ReadOne, EncodeInit, CheckResponse, Answer, InitFrame;
    var init := StreamMessage(TYPE_HANDSHAKE, EncodeInit(theirNonce));
    var response := StreamMessage(TYPE_HANDSHAKE, EncodeResponse([], [], 0));
    InitSize(theirNonce);
    AnswersInit(scheme, priv, version, theirNonce);
    assert InitFrame(theirNonce) == Frame(init) by { InitFrameIs(theirNonce); }
    FrameRoundTrip(init, Frame(response));
    EmptyResponse(scheme, nonce);
    FrameRoundTrip(response, []);
    assert Frame(response) + [] == Frame(response);
  }

  lemma InitFrameIs(nonce: Bytes)
    ensures InitFrame(nonce) == Frame(StreamMessage(TYPE_HANDSHAKE, EncodeInit(nonce)))
  {
  }

  lemma EmptyResponse(scheme: Scheme, nonce: Bytes)
    ensures var m := StreamMessage(TYPE_HANDSHAKE, EncodeResponse([], [], 0));
            Framable(m) && CheckResponse(scheme, nonce, m) == Crashed
  {
    assert ResponseFields([], [], 0) == [] && PutFields([]) == [];
    ResponseRoundTrip([], [], 0);
    var fs := [Len(12, [])];
    LenSize(12, []);
    assert fs[1..] == [];
    assert PutFields(fs) == PutField(fs[0]) + [];
  }

  /** The answer reads back as the own key, the last half of the private one, and a signature over nonce and key. */
  lemma AnswerReadsBack(scheme: Scheme, priv: PrivateKey, version: uint32, m: StreamMessage, rest: Bytes)
    requires StartsHandshake(m)
    requires var nonce := DecodeMessage(m.payload).value.nonce; |scheme.sign(priv, nonce + priv[32..])| == 64
    ensures var nonce := DecodeMessage(m.payload).value.nonce;
            var signature := scheme.sign(priv, nonce + priv[32..]);
            var r := ReadOne(Answer(scheme, priv, version, m).value + rest);
            && r.Got? && r.rest == rest && r.m.kind == 1
            && DecodeMessage(r.m.payload) == Some(Response(priv[32..], signature, version))
  {
    hide EncodeResponse, DecodeMessage, Frame, ReadOne;
    var nonce := DecodeMessage(m.payload).value.nonce;
    var pub := PublicOf(priv);
    var signature := scheme.sign(priv, nonce + pub);
    AnswersExactlyWhen(scheme, priv, version, m);
    ResponseSize(pub, signature, version);
    ResponseRoundTrip(pub, signature, version);
    FrameRoundTrip(StreamMessage(TYPE_HANDSHAKE, EncodeResponse(pub, signature, version)), rest);
  }

  /** A message with any other payload is none of the handshake's. */
  lemma OtherPayloads(num: nat, inner: Bytes)
    requires 7 <= num <= 14 && num != 12 && Sized(inner)
    ensures DecodeMessage(PutFields([Len(num, inner)])) == Some(Other)
  {
    SingleRecordRoundTrip(num, inner);
  }

  /** A repeated payload of one kind is merged into the earlier one; a payload of another kind replaces it. */
  lemma PayloadsMerge(nonce: Bytes, pubKey: Bytes, signature: Bytes, version: uint32)
    ensures MergeMessage(Some(Init(nonce)), Len(6, [])) == Some(Init(nonce))
    ensures MergeMessage(Some(Response(pubKey, signature, version)), Len(12, []))
         == Some(Response(pubKey, signature, version))
    ensures MergeMessage(Some(Response(pubKey, signature, version)), Len(6, [])) == Some(Init([]))
    ensures MergeMessage(Some(Init(nonce)), Len(12, [])) == Some(Response([], [], 0))
  {
  }

  /** What another honest side sends is accepted with its key, and answered. */
  lemma HonestSideIsAccepted(scheme: Scheme, mine: PrivateKey, version: uint32, myNonce: Bytes,
                             theirs: PrivateKey, theirVersion: uint32, theirNonce: Bytes)
    requires Accepts(scheme, theirs) && |theirNonce| == 32
    ensures Authentication(scheme, mine, version, myNonce,
                           InitFrame(theirNonce) + ResponseFrame(scheme, theirs, theirVersion, myNonce))
         == Exchange(Accepted(PublicOf(theirs)), InitFrame(myNonce) + ResponseFrame(scheme, mine, version, theirNonce))
  {
    hide CheckResponse, Answer, Frame, ReadOne, EncodeResponse, EncodeInit;
    var pub := PublicOf(theirs);
    var init := StreamMessage(TYPE_HANDSHAKE, EncodeInit(theirNonce));
    var signature := scheme.sign(theirs, myNonce + pub);
    var response := StreamMessage(TYPE_HANDSHAKE, EncodeResponse(pub, signature, theirVersion));
    InitSize(theirNonce);
    AnswersInit(scheme, mine, version, theirNonce);
    AcceptsResponse(scheme, theirs, theirVersion, myNonce);
    FrameRoundTrip(init, Frame(response));
    FrameRoundTrip(response, []);
    assert Frame(response) + [] == Frame(response);
  }

  /**
     Nothing ties a response to the other side: a party that talks to its own echo reads back its
     init and its response, and accepts its own key. An honest other side is accepted under its own
     key (`HandshakeRuns.Agreement`), so a caller rules the echo out by comparing the two keys.
   */
  lemma EchoIsAccepted(scheme: Scheme, priv: PrivateKey, version: uint32, nonce: Bytes)
    requires Accepts(scheme, priv) && |nonce| == 32
    ensures var echo := InitFrame(nonce) + ResponseFrame(scheme, priv, version, nonce);
            Authentication(scheme, priv, version, nonce, echo) == Exchange(Accepted(PublicOf(priv)), echo)
  {
    HonestSideIsAccepted(scheme, priv, version, nonce, priv, version, nonce);
  }
}
