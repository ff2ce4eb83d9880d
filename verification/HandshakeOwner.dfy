/**
 What an accepted key says about its owner, whoever is on the other side: the signature that was
 checked stood in the bytes read, so if the other side could not present a signature that a key's
 owner never made, the owner signed this side's own nonce.
 */
module HandshakeOwner {
  import opened Bytes
  import opened Wire
  import opened Schema
  import opened Framing
  import opened Handshake

  // ----- Bytes within bytes

  ghost predicate Occurs(a: Bytes, b: Bytes) {
    exists x, y :: b == x + a + y
  }

  lemma OccursWithin(a: Bytes, b: Bytes, c: Bytes)
    requires Occurs(a, b) && Occurs(b, c)
    ensures Occurs(a, c)
  {
    var x, y :| b == x + a + y;
    var u, v :| c == u + b + v;
    assert c == (u + x) + a + (y + v);
  }

  lemma SliceOccurs(b: Bytes, i: nat, j: nat)
    requires i <= j <= |b|
    ensures Occurs(b[i..j], b)
  {
    assert b == b[..i] + b[i..j] + b[j..];
  }

  lemma TailOccurs(b: Bytes, i: nat)
    requires i <= |b|
    ensures Occurs(b[i..], b)
  {
    SliceOccurs(b, i, |b|);
    assert b[i..|b|] == b[i..];
  }

  lemma NothingOccurs(b: Bytes)
    ensures Occurs([], b)
  {
    assert b == [] + [] + b;
  }

  // ----- What a parser returns stood in its input

  lemma {:induction false} VarintLeavesATail(b: Bytes, k: nat)
    requires k <= 9 && GetVarint(b, k).Cut?
    ensures Occurs(GetVarint(b, k).rest, b)
    decreases |b|
  {
    TailOccurs(b, 1);
    if b[0] >= 128 {
      VarintLeavesATail(b[1..], k + 1);
      OccursWithin(GetVarint(b, k).rest, b[1..], b);
    }
  }

  lemma TakeSplits(b: Bytes, n: nat)
    requires Take(b, n).Cut?
    ensures Occurs(Take(b, n).value, b) && Occurs(Take(b, n).rest, b)
  {
    SliceOccurs(b, 0, n);
    assert b[0..n] == b[..n];
    TailOccurs(b, n);
  }

  /** A length-delimited value stands in the bytes it was read from, and so does what follows any record. */
  lemma ValueOccurs(num: nat, wireType: nat, b: Bytes)
    requires GetValue(num, wireType, b).Cut?
    ensures Occurs(GetValue(num, wireType, b).rest, b)
    ensures GetValue(num, wireType, b).value.Len? ==> Occurs(GetValue(num, wireType, b).value.data, b)
  {
    hide GetVarint, Take;
    if wireType == 0 {
      VarintLeavesATail(b, 0);
    } else if wireType == 1 {
      TakeSplits(b, 8);
    } else if wireType == 5 {
      TakeSplits(b, 4);
    } else {
      var length := GetVarint(b, 0);
      VarintLeavesATail(b, 0);
      TakeSplits(length.rest, length.value);
      OccursWithin(Take(length.rest, length.value).value, length.rest, b);
      OccursWithin(Take(length.rest, length.value).rest, length.rest, b);
    }
  }

  lemma FieldOccurs(b: Bytes)
    requires GetField(b).Cut?
    ensures Occurs(GetField(b).rest, b)
    ensures GetField(b).value.Len? ==> Occurs(GetField(b).value.data, b)
  {
    hide GetVarint, GetValue, Occurs;
    var tag := GetVarint(b, 0);
    VarintLeavesATail(b, 0);
    ValueOccurs(tag.value / 8, tag.value % 8, tag.rest);
    var r := GetField(b);
    OccursWithin(r.rest, tag.rest, b);
    if r.value.Len? {
      OccursWithin(r.value.data, tag.rest, b);
    }
  }

  ghost predicate DataOccurs(f: Field, b: Bytes) { f.Len? ==> Occurs(f.data, b) }

  lemma {:induction false} FieldsOccur(b: Bytes)
    ensures forall f :: f in GetFields(b).fields ==> DataOccurs(f, b)
    decreases |b|
  {
    hide GetField, Occurs;
    if |b| > 0 && GetField(b).Cut? {
      var r := GetField(b);
      FieldOccurs(b);
      FieldsOccur(r.rest);
      forall f | f in GetFields(r.rest).fields ensures DataOccurs(f, b) {
        if f.Len? {
          OccursWithin(f.data, r.rest, b);
        }
      }
    }
  }

  // ----- The signature of a decoded response

  ghost predicate SignatureOccurs(p: Payload, b: Bytes) { p.Response? ==> Occurs(p.signature, b) }

  lemma {:induction false} FoldInitIsInit(p: Payload, fs: seq<Field>)
    requires p.Init?
    ensures Fold(MergeInit, p, fs).Init?
    decreases |fs|
  {
    if |fs| > 0 {
      FoldInitIsInit(MergeInit(p, fs[0]), fs[1..]);
    }
  }

  lemma {:induction false} FoldResponseOccurs(p: Payload, fs: seq<Field>, b: Bytes)
    requires SignatureOccurs(p, b) && forall f :: f in fs ==> DataOccurs(f, b)
    ensures SignatureOccurs(Fold(MergeResponse, p, fs), b)
    decreases |fs|
  {
    hide Occurs;
    if |fs| > 0 {
      assert DataOccurs(fs[0], b);
      FoldResponseOccurs(MergeResponse(p, fs[0]), fs[1..], b);
    }
  }

  lemma MergeMessageOccurs(p: Payload, f: Field, b: Bytes)
    requires SignatureOccurs(p, b) && DataOccurs(f, b)
    requires MergeMessage(Some(p), f).Some?
    ensures SignatureOccurs(MergeMessage(Some(p), f).value, b)
  {
    hide Occurs, MergeInit, MergeResponse, Fold, GetFields;
    if f.Len? && f.num == 6 {
      FoldInitIsInit(if p.Init? then p else Init([]), GetFields(f.data).fields);
    } else if f.Len? && f.num == 12 {
      var fs := GetFields(f.data).fields;
      FieldsOccur(f.data);
      forall g | g in fs ensures DataOccurs(g, b) {
        if g.Len? {
          OccursWithin(g.data, f.data, b);
        }
      }
      NothingOccurs(b);
      FoldResponseOccurs(if p.Response? then p else Response([], [], 0), fs, b);
    }
  }

  lemma {:induction false} FoldMessageOccurs(acc: Option<Payload>, fs: seq<Field>, b: Bytes)
    requires acc.Some? ==> SignatureOccurs(acc.value, b)
    requires forall f :: f in fs ==> DataOccurs(f, b)
    ensures var r := Fold(MergeMessage, acc, fs); r.Some? ==> SignatureOccurs(r.value, b)
    decreases |fs|
  {
    hide MergeMessage, SignatureOccurs, DataOccurs;
    if |fs| > 0 {
      var next := MergeMessage(acc, fs[0]);
      if acc == None {
        NoneStaysNone(fs[0]);
      } else if next.Some? {
        MergeMessageOccurs(acc.value, fs[0], b);
      }
      FoldMessageOccurs(next, fs[1..], b);
    }
  }

  lemma NoneStaysNone(f: Field)
    ensures MergeMessage(None, f) == None
  {
  }

  lemma DecodedSignatureOccurs(b: Bytes)
    requires DecodeMessage(b).Some?
    ensures SignatureOccurs(DecodeMessage(b).value, b)
  {
    hide MergeMessage, GetFields, Fold;
    FieldsOccur(b);
    FoldMessageOccurs(Some(NoPayload), GetFields(b).fields, b);
  }

  lemma FrameOccurs(b: Bytes)
    requires ReadOne(b).Got?
    ensures Occurs(ReadOne(b).m.payload, b) && Occurs(ReadOne(b).rest, b)
  {
    hide FromBigEndian;
    var n := FromBigEndian(b[..4]);
    assert b[4..4 + n][1..] == b[5..4 + n];
    SliceOccurs(b, 5, 4 + n);
    TailOccurs(b, 4 + n);
  }

  // ----- What the owner of an accepted key did

  /**
     Among the bytes the other side presented there is no signature that verifies and that the owner
     of the key did not make: it could not forge one. `signed` holds what each owner ever signed.
   */
  ghost predicate NoForgeryIn(scheme: Scheme, signed: iset<(PublicKey, Bytes)>, input: Bytes) {
    forall key: PublicKey, data: Bytes, signature: Bytes ::
      Occurs(signature, input) && |signature| == 64 && scheme.verify(key, data, signature) ==> (key, data) in signed
  }

  lemma CheckedSignatureOccurs(scheme: Scheme, priv: PrivateKey, version: uint32, nonce: Bytes, input: Bytes)
    returns (extra: Bytes, signature: Bytes)
    requires Authentication(scheme, priv, version, nonce, input).verdict.Accepted?
    ensures var key := Authentication(scheme, priv, version, nonce, input).verdict.key;
            Occurs(signature, input) && |signature| == 64 && scheme.verify(key, nonce + key + extra, signature)
  {
    hide ReadOne, DecodeMessage, Answer, InitFrame, Occurs;
    var rest := ReadOne(input).rest;
    var payload := ReadOne(rest).m.payload;
    var response := DecodeMessage(payload).value;
    var key := response.pubKey[..32];
    extra, signature := response.pubKey[32..], response.signature;
    assert response.pubKey == key + extra;
    assert nonce + (key + extra) == nonce + key + extra;
    DecodedSignatureOccurs(payload);
    FrameOccurs(rest);
    FrameOccurs(input);
    OccursWithin(signature, payload, rest);
    OccursWithin(signature, rest, input);
  }

  /**
     An accepted key's owner took part: it signed this side's own nonce, followed by its key. That is
     all: who passed the signature on is not known.
   */
  lemma AcceptedKeySignedTheNonce(scheme: Scheme, signed: iset<(PublicKey, Bytes)>, priv: PrivateKey, version: uint32,
                                  nonce: Bytes, input: Bytes)
    requires NoForgeryIn(scheme, signed, input)
    requires Authentication(scheme, priv, version, nonce, input).verdict.Accepted?
    ensures var key := Authentication(scheme, priv, version, nonce, input).verdict.key;
            exists extra :: (key, nonce + key + extra) in signed
  {
    hide Authentication, Occurs;
    var extra, signature := CheckedSignatureOccurs(scheme, priv, version, nonce, input);
  }

  // ----- The hypothesis asks little of the owners

  /** With no 64 bytes presented, nobody needs to have signed anything. */
  lemma ShortInputsForgeNothing(scheme: Scheme, input: Bytes)
    requires |input| < 64
    ensures NoForgeryIn(scheme, iset{}, input)
  {
  }

  function Filled(n: nat, x: byte): (b: Bytes)
    ensures |b| == n && forall i :: 0 <= i < n ==> b[i] == x
  {
    seq(n, _ => x)
  }

  /** A scheme in which the all-zero key signs 64 zero bytes with sevens and anything else with 255s. */
  function Toy(): Scheme {
    Scheme((_, data) => ToySignature(data),
           (key, data, signature) => signature == if key == Filled(32, 0) then ToySignature(data) else Filled(64, 255))
  }

  function ToySignature(data: Bytes): (s: Bytes)
    ensures |s| == 64
  {
    if data == Filled(64, 0) then Filled(64, 7) else Filled(64, 255)
  }

  lemma OneFieldBytes(num: nat, data: Bytes)
    requires num * 8 + 2 < 128 && |data| < 128
    ensures PutField(Len(num, data)) == [num * 8 + 2, |data|] + data
    ensures PutFields([Len(num, data)]) == [num * 8 + 2, |data|] + data
  {
    var fs := [Len(num, data)];
    assert fs[1..] == [];
    assert PutFields(fs) == PutField(fs[0]) + [];
  }

  lemma InitFrameBytes(nonce: Bytes)
    requires |nonce| == 32
    ensures InitFrame(nonce) == [0, 0, 0, 37, 1, 0x32, 0x22, 0x0A, 0x20] + nonce
  {
    OneFieldBytes(1, nonce);
    OneFieldBytes(6, [0x0A, 0x20] + nonce);
    HeaderBytes(37);
    hide PutFields, ToBigEndian;
  }

  lemma ResponseFrameBytes(scheme: Scheme, priv: PrivateKey, nonce: Bytes)
    requires |scheme.sign(priv, nonce + PublicOf(priv))| == 64
    ensures ResponseFrame(scheme, priv, 0, nonce) ==
            [0, 0, 0, 103, 1, 0x62, 0x64, 0x0A, 0x20] + PublicOf(priv)
            + ([0x12, 0x40] + scheme.sign(priv, nonce + PublicOf(priv)))
  {
    hide PutField, PublicOf, ToBigEndian;
    var key, signature := PublicOf(priv), scheme.sign(priv, nonce + PublicOf(priv));
    var fs := ResponseFields(key, signature, 0);
    assert fs == [Len(1, key), Len(2, signature)] && fs[1..] == [Len(2, signature)];
    OneFieldBytes(1, key);
    OneFieldBytes(2, signature);
    var inner := [0x0A, 0x20] + key + ([0x12, 0x40] + signature);
    assert PutFields(fs) == PutField(fs[0]) + PutFields(fs[1..]) == inner;
    OneFieldBytes(12, inner);
    HeaderBytes(103);
    hide PutFields;
  }

  /** What an honest party with the all-zero key and nonce sends. */
  function ToyInput(): Bytes {
    InitFrame(Filled(32, 0)) + ResponseFrame(Toy(), Filled(64, 0), 0, Filled(32, 0))
  }

  lemma ToySigns()
    ensures PublicOf(Filled(64, 0)) == Filled(32, 0) && Filled(32, 0) + Filled(32, 0) == Filled(64, 0)
    ensures Accepts(Toy(), Filled(64, 0))
    ensures Toy().sign(Filled(64, 0), Filled(64, 0)) == Filled(64, 7)
  {
    assert PublicOf(Filled(64, 0)) == Filled(32, 0);
    assert Filled(32, 0) + Filled(32, 0) == Filled(64, 0);
  }

  lemma ToyInputIsSmall()
    ensures 255 !in ToyInput()
  {
    ToySigns();
    InitFrameBytes(Filled(32, 0));
    ResponseFrameBytes(Toy(), Filled(64, 0), Filled(32, 0));
    hide InitFrame, ResponseFrame, Toy, Filled, PublicOf;
  }

  lemma ToyForgesNothing(input: Bytes)
    requires 255 !in input
    ensures NoForgeryIn(Toy(), iset{(Filled(32, 0), Filled(64, 0))}, input)
  {
    forall owner: PublicKey, data: Bytes, signature: Bytes
      | Occurs(signature, input) && |signature| == 64 && Toy().verify(owner, data, signature)
      ensures owner == Filled(32, 0) && data == Filled(64, 0)
    {
      var x, y :| input == x + signature + y;
      assert signature[0] == input[|x|];
    }
  }

  /**
     For an honest exchange the hypothesis can be met where the owner of the accepted key signed one
     single string, the one the conclusion names.
   */
  lemma OneSignatureIsEnough(mine: PrivateKey, version: uint32)
    ensures var key, nonce := Filled(32, 0), Filled(32, 0);
            && Accepts(Toy(), Filled(64, 0)) && PublicOf(Filled(64, 0)) == key
            && NoForgeryIn(Toy(), iset{(key, nonce + key)}, ToyInput())
            && Authentication(Toy(), mine, version, nonce, ToyInput()).verdict == Accepted(key)
  {
    hide Filled, Toy, InitFrame, ResponseFrame, Authentication, NoForgeryIn;
    ToySigns();
    HonestSideIsAccepted(Toy(), mine, version, Filled(32, 0), Filled(64, 0), 0, Filled(32, 0));
    ToyInputIsSmall();
    ToyForgesNothing(ToyInput());
  }
}
