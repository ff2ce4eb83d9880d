/**
 The messages the DHT stores, with proto3 default omission: a zero number or an empty
 byte string is not written, and a field that is absent reads back as that default.
 */
module Schema {
  import opened Bytes
  import opened Utf8
  import opened Wire

  // ----- Scalar helpers

  type int32 = x: int | -0x8000_0000 <= x < 0x8000_0000
  type uint32 = x: int | 0 <= x < TWO_32
  type uint64 = x: int | 0 <= x < TWO_64

  /** An `int32` travels as the 64-bit two's complement of its value. */
  function Int32ToWire(x: int32): nat {
    if x < 0 then x + TWO_64 else x
  }

  /** The low 32 bits of a varint, as a signed number. */
  function WireToInt32(v: nat): int32 {
    var low := v % TWO_32;
    if low >= 0x8000_0000 then low - TWO_32 else low
  }

  lemma Int32RoundTrip(x: int32)
    ensures Int32ToWire(x) < TWO_64
    ensures WireToInt32(Int32ToWire(x)) == x
    ensures Int32ToWire(x) == 0 <==> x == 0
  {
    if x < 0 {
      assert x + TWO_64 == (x + TWO_32) + 0xFFFF_FFFF * TWO_32;
    }
  }

  function OptVarint(num: nat, v: nat): seq<Field> {
    if v == 0 then [] else [Varint(num, v)]
  }

  function OptLen(num: nat, data: Bytes): seq<Field> {
    if |data| == 0 then [] else [Len(num, data)]
  }

  function EachLen(num: nat, items: seq<Bytes>): (fs: seq<Field>)
    ensures |fs| == |items|
    ensures forall i :: 0 <= i < |items| ==> fs[i] == Len(num, items[i])
  {
    if |items| == 0 then [] else [Len(num, items[0])] + EachLen(num, items[1..])
  }

  // ----- MerkleNode

  const FILE_CHUNK: int32 := 0
  const META_LINK: int32 := 1

  /** proto3 enums are open, so `kind` may be any 32-bit number. */
  datatype MerkleNode = MerkleNode(kind: int32, data: Bytes, links: seq<Bytes>, size: uint64)

  const EmptyNode: MerkleNode := MerkleNode(0, [], [], 0)

  /** Byte strings this long are what a length prefix can describe. */
  predicate Sized(b: Bytes) { |b| < TWO_64 }

  predicate NodeFits(n: MerkleNode) {
    Sized(n.data) && forall i :: 0 <= i < |n.links| ==> Sized(n.links[i])
  }

  function NodeFields(n: MerkleNode): seq<Field> {
    OptVarint(1, Int32ToWire(n.kind)) + OptLen(2, n.data) + EachLen(3, n.links) + OptVarint(4, n.size)
  }

  function EncodeNode(n: MerkleNode): Bytes { PutFields(NodeFields(n)) }

  /** A record with an unknown number or an unexpected wire type is skipped. */
  function MergeNode(n: MerkleNode, f: Field): MerkleNode {
    match f
    case Varint(num, v) =>
      if num == 1 then n.(kind := WireToInt32(v))
      else if num == 4 then n.(size := v % TWO_64)
      else n
    case Len(num, d) =>
      if num == 2 then n.(data := d)
      else if num == 3 then n.(links := n.links + [d])
      else n
    case _ => n
  }

  datatype DecodedNode = DecodedNode(node: MerkleNode, ok: bool)

  /** Unmarshalling stops at the first error and keeps what it had merged by then. */
  function DecodeNode(b: Bytes): DecodedNode {
    var p := GetFields(b);
    DecodedNode(Fold(MergeNode, EmptyNode, p.fields), p.ok)
  }

  lemma FoldLinks(n: MerkleNode, items: seq<Bytes>)
    ensures Fold(MergeNode, n, EachLen(3, items)) == n.(links := n.links + items)
  {
    var fs := EachLen(3, items);
    var states := seq(|items| + 1, i requires 0 <= i <= |items| => n.(links := n.links + items[..i]));
    forall i | 0 <= i < |items| ensures MergeNode(states[i], fs[i]) == states[i + 1] {
      assert n.links + items[..i] + [items[i]] == n.links + items[..i + 1];
    }
    FoldThrough(MergeNode, states, fs);
    assert n.links + items[..0] == n.links && items[..|items|] == items;
  }

  lemma FoldNode(n: MerkleNode)
    ensures Fold(MergeNode, EmptyNode, NodeFields(n)) == n
  {
    var a, b := OptVarint(1, Int32ToWire(n.kind)), OptLen(2, n.data);
    var c, d := EachLen(3, n.links), OptVarint(4, n.size);
    Int32RoundTrip(n.kind);
    FoldAppend(MergeNode, EmptyNode, a + b + c, d);
    FoldAppend(MergeNode, EmptyNode, a + b, c);
    FoldAppend(MergeNode, EmptyNode, a, b);
    var n1 := EmptyNode.(kind := n.kind);
    assert Fold(MergeNode, EmptyNode, a) == n1;
    var n2 := n1.(data := n.data);
    assert Fold(MergeNode, n1, b) == n2;
    FoldLinks(n2, n.links);
    assert [] + n.links == n.links;
    var n3 := n2.(links := n.links);
    assert Fold(MergeNode, n3, d) == n3.(size := n.size);
  }

  /** Every node survives being marshalled and unmarshalled. */
  lemma NodeRoundTrip(n: MerkleNode)
    requires NodeFits(n)
    ensures DecodeNode(EncodeNode(n)) == DecodedNode(n, true)
  {
    Int32RoundTrip(n.kind);
    FieldsRoundTrip(NodeFields(n));
    FoldNode(n);
  }

  // ----- PeerStoreEntry

  datatype PeerEntry = PeerEntry(pubKey: Bytes, hashId: Bytes, addr: Bytes, lastSeen: uint64, trustScore: uint32)

  const EmptyEntry: PeerEntry := PeerEntry([], [], [], 0, 0)

  function EntryFields(e: PeerEntry): seq<Field> {
    OptLen(1, e.pubKey) + OptLen(2, e.hashId) + OptLen(3, e.addr)
    + OptVarint(4, e.lastSeen) + OptVarint(5, e.trustScore)
  }

  function EncodeEntry(e: PeerEntry): Bytes { PutFields(EntryFields(e)) }

  /** A `string` record that is not UTF-8 fails the whole message. */
  function MergeEntry(acc: Option<PeerEntry>, f: Field): Option<PeerEntry> {
    match acc
    case None => None
    case Some(e) =>
      match f
      case Varint(num, v) =>
        if num == 4 then Some(e.(lastSeen := v % TWO_64))
        else if num == 5 then Some(e.(trustScore := v % TWO_32))
        else acc
      case Len(num, d) =>
        if num == 1 then Some(e.(pubKey := d))
        else if num == 2 then Some(e.(hashId := d))
        else if num == 3 then (if IsUtf8(d) then Some(e.(addr := d)) else None)
        else acc
      case _ => acc
  }

  function DecodeEntry(b: Bytes): Option<PeerEntry> {
    var p := GetFields(b);
    if p.ok then Fold(MergeEntry, Some(EmptyEntry), p.fields) else None
  }

  predicate EntryFits(e: PeerEntry) {
    Sized(e.pubKey) && Sized(e.hashId) && Sized(e.addr) && Sized(EncodeEntry(e))
  }

  lemma FoldAtMostOne(acc: Option<PeerEntry>, f: Field)
    ensures Fold(MergeEntry, acc, [f]) == MergeEntry(acc, f) && Fold(MergeEntry, acc, []) == acc
  {
    assert [f][1..] == [];
  }

  lemma FoldEntry(e: PeerEntry)
    requires IsUtf8(e.addr)
    ensures Fold(MergeEntry, Some(EmptyEntry), EntryFields(e)) == Some(e)
  {
    var f1, f2, f3 := OptLen(1, e.pubKey), OptLen(2, e.hashId), OptLen(3, e.addr);
    var f4, f5 := OptVarint(4, e.lastSeen), OptVarint(5, e.trustScore);
    var z := Some(EmptyEntry);
    FoldAppend(MergeEntry, z, f1 + f2 + f3 + f4, f5);
    FoldAppend(MergeEntry, z, f1 + f2 + f3, f4);
    FoldAppend(MergeEntry, z, f1 + f2, f3);
    FoldAppend(MergeEntry, z, f1, f2);
    hide Fold, IsUtf8;
    var e1 := EmptyEntry.(pubKey := e.pubKey);
    FoldAtMostOne(z, Len(1, e.pubKey));
    var e2 := e1.(hashId := e.hashId);
    FoldAtMostOne(Some(e1), Len(2, e.hashId));
    var e3 := e2.(addr := e.addr);
    FoldAtMostOne(Some(e2), Len(3, e.addr));
    var e4 := e3.(lastSeen := e.lastSeen);
    FoldAtMostOne(Some(e3), Varint(4, e.lastSeen));
    FoldAtMostOne(Some(e4), Varint(5, e.trustScore));
  }

  lemma EntryFieldsEncodable(e: PeerEntry)
    requires Sized(e.pubKey) && Sized(e.hashId) && Sized(e.addr)
    ensures forall i :: 0 <= i < |EntryFields(e)| ==> Encodable(EntryFields(e)[i])
  {
    var front := OptLen(1, e.pubKey) + OptLen(2, e.hashId) + OptLen(3, e.addr);
    assert forall i :: 0 <= i < |front| ==> Encodable(front[i]);
    var back := OptVarint(4, e.lastSeen) + OptVarint(5, e.trustScore);
    assert forall i :: 0 <= i < |back| ==> Encodable(back[i]);
    assert EntryFields(e) == front + back;
  }

  /** Every entry whose address is UTF-8 survives being marshalled and unmarshalled. */
  lemma EntryRoundTrip(e: PeerEntry)
    requires Sized(e.pubKey) && Sized(e.hashId) && Sized(e.addr) && IsUtf8(e.addr)
    ensures DecodeEntry(EncodeEntry(e)) == Some(e)
  {
    var fs := EntryFields(e);
    EntryFieldsEncodable(e);
    FieldsRoundTrip(fs);
    FoldEntry(e);
  }

  // ----- KBucket

  datatype KBucket = KBucket(index: int32, peers: seq<PeerEntry>)

  const EmptyBucket: KBucket := KBucket(0, [])

  function EncodeEntries(es: seq<PeerEntry>): (r: seq<Bytes>)
    ensures |r| == |es|
    ensures forall i :: 0 <= i < |es| ==> r[i] == EncodeEntry(es[i])
  {
    if |es| == 0 then [] else [EncodeEntry(es[0])] + EncodeEntries(es[1..])
  }

  function BucketFields(b: KBucket): seq<Field> {
    OptVarint(1, Int32ToWire(b.index)) + EachLen(2, EncodeEntries(b.peers))
  }

  predicate BucketIsUtf8(b: KBucket) {
    forall i :: 0 <= i < |b.peers| ==> IsUtf8(b.peers[i].addr)
  }

  /** Marshalling a bucket fails when an address is not UTF-8. */
  function EncodeBucket(b: KBucket): Option<Bytes> {
    if BucketIsUtf8(b)
    then Some(PutFields(BucketFields(b)))
    else None
  }

  function MergeBucket(acc: Option<KBucket>, f: Field): Option<KBucket> {
    match acc
    case None => None
    case Some(b) =>
      match f
      case Varint(num, v) => if num == 1 then Some(b.(index := WireToInt32(v))) else acc
      case Len(num, d) =>
        if num == 2 then
          match DecodeEntry(d)
          case Some(e) => Some(b.(peers := b.peers + [e]))
          case None => None
        else acc
      case _ => acc
  }

  /** Unmarshalling clears its target first, so nothing of an earlier value survives. */
  function DecodeBucket(bytes: Bytes): Option<KBucket> {
    var p := GetFields(bytes);
    if p.ok then Fold(MergeBucket, Some(EmptyBucket), p.fields) else None
  }

  predicate BucketFits(b: KBucket) {
    forall i :: 0 <= i < |b.peers| ==> EntryFits(b.peers[i])
  }

  lemma MergePeer(b: KBucket, e: PeerEntry, blob: Bytes)
    requires EntryFits(e) && IsUtf8(e.addr) && blob == EncodeEntry(e)
    ensures MergeBucket(Some(b), Len(2, blob)) == Some(b.(peers := b.peers + [e]))
  {
    assert DecodeEntry(blob) == Some(e) by { EntryRoundTrip(e); }
  }

  /** The bucket after the first `i` of the peers were read into it. */
  function WithPeers(b: KBucket, es: seq<PeerEntry>, i: nat): Option<KBucket>
    requires i <= |es|
  {
    Some(b.(peers := b.peers + es[..i]))
  }

  lemma MergePeerAt(b: KBucket, es: seq<PeerEntry>, i: nat, blob: Bytes)
    requires i < |es| && BucketFits(KBucket(0, es)) && BucketIsUtf8(KBucket(0, es))
    requires blob == EncodeEntry(es[i])
    ensures MergeBucket(WithPeers(b, es, i), Len(2, blob)) == WithPeers(b, es, i + 1)
  {
    var before := b.(peers := b.peers + es[..i]);
    assert before.peers + [es[i]] == b.peers + es[..i + 1];
    MergePeer(before, es[i], blob);
  }

  lemma FoldPeers(b: KBucket, es: seq<PeerEntry>)
    requires BucketFits(KBucket(0, es)) && BucketIsUtf8(KBucket(0, es))
    ensures Fold(MergeBucket, Some(b), EachLen(2, EncodeEntries(es))) == Some(b.(peers := b.peers + es))
  {
    hide MergeBucket, EncodeEntry, Fold, IsUtf8, EntryFits;
    var fs := EachLen(2, EncodeEntries(es));
    var states := seq(|es| + 1, i requires 0 <= i <= |es| => WithPeers(b, es, i));
    forall i | 0 <= i < |es| ensures MergeBucket(states[i], fs[i]) == states[i + 1] {
      MergePeerAt(b, es, i, EncodeEntry(es[i]));
    }
    FoldThrough(MergeBucket, states, fs);
    assert b.peers + es[..0] == b.peers && es[..|es|] == es;
  }

  lemma BucketFieldsEncodable(b: KBucket)
    requires BucketFits(b)
    ensures forall i :: 0 <= i < |BucketFields(b)| ==> Encodable(BucketFields(b)[i])
  {
    Int32RoundTrip(b.index);
    var front, back := OptVarint(1, Int32ToWire(b.index)), EachLen(2, EncodeEntries(b.peers));
    forall i | 0 <= i < |back| ensures Encodable(back[i]) {
      assert EntryFits(b.peers[i]);
    }
    assert BucketFields(b) == front + back;
  }

  /** Every bucket whose addresses are UTF-8 survives being marshalled and unmarshalled. */
  lemma BucketRoundTrip(b: KBucket)
    requires BucketFits(b) && BucketIsUtf8(b)
    ensures EncodeBucket(b).Some? && DecodeBucket(EncodeBucket(b).value) == Some(b)
  {
    var fs := BucketFields(b);
    BucketFieldsEncodable(b);
    FieldsRoundTrip(fs);
    var front, back := OptVarint(1, Int32ToWire(b.index)), EachLen(2, EncodeEntries(b.peers));
    var z := Some(EmptyBucket);
    FoldAppend(MergeBucket, z, front, back);
    Int32RoundTrip(b.index);
    var b1 := EmptyBucket.(index := b.index);
    assert Fold(MergeBucket, z, front) == Some(b1);
    FoldPeers(b1, b.peers);
    assert [] + b.peers == b.peers;
  }
}
