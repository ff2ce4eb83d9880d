/** The stored messages byte by byte: which tag precedes which field, and what is left out. */
module SchemaLayout {
  import opened Bytes
  import opened Utf8
  import opened Wire
  import opened Schema

  /** A byte string behind its tag and its length, or nothing if it is empty. */
  function Text(tag: byte, data: Bytes): Bytes {
    if data == [] then [] else Record(tag, data)
  }

  function Record(tag: byte, data: Bytes): Bytes { [tag] + PutVarint(|data|) + data }

  /** A number behind its tag, or nothing if it is zero. */
  function Number(tag: byte, v: nat): Bytes {
    if v == 0 then [] else [tag] + PutVarint(v)
  }

  function Records(tag: byte, items: seq<Bytes>): Bytes {
    if |items| == 0 then [] else Record(tag, items[0]) + Records(tag, items[1..])
  }

  lemma {:induction false} PutFieldsAppend(a: seq<Field>, b: seq<Field>)
    ensures PutFields(a + b) == PutFields(a) + PutFields(b)
  {
    hide PutField;
    if |a| == 0 {
      assert a + b == b;
    } else {
      assert (a + b)[1..] == a[1..] + b;
      PutFieldsAppend(a[1..], b);
    }
  }

  lemma TextIs(num: nat, data: Bytes)
    requires num <= 15
    ensures PutFields(OptLen(num, data)) == Text(8 * num + 2, data)
  {
    if data != [] {
      var fs := [Len(num, data)];
      assert fs[1..] == [];
      assert PutFields(fs) == PutField(fs[0]) + [];
      assert PutVarint(8 * num + 2) == [8 * num + 2];
    }
  }

  lemma NumberIs(num: nat, v: nat)
    requires num <= 15
    ensures PutFields(OptVarint(num, v)) == Number(8 * num, v)
  {
    if v != 0 {
      var fs := [Varint(num, v)];
      assert fs[1..] == [];
      assert PutFields(fs) == PutField(fs[0]) + [];
      assert PutVarint(8 * num) == [8 * num];
    }
  }

  lemma {:induction false} RecordsAre(num: nat, items: seq<Bytes>)
    requires num <= 15
    ensures PutFields(EachLen(num, items)) == Records(8 * num + 2, items)
  {
    if |items| > 0 {
      var fs := EachLen(num, items);
      assert fs[1..] == EachLen(num, items[1..]);
      RecordsAre(num, items[1..]);
      assert PutVarint(8 * num + 2) == [8 * num + 2];
      assert PutField(fs[0]) == [8 * num + 2] + (PutVarint(|items[0]|) + items[0]) == Record(8 * num + 2, items[0]);
    }
  }

  lemma NodeLayout(n: MerkleNode)
    ensures EncodeNode(n) ==
            Number(0x08, Int32ToWire(n.kind)) + Text(0x12, n.data) + Records(0x1A, n.links) + Number(0x20, n.size)
  {
    hide PutFields, OptVarint, OptLen, EachLen, Number, Text, Records;
    var a, b := OptVarint(1, Int32ToWire(n.kind)), OptLen(2, n.data);
    var c, d := EachLen(3, n.links), OptVarint(4, n.size);
    PutFieldsAppend(a + b + c, d);
    PutFieldsAppend(a + b, c);
    PutFieldsAppend(a, b);
    NumberIs(1, Int32ToWire(n.kind));
    TextIs(2, n.data);
    RecordsAre(3, n.links);
    NumberIs(4, n.size);
  }

  lemma EntryLayout(e: PeerEntry)
    ensures EncodeEntry(e) ==
            Text(0x0A, e.pubKey) + Text(0x12, e.hashId) + Text(0x1A, e.addr)
            + Number(0x20, e.lastSeen) + Number(0x28, e.trustScore)
  {
    hide PutFields, OptVarint, OptLen, Number, Text;
    var a, b, c := OptLen(1, e.pubKey), OptLen(2, e.hashId), OptLen(3, e.addr);
    var d, f := OptVarint(4, e.lastSeen), OptVarint(5, e.trustScore);
    PutFieldsAppend(a + b + c + d, f);
    PutFieldsAppend(a + b + c, d);
    PutFieldsAppend(a + b, c);
    PutFieldsAppend(a, b);
    TextIs(1, e.pubKey);
    TextIs(2, e.hashId);
    TextIs(3, e.addr);
    NumberIs(4, e.lastSeen);
    NumberIs(5, e.trustScore);
  }

  /** A bucket can be marshalled exactly when every address is UTF-8. */
  lemma BucketLayout(b: KBucket)
    ensures EncodeBucket(b) ==
            if forall i :: 0 <= i < |b.peers| ==> IsUtf8(b.peers[i].addr)
            then Some(Number(0x08, Int32ToWire(b.index)) + Records(0x12, EncodeEntries(b.peers)))
            else None
  {
    hide PutFields, OptVarint, EachLen, Number, Records, IsUtf8;
    PutFieldsAppend(OptVarint(1, Int32ToWire(b.index)), EachLen(2, EncodeEntries(b.peers)));
    NumberIs(1, Int32ToWire(b.index));
    RecordsAre(2, EncodeEntries(b.peers));
  }

  // ----- Addresses that are not UTF-8

  lemma {:induction false} FoldOfNone(fs: seq<Field>)
    ensures Fold(MergeEntry, None, fs) == None
    decreases |fs|
  {
    if |fs| > 0 {
      FoldOfNone(fs[1..]);
    }
  }

  lemma BadAddressFolds(e: PeerEntry)
    requires !IsUtf8(e.addr)
    ensures Fold(MergeEntry, Some(EmptyEntry), EntryFields(e)) == None
  {
    var front := OptLen(1, e.pubKey) + OptLen(2, e.hashId);
    var address, back := [Len(3, e.addr)], OptVarint(4, e.lastSeen) + OptVarint(5, e.trustScore);
    assert e.addr != [];
    assert EntryFields(e) == front + (address + back);
    FoldAppend(MergeEntry, Some(EmptyEntry), front, address + back);
    var before := Fold(MergeEntry, Some(EmptyEntry), front);
    FoldAppend(MergeEntry, before, address, back);
    FoldAtMostOne(before, address[0]);
    FoldOfNone(back);
  }

  /** An entry reads back exactly when its address is UTF-8; otherwise reading it fails. */
  lemma EntryReadsBackExactlyWhen(e: PeerEntry)
    requires Sized(e.pubKey) && Sized(e.hashId) && Sized(e.addr)
    ensures DecodeEntry(EncodeEntry(e)) == if IsUtf8(e.addr) then Some(e) else None
  {
    hide IsUtf8;
    if IsUtf8(e.addr) {
      EntryRoundTrip(e);
    } else {
      EntryFieldsEncodable(e);
      FieldsRoundTrip(EntryFields(e));
      BadAddressFolds(e);
    }
  }

  /** Records of other numbers, as a later version of the schema might write, are skipped. */
  lemma UnknownRecordsAreSkipped(n: MerkleNode, e: PeerEntry, b: KBucket, f: Field)
    ensures f.num > 4 ==> MergeNode(n, f) == n
    ensures f.num > 5 ==> MergeEntry(Some(e), f) == Some(e)
    ensures f.num > 2 ==> MergeBucket(Some(b), f) == Some(b)
  {
  }
}
