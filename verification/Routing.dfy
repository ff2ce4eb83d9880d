/** The Kademlia buckets, each kept as one encoded blob under its own key, at most 20 peers long. */
module Routing {
  import opened Bytes
  import opened Schema
  import opened Storage
  import opened Utf8

  const MAX_BUCKET_SIZE: nat := 20

  type int64 = x: int | -0x8000_0000_0000_0000 <= x < 0x8000_0000_0000_0000

  // ----- Keys

  function TablePrefix(): Bytes { Ascii("routing_table:") }

  /** Conversion of a signed to an unsigned 64-bit number. */
  function ToUnsigned64(index: int64): nat {
    if index < 0 then index + TWO_64 else index
  }

  function ToSigned64(v: nat): int64
    requires v < TWO_64
  {
    if v >= 0x8000_0000_0000_0000 then v - TWO_64 else v
  }

  function KeyFor(prefix: Bytes, index: int64): Bytes {
    prefix + ToBigEndian(ToUnsigned64(index), 8)
  }

  function TableKey(index: int64): Bytes { KeyFor(TablePrefix(), index) }

  /** Fills a fresh buffer: the prefix first, then the index, most significant byte first. */
  method IntToKey(prefix: Bytes, index: int64) returns (buf: array<byte>)
    ensures fresh(buf) && buf[..] == KeyFor(prefix, index)
  {
    buf := new byte[|prefix| + 8];
    for i := 0 to |prefix|
      invariant buf[..i] == prefix[..i]
    {
      buf[i] := prefix[i];
    }
    var v := ToUnsigned64(index);
    var n := 8;
    assert buf[..|prefix|] == prefix;
    assert buf[|prefix| + 8..] == [];
    while n > 0
      invariant 0 <= n <= 8
      invariant buf[..|prefix|] == prefix
      invariant ToBigEndian(v, n) + buf[|prefix| + n..] == ToBigEndian(ToUnsigned64(index), 8)
    {
      n := n - 1;
      ghost var tail := buf[|prefix| + n + 1..];
      buf[|prefix| + n] := v % 256;
      assert buf[|prefix| + n..] == [v % 256] + tail;
      assert ToBigEndian(v, n + 1) + tail == ToBigEndian(v / 256, n) + ([v % 256] + tail);
      v := v / 256;
    }
    assert buf[..] == buf[..|prefix|] + buf[|prefix|..];
  }

  /** Reads the eight bytes after the prefix back as a signed number. */
  function KeyToInt(key: Bytes, prefixLen: nat): (index: int64)
    requires prefixLen + 8 <= |key|
  {
    var b := key[prefixLen..prefixLen + 8];
    ToFromBigEndian(b);
    Pow256Values();
    ToSigned64(FromBigEndian(b))
  }

  lemma KeyRoundTrip(prefix: Bytes, index: int64)
    ensures |KeyFor(prefix, index)| == |prefix| + 8
    ensures KeyToInt(KeyFor(prefix, index), |prefix|) == index
  {
    var key := KeyFor(prefix, index);
    Pow256Values();
    assert key[|prefix|..|prefix| + 8] == ToBigEndian(ToUnsigned64(index), 8);
    FromToBigEndian(ToUnsigned64(index), 8);
  }

  /** Negative indices take the upper half of the unsigned 64-bit numbers. */
  lemma TableKeyLayout(index: int64)
    ensures TableKey(index) ==
            Ascii("routing_table:") + ToBigEndian(if index >= 0 then index else 0x1_0000_0000_0000_0000 + index, 8)
  {
  }

  lemma TableKeyInjective(i: int64, j: int64)
    requires TableKey(i) == TableKey(j)
    ensures i == j
  {
    KeyRoundTrip(TablePrefix(), i);
    KeyRoundTrip(TablePrefix(), j);
  }

  // ----- Saving a peer, when no storage operation fails

  datatype SaveResult = Saved | BucketFull | NotUtf8 | BadBlob

  datatype Saving = Saving(store: Store, result: SaveResult)

  /** The low 32 bits of an index, as a signed number. */
  function Truncate32(index: int64): int32 {
    WireToInt32(ToUnsigned64(index))
  }

  function PutBucket(s: Store, index: int64, b: KBucket): Saving {
    match EncodeBucket(b)
    case Some(data) => Saving(s[TableKey(index) := data], Saved)
    case None => Saving(s, NotUtf8)
  }

  function SaveInBucket(s: Store, index: int64, peer: PeerEntry): Saving {
    match Lookup(s, TableKey(index))
    case Found(blob) =>
      (match DecodeBucket(blob)
       case Some(b) =>
         if |b.peers| >= MAX_BUCKET_SIZE then Saving(s, BucketFull)
         else PutBucket(s, index, b.(peers := b.peers + [peer]))
       case None => Saving(s, BadBlob))
    case _ => PutBucket(s, index, KBucket(Truncate32(index), [peer]))
  }

  /** What reading a bucket yields: an absent key is an error like any other. */
  function PeersAt(s: Store, index: int64): Option<seq<PeerEntry>> {
    match Lookup(s, TableKey(index))
    case Found(blob) =>
      (match DecodeBucket(blob)
       case Some(b) => Some(b.peers)
       case None => None)
    case _ => None
  }

  // ----- The abstract table

  type Table = map<int64, seq<PeerEntry>>

  function AbstractSave(t: Table, index: int64, peer: PeerEntry): Table {
    t[index := (if index in t then t[index] else []) + [peer]]
  }

  predicate Room(t: Table, index: int64) {
    index !in t || |t[index]| < MAX_BUCKET_SIZE
  }

  ghost predicate GoodPeers(peers: seq<PeerEntry>) {
    && 1 <= |peers| <= MAX_BUCKET_SIZE
    && (forall i :: 0 <= i < |peers| ==> EntryFits(peers[i]) && IsUtf8(peers[i].addr))
  }

  /** The blob under an index is the encoding of exactly the peers the table lists there. */
  ghost predicate BlobMatches(s: Store, t: Table, index: int64) {
    if index in t
    then GoodPeers(t[index])
      && Lookup(s, TableKey(index)) == Found(EncodedBucket(index, t[index]))
    else TableKey(index) !in s
  }

  ghost predicate Refines(s: Store, t: Table) {
    forall index :: BlobMatches(s, t, index)
  }

  ghost function EncodedBucket(index: int64, peers: seq<PeerEntry>): Bytes
    requires GoodPeers(peers)
  {
    EncodeBucket(KBucket(Truncate32(index), peers)).value
  }

  lemma GoodBucketRoundTrip(index: int64, peers: seq<PeerEntry>)
    requires GoodPeers(peers)
    ensures EncodeBucket(KBucket(Truncate32(index), peers)) == Some(EncodedBucket(index, peers))
    ensures DecodeBucket(EncodedBucket(index, peers)) == Some(KBucket(Truncate32(index), peers))
  {
    BucketRoundTrip(KBucket(Truncate32(index), peers));
  }

  /** A write to one index does not touch the others. */
  lemma PutKeepsOthers(s: Store, t: Table, index: int64, peers: seq<PeerEntry>, other: int64)
    requires BlobMatches(s, t, other) && index != other && GoodPeers(peers)
    ensures BlobMatches(s[TableKey(index) := EncodedBucket(index, peers)], t[index := peers], other)
  {
    if TableKey(index) == TableKey(other) {
      TableKeyInjective(index, other);
    }
  }

  /** A rejected save leaves the store as it was; an accepted one is an abstract append. */
  lemma SaveRefines(s: Store, t: Table, index: int64, peer: PeerEntry)
    requires Refines(s, t) && EntryFits(peer)
    ensures var r := SaveInBucket(s, index, peer);
            && (r.result == Saved <==> (index in t ==> |t[index]| < 20) && IsUtf8(peer.addr))
            && (r.result == Saved ==> Refines(r.store, AbstractSave(t, index, peer)))
            && (r.result != Saved ==> r.store == s)
            && (index in t && |t[index]| >= 20 ==> r.result == BucketFull)
  {
    hide EncodeBucket, DecodeBucket;
    assert BlobMatches(s, t, index);
    var before := if index in t then t[index] else [];
    var after := before + [peer];
    assert index !in t ==> after == [peer];
    if index in t {
      GoodBucketRoundTrip(index, before);
    }
    if Room(t, index) {
      if IsUtf8(peer.addr) {
        GoodBucketRoundTrip(index, after);
        var s' := s[TableKey(index) := EncodedBucket(index, after)];
        var t' := AbstractSave(t, index, peer);
        forall other ensures BlobMatches(s', t', other) {
          assert BlobMatches(s, t, other);
          if other != index {
            PutKeepsOthers(s, t, index, after, other);
          }
        }
      } else {
        NotUtf8Fails(KBucket(Truncate32(index), after), |before|);
      }
    }
  }

  /** A bucket that does not decode, or is full, is left as it is; reading the former fails. */
  lemma SaveRejects(s: Store, index: int64, peer: PeerEntry)
    requires TableKey(index) in s
    ensures var b, r := DecodeBucket(s[TableKey(index)]), SaveInBucket(s, index, peer);
            && (b == None ==> r == Saving(s, BadBlob) && PeersAt(s, index) == None)
            && (b.Some? && |b.value.peers| >= 20 ==> r == Saving(s, BucketFull))
            && (b.Some? && |b.value.peers| < 20 ==> r.result == Saved || r == Saving(s, NotUtf8))
  {
    hide EncodeBucket, DecodeBucket;
  }

  /** Whatever bucket is stored, its peers are what reading gives, and no bucket is an error. */
  lemma StoredBucketIsRead(s: Store, index: int64, b: KBucket)
    requires BucketFits(b) && BucketIsUtf8(b)
    ensures Lookup(s, TableKey(index)) == Found(EncodeBucket(b).value) ==> PeersAt(s, index) == Some(b.peers)
    ensures TableKey(index) !in s ==> PeersAt(s, index) == None
  {
    BucketRoundTrip(b);
  }

  lemma NotUtf8Fails(b: KBucket, i: nat)
    requires i < |b.peers| && !IsUtf8(b.peers[i].addr)
    ensures EncodeBucket(b) == None
  {
  }

  /** Reading an index gives exactly the peers the table lists there. */
  lemma PeersAtIsTable(s: Store, t: Table, index: int64)
    requires Refines(s, t)
    ensures PeersAt(s, index) == if index in t then Some(t[index]) else None
  {
    assert BlobMatches(s, t, index);
    if index in t {
      GoodBucketRoundTrip(index, t[index]);
    }
  }

  /** Saves to different indices commute, whatever the store holds. */
  lemma SavesCommute(s: Store, i: int64, p: PeerEntry, j: int64, q: PeerEntry)
    requires i != j
    ensures var a, b := SaveInBucket(s, i, p), SaveInBucket(s, j, q);
            && SaveInBucket(a.store, j, q).store == SaveInBucket(b.store, i, p).store
            && SaveInBucket(a.store, j, q).result == b.result
            && SaveInBucket(b.store, i, p).result == a.result
  {
    hide EncodeBucket, DecodeBucket;
    if TableKey(i) == TableKey(j) {
      TableKeyInjective(i, j);
    }
    var a, b := SaveInBucket(s, i, p), SaveInBucket(s, j, q);
    assert Lookup(a.store, TableKey(j)) == Lookup(s, TableKey(j));
    assert Lookup(b.store, TableKey(i)) == Lookup(s, TableKey(i));
  }

  // ----- The operations, when any storage operation may fail

  datatype SaveOutcome = Done | Rejected(why: SaveResult) | StorageFailed

  class RoutingTable {
    const storage: KeyValueStore

    constructor (storage: KeyValueStore)
      ensures this.storage == storage
    {
      this.storage := storage;
    }

    method SetInStorage(index: int64, data: Bytes) returns (ok: bool)
      modifies storage
      ensures storage.data == if ok then old(storage.data)[TableKey(index) := data] else old(storage.data)
      ensures storage.failures == old(storage.failures) + if ok then 0 else 1
    {
      var key := IntToKey(TablePrefix(), index);
      ok := storage.Set(key[..], data);
    }

    method GetFromStorage(index: int64) returns (r: Read)
      modifies storage`failures
      ensures if storage.failures == old(storage.failures) then r == Lookup(storage.data, TableKey(index))
              else storage.failures == old(storage.failures) + 1 && r == ReadError
    {
      var key := IntToKey(TablePrefix(), index);
      r := storage.Get(key[..]);
    }

    /** The peers of the stored bucket, or an error: a failed read, no bucket, or one that does not decode. */
    method GetPeers(index: int64) returns (peers: Option<seq<PeerEntry>>)
      modifies storage`failures
      ensures if storage.failures == old(storage.failures) then peers == PeersAt(storage.data, index)
              else storage.failures == old(storage.failures) + 1 && peers == None
    {
      var fromStorage := GetFromStorage(index);
      if !fromStorage.Found? {
        return None;
      }
      var bucket := DecodeBucket(fromStorage.value);
      if bucket == None {
        return None;
      }
      return Some(bucket.value.peers);
    }

    /** Unless the storage fails, the specified save happened, or nothing changed and the reason is returned. */
    method SaveInKBucket(index: int64, peer: PeerEntry) returns (outcome: SaveOutcome)
      modifies storage
      ensures storage.failures == old(storage.failures) ==>
                var r := SaveInBucket(old(storage.data), index, peer);
                storage.data == r.store && outcome == if r.result == Saved then Done else Rejected(r.result)
      ensures storage.failures != old(storage.failures) ==>
                && storage.failures == old(storage.failures) + 1
                && outcome == StorageFailed && storage.data == old(storage.data)
    {
      hide EncodeBucket, DecodeBucket;
      var bucket := GetFromStorage(index);
      if bucket == ReadError {
        return StorageFailed;
      }
      var kBucket := KBucket(Truncate32(index), []);
      if bucket == KeyNotFound {
        kBucket := kBucket.(peers := [peer]);
      } else {
        var decoded := DecodeBucket(bucket.value);
        if decoded == None {
          return Rejected(BadBlob);
        }
        kBucket := decoded.value;
        if |kBucket.peers| >= MAX_BUCKET_SIZE {
          return Rejected(BucketFull);
        }
        kBucket := kBucket.(peers := kBucket.peers + [peer]);
      }
      var marshalBucket := EncodeBucket(kBucket);
      if marshalBucket == None {
        return Rejected(NotUtf8);
      }
      var ok := SetInStorage(index, marshalBucket.value);
      outcome := if ok then Done else StorageFailed;
    }
  }
}
