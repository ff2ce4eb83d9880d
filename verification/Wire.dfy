/**
 The Protocol Buffers wire format: "Base 128 Varints" and "Length-Delimited Records"
 of the Protocol Buffers encoding specification. A message is a sequence of records,
 so every message of the schema shares one serializer and one parser.
 */
module Wire {
  import opened Bytes

  /** One record: a field number with a value in one of the four non-group wire types. */
  datatype Field =
    | Varint(num: nat, value: nat)
    | Fixed64(num: nat, bits: Bytes)
    | Len(num: nat, data: Bytes)
    | Fixed32(num: nat, bits: Bytes)

  /** What the parser read, and whether it got to the end without an error. */
  datatype Parsed = Parsed(fields: seq<Field>, ok: bool)

  datatype Cut<T> = Cut(value: T, rest: Bytes) | Malformed

  const MAX_FIELD_NUMBER: nat := 0x1FFF_FFFF

  // ----- Base 128 varints

  function PutVarint(v: nat): (b: Bytes)
    ensures |b| > 0
  {
    if v < 128 then [v] else [v % 128 + 128] + PutVarint(v / 128)
  }

  /** Reads a varint of which `k` bytes were already consumed; ten bytes at most, 64 bits at most. */
  function GetVarint(b: Bytes, k: nat): (r: Cut<nat>)
    requires k <= 9
    ensures r.Cut? ==> |r.rest| < |b|
    decreases |b|
  {
    if |b| == 0 then Malformed
    else if b[0] < 128 then
      if k == 9 && b[0] > 1 then Malformed else Cut(b[0], b[1..])
    else if k == 9 then Malformed
    else
      match GetVarint(b[1..], k + 1)
      case Cut(high, rest) => Cut(high * 128 + (b[0] - 128), rest)
      case Malformed => Malformed
  }

  /** One more than the largest value the last `10 - k` bytes of a varint can carry. */
  function VarintLimit(k: nat): nat
    requires k <= 9
    decreases 9 - k
  {
    if k == 9 then 2 else 128 * VarintLimit(k + 1)
  }

  lemma VarintLimitIs64Bits()
    ensures VarintLimit(0) == TWO_64
  {
    assert VarintLimit(8) == 128 * 2;
    assert VarintLimit(7) == 128 * VarintLimit(8);
    assert VarintLimit(6) == 128 * VarintLimit(7);
    assert VarintLimit(5) == 128 * VarintLimit(6);
    assert VarintLimit(4) == 128 * VarintLimit(5);
    assert VarintLimit(3) == 128 * VarintLimit(4);
    assert VarintLimit(2) == 128 * VarintLimit(3);
    assert VarintLimit(1) == 128 * VarintLimit(2);
  }

  lemma {:induction false} VarintRoundTripFrom(v: nat, k: nat, rest: Bytes)
    requires k <= 9 && v < VarintLimit(k)
    ensures GetVarint(PutVarint(v) + rest, k) == Cut(v, rest)
    decreases 9 - k
  {
    var b := PutVarint(v) + rest;
    if v < 128 {
      assert b[1..] == rest;
    } else {
      assert b[1..] == PutVarint(v / 128) + rest;
      VarintRoundTripFrom(v / 128, k + 1, rest);
    }
  }

  /** What is read as a varint fits in 64 bits; anything longer is malformed. */
  lemma {:induction false} VarintFits(b: Bytes, k: nat)
    requires k <= 9 && GetVarint(b, k).Cut?
    ensures GetVarint(b, k).value < VarintLimit(k)
    ensures k == 0 ==> GetVarint(b, k).value < 0x1_0000_0000_0000_0000
    decreases 9 - k
  {
    VarintLimitIs64Bits();
    if b[0] >= 128 {
      VarintFits(b[1..], k + 1);
    } else {
      VarintLimitGrows(k);
    }
  }

  lemma {:induction false} VarintLimitGrows(k: nat)
    requires k <= 9
    ensures if k == 9 then VarintLimit(k) == 2 else VarintLimit(k) >= 128
    decreases 9 - k
  {
    if k < 9 {
      VarintLimitGrows(k + 1);
    }
  }

  lemma VarintRoundTrip(v: nat, rest: Bytes)
    requires v < TWO_64
    ensures GetVarint(PutVarint(v) + rest, 0) == Cut(v, rest)
  {
    VarintLimitIs64Bits();
    VarintRoundTripFrom(v, 0, rest);
  }

  // ----- Records

  function WireType(f: Field): nat {
    match f
    case Varint(_, _) => 0
    case Fixed64(_, _) => 1
    case Len(_, _) => 2
    case Fixed32(_, _) => 5
  }

  function PutField(f: Field): (b: Bytes)
    ensures |b| > 0
  {
    PutVarint(f.num * 8 + WireType(f)) +
    match f
    case Varint(_, v) => PutVarint(v)
    case Fixed64(_, bits) => bits
    case Len(_, data) => PutVarint(|data|) + data
    case Fixed32(_, bits) => bits
  }

  function Take(b: Bytes, n: nat): (r: Cut<Bytes>)
    ensures r.Cut? ==> |r.rest| <= |b|
  {
    if |b| < n then Malformed else Cut(b[..n], b[n..])
  }

  /** The value of a record whose tag was just read. */
  function GetValue(num: nat, wireType: nat, b: Bytes): (r: Cut<Field>)
    ensures r.Cut? ==> |r.rest| <= |b|
  {
    if wireType == 0 then
      match GetVarint(b, 0)
      case Cut(v, rest) => Cut(Varint(num, v), rest)
      case Malformed => Malformed
    else if wireType == 1 then
      match Take(b, 8)
      case Cut(bits, rest) => Cut(Fixed64(num, bits), rest)
      case Malformed => Malformed
    else if wireType == 2 then
      match GetVarint(b, 0) {
        case Cut(n, rest) =>
          (match Take(rest, n)
           case Cut(data, rest') => Cut(Len(num, data), rest')
           case Malformed => Malformed)
        case Malformed => Malformed
      }
    else if wireType == 5 then
      match Take(b, 4)
      case Cut(bits, rest) => Cut(Fixed32(num, bits), rest)
      case Malformed => Malformed
    else Malformed
  }

  function GetField(b: Bytes): (r: Cut<Field>)
    ensures r.Cut? ==> |r.rest| < |b|
  {
    match GetVarint(b, 0)
    case Malformed => Malformed
    case Cut(tag, rest) =>
      if 1 <= tag / 8 <= MAX_FIELD_NUMBER then GetValue(tag / 8, tag % 8, rest) else Malformed
  }

  /** The records a serialized message may hold. */
  predicate Encodable(f: Field) {
    1 <= f.num <= MAX_FIELD_NUMBER &&
    match f
    case Varint(_, v) => v < TWO_64
    case Fixed64(_, bits) => |bits| == 8
    case Len(_, data) => |data| < TWO_64
    case Fixed32(_, bits) => |bits| == 4
  }

  /** A record is only read with a field number the format allows, from a tag of 64 bits at most. */
  lemma FieldNumbersAreValid(b: Bytes)
    requires GetField(b).Cut?
    ensures 1 <= GetField(b).value.num <= 0x1FFF_FFFF
    ensures GetField(b).value.Varint? ==> GetField(b).value.value < 0x1_0000_0000_0000_0000
  {
    hide GetVarint;
    var tag := GetVarint(b, 0);
    if tag.value % 8 == 0 {
      VarintFits(tag.rest, 0);
    }
  }

  lemma FieldRoundTrip(f: Field, rest: Bytes)
    requires Encodable(f)
    ensures GetField(PutField(f) + rest) == Cut(f, rest)
  {
    var tag := f.num * 8 + WireType(f);
    var value := match f
      case Varint(_, v) => PutVarint(v)
      case Fixed64(_, bits) => bits
      case Len(_, data) => PutVarint(|data|) + data
      case Fixed32(_, bits) => bits;
    assert PutField(f) + rest == PutVarint(tag) + (value + rest);
    VarintRoundTrip(tag, value + rest);
    assert tag / 8 == f.num && tag % 8 == WireType(f);
    ValueRoundTrip(f, rest);
  }

  /** The largest field number of the format, 2^29 - 1, is one that can be read. */
  lemma LargestFieldNumber(v: nat, rest: Bytes)
    requires v < 0x1_0000_0000_0000_0000
    ensures GetField(PutField(Varint(0x1FFF_FFFF, v)) + rest) == Cut(Varint(0x1FFF_FFFF, v), rest)
  {
    FieldRoundTrip(Varint(0x1FFF_FFFF, v), rest);
  }

  lemma ValueRoundTrip(f: Field, rest: Bytes)
    requires Encodable(f)
    ensures GetValue(f.num, WireType(f),
              (match f
               case Varint(_, v) => PutVarint(v)
               case Fixed64(_, bits) => bits
               case Len(_, data) => PutVarint(|data|) + data
               case Fixed32(_, bits) => bits) + rest) == Cut(f, rest)
  {
    match f
    case Varint(_, v) => VarintRoundTrip(v, rest);
    case Fixed64(_, bits) =>
      assert (bits + rest)[..8] == bits && (bits + rest)[8..] == rest;
    case Fixed32(_, bits) =>
      assert (bits + rest)[..4] == bits && (bits + rest)[4..] == rest;
    case Len(_, data) =>
      VarintRoundTrip(|data|, data + rest);
      assert PutVarint(|data|) + data + rest == PutVarint(|data|) + (data + rest);
      assert (data + rest)[..|data|] == data && (data + rest)[|data|..] == rest;
  }

  // ----- Messages

  function PutFields(fs: seq<Field>): Bytes {
    if |fs| == 0 then [] else PutField(fs[0]) + PutFields(fs[1..])
  }

  /** Reads records until the input ends or one of them is malformed; keeps those read before the error. */
  function GetFields(b: Bytes): (r: Parsed)
    decreases |b|
  {
    if |b| == 0 then Parsed([], true)
    else
      match GetField(b)
      case Malformed => Parsed([], false)
      case Cut(f, rest) =>
        var tail := GetFields(rest);
        Parsed([f] + tail.fields, tail.ok)
  }

  lemma {:induction false} FieldsRoundTrip(fs: seq<Field>)
    requires forall i :: 0 <= i < |fs| ==> Encodable(fs[i])
    ensures GetFields(PutFields(fs)) == Parsed(fs, true)
  {
    if |fs| > 0 {
      FieldRoundTrip(fs[0], PutFields(fs[1..]));
      FieldsRoundTrip(fs[1..]);
      assert [fs[0]] + fs[1..] == fs;
    }
  }

  // ----- Merging records into a message

  function Fold<T>(merge: (T, Field) -> T, start: T, fs: seq<Field>): T {
    if |fs| == 0 then start else Fold(merge, merge(start, fs[0]), fs[1..])
  }

  lemma {:induction false} FoldAppend<T>(merge: (T, Field) -> T, start: T, a: seq<Field>, b: seq<Field>)
    ensures Fold(merge, start, a + b) == Fold(merge, Fold(merge, start, a), b)
    decreases |a|
  {
    if |a| == 0 {
      assert a + b == b;
    } else {
      FoldAppend(merge, merge(start, a[0]), a[1..], b);
      assert (a + b)[1..] == a[1..] + b;
    }
  }

  /** Folding follows any list of states in which each record takes one state to the next. */
  lemma {:induction false} FoldThrough<T>(merge: (T, Field) -> T, states: seq<T>, fs: seq<Field>)
    requires |states| == |fs| + 1
    requires forall i :: 0 <= i < |fs| ==> merge(states[i], fs[i]) == states[i + 1]
    ensures Fold(merge, states[0], fs) == states[|fs|]
    decreases |fs|
  {
    if |fs| > 0 {
      assert merge(states[0], fs[0]) == states[1..][0];
      FoldThrough(merge, states[1..], fs[1..]);
    }
  }
}
