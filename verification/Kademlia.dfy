/** The XOR metric on 256-bit peer IDs and the bucket index derived from it. */
module Kademlia {
  import opened Bytes

  const ID_LENGTH: nat := 32

  type PeerID = Digest

  function Pow2(n: nat): (r: nat)
    ensures r > 0
  {
    if n == 0 then 1 else 2 * Pow2(n - 1)
  }

  /** Bitwise exclusive or. */
  function Xor(a: nat, b: nat): nat {
    if a == 0 && b == 0 then 0
    else (if a % 2 == b % 2 then 0 else 1) + 2 * Xor(a / 2, b / 2)
  }

  /** The number of zero bits above the highest one bit of the `width`-bit number `v`. */
  function LeadingZeros(v: nat, width: nat): (z: nat)
    ensures z <= width
  {
    if width == 0 || v >= Pow2(width - 1) then 0 else 1 + LeadingZeros(v, width - 1)
  }

  /** The XOR of two IDs, read as a big-endian number. */
  function Distance(a: PeerID, b: PeerID): nat {
    Xor(FromBigEndian(a), FromBigEndian(b))
  }

  /** The bucket a remote ID falls into: the shared prefix length, at most 255. */
  function BucketIndex(local: PeerID, remote: PeerID): (index: nat)
    ensures index <= 255
  {
    var z := LeadingZeros(Distance(local, remote), 256);
    if z == 256 then 255 else z
  }

  /** `v` without its low `m` bits. */
  function ShiftRight(v: nat, m: nat): nat {
    if m == 0 then v else ShiftRight(v / 2, m - 1)
  }

  /** The value the first `k` bits of an ID spell. */
  function Prefix(id: PeerID, k: nat): nat
    requires k <= 256
  {
    ShiftRight(FromBigEndian(id), 256 - k)
  }

  /** The `j`-th bit of an ID, most significant first. */
  function Bit(id: PeerID, j: nat): nat
    requires j < 256
  {
    ShiftRight(FromBigEndian(id), 255 - j) % 2
  }

  // ----- Arithmetic

  lemma {:induction false} Pow2Monotone(m: nat, n: nat)
    requires m <= n
    ensures Pow2(m) <= Pow2(n)
    decreases n - m
  {
    if m < n {
      Pow2Monotone(m, n - 1);
    }
  }

  /** Dropping `m` bits of a number divides its place among the powers of two by 2^m. */
  lemma {:induction false} ShiftBelow(v: nat, m: nat, n: nat)
    ensures ShiftRight(v, m) < Pow2(n) <==> v < Pow2(m + n)
  {
    if m > 0 {
      ShiftBelow(v / 2, m - 1, n);
      assert Pow2(m + n) == 2 * Pow2(m - 1 + n);
    }
  }

  lemma {:induction false} ShiftTwice(v: nat, m: nat, n: nat)
    ensures ShiftRight(ShiftRight(v, m), n) == ShiftRight(v, m + n)
  {
    if m > 0 {
      ShiftTwice(v / 2, m - 1, n);
    }
  }

  lemma ShiftByOne(v: nat)
    ensures ShiftRight(v, 1) == v / 2
  {
    assert ShiftRight(v / 2, 0) == v / 2;
  }

  lemma ShiftByEight(x: nat, y: byte)
    ensures ShiftRight(256 * x + y, 8) == x
  {
    var v := 256 * x + y;
    ShiftTwice(v, 4, 4);
    ShiftByFour(v);
    ShiftByFour(16 * x + y / 16);
  }

  lemma ShiftByFour(v: nat)
    ensures ShiftRight(v, 4) == v / 16
  {
    hide ShiftRight;
    ShiftTwice(v, 2, 2);
    ShiftTwice(v, 1, 1);
    ShiftTwice(v / 4, 1, 1);
    ShiftByOne(v);
    ShiftByOne(v / 2);
    ShiftByOne(v / 4);
    ShiftByOne(v / 4 / 2);
  }

  lemma {:induction false} XorZero(a: nat, b: nat)
    ensures Xor(a, b) == 0 <==> a == b
    decreases a + b
  {
    if a != 0 || b != 0 {
      XorZero(a / 2, b / 2);
    }
  }

  lemma {:induction false} XorSymmetric(a: nat, b: nat)
    ensures Xor(a, b) == Xor(b, a)
    decreases a + b
  {
    if a != 0 || b != 0 {
      XorSymmetric(a / 2, b / 2);
    }
  }

  /** Dropping the low bits commutes with exclusive or. */
  lemma {:induction false} XorShift(a: nat, b: nat, m: nat)
    ensures ShiftRight(Xor(a, b), m) == Xor(ShiftRight(a, m), ShiftRight(b, m))
  {
    if m > 0 {
      assert Xor(a, b) / 2 == Xor(a / 2, b / 2);
      XorShift(a / 2, b / 2, m - 1);
    }
  }

  /** An exclusive or is below 2^m exactly when everything above the low m bits agrees. */
  lemma XorBelow(a: nat, b: nat, m: nat)
    ensures Xor(a, b) < Pow2(m) <==> ShiftRight(a, m) == ShiftRight(b, m)
  {
    XorShift(a, b, m);
    XorZero(ShiftRight(a, m), ShiftRight(b, m));
    ShiftBelow(Xor(a, b), m, 0);
  }

  lemma {:induction false} LeadingZerosBound(v: nat, width: nat)
    requires v < Pow2(width)
    ensures var z := LeadingZeros(v, width);
            (v == 0 <==> z == width) && v < Pow2(width - z) && (z < width ==> Pow2(width - z - 1) <= v)
  {
    if width > 0 && v < Pow2(width - 1) {
      LeadingZerosBound(v, width - 1);
    }
  }

  lemma {:induction false} Pow256IsPow2(n: nat)
    ensures Pow256(n) == Pow2(8 * n)
  {
    if n > 0 {
      Pow256IsPow2(n - 1);
      var m := 8 * (n - 1);
      assert Pow2(m + 2) == 4 * Pow2(m);
      assert Pow2(m + 4) == 4 * Pow2(m + 2);
      assert Pow2(m + 6) == 4 * Pow2(m + 4);
      assert Pow2(m + 8) == 4 * Pow2(m + 6);
    }
  }

  lemma Pow2Zero()
    ensures Pow2(0) == 1
  {
  }

  lemma IdBelow(id: PeerID)
    ensures ShiftRight(FromBigEndian(id), 256) == 0
  {
    hide Pow2, Pow256, ShiftRight;
    ToFromBigEndian(id);
    Pow256IsPow2(32);
    ShiftBelow(FromBigEndian(id), 256, 0);
    Pow2Zero();
  }

  lemma DistanceBound(a: PeerID, b: PeerID)
    ensures Distance(a, b) < Pow2(256)
    ensures Distance(a, b) == 0 <==> a == b
  {
    IdBelow(a);
    IdBelow(b);
    XorBelow(FromBigEndian(a), FromBigEndian(b), 256);
    XorZero(FromBigEndian(a), FromBigEndian(b));
    ToFromBigEndian(a);
    ToFromBigEndian(b);
  }

  // ----- What the index means

  /** The index of two distinct IDs locates their distance between two powers of two. */
  lemma IndexArithmetic(a: PeerID, b: PeerID)
    ensures var i := BucketIndex(a, b);
            (a != b ==> Pow2(255 - i) <= Distance(a, b) < Pow2(256 - i)) && (a == b ==> i == 255)
  {
    hide Pow2, Distance, LeadingZeros;
    DistanceBound(a, b);
    LeadingZerosBound(Distance(a, b), 256);
  }

  /** The index reaches `k` exactly when the first `k` bits agree. */
  lemma IndexIsSharedPrefix(a: PeerID, b: PeerID, k: nat)
    requires k <= 255
    ensures BucketIndex(a, b) >= k <==> Prefix(a, k) == Prefix(b, k)
  {
    hide Pow2, ShiftRight, Xor;
    var i := BucketIndex(a, b);
    XorBelow(FromBigEndian(a), FromBigEndian(b), 256 - k);
    IndexArithmetic(a, b);
    if a != b {
      if i >= k {
        Pow2Monotone(256 - i, 256 - k);
      } else {
        Pow2Monotone(256 - k, 255 - i);
      }
    }
  }

  /** One more bit of prefix. */
  lemma PrefixStep(id: PeerID, k: nat)
    requires k < 256
    ensures Prefix(id, k + 1) == 2 * Prefix(id, k) + Bit(id, k)
  {
    var v := FromBigEndian(id);
    ShiftTwice(v, 255 - k, 1);
    ShiftByOne(ShiftRight(v, 255 - k));
  }

  lemma {:induction false} PrefixIsBits(a: PeerID, b: PeerID, k: nat)
    requires k <= 256
    ensures Prefix(a, k) == Prefix(b, k) <==> forall j :: 0 <= j < k ==> Bit(a, j) == Bit(b, j)
  {
    if k == 0 {
      IdBelow(a);
      IdBelow(b);
    } else {
      PrefixIsBits(a, b, k - 1);
      PrefixStep(a, k - 1);
      PrefixStep(b, k - 1);
    }
  }

  /** For distinct IDs the index is the length of their common prefix in bits. */
  lemma IndexIsCommonPrefixLength(a: PeerID, b: PeerID)
    requires a != b
    ensures var i := BucketIndex(a, b);
            (forall j :: 0 <= j < i ==> Bit(a, j) == Bit(b, j)) && Bit(a, i) != Bit(b, i)
  {
    hide Pow2, ShiftRight, Xor;
    var i := BucketIndex(a, b);
    IndexIsSharedPrefix(a, b, i);
    PrefixIsBits(a, b, i);
    PrefixIsBits(a, b, i + 1);
    IndexArithmetic(a, b);
    XorBelow(FromBigEndian(a), FromBigEndian(b), 255 - i);
  }

  // ----- Metric laws

  lemma IndexSymmetric(a: PeerID, b: PeerID)
    ensures BucketIndex(a, b) == BucketIndex(b, a)
  {
    XorSymmetric(FromBigEndian(a), FromBigEndian(b));
  }

  /** The index is an ultrametric: of three IDs, the two smallest indices are equal. */
  lemma IndexUltrametric(a: PeerID, b: PeerID, c: PeerID)
    ensures var ab, bc, ac := BucketIndex(a, b), BucketIndex(b, c), BucketIndex(a, c);
            ac >= (if ab < bc then ab else bc) && (ab != bc ==> ac == if ab < bc then ab else bc)
  {
    var ab, bc, ac := BucketIndex(a, b), BucketIndex(b, c), BucketIndex(a, c);
    var m := if ab < bc then ab else bc;
    IndexIsSharedPrefix(a, b, m);
    IndexIsSharedPrefix(b, c, m);
    IndexIsSharedPrefix(a, c, m);
    if ab != bc {
      IndexIsSharedPrefix(a, b, m + 1);
      IndexIsSharedPrefix(b, c, m + 1);
      IndexIsSharedPrefix(a, c, m + 1);
    }
  }

  /** A peer in a higher bucket is strictly closer than any peer in a lower one. */
  lemma HigherBucketIsCloser(self: PeerID, near: PeerID, far: PeerID)
    requires BucketIndex(self, near) > BucketIndex(self, far)
    ensures Distance(self, near) < Distance(self, far)
  {
    IndexArithmetic(self, near);
    IndexArithmetic(self, far);
    if near == self {
      DistanceBound(self, near);
    } else {
      Pow2Monotone(256 - BucketIndex(self, near), 255 - BucketIndex(self, far));
    }
  }

  // ----- The loop

  lemma {:induction false} BigEndianPrefix(b: Bytes, n: nat)
    requires n <= |b|
    ensures ShiftRight(FromBigEndian(b), 8 * n) == FromBigEndian(b[..|b| - n])
  {
    if n == 0 {
      assert b[..|b|] == b;
    } else {
      var front := b[..|b| - 1];
      BigEndianPrefix(front, n - 1);
      assert front[..|front| - (n - 1)] == b[..|b| - n];
      ShiftByEight(FromBigEndian(front), b[|b| - 1]);
      ShiftTwice(FromBigEndian(b), 8, 8 * (n - 1));
    }
  }

  function ShiftLeft(v: nat, m: nat): nat {
    if m == 0 then v else 2 * ShiftLeft(v, m - 1)
  }

  lemma XorHalves(a: nat, b: nat)
    ensures Xor(a, b) == (if a % 2 == b % 2 then 0 else 1) + 2 * Xor(a / 2, b / 2)
  {
  }

  lemma {:induction false} XorSameHigh(p: nat, m: nat, x: nat, y: nat)
    requires x < Pow2(m) && y < Pow2(m)
    ensures Xor(ShiftLeft(p, m) + x, ShiftLeft(p, m) + y) == Xor(x, y)
  {
    hide Xor;
    if m == 0 {
      XorZero(p, p);
      XorZero(0, 0);
    } else {
      var half := ShiftLeft(p, m - 1);
      XorHalves(2 * half + x, 2 * half + y);
      XorHalves(x, y);
      HalvesOfShifted(half, x);
      HalvesOfShifted(half, y);
      XorSameHigh(p, m - 1, x / 2, y / 2);
    }
  }

  lemma HalvesOfShifted(half: nat, x: nat)
    ensures (2 * half + x) / 2 == half + x / 2 && (2 * half + x) % 2 == x % 2
  {
  }

  lemma XorSameBytes(p: nat, x: byte, y: byte)
    ensures Xor(256 * p + x, 256 * p + y) == Xor(x, y)
  {
    Pow256IsPow2(1);
    assert ShiftLeft(p, 2) == 2 * ShiftLeft(p, 1) == 4 * p;
    assert ShiftLeft(p, 4) == 2 * ShiftLeft(p, 3) == 4 * ShiftLeft(p, 2);
    assert ShiftLeft(p, 8) == 2 * ShiftLeft(p, 7) == 4 * ShiftLeft(p, 6) == 16 * ShiftLeft(p, 4);
    XorSameHigh(p, 8, x, y);
  }

  /** The first differing byte decides the distance down to its own lowest bit. */
  lemma FirstDifference(a: PeerID, b: PeerID, i: nat)
    requires i < ID_LENGTH && a[..i] == b[..i]
    ensures ShiftRight(Distance(a, b), 8 * (31 - i)) == Xor(a[i], b[i])
  {
    hide ShiftRight, Xor;
    var n := 31 - i;
    BigEndianPrefix(a, n);
    BigEndianPrefix(b, n);
    XorShift(FromBigEndian(a), FromBigEndian(b), 8 * n);
    assert a[..i + 1][..i] == a[..i] && b[..i + 1][..i] == b[..i];
    XorSameBytes(FromBigEndian(a[..i]), a[i], b[i]);
  }

  /** A number between two adjacent powers of two has just that many leading zeros. */
  lemma {:induction false} LeadingZerosOf(v: nat, width: nat, z: nat)
    requires z < width && Pow2(width - z - 1) <= v < Pow2(width - z)
    ensures LeadingZeros(v, width) == z
  {
    if z > 0 {
      Pow2Monotone(width - z, width - 1);
      LeadingZerosOf(v, width - 1, z - 1);
    }
  }

  lemma IndexOfFirstDifference(a: PeerID, b: PeerID, i: nat)
    requires i < ID_LENGTH && a[..i] == b[..i] && Xor(a[i], b[i]) != 0
    ensures BucketIndex(a, b) == i * 8 + LeadingZeros(Xor(a[i], b[i]), 8)
  {
    hide Pow2, ShiftRight, Xor;
    var x := Xor(a[i], b[i]);
    var z, low := LeadingZeros(x, 8), 8 * (31 - i);
    FirstDifference(a, b, i);
    ByteXor(a[i], b[i]);
    LeadingZerosBound(x, 8);
    ShiftBelow(Distance(a, b), low, 7 - z);
    ShiftBelow(Distance(a, b), low, 8 - z);
    assert low + 7 - z == 256 - (8 * i + z) - 1 && low + 8 - z == 256 - (8 * i + z);
    LeadingZerosOf(Distance(a, b), 256, 8 * i + z);
  }

  lemma ByteXor(x: byte, y: byte)
    ensures Xor(x, y) < Pow2(8)
  {
    Pow256IsPow2(1);
    ShiftBelow(x, 8, 0);
    ShiftBelow(y, 8, 0);
    XorBelow(x, y, 8);
  }

  method GetBucketIndex(localID: PeerID, remoteID: PeerID) returns (index: nat)
    ensures index == BucketIndex(localID, remoteID)
  {
    for i := 0 to ID_LENGTH
      invariant localID[..i] == remoteID[..i]
    {
      var xor := Xor(localID[i], remoteID[i]);
      if xor != 0 {
        IndexOfFirstDifference(localID, remoteID, i);
        return i * 8 + LeadingZeros(xor, 8);
      }
      XorZero(localID[i], remoteID[i]);
    }
    assert localID == remoteID;
    IndexArithmetic(localID, remoteID);
    return ID_LENGTH * 8 - 1;
  }
}
