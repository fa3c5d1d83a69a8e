/**
 * XOR distance, its order and the bucket it selects
 * (src/vpn/dht.rs, src/vpn/multihop.rs).
 */
module XorMetric {
  import opened ByteXor
  import opened Identity

  // ---------------------------------------------------------------------
  //  Byte strings as big-endian numbers
  // ---------------------------------------------------------------------

  function Pow256(n: nat): (p: nat)
    ensures p > 0
  {
    if n == 0 then 1 else 256 * Pow256(n - 1)
  }

  function Pow2(n: nat): (p: nat)
    ensures p > 0
  {
    if n == 0 then 1 else 2 * Pow2(n - 1)
  }

  lemma ShiftByOne(m: nat, p: nat, r: nat, x: nat)
    ensures (m * p + r) * 256 + x == m * (256 * p) + (r * 256 + x)
  {
    assert m * (256 * p) == 256 * (m * p);
  }

  /** A larger leading part outweighs whatever follows. */
  lemma LeadingPartDecides(x: nat, y: nat, p: nat, r: nat, q: nat)
    requires x < y && r < p
    ensures x * p + r < y * p + q
  {
    assert (y - x - 1) * p >= 0;
    assert y * p == (y - x - 1) * p + x * p + p;
  }

  lemma {:induction false} NumberBound(s: seq<byte>)
    ensures Number(s) < Pow256(|s|)
  {
    if s != [] {
      NumberBound(s[..|s| - 1]);
    }
  }

  lemma {:induction false} NumberSplit(s: seq<byte>, k: nat)
    requires k <= |s|
    ensures Number(s) == Number(s[..k]) * Pow256(|s| - k) + Number(s[k..])
    decreases |s| - k
  {
    if k == |s| {
      assert s[..k] == s;
    } else {
      var t := s[..|s| - 1];
      NumberSplit(t, k);
      assert t[..k] == s[..k] && s[k..][..|s[k..]| - 1] == t[k..];
      assert s[k..][|s[k..]| - 1] == s[|s| - 1];
      ShiftByOne(Number(s[..k]), Pow256(|t| - k), Number(t[k..]), s[|s| - 1]);
    }
  }

  lemma {:induction false} NumberInjective(a: seq<byte>, b: seq<byte>)
    requires |a| == |b| && Number(a) == Number(b)
    ensures a == b
  {
    if a != [] {
      var n := |a| - 1;
      assert a[n] == b[n];
      NumberInjective(a[..n], b[..n]);
      assert a == a[..n] + [a[n]] && b == b[..n] + [b[n]];
    }
  }

  /** The first difference decides. */
  lemma FirstDifferenceDecides(a: seq<byte>, b: seq<byte>, i: nat)
    requires |a| == |b| && i < |a| && a[..i] == b[..i] && a[i] < b[i]
    ensures Number(a) < Number(b)
  {
    NumberSplit(a, i + 1);
    NumberSplit(b, i + 1);
    NumberBound(a[i + 1..]);
    assert a[..i + 1][..i] == a[..i] && b[..i + 1][..i] == b[..i];
    LeadingPartDecides(Number(a[..i + 1]), Number(b[..i + 1]), Pow256(|a| - i - 1),
      Number(a[i + 1..]), Number(b[i + 1..]));
  }

  // ---------------------------------------------------------------------
  //  Distance
  // ---------------------------------------------------------------------

  function Xor(a: NodeId, b: NodeId): NodeId {
    seq(ID_LENGTH, i requires 0 <= i < ID_LENGTH => XorByte(a[i], b[i]))
  }

  function Distance(a: NodeId, b: NodeId): nat { Number(Xor(a, b)) }

  /** What the route manager keeps of a distance: its first 16 bytes. */
  function ShortDistance(a: NodeId, b: NodeId): nat { Number(Xor(a, b)[..16]) }

  lemma {:induction false} ZeroNumber(s: seq<byte>)
    ensures Number(s) == 0 <==> forall i | 0 <= i < |s| :: s[i] == 0
  {
    if s != [] {
      ZeroNumber(s[..|s| - 1]);
    }
  }

  /**
   * Each byte of a distance is the exclusive or of the two bytes in its place; exclusive or twice
   * gives the other id.
   */
  lemma XorIsBytewise(a: NodeId, b: NodeId)
    ensures forall i | 0 <= i < 32 :: Xor(a, b)[i] == ((a[i] as bv8) ^ (b[i] as bv8)) as int
    ensures Xor(a, Xor(a, b)) == b
  {
    var c := Xor(a, Xor(a, b));
    forall i | 0 <= i < ID_LENGTH
      ensures c[i] == b[i]
    {
      ByteXorTwice(a[i], b[i]);
    }
  }

  lemma DistanceIsSymmetric(a: NodeId, b: NodeId)
    ensures Distance(a, b) == Distance(b, a)
  {
    forall i | 0 <= i < ID_LENGTH
      ensures Xor(a, b)[i] == Xor(b, a)[i]
    {
      ByteXorSymmetric(a[i], b[i]);
    }
    assert Xor(a, b) == Xor(b, a);
  }

  lemma DistanceZero(a: NodeId, b: NodeId)
    ensures Distance(a, b) == 0 <==> a == b
  {
    var d := Xor(a, b);
    ZeroNumber(d);
    forall i | 0 <= i < ID_LENGTH
      ensures d[i] == 0 <==> a[i] == b[i]
    {
      ByteXorZero(a[i], b[i]);
    }
    if forall i | 0 <= i < |d| :: d[i] == 0 {
      assert forall i | 0 <= i < ID_LENGTH :: d[i] == 0 && a[i] == b[i];
      assert a == b;
    }
  }

  /** No two nodes are equally far from a target. */
  lemma DistanceIsInjective(t: NodeId, a: NodeId, b: NodeId)
    requires Distance(t, a) == Distance(t, b)
    ensures a == b
  {
    NumberInjective(Xor(t, a), Xor(t, b));
    forall i | 0 <= i < ID_LENGTH
      ensures a[i] == b[i]
    {
      assert Xor(t, a)[i] == Xor(t, b)[i];
      ByteXorInjective(t[i], a[i], b[i]);
    }
  }

  /** Truncating distances never reverses their order. */
  lemma ShortDistanceIsMonotone(a: NodeId, b: NodeId, t: NodeId)
    requires Distance(t, a) <= Distance(t, b)
    ensures ShortDistance(a, t) <= ShortDistance(b, t)
  {
    hide Xor, Number;
    DistanceIsSymmetric(t, a);
    DistanceIsSymmetric(t, b);
    var x, y := Xor(a, t), Xor(b, t);
    NumberSplit(x, 16);
    NumberSplit(y, 16);
    NumberBound(y[16..]);
    if Number(x[..16]) > Number(y[..16]) {
      LeadingPartDecides(Number(y[..16]), Number(x[..16]), Pow256(16), Number(y[16..]), Number(x[16..]));
    }
  }

  method XorDistance(a: NodeId, b: NodeId) returns (dist: NodeId)
    ensures dist == Xor(a, b)
  {
    var d: seq<byte> := ZERO_ID;
    for i := 0 to 32
      invariant |d| == ID_LENGTH && d[..i] == Xor(a, b)[..i]
    {
      d := d[i := XorByte(a[i], b[i])];
    }
    dist := d;
  }

  /** The shift by eight and the bitwise or are exact: 16 bytes fill a u128. */
  method XorDistanceU128(a: NodeId, b: NodeId) returns (dist: nat)
    ensures dist == ShortDistance(a, b) < Pow256(16)
  {
    dist := 0;
    var x := Xor(a, b);
    for i := 0 to 16
      invariant dist == Number(x[..i])
    {
      dist := dist * 256 + XorByte(a[i], b[i]);
      assert x[..i + 1][..i] == x[..i];
    }
    NumberBound(x[..16]);
  }

  datatype Ordering = Less | Equal | Greater

  /** Byte-wise comparison of two distances is comparison of the numbers they spell. */
  method CmpXor(a: NodeId, b: NodeId) returns (r: Ordering)
    ensures r == Less <==> Number(a) < Number(b)
    ensures r == Equal <==> a == b
    ensures r == Greater <==> Number(a) > Number(b)
  {
    for i := 0 to 32
      invariant a[..i] == b[..i]
    {
      if a[i] != b[i] {
        if a[i] < b[i] {
          FirstDifferenceDecides(a, b, i);
          return Less;
        } else {
          FirstDifferenceDecides(b, a, i);
          return Greater;
        }
      }
    }
    assert a == a[..32] && b == b[..32];
    return Equal;
  }

  // ---------------------------------------------------------------------
  //  Buckets
  // ---------------------------------------------------------------------

  const BUCKET_COUNT: nat := 256

  function LeadingZeros(b: byte): nat {
    if b >= 128 then 0 else if b >= 64 then 1 else if b >= 32 then 2 else if b >= 16 then 3
    else if b >= 8 then 4 else if b >= 4 then 5 else if b >= 2 then 6 else if b >= 1 then 7 else 8
  }

  /** The number of leading zero bits; a zero distance is put into the last bucket. */
  function BucketOf(d: seq<byte>): nat
    requires |d| <= ID_LENGTH
  {
    if d == [] then BUCKET_COUNT - 1
    else if d[0] != 0 then (ID_LENGTH - |d|) * 8 + LeadingZeros(d[0])
    else BucketOf(d[1..])
  }

  function BucketIndex(local: NodeId, target: NodeId): nat { BucketOf(Xor(local, target)) }

  method ComputeBucketIndex(local: NodeId, target: NodeId) returns (idx: nat)
    ensures idx == BucketIndex(local, target)
  {
    var xor := XorDistance(local, target);
    for i := 0 to 32
      invariant BucketOf(xor) == BucketOf(xor[i..])
    {
      if xor[i] != 0 {
        return i * 8 + LeadingZeros(xor[i]);
      }
      assert xor[i..][1..] == xor[i + 1..];
    }
    return BUCKET_COUNT - 1;
  }

  lemma ByteRange(b: byte)
    requires b != 0
    ensures LeadingZeros(b) <= 7
    ensures Pow2(7 - LeadingZeros(b)) <= b < 2 * Pow2(7 - LeadingZeros(b))
  {
    assert Pow2(0) == 1 && Pow2(1) == 2 && Pow2(2) == 4 && Pow2(3) == 8;
    assert Pow2(4) == 16 && Pow2(5) == 32 && Pow2(6) == 64 && Pow2(7) == 128;
  }

  lemma {:induction false} Pow2OfBytes(k: nat, n: nat)
    ensures Pow2(k) * Pow256(n) == Pow2(k + 8 * n)
  {
    if n > 0 {
      Pow2OfBytes(k, n - 1);
      EightDoublings(k + 8 * (n - 1));
      hide Pow2;
      Regroup(Pow2(k), Pow256(n - 1));
    }
  }

  lemma Regroup(p: nat, q: nat)
    ensures p * (256 * q) == 256 * (p * q)
  {
  }

  lemma EightDoublings(m: nat)
    ensures Pow2(m + 8) == 256 * Pow2(m)
  {
    assert Pow2(m + 2) == 2 * Pow2(m + 1) == 4 * Pow2(m);
    assert Pow2(m + 4) == 2 * Pow2(m + 3) == 4 * Pow2(m + 2);
    assert Pow2(m + 6) == 2 * Pow2(m + 5) == 4 * Pow2(m + 4);
    assert Pow2(m + 8) == 2 * Pow2(m + 7) == 4 * Pow2(m + 6);
  }

  lemma Band(q: nat, b: nat, p: nat, r: nat)
    requires q <= b < 2 * q && r < p
    ensures q * p <= b * p + r < 2 * (q * p)
  {
    Scale(q, b, p);
    Scale(b + 1, 2 * q, p);
    assert (b + 1) * p == b * p + p && (2 * q) * p == 2 * (q * p);
  }

  lemma {:induction false} Scale(x: nat, y: nat, p: nat)
    requires x <= y
    ensures x * p <= y * p
  {
    if p > 0 {
      Scale(x, y, p - 1);
      assert x * p == x * (p - 1) + x && y * p == y * (p - 1) + y;
    }
  }

  lemma HeadAndTail(d: seq<byte>)
    requires d != []
    ensures Number(d) == d[0] * Pow256(|d| - 1) + Number(d[1..])
    ensures Number(d[1..]) < Pow256(|d| - 1)
  {
    NumberSplit(d, 1);
    NumberBound(d[1..]);
    assert d[..1][..0] == [] && Number(d[..1]) == d[0];
  }

  lemma LeadingByteBounds(d: seq<byte>)
    requires 0 < |d| <= ID_LENGTH && d[0] != 0
    ensures var top := BUCKET_COUNT - 1 - BucketOf(d);
      0 <= top < BUCKET_COUNT && Pow2(top) <= Number(d) < 2 * Pow2(top)
  {
    hide Number, Pow2, Pow256, LeadingZeros;
    var n, z := |d| - 1, LeadingZeros(d[0]);
    HeadAndTail(d);
    ByteRange(d[0]);
    Pow2OfBytes(7 - z, n);
    Band(Pow2(7 - z), d[0], Pow256(n), Number(d[1..]));
  }

  lemma {:induction false} BucketBounds(d: seq<byte>)
    requires |d| <= ID_LENGTH && Number(d) != 0
    ensures var top := BUCKET_COUNT - 1 - BucketOf(d);
      0 <= top < BUCKET_COUNT && Pow2(top) <= Number(d) < 2 * Pow2(top)
  {
    if d[0] == 0 {
      HeadAndTail(d);
      BucketBounds(d[1..]);
    } else {
      LeadingByteBounds(d);
    }
  }

  /** Bucket i holds exactly the distances with i leading zero bits: 2^(255-i) <= d < 2^(256-i). */
  lemma BucketIsDistanceBand(local: NodeId, x: NodeId)
    requires x != local
    ensures var i := BucketIndex(local, x);
      i < BUCKET_COUNT && Pow2(BUCKET_COUNT - 1 - i) <= Distance(local, x) < 2 * Pow2(BUCKET_COUNT - 1 - i)
  {
    hide BucketOf, Xor, Pow2, Number;
    DistanceZero(local, x);
    BucketBounds(Xor(local, x));
  }

  lemma {:induction false} Pow2Grows(m: nat, n: nat)
    requires m < n
    ensures 2 * Pow2(m) <= Pow2(n)
  {
    if m + 1 < n {
      Pow2Grows(m, n - 1);
    }
  }

  /** A node in an earlier bucket is strictly farther than any node in a later one. */
  lemma EarlierBucketIsFarther(local: NodeId, x: NodeId, y: NodeId)
    requires x != local && y != local && BucketIndex(local, x) < BucketIndex(local, y)
    ensures Distance(local, x) > Distance(local, y)
  {
    BucketIsDistanceBand(local, x);
    BucketIsDistanceBand(local, y);
    Pow2Grows(BUCKET_COUNT - 1 - BucketIndex(local, y), BUCKET_COUNT - 1 - BucketIndex(local, x));
  }

  lemma {:induction false} Pow2Injective(m: nat, n: nat)
    requires Pow2(m) < 2 * Pow2(n) && Pow2(n) < 2 * Pow2(m)
    ensures m == n
  {
    if m < n {
      Pow2Grows(m, n);
    } else if n < m {
      Pow2Grows(n, m);
    }
  }

  /** Counting bits from the other end, bucket i for distances from 2^i on, is right for no node. */
  lemma OtherNumberingNeverFits(local: NodeId, x: NodeId)
    requires x != local
    ensures var i := BucketIndex(local, x); !(Pow2(i) <= Distance(local, x) < 2 * Pow2(i))
  {
    var i := BucketIndex(local, x);
    BucketIsDistanceBand(local, x);
    if Pow2(i) <= Distance(local, x) < 2 * Pow2(i) {
      Pow2Injective(i, BUCKET_COUNT - 1 - i);
    }
  }
}
