/** Addresses and the XOR metric on them. */
module Addresses {
  import opened Text

  type Address = a: Bytes | |a| == 20 witness seq(20, _ => 0)

  // ----- bits of a byte

  function Pow2(n: nat): (p: nat)
    ensures p > 0
  {
    if n == 0 then 1 else 2 * Pow2(n - 1)
  }

  /** `b >> i`. */
  function Shift(b: nat, i: nat): nat
    decreases i
  {
    if i == 0 then b else Shift(b / 2, i - 1)
  }

  /** `(b >> i) & 1`. */
  function Bit(b: nat, i: nat): (r: nat)
    ensures r < 2
  {
    Shift(b, i) % 2
  }

  function XorBit(a: nat, b: nat): (r: nat)
    ensures r < 2
  {
    if a % 2 == b % 2 then 0 else 1
  }

  /** `a ^ b` on `k`-bit numbers. */
  function XorBits(a: nat, b: nat, k: nat): nat
    decreases k
  {
    if k == 0 then 0 else XorBit(a, b) + 2 * XorBits(a / 2, b / 2, k - 1)
  }

  lemma Halve(x: nat)
    ensures x == 2 * (x / 2) + x % 2
  {
  }

  lemma XorBitsStep(a: nat, b: nat, k: nat)
    requires k > 0
    ensures XorBits(a, b, k) / 2 == XorBits(a / 2, b / 2, k - 1) && XorBits(a, b, k) % 2 == XorBit(a, b)
  {
    var y := XorBits(a / 2, b / 2, k - 1);
    assert XorBits(a, b, k) == XorBit(a, b) + 2 * y;
  }

  lemma {:induction false} XorBitsBounds(a: nat, b: nat, k: nat)
    ensures XorBits(a, b, k) < Pow2(k) && XorBits(a, b, k) <= a + b
    decreases k
  {
    if k > 0 {
      XorBitsBounds(a / 2, b / 2, k - 1);
      Halve(a);
      Halve(b);
    }
  }

  lemma {:induction false} XorBitsSymmetric(a: nat, b: nat, k: nat)
    ensures XorBits(a, b, k) == XorBits(b, a, k)
    decreases k
  {
    if k > 0 {
      XorBitsSymmetric(a / 2, b / 2, k - 1);
    }
  }

  lemma {:induction false} XorBitsZero(a: nat, b: nat, k: nat)
    requires a < Pow2(k) && b < Pow2(k)
    ensures XorBits(a, b, k) == 0 <==> a == b
    decreases k
  {
    if k > 0 {
      Halve(a);
      Halve(b);
      XorBitsZero(a / 2, b / 2, k - 1);
    }
  }

  lemma {:induction false} XorBitsChain(a: nat, b: nat, c: nat, k: nat)
    ensures XorBits(a, c, k) == XorBits(XorBits(a, b, k), XorBits(b, c, k), k)
    decreases k
  {
    if k > 0 {
      XorBitsChain(a / 2, b / 2, c / 2, k - 1);
      XorBitsStep(a, b, k);
      XorBitsStep(b, c, k);
    }
  }

  lemma {:induction false} BitOfXor(a: nat, b: nat, k: nat, i: nat)
    requires i < k
    ensures Bit(XorBits(a, b, k), i) == XorBit(Bit(a, i), Bit(b, i))
    decreases k
  {
    XorBitsStep(a, b, k);
    if i > 0 {
      BitOfXor(a / 2, b / 2, k - 1, i - 1);
    }
  }

  lemma {:induction false} ShiftNext(b: nat, i: nat)
    ensures Shift(b, i) / 2 == Shift(b, i + 1)
    decreases i
  {
    if i > 0 {
      ShiftNext(b / 2, i - 1);
    }
  }

  // ----- distances

  function XorByte(a: Byte, b: Byte): (r: Byte) {
    XorBitsBounds(a, b, 8);
    Pow2Eight();
    XorBits(a, b, 8)
  }

  lemma Pow2Eight()
    ensures Pow2(8) == 256
  {
    assert Pow2(4) == 16;
  }

  /** The distance between two strings of the same length. */
  function Distance(a: Bytes, b: Bytes): (d: Bytes)
    requires |a| == |b|
    ensures |d| == |a|
  {
    seq(|a|, i requires 0 <= i < |a| => XorByte(a[i], b[i]))
  }

  /** Address.Xor. It indexes the other address by the length of this one. */
  method Xor(a: Bytes, b: Bytes) returns (d: Bytes)
    requires |a| <= |b|
    ensures d == Distance(a, b[..|a|])
  {
    hide XorByte;
    var ret := new Byte[|a|];
    for i := 0 to |a|
      invariant forall j :: 0 <= j < i ==> ret[j] == XorByte(a[j], b[j])
    {
      ret[i] := XorByte(a[i], b[i]);
    }
    d := ret[..];
  }

  /** The big-endian number a byte string denotes. */
  function Value(a: Bytes): nat {
    if a == [] then 0 else 256 * Value(a[..|a| - 1]) + a[|a| - 1]
  }

  lemma XorByteZero(a: Byte, b: Byte)
    ensures XorByte(a, b) == 0 <==> a == b
  {
    Pow2Eight();
    XorBitsZero(a, b, 8);
  }

  lemma {:induction false} DistanceZero(a: Bytes, b: Bytes)
    requires |a| == |b|
    ensures Value(Distance(a, b)) == 0 <==> a == b
  {
    hide XorByte;
    if a != [] {
      var n := |a| - 1;
      DistanceZero(a[..n], b[..n]);
      assert Distance(a, b)[..n] == Distance(a[..n], b[..n]);
      XorByteZero(a[n], b[n]);
      assert a == a[..n] + [a[n]] && b == b[..n] + [b[n]];
    }
  }

  lemma DistanceSymmetric(a: Bytes, b: Bytes)
    requires |a| == |b|
    ensures Distance(a, b) == Distance(b, a)
  {
    forall i | 0 <= i < |a|
      ensures Distance(a, b)[i] == Distance(b, a)[i]
    {
      XorBitsSymmetric(a[i], b[i], 8);
    }
  }

  lemma DistanceChain(a: Bytes, b: Bytes, c: Bytes)
    requires |a| == |b| == |c|
    ensures Distance(a, c) == Distance(Distance(a, b), Distance(b, c))
  {
    forall i | 0 <= i < |a|
      ensures Distance(a, c)[i] == Distance(Distance(a, b), Distance(b, c))[i]
    {
      XorBitsChain(a[i], b[i], c[i], 8);
    }
  }

  lemma {:induction false} DistanceAtMostSum(x: Bytes, y: Bytes)
    requires |x| == |y|
    ensures Value(Distance(x, y)) <= Value(x) + Value(y)
  {
    if x != [] {
      var n := |x| - 1;
      DistanceAtMostSum(x[..n], y[..n]);
      assert Distance(x, y)[..n] == Distance(x[..n], y[..n]);
      XorBitsBounds(x[n], y[n], 8);
    }
  }

  /** XOR distance is a metric. */
  lemma DistanceMetric(a: Bytes, b: Bytes, c: Bytes)
    requires |a| == |b| == |c|
    ensures Value(Distance(a, b)) == 0 <==> a == b
    ensures Value(Distance(a, b)) == Value(Distance(b, a))
    ensures Value(Distance(a, c)) <= Value(Distance(a, b)) + Value(Distance(b, c))
  {
    hide Distance;
    DistanceZero(a, b);
    DistanceSymmetric(a, b);
    DistanceChain(a, b, c);
    DistanceAtMostSum(Distance(a, b), Distance(b, c));
  }

  // ----- order

  lemma {:induction false} SmallerPrefix(a: Bytes, b: Bytes, i: nat)
    requires |a| == |b| && i <= |a| && Value(a[..i]) < Value(b[..i])
    ensures Value(a) < Value(b)
    decreases |a| - i
  {
    if i == |a| {
      assert a[..i] == a && b[..i] == b;
    } else {
      assert a[..i + 1][..i] == a[..i] && b[..i + 1][..i] == b[..i];
      SmallerPrefix(a, b, i + 1);
    }
  }

  lemma FirstDifference(a: Bytes, b: Bytes, i: nat)
    requires |a| == |b| && i < |a| && a[..i] == b[..i] && a[i] < b[i]
    ensures Value(a) < Value(b)
  {
    assert a[..i + 1][..i] == a[..i] && b[..i + 1][..i] == b[..i];
    SmallerPrefix(a, b, i + 1);
  }

  /** Address.Less: the first differing byte decides. The result is the order of the numbers. */
  method Less(a: Bytes, b: Bytes) returns (less: bool)
    requires |a| == |b|
    ensures less <==> Value(a) < Value(b)
  {
    hide Value;
    for i := 0 to |a|
      invariant a[..i] == b[..i]
    {
      if a[i] != b[i] {
        if a[i] < b[i] {
          FirstDifference(a, b, i);
        } else {
          FirstDifference(b, a, i);
        }
        return a[i] < b[i];
      }
    }
    assert a[..|a|] == a && b[..|b|] == b;
    return false;
  }

  // ----- leading zeroes

  /** Bit `k` of a string, counted from the most significant. */
  function BitAt(a: Bytes, k: nat): (r: nat)
    requires k < 8 * |a|
    ensures r < 2
  {
    Bit(a[k / 8], 7 - k % 8)
  }

  /** The first set bit from `k` on; a string with none gets the index of its last bit. */
  function FirstSet(a: Bytes, k: nat): (r: int)
    requires k <= 8 * |a|
    ensures k < 8 * |a| ==> k <= r < 8 * |a|
    ensures k == 8 * |a| ==> r == k - 1
    ensures forall i :: k <= i < r ==> BitAt(a, i) == 0
    ensures k <= r < 8 * |a| - 1 ==> BitAt(a, r) == 1
    decreases 8 * |a| - k
  {
    if k == 8 * |a| then k - 1
    else if BitAt(a, k) == 1 then k
    else FirstSet(a, k + 1)
  }

  function Zeroes(a: Bytes): int {
    FirstSet(a, 0)
  }

  /** Address.LeadingZeroes. */
  method LeadingZeroes(a: Bytes) returns (r: int)
    ensures r == Zeroes(a)
  {
    hide Bit;
    for i := 0 to |a|
      invariant Zeroes(a) == FirstSet(a, 8 * i)
    {
      for j := 0 to 8
        invariant Zeroes(a) == FirstSet(a, 8 * i + j)
      {
        assert (8 * i + j) / 8 == i && (8 * i + j) % 8 == j;
        if Bit(a[i], 7 - j) != 0 {
          return i * 8 + j;
        }
      }
    }
    return |a| * 8 - 1;
  }

  /** The number formed by the first `k` bits. */
  function Leading(a: Bytes, k: nat): nat
    requires k <= 8 * |a|
  {
    if k == 0 then 0 else 2 * Leading(a, k - 1) + BitAt(a, k - 1)
  }

  /** `v << j`. */
  function Scale(v: nat, j: nat): nat {
    if j == 0 then v else 2 * Scale(v, j - 1)
  }

  lemma ScaleEight(v: nat)
    ensures Scale(v, 8) == 256 * v
  {
    assert Scale(v, 1) == 2 * v;
    assert Scale(v, 2) == 4 * v;
    assert Scale(v, 4) == 16 * v;
    assert Scale(v, 6) == 64 * v;
  }

  lemma LeadingStep(a: Bytes, i: nat, j: nat)
    requires i < |a| && j < 8
    ensures Leading(a, 8 * i + j + 1) == 2 * Leading(a, 8 * i + j) + Shift(a[i], 7 - j) % 2
  {
    var k := 8 * i + j;
    assert k / 8 == i && k % 8 == j;
  }

  lemma ShiftOut(b: Byte)
    ensures Shift(b, 8) == 0
  {
    assert Shift(b, 8) == Shift(b / 2 / 2 / 2 / 2, 4);
  }

  lemma {:induction false} LeadingByte(a: Bytes, i: nat, j: nat)
    requires i < |a| && j <= 8
    ensures Leading(a, 8 * i + j) == Scale(Leading(a, 8 * i), j) + Shift(a[i], 8 - j)
    decreases j
  {
    hide Leading;
    hide Shift;
    if j == 0 {
      ShiftOut(a[i]);
    } else {
      LeadingByte(a, i, j - 1);
      LeadingStep(a, i, j - 1);
      ShiftNext(a[i], 8 - j);
      Halve(Shift(a[i], 8 - j));
    }
  }

  lemma {:induction false} LeadingValue(a: Bytes, i: nat)
    requires i <= |a|
    ensures Leading(a, 8 * i) == Value(a[..i])
  {
    if i > 0 {
      LeadingValue(a, i - 1);
      LeadingByte(a, i - 1, 8);
      ScaleEight(Leading(a, 8 * (i - 1)));
      assert a[..i][..i - 1] == a[..i - 1];
    }
  }

  lemma {:induction false} LeadingClear(a: Bytes, r: nat)
    requires r <= 8 * |a| && forall i :: 0 <= i < r ==> BitAt(a, i) == 0
    ensures Leading(a, r) == 0
  {
    if r > 0 {
      LeadingClear(a, r - 1);
    }
  }

  lemma {:induction false} LeadingBelow(a: Bytes, r: nat, k: nat)
    requires r <= k <= 8 * |a| && Leading(a, r) == 0
    ensures Leading(a, k) < Pow2(k - r)
    decreases k
  {
    hide BitAt;
    if k > r {
      LeadingBelow(a, r, k - 1);
    }
  }

  lemma {:induction false} LeadingAbove(a: Bytes, r: nat, k: nat)
    requires r <= k <= 8 * |a| && Leading(a, r) > 0
    ensures Pow2(k - r) <= Leading(a, k)
    decreases k
  {
    hide BitAt;
    if k > r {
      LeadingAbove(a, r, k - 1);
    }
  }

  /** A distance whose first `r` bits are clear is below 2^(n-r). */
  lemma ClearBound(a: Bytes, r: nat)
    requires r <= 8 * |a| && forall i :: 0 <= i < r ==> BitAt(a, i) == 0
    ensures Value(a) < Pow2(8 * |a| - r)
  {
    LeadingClear(a, r);
    LeadingBelow(a, r, 8 * |a|);
    LeadingValue(a, |a|);
    assert a[..|a|] == a;
  }

  /** A distance with bit `r` set is at least 2^(n-1-r). */
  lemma SetBound(a: Bytes, r: nat)
    requires r < 8 * |a| && BitAt(a, r) == 1
    ensures Pow2(8 * |a| - 1 - r) <= Value(a)
  {
    LeadingAbove(a, r + 1, 8 * |a|);
    LeadingValue(a, |a|);
    assert a[..|a|] == a;
  }

  /** The bucket index of a nonzero distance is the position of its highest bit. */
  lemma ZeroesBracket(d: Bytes)
    requires Value(d) > 0
    ensures 0 <= Zeroes(d) < 8 * |d|
    ensures Pow2(8 * |d| - 1 - Zeroes(d)) <= Value(d) < Pow2(8 * |d| - Zeroes(d))
  {
    hide BitAt;
    hide Value;
    if d == [] {
      ValueEmpty(d);
    } else {
      var r := Zeroes(d);
      ClearBound(d, r);
      if BitAt(d, r) == 1 {
        SetBound(d, r);
      } else {
        ClearBound(d, r + 1);
      }
    }
  }

  lemma ValueEmpty(d: Bytes)
    requires d == []
    ensures Value(d) == 0
  {
  }

  // ----- buckets

  lemma BitOfDistance(x: Bytes, y: Bytes, k: nat)
    requires |x| == |y| && k < 8 * |x|
    ensures BitAt(Distance(x, y), k) == XorBit(BitAt(x, k), BitAt(y, k))
  {
    BitOfXor(x[k / 8], y[k / 8], 8, 7 - k % 8);
  }

  /** Two distances with the same highest bit are close to each other. */
  lemma SameZeroesClose(x: Bytes, y: Bytes)
    requires |x| == |y| > 0 && Zeroes(x) == Zeroes(y)
    ensures var n := if Zeroes(x) == 8 * |x| - 1 then 1 else 8 * |x| - 1 - Zeroes(x);
            Value(Distance(x, y)) < Pow2(n)
  {
    hide BitAt;
    hide Value;
    hide Distance;
    var r := Zeroes(x);
    var m := if r == 8 * |x| - 1 then r else r + 1;
    forall i | 0 <= i < m
      ensures BitAt(Distance(x, y), i) == 0
    {
      BitOfDistance(x, y, i);
    }
    ClearBound(Distance(x, y), m);
  }

  /** Two distances with different highest bits are at least that far apart. */
  lemma OtherZeroesFar(x: Bytes, y: Bytes)
    requires |x| == |y| > 0 && Zeroes(x) < Zeroes(y)
    ensures Pow2(8 * |x| - 1 - Zeroes(x)) <= Value(Distance(x, y))
  {
    hide BitAt;
    hide Value;
    hide Distance;
    var r := Zeroes(x);
    BitOfDistance(x, y, r);
    SetBound(Distance(x, y), r);
  }

  lemma {:induction false} Pow2Monotonic(m: nat, n: nat)
    requires m <= n
    ensures Pow2(m) <= Pow2(n)
    decreases n
  {
    if m < n {
      Pow2Monotonic(m, n - 1);
    }
  }

  /** The bucket an address belongs to in the table of `self`. */
  function BucketOf(self: Bytes, a: Bytes): (j: int)
    requires |self| == |a|
    ensures a != [] ==> 0 <= j < 8 * |a|
  {
    Zeroes(Distance(a, self))
  }

  lemma DistanceThrough(a: Bytes, self: Bytes, t: Bytes)
    requires |a| == |self| == |t|
    ensures Distance(a, t) == Distance(Distance(a, self), Distance(t, self))
  {
    DistanceChain(a, self, t);
    DistanceSymmetric(self, t);
  }

  /** Everything in a target's own bucket is strictly nearer to it than anything outside, the last bucket with its
      two distances included. */
  lemma OwnBucketNearer(self: Bytes, t: Bytes, a: Bytes, b: Bytes)
    requires |self| == |t| == |a| == |b| > 0
    ensures BucketOf(self, a) == BucketOf(self, t) != BucketOf(self, b) ==>
              Value(Distance(a, t)) < Value(Distance(b, t))
  {
    hide Value;
    hide Distance;
    hide Zeroes;
    var x, y, z := Distance(a, self), Distance(b, self), Distance(t, self);
    DistanceThrough(a, self, t);
    DistanceThrough(b, self, t);
    if Zeroes(x) != Zeroes(z) {
      return;
    }
    SameZeroesClose(x, z);
    var r, q, n := BucketOf(self, t), BucketOf(self, b), 8 * |t|;
    if q < r {
      OtherZeroesFar(y, z);
      Pow2Monotonic(if r == n - 1 then 1 else n - 1 - r, n - 1 - q);
    } else if r < q {
      OtherZeroesFar(z, y);
      DistanceSymmetric(z, y);
    }
  }

  /** From a target in bucket `r`, everything in a later bucket is strictly nearer than anything in an earlier one. */
  lemma LaterNearer(self: Bytes, t: Bytes, a: Bytes, b: Bytes)
    requires |self| == |t| == |a| == |b| > 0
    requires BucketOf(self, b) < BucketOf(self, t) < BucketOf(self, a)
    ensures Value(Distance(a, t)) < Value(Distance(b, t))
  {
    hide Value;
    hide Distance;
    hide Zeroes;
    var x, y, z := Distance(a, self), Distance(b, self), Distance(t, self);
    DistanceThrough(a, self, t);
    DistanceThrough(b, self, t);
    ZeroesMeet(x, z);
    OtherZeroesFar(y, z);
    Pow2Monotonic(8 * |t| - Zeroes(z), 8 * |t| - 1 - Zeroes(y));
  }

  /** And of two earlier buckets the later one is strictly nearer. */
  lemma EarlierInOrder(self: Bytes, t: Bytes, a: Bytes, b: Bytes)
    requires |self| == |t| == |a| == |b| > 0
    requires BucketOf(self, b) < BucketOf(self, a) < BucketOf(self, t)
    ensures Value(Distance(a, t)) < Value(Distance(b, t))
  {
    hide Value;
    hide Distance;
    hide Zeroes;
    var x, y, z := Distance(a, self), Distance(b, self), Distance(t, self);
    DistanceThrough(a, self, t);
    DistanceThrough(b, self, t);
    ZeroesMeet(z, x);
    DistanceSymmetric(z, x);
    OtherZeroesFar(y, z);
    Pow2Monotonic(8 * |t| - Zeroes(x), 8 * |t| - 1 - Zeroes(y));
  }

  /** Two distances agree before the highest bit of either. */
  lemma ZeroesMeet(x: Bytes, z: Bytes)
    requires |x| == |z| > 0 && Zeroes(z) < Zeroes(x)
    ensures Value(Distance(x, z)) < Pow2(8 * |x| - Zeroes(z))
  {
    hide BitAt;
    hide Value;
    hide Distance;
    forall i | 0 <= i < Zeroes(z)
      ensures BitAt(Distance(x, z), i) == 0
    {
      BitOfDistance(x, z, i);
    }
    ClearBound(Distance(x, z), Zeroes(z));
  }
}
