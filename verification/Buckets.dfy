/** Move-to-front buckets of the routing table, on values. */
module Buckets {
  import opened Addresses

  const BUCKET_SIZE := 20

  type Bucket = seq<Address>

  predicate NoDup<T(==)>(b: seq<T>) {
    forall i, j :: 0 <= i < j < |b| ==> b[i] != b[j]
  }

  /** The first position of `a`, or the length. */
  function IndexOf(b: Bucket, a: Address): (f: nat)
    ensures f <= |b| && a !in b[..f]
    ensures f < |b| ==> b[f] == a
    ensures f < |b| <==> a in b
  {
    if b == [] then 0 else if b[0] == a then 0 else 1 + IndexOf(b[1..], a)
  }

  function Without(b: Bucket, a: Address): (r: Bucket)
    ensures |r| == if a in b then |b| - 1 else |b|
  {
    var f := IndexOf(b, a);
    if f < |b| then b[..f] + b[f + 1..] else b
  }

  /** A use of `a`: to the front, the last entry making room in a full bucket. */
  function Touch(b: Bucket, a: Address): Bucket {
    [a] + if a !in b && |b| == BUCKET_SIZE then b[..BUCKET_SIZE - 1] else Without(b, a)
  }

  function TouchAll(b: Bucket, uses: seq<Address>): Bucket {
    if uses == [] then b else Touch(TouchAll(b, uses[..|uses| - 1]), uses[|uses| - 1])
  }

  /** What closing the gap in place leaves in the old array: entries after `a` one place down, the last one twice. */
  function Shifted(b: Bucket, a: Address): (r: Bucket)
    ensures |r| == |b|
  {
    var f := IndexOf(b, a);
    if f < |b| then b[..f] + b[f + 1..] + [b[|b| - 1]] else b
  }

  /** The entries a loop sees that touches each one while ranging over the bucket's old array. */
  function Visited(b: Bucket): (v: Bucket)
    ensures |v| == |b|
  {
    if |b| <= 1 then b else [b[0]] + b[2..] + [b[|b| - 1]]
  }

  // ----- one use

  lemma WithoutSplit(b: Bucket, a: Address, x: Address)
    requires x in b && x != a
    ensures x in Without(b, a)
  {
    var f := IndexOf(b, a);
    var i :| 0 <= i < |b| && b[i] == x;
    if f < |b| {
      assert x == Without(b, a)[if i < f then i else i - 1];
    }
  }

  lemma WithoutNoDup(b: Bucket, a: Address)
    requires NoDup(b)
    ensures NoDup(Without(b, a)) && a !in Without(b, a)
  {
    var f, r := IndexOf(b, a), Without(b, a);
    assert f < |b| ==> forall i :: 0 <= i < |r| ==> r[i] == b[if i < f then i else i + 1];
  }

  lemma WithoutMultiset(b: Bucket, a: Address)
    requires a in b
    ensures multiset(b) == multiset{a} + multiset(Without(b, a))
  {
    var f := IndexOf(b, a);
    assert b == b[..f] + [a] + b[f + 1..];
  }

  lemma WithoutMembers(b: Bucket, a: Address)
    requires NoDup(b)
    ensures NoDup(Without(b, a)) && a !in Without(b, a)
    ensures forall x :: x in Without(b, a) <==> x in b && x != a
  {
    WithoutNoDup(b, a);
    hide NoDup;
    forall x | x in b && x != a
      ensures x in Without(b, a)
    {
      WithoutSplit(b, a, x);
    }
  }

  lemma PrependNoDup(b: Bucket, a: Address)
    requires NoDup(b) && a !in b
    ensures NoDup([a] + b)
  {
  }

  /** Using an entry that is already there permutes the bucket. */
  lemma TouchPermutes(b: Bucket, a: Address)
    requires NoDup(b) && a in b
    ensures NoDup(Touch(b, a)) && multiset(Touch(b, a)) == multiset(b) && |Touch(b, a)| == |b|
    ensures forall x :: x in Touch(b, a) <==> x in b
  {
    WithoutMembers(b, a);
    WithoutMultiset(b, a);
    PrependNoDup(Without(b, a), a);
    hide NoDup;
    hide Without;
  }

  lemma {:induction false} TouchAllPermutes(b: Bucket, uses: seq<Address>)
    requires NoDup(b) && forall i :: 0 <= i < |uses| ==> uses[i] in b
    ensures NoDup(TouchAll(b, uses)) && multiset(TouchAll(b, uses)) == multiset(b) && |TouchAll(b, uses)| == |b|
    ensures forall x :: x in TouchAll(b, uses) <==> x in b
  {
    hide NoDup;
    hide Touch;
    if uses != [] {
      TouchAllPermutes(b, uses[..|uses| - 1]);
      TouchPermutes(TouchAll(b, uses[..|uses| - 1]), uses[|uses| - 1]);
    }
  }

  // ----- histories of uses

  /** The distinct addresses of a history, newest use first. */
  function Newest(h: seq<Address>): Bucket {
    if h == [] then [] else [h[|h| - 1]] + Without(Newest(h[..|h| - 1]), h[|h| - 1])
  }

  lemma SnocIn(h: seq<Address>, x: Address)
    requires h != []
    ensures x in h <==> x in h[..|h| - 1] || x == h[|h| - 1]
  {
    assert h == h[..|h| - 1] + [h[|h| - 1]];
  }

  lemma {:induction false} NewestNoDup(h: seq<Address>)
    ensures NoDup(Newest(h))
  {
    if h != [] {
      var n := |h| - 1;
      NewestNoDup(h[..n]);
      WithoutNoDup(Newest(h[..n]), h[n]);
      PrependNoDup(Without(Newest(h[..n]), h[n]), h[n]);
    }
  }

  lemma {:induction false} NewestIn(h: seq<Address>, x: Address)
    ensures x in Newest(h) <==> x in h
  {
    if h != [] {
      var n := |h| - 1;
      NewestIn(h[..n], x);
      NewestNoDup(h[..n]);
      WithoutMembers(Newest(h[..n]), h[n]);
      SnocIn(h, x);
      hide NoDup;
      hide Without;
    }
  }

  lemma NewestDistinct(h: seq<Address>)
    ensures NoDup(Newest(h)) && forall x :: x in Newest(h) <==> x in h
  {
    NewestNoDup(h);
    forall x
      ensures x in Newest(h) <==> x in h
    {
      NewestIn(h, x);
    }
  }

  function Front(b: Bucket): Bucket {
    if |b| <= BUCKET_SIZE then b else b[..BUCKET_SIZE]
  }

  lemma TouchFront(l: Bucket, a: Address)
    requires NoDup(l)
    ensures Touch(Front(l), a) == Front([a] + Without(l, a))
  {
    var f := IndexOf(l, a);
    if f < BUCKET_SIZE && f < |l| {
      TouchFrontFound(l, a);
    } else {
      TouchFrontNew(l, a);
    }
  }

  lemma TouchFrontFound(l: Bucket, a: Address)
    requires NoDup(l) && IndexOf(l, a) < BUCKET_SIZE && IndexOf(l, a) < |l|
    ensures Touch(Front(l), a) == Front([a] + Without(l, a))
  {
    var f, b := IndexOf(l, a), Front(l);
    IndexUnique(b, a, f);
    hide IndexOf;
    hide NoDup;
    if |l| > BUCKET_SIZE {
      var p, q := l[..f], l[f + 1..];
      TakeThenDrop(l, f + 1, BUCKET_SIZE);
      TakeTwice(l, f, BUCKET_SIZE);
      TakeConcat(p, q, BUCKET_SIZE - 1);
      TakeConcat([a], p + q, BUCKET_SIZE);
    }
  }

  lemma TakeThenDrop(l: Bucket, f: nat, n: nat)
    requires f <= n <= |l|
    ensures l[..n][f..] == l[f..][..n - f]
  {
  }

  lemma TakeTwice(l: Bucket, f: nat, n: nat)
    requires f <= n <= |l|
    ensures l[..n][..f] == l[..f]
  {
  }

  lemma TakeConcat(p: Bucket, q: Bucket, n: nat)
    requires |p| <= n <= |p| + |q|
    ensures (p + q)[..n] == p + q[..n - |p|]
  {
  }

  lemma TouchFrontNew(l: Bucket, a: Address)
    requires IndexOf(l, a) >= BUCKET_SIZE || IndexOf(l, a) == |l|
    ensures Touch(Front(l), a) == Front([a] + Without(l, a))
  {
    var f, b := IndexOf(l, a), Front(l);
    assert b == l[..f][..|b|] && a !in b;
    hide IndexOf;
    var w := Without(l, a);
    assert |w| >= BUCKET_SIZE - 1 ==> w[..BUCKET_SIZE - 1] == l[..BUCKET_SIZE - 1];
    if |w| >= BUCKET_SIZE {
      TakeConcat([a], w, BUCKET_SIZE);
    }
  }

  lemma IndexUnique(b: Bucket, a: Address, f: nat)
    requires f < |b| && b[f] == a && NoDup(b)
    ensures IndexOf(b, a) == f
  {
  }

  /** The part of a history that falls into bucket `j`. */
  function Mapped(self: Address, h: seq<Address>, j: int): seq<Address> {
    if h == [] then []
    else
      var n := |h| - 1;
      Mapped(self, h[..n], j) + if BucketOf(self, h[n]) == j then [h[n]] else []
  }

  type Table = t: seq<Bucket> | |t| == 160 witness seq(160, _ => [])

  function Use(t: Table, self: Address, a: Address): Table {
    var j := BucketOf(self, a);
    t[j := Touch(t[j], a)]
  }

  /** The position of the last use of `x`. */
  function LastUse(h: seq<Address>, x: Address): (k: nat)
    requires x in h
    ensures k < |h| && h[k] == x && x !in h[k + 1..]
  {
    var n := |h| - 1;
    if h[n] == x then n else assert h == h[..n] + [h[n]]; LastUse(h[..n], x)
  }

  /** Where the `k`-th newest address stood before the last use. */
  function Before(h: seq<Address>, k: nat): int
    requires h != []
  {
    if k - 1 < IndexOf(Newest(h[..|h| - 1]), h[|h| - 1]) then k - 1 else k
  }

  lemma NewestTail(h: seq<Address>, k: nat)
    requires 0 < k < |Newest(h)|
    ensures var before := Newest(h[..|h| - 1]);
            0 <= Before(h, k) < |before| && Newest(h)[k] == before[Before(h, k)] != h[|h| - 1]
  {
    var before, x := Newest(h[..|h| - 1]), h[|h| - 1];
    NewestNoDup(h[..|h| - 1]);
    WithoutNoDup(before, x);
    hide NoDup;
    assert Newest(h)[k] == Without(before, x)[k - 1];
    assert Without(before, x)[k - 1] in Without(before, x);
  }

  lemma LastUseBefore(h: seq<Address>, x: Address)
    requires h != [] && x != h[|h| - 1] && x in h
    ensures x in h[..|h| - 1] && LastUse(h, x) == LastUse(h[..|h| - 1], x)
  {
    assert h == h[..|h| - 1] + [h[|h| - 1]];
  }

  /** Newest is what its name says: the addresses of a history in the order of their last uses, the latest first. */
  lemma {:induction false} NewestInOrder(h: seq<Address>, i: nat, j: nat)
    requires i < j < |Newest(h)|
    ensures Newest(h)[i] in h && Newest(h)[j] in h
    ensures LastUse(h, Newest(h)[j]) < LastUse(h, Newest(h)[i])
  {
    NewestIn(h, Newest(h)[i]);
    NewestIn(h, Newest(h)[j]);
    NewestTail(h, j);
    LastUseBefore(h, Newest(h)[j]);
    if i == 0 {
      assert Newest(h)[0] == h[|h| - 1];
    } else {
      NewestTail(h, i);
      LastUseBefore(h, Newest(h)[i]);
      NewestInOrder(h[..|h| - 1], Before(h, i), Before(h, j));
    }
  }

  /** The routing table after a history of uses, started empty. */
  function TableAfter(self: Address, h: seq<Address>): Table {
    if h == [] then seq(160, _ => []) else Use(TableAfter(self, h[..|h| - 1]), self, h[|h| - 1])
  }

  /** Every bucket is the least-recently-used cache of its own part of the history. */
  lemma {:induction false} TableIsLru(self: Address, h: seq<Address>, j: nat)
    requires j < 160
    ensures TableAfter(self, h)[j] == Front(Newest(Mapped(self, h, j)))
  {
    hide BucketOf;
    hide Touch;
    hide Without;
    if h != [] {
      var n := |h| - 1;
      TableIsLru(self, h[..n], j);
      var m := Mapped(self, h[..n], j);
      if BucketOf(self, h[n]) == j {
        NewestDistinct(m);
        TouchFront(Newest(m), h[n]);
        assert (m + [h[n]])[..|m|] == m;
      } else {
        assert Mapped(self, h, j) == m;
      }
    }
  }

  lemma {:induction false} MappedBelongs(self: Address, h: seq<Address>, j: int)
    ensures forall x :: x in Mapped(self, h, j) <==> x in h && BucketOf(self, x) == j
  {
    hide BucketOf;
    if h != [] {
      var n := |h| - 1;
      MappedBelongs(self, h[..n], j);
      assert h == h[..n] + [h[n]];
    }
  }

  predicate GoodBucket(self: Address, b: Bucket, j: int) {
    |b| <= BUCKET_SIZE && NoDup(b) && forall x :: x in b ==> BucketOf(self, x) == j
  }

  /** Hence buckets are duplicate-free, never over-full, and hold only addresses of their own. */
  lemma TableGood(self: Address, h: seq<Address>, j: nat)
    requires j < 160
    ensures GoodBucket(self, TableAfter(self, h)[j], j)
    ensures forall x :: x in TableAfter(self, h)[j] ==> x in h
  {
    hide BucketOf;
    TableIsLru(self, h, j);
    NewestDistinct(Mapped(self, h, j));
    MappedBelongs(self, h, j);
  }

  lemma UseKeepsGood(self: Address, b: Bucket, a: Address)
    requires GoodBucket(self, b, BucketOf(self, a))
    ensures GoodBucket(self, Touch(b, a), BucketOf(self, a))
    ensures forall x :: x in Touch(b, a) ==> x in b || x == a
  {
    hide BucketOf;
    WithoutMembers(b, a);
  }

  // ----- ranging over a bucket that is being used

  lemma VisitedHas(b: Bucket, i: nat)
    requires i < |b| && (|b| <= 2 || i != 1)
    ensures b[i] in Visited(b)
  {
    if |b| > 1 {
      var last := |b| - 1;
      var k := if i == last then last else if i == 0 then 0 else i - 1;
      assert Visited(b)[k] == b[i];
    }
  }

  lemma VisitedFrom(b: Bucket, k: nat)
    requires k < |b|
    ensures exists i :: 0 <= i < |b| && (|b| <= 2 || i != 1) && Visited(b)[k] == b[i]
  {
    var i := if |b| <= 1 || k == 0 || k == |b| - 1 then k else k + 1;
    assert Visited(b)[k] == b[i];
  }

  lemma VisitedMembers(b: Bucket)
    requires NoDup(b)
    ensures forall x :: x in Visited(b) <==> x in b && (|b| <= 2 || x != b[1])
  {
    hide Visited;
    forall x | x in b && (|b| <= 2 || x != b[1])
      ensures x in Visited(b)
    {
      var i :| 0 <= i < |b| && b[i] == x;
      VisitedHas(b, i);
    }
    forall x | x in Visited(b)
      ensures x in b && (|b| <= 2 || x != b[1])
    {
      var k :| 0 <= k < |b| && Visited(b)[k] == x;
      VisitedFrom(b, k);
    }
  }

  /** A loop over a bucket that uses each entry sees them all exactly when there are at most two. */
  lemma VisitedComplete(b: Bucket)
    requires NoDup(b)
    ensures (forall x :: x in b ==> x in Visited(b)) <==> |b| <= 2
  {
    hide Visited;
    VisitedMembers(b);
    if |b| > 2 {
      assert b[1] in b && b[1] !in Visited(b);
    }
  }

  /** No address of `uses` stands behind `y`. */
  predicate NoneBehind(b: Bucket, y: Address, uses: seq<Address>) {
    forall k, i :: 0 <= k < i < |b| && b[k] == y ==> b[i] !in uses
  }

  lemma TouchMoves(b: Bucket, a: Address, i: nat)
    requires a in b && i < |b|
    ensures var f, c := IndexOf(b, a), Touch(b, a);
            |c| == |b| && c[i] == if i == 0 then a else if i <= f then b[i - 1] else b[i]
  {
    var f, w := IndexOf(b, a), Without(b, a);
    assert i > 0 ==> w[i - 1] == if i <= f then b[i - 1] else b[i];
  }

  lemma TouchNoneBehind(b: Bucket, y: Address, uses: seq<Address>, a: Address)
    requires NoDup(b) && a in b && a != y && NoneBehind(b, y, uses)
    ensures NoneBehind(Touch(b, a), y, uses + [a])
  {
    TouchPermutes(b, a);
    var c := Touch(b, a);
    hide Touch;
    forall k, i | 0 <= k < i < |c| && c[k] == y
      ensures c[i] !in uses + [a]
    {
      TouchMoves(b, a, 0);
      TouchMoves(b, a, k);
      TouchMoves(b, a, i);
    }
  }

  lemma {:induction false} TouchAllNoneBehind(b: Bucket, y: Address, uses: seq<Address>)
    requires NoDup(b) && y !in uses && forall i :: 0 <= i < |uses| ==> uses[i] in b
    ensures NoneBehind(TouchAll(b, uses), y, uses)
  {
    hide Touch;
    hide NoDup;
    if uses != [] {
      var n := |uses| - 1;
      TouchAllNoneBehind(b, y, uses[..n]);
      TouchAllPermutes(b, uses[..n]);
      TouchNoneBehind(TouchAll(b, uses[..n]), y, uses[..n], uses[n]);
      hide NoneBehind;
      assert uses == uses[..n] + [uses[n]];
    }
  }

  lemma LastUnlessBehind(c: Bucket, y: Address, uses: seq<Address>)
    requires y in c && NoneBehind(c, y, uses) && forall x :: x in c && x != y ==> x in uses
    ensures c[|c| - 1] == y
  {
    var k :| 0 <= k < |c| && c[k] == y;
    assert c[|c| - 1] in c;
  }

  /** The entry skipped by one pass over a bucket ends up last, so a second pass sees it. */
  lemma TwoPassesSeeAll(b: Bucket, x: Address)
    requires NoDup(b) && x in b && x !in Visited(b)
    ensures x in Visited(TouchAll(b, Visited(b)))
  {
    hide TouchAll;
    hide NoneBehind;
    VisitedMembers(b);
    TouchAllNoneBehind(b, x, Visited(b));
    TouchAllPermutes(b, Visited(b));
    var c := TouchAll(b, Visited(b));
    hide NoDup;
    LastUnlessBehind(c, x, Visited(b));
    LastVisited(c);
  }

  lemma LastVisited(c: Bucket)
    requires c != []
    ensures c[|c| - 1] in Visited(c)
  {
    assert Visited(c)[|c| - 1] == c[|c| - 1];
  }
}
