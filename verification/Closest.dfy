/** Which addresses a search for the closest ones visits, on the values of the routing table. */
module Closest {
  import opened Addresses
  import opened Buckets

  /** The table and the addresses queried so far. */
  datatype Walk = Walk(table: seq<Bucket>, seen: seq<Address>)

  /** How many entries of a bucket are queried before the result is full. */
  function Room(b: Bucket, seen: seq<Address>): (m: nat)
    ensures m <= |b|
  {
    if |seen| >= BUCKET_SIZE then 0 else if |b| <= BUCKET_SIZE - |seen| then |b| else BUCKET_SIZE - |seen|
  }

  /** Query a bucket's entries; each query moves its address to the front. */
  function Visit(w: Walk, j: nat): (r: Walk)
    requires j < |w.table|
    ensures |r.table| == |w.table|
  {
    var b := w.table[j];
    var v := Visited(b)[..Room(b, w.seen)];
    Walk(w.table[j := TouchAll(b, v)], w.seen + v)
  }

  /** The buckets at distance `i` on either side, the own bucket on both when `i` is zero. */
  function Round(w: Walk, index: nat, i: nat): (r: Walk)
    requires |w.table| == 160 && index < 160
    ensures |r.table| == 160
  {
    var w1 := if i <= index then Visit(w, index - i) else w;
    if index + i < 160 then Visit(w1, index + i) else w1
  }

  predicate Goes(w: Walk, index: nat, i: nat) {
    (i <= index || index + i <= 160) && |w.seen| < BUCKET_SIZE
  }

  function Rounds(w: Walk, index: nat, i: nat): (r: Walk)
    requires |w.table| == 160 && index < 160
    ensures |r.table| == 160
    decreases 161 - i
  {
    if Goes(w, index, i) then Rounds(Round(w, index, i), index, i + 1) else w
  }

  function ClosestSpec(t: seq<Bucket>, index: nat): (r: Walk)
    requires |t| == 160 && index < 160
    ensures |r.table| == 160
  {
    if |t[index]| == BUCKET_SIZE then Visit(Walk(t, []), index) else Rounds(Walk(t, []), index, 0)
  }

  // ----- what a search keeps

  predicate Distinct(t: seq<Bucket>) {
    forall j :: 0 <= j < |t| ==> NoDup(t[j])
  }

  predicate Permuted(t: seq<Bucket>, u: seq<Bucket>) {
    |t| == |u| && forall j :: 0 <= j < |t| ==> multiset(t[j]) == multiset(u[j])
  }

  lemma VisitedIn(b: Bucket, m: nat)
    requires m <= |b|
    ensures forall i :: 0 <= i < m ==> Visited(b)[..m][i] in b
  {
  }

  lemma VisitKeeps(w: Walk, j: nat)
    requires j < |w.table| && Distinct(w.table) && |w.seen| <= BUCKET_SIZE
    ensures Distinct(Visit(w, j).table) && Permuted(Visit(w, j).table, w.table)
    ensures |w.seen| <= |Visit(w, j).seen| <= BUCKET_SIZE
  {
    hide NoDup;
    hide TouchAll;
    var b := w.table[j];
    VisitedIn(b, Room(b, w.seen));
    TouchAllPermutes(b, Visited(b)[..Room(b, w.seen)]);
  }

  lemma RoundKeeps(w: Walk, index: nat, i: nat)
    requires |w.table| == 160 && index < 160 && Distinct(w.table) && |w.seen| <= BUCKET_SIZE
    ensures Distinct(Round(w, index, i).table) && Permuted(Round(w, index, i).table, w.table)
    ensures |w.seen| <= |Round(w, index, i).seen| <= BUCKET_SIZE
  {
    hide Visit;
    hide Distinct;
    var w1 := if i <= index then Visit(w, index - i) else w;
    if i <= index {
      VisitKeeps(w, index - i);
    }
    if index + i < 160 {
      VisitKeeps(w1, index + i);
    }
  }

  lemma {:induction false} RoundsKeep(w: Walk, index: nat, i: nat)
    requires |w.table| == 160 && index < 160 && Distinct(w.table) && |w.seen| <= BUCKET_SIZE
    ensures Distinct(Rounds(w, index, i).table) && Permuted(Rounds(w, index, i).table, w.table)
    ensures |w.seen| <= |Rounds(w, index, i).seen| <= BUCKET_SIZE
    decreases 161 - i
  {
    hide Round;
    hide Distinct;
    if Goes(w, index, i) {
      RoundKeeps(w, index, i);
      RoundsKeep(Round(w, index, i), index, i + 1);
    }
  }

  /** At most a bucket's worth of results, and every bucket keeps its entries: none evicted, none added. */
  lemma SearchPermutes(t: seq<Bucket>, index: nat)
    requires |t| == 160 && index < 160 && Distinct(t)
    ensures var r := ClosestSpec(t, index);
            |r.seen| <= 20 && Distinct(r.table) && Permuted(r.table, t)
  {
    hide Visit;
    hide Rounds;
    VisitKeeps(Walk(t, []), index);
    RoundsKeep(Walk(t, []), index, 0);
  }

  // ----- what a search finds

  /** The addresses of bucket `j` that a search from bucket `index` can return. */
  predicate Shown(t: seq<Bucket>, index: nat, j: nat, x: Address)
    requires j < |t|
  {
    x in Visited(t[j]) || (j == index && x in t[j])
  }

  function Gap(j: nat, index: nat): nat {
    if j < index then index - j else j - index
  }

  /** Every result may be shown by a bucket less than `i` away. */
  ghost predicate Within(t: seq<Bucket>, index: nat, i: nat, seen: seq<Address>) {
    forall k :: 0 <= k < |seen| ==> ShownWithin(t, index, i, seen[k])
  }

  predicate ShownWithin(t: seq<Bucket>, index: nat, i: nat, x: Address) {
    exists j: nat :: j < |t| && Gap(j, index) < i && Shown(t, index, j, x)
  }

  /** Everything a bucket less than `i` away may show is among the results. */
  ghost predicate Complete(t: seq<Bucket>, index: nat, i: nat, seen: seq<Address>) {
    forall j: nat, x :: j < |t| && Gap(j, index) < i && Shown(t, index, j, x) ==> x in seen
  }

  /** Before round `i`: the buckets further out are untouched; what was seen may be shown; and unless the result is
      full, everything shown further in has been seen. */
  ghost predicate Sweep(t: seq<Bucket>, w: Walk, index: nat, i: nat) {
    && |t| == |w.table| == 160 && |w.seen| <= BUCKET_SIZE
    && (forall j: nat :: j < 160 && Gap(j, index) >= i ==> w.table[j] == t[j])
    && Within(t, index, i, w.seen)
    && (|w.seen| < BUCKET_SIZE ==> Complete(t, index, i, w.seen))
  }

  /** A visit to a bucket in its original order. */
  lemma VisitFresh(t: seq<Bucket>, w: Walk, index: nat, j: nat, i: nat)
    requires Gap(j, index) < i && j < |w.table| == |t| && w.table[j] == t[j] && |w.seen| <= BUCKET_SIZE
    requires Within(t, index, i, w.seen)
    ensures var r := Visit(w, j);
            && |w.seen| <= |r.seen| <= BUCKET_SIZE && w.seen == r.seen[..|w.seen|]
            && Within(t, index, i, r.seen)
            && (|r.seen| < BUCKET_SIZE ==>
                  r.seen == w.seen + Visited(t[j]) && r.table[j] == TouchAll(t[j], Visited(t[j])))
            && forall l :: 0 <= l < |t| && l != j ==> r.table[l] == w.table[l]
  {
    hide Visited;
    hide TouchAll;
    var r, b := Visit(w, j), t[j];
    var m := Room(b, w.seen);
    forall k | |w.seen| <= k < |r.seen|
      ensures ShownWithin(t, index, i, r.seen[k])
    {
      assert r.seen[k] == Visited(b)[..m][k - |w.seen|];
      assert Shown(t, index, j, r.seen[k]);
    }
    if |r.seen| < BUCKET_SIZE {
      assert m == |b| && Visited(b)[..m] == Visited(b);
    }
  }

  /** The second visit to the own bucket finds what the first one skipped. */
  lemma VisitAgain(t: seq<Bucket>, w: Walk, index: nat, i: nat)
    requires i > 0 && |w.table| == |t| && index < |t| && NoDup(t[index]) && |w.seen| < BUCKET_SIZE
    requires w.table[index] == TouchAll(t[index], Visited(t[index]))
    requires forall x :: x in Visited(t[index]) ==> x in w.seen
    requires Within(t, index, i, w.seen)
    ensures var r := Visit(w, index);
            && |r.seen| <= BUCKET_SIZE
            && Within(t, index, i, r.seen)
            && (|r.seen| < BUCKET_SIZE ==> forall x :: x in t[index] ==> x in r.seen)
            && forall l :: 0 <= l < |t| && l != index ==> r.table[l] == w.table[l]
  {
    hide TouchAll;
    hide Visited;
    hide NoDup;
    var r, b, c := Visit(w, index), t[index], w.table[index];
    var m := Room(c, w.seen);
    VisitedIn(b, |b|);
    assert Visited(b)[..|b|] == Visited(b);
    TouchAllPermutes(b, Visited(b));
    VisitedIn(c, m);
    forall k | |w.seen| <= k < |r.seen|
      ensures ShownWithin(t, index, i, r.seen[k])
    {
      assert r.seen[k] == Visited(c)[..m][k - |w.seen|];
      assert Shown(t, index, index, r.seen[k]);
    }
    if |r.seen| < BUCKET_SIZE {
      assert Visited(c)[..m] == Visited(c);
      forall x | x in b
        ensures x in r.seen
      {
        if x !in Visited(b) {
          TwoPassesSeeAll(b, x);
        }
      }
    }
  }

  lemma OwnRound(t: seq<Bucket>, index: nat)
    requires |t| == 160 && index < 160 && Distinct(t)
    ensures Sweep(t, Round(Walk(t, []), index, 0), index, 1)
  {
    hide Visit;
    hide TouchAll;
    hide Visited;
    hide NoDup;
    var w := Walk(t, []);
    var w1 := Visit(w, index);
    VisitFresh(t, w, index, index, 1);
    VisitMembers(t, index);
    if |w1.seen| < BUCKET_SIZE {
      VisitAgain(t, w1, index, 1);
    } else {
      VisitFull(w1, index);
    }
  }

  lemma VisitMembers(t: seq<Bucket>, index: nat)
    requires index < |t|
    ensures forall x :: x in Visited(t[index]) ==> x in t[index]
  {
  }

  lemma VisitFull(w: Walk, j: nat)
    requires j < |w.table| && |w.seen| >= BUCKET_SIZE
    ensures Visit(w, j) == w
  {
    assert Visited(w.table[j])[..0] == [];
    assert w.table[j := w.table[j]] == w.table;
  }

  lemma WithinMore(t: seq<Bucket>, index: nat, i: nat, seen: seq<Address>)
    requires Within(t, index, i, seen)
    ensures forall m: nat :: m >= i ==> Within(t, index, m, seen)
  {
    forall m: nat, k | m >= i && 0 <= k < |seen|
      ensures ShownWithin(t, index, m, seen[k])
    {
      assert ShownWithin(t, index, i, seen[k]);
    }
  }

  lemma OuterRound(t: seq<Bucket>, w: Walk, index: nat, i: nat)
    requires index < 160 && i > 0 && Sweep(t, w, index, i)
    ensures Sweep(t, Round(w, index, i), index, i + 1) && w.seen <= Round(w, index, i).seen
  {
    hide Visit;
    hide TouchAll;
    hide Visited;
    WithinMore(t, index, i, w.seen);
    hide ShownWithin;
    var w1 := if i <= index then Visit(w, index - i) else w;
    if i <= index {
      VisitFresh(t, w, index, index - i, i + 1);
    }
    if index + i < 160 {
      VisitFresh(t, w1, index, index + i, i + 1);
    }
    assert w.seen == w1.seen[..|w.seen|];
    var r := Round(w, index, i);
    assert w1.seen == r.seen[..|w1.seen|];
  }

  /** Only what may be shown is found, and all of it unless the result is full. */
  ghost predicate Found(t: seq<Bucket>, index: nat, seen: seq<Address>) {
    && Within(t, index, |t|, seen)
    && (|seen| < BUCKET_SIZE ==> Complete(t, index, |t|, seen))
  }

  /** Results are taken from the inside out: whatever is nearer to the target's bucket than some result's bucket has
      been returned as well. */
  ghost predicate Outward(t: seq<Bucket>, index: nat, seen: seq<Address>) {
    exists i: nat :: Complete(t, index, i, seen) && Within(t, index, i + 1, seen)
  }

  lemma {:induction false} SweepOn(t: seq<Bucket>, w: Walk, index: nat, i: nat)
    requires index < 160 && 0 < i <= 160 && Sweep(t, w, index, i)
    requires Complete(t, index, i - 1, w.seen)
    ensures Found(t, index, Rounds(w, index, i).seen) && Outward(t, index, Rounds(w, index, i).seen)
    decreases 161 - i
  {
    hide ShownWithin;
    hide Shown;
    hide Round;
    WithinMore(t, index, i, w.seen);
    if Goes(w, index, i) && i < 160 {
      OuterRound(t, w, index, i);
      SweepOn(t, Round(w, index, i), index, i + 1);
    } else if Goes(w, index, i) {
      LastRound(w, index);
    }
  }

  /** The bound of the loop lets a round past the last bucket begin. */
  lemma LastRound(w: Walk, index: nat)
    requires |w.table| == 160 && index < 160
    ensures Rounds(w, index, 160) == w
  {
    assert Round(w, index, 160) == w;
  }

  lemma SearchFinds(t: seq<Bucket>, index: nat)
    requires |t| == 160 && index < 160 && Distinct(t) && |t[index]| != BUCKET_SIZE
    ensures Found(t, index, ClosestSpec(t, index).seen) && Outward(t, index, ClosestSpec(t, index).seen)
  {
    hide Found;
    hide Outward;
    hide Sweep;
    hide Round;
    OwnRound(t, index);
    SweepOn(t, Round(Walk(t, []), index, 0), index, 1);
  }

  /** Every search goes outward, a full own bucket included. */
  lemma SearchOutward(t: seq<Bucket>, index: nat)
    requires |t| == 160 && index < 160 && Distinct(t)
    ensures Outward(t, index, ClosestSpec(t, index).seen)
  {
    hide ClosestSpec;
    hide Visited;
    if |t[index]| == BUCKET_SIZE {
      FullSearchExact(t, index);
      var seen := ClosestSpec(t, index).seen;
      forall k | 0 <= k < |seen|
        ensures ShownWithin(t, index, 1, seen[k])
      {
        assert Shown(t, index, index, seen[k]);
      }
      assert Complete(t, index, 0, seen) && Within(t, index, 0 + 1, seen);
    } else {
      hide Outward;
      SearchFinds(t, index);
    }
  }

  /** A search that comes back short has returned exactly the table's addresses, except the second entry of every
      bucket of three or more other than the target's own. */
  lemma ShortSearchExact(t: seq<Bucket>, index: nat, j: nat, x: Address)
    requires |t| == 160 && index < 160 && j < 160 && Distinct(t) && x in t[j]
    requires forall l: nat :: l < 160 && x in t[l] ==> l == j
    ensures |ClosestSpec(t, index).seen| < BUCKET_SIZE ==>
              (x in ClosestSpec(t, index).seen <==> j == index || |t[j]| <= 2 || x != t[j][1])
  {
    hide ClosestSpec;
    hide Visited;
    FullSearchExact(t, index);
    if |t[index]| == BUCKET_SIZE {
      return;
    }
    SearchFinds(t, index);
    VisitedMembers(t[j]);
    assert Shown(t, index, j, x) <==> j == index || |t[j]| <= 2 || x != t[j][1];
    if x in ClosestSpec(t, index).seen {
      var k :| 0 <= k < |ClosestSpec(t, index).seen| && ClosestSpec(t, index).seen[k] == x;
      var l: nat :| l < |t| && Shown(t, index, l, x);
      VisitMembers(t, l);
    }
  }

  /** A full own bucket is returned in the order its entries are seen: the second one is missing and the last one
      comes twice. */
  lemma FullSearchExact(t: seq<Bucket>, index: nat)
    requires |t| == 160 && index < 160
    ensures |t[index]| == BUCKET_SIZE ==> ClosestSpec(t, index).seen == Visited(t[index])
  {
    hide TouchAll;
    if |t[index]| == BUCKET_SIZE {
      assert Visited(t[index])[..BUCKET_SIZE] == Visited(t[index]);
    }
  }

  /** So with a full own bucket every result is nearer to the target than any address outside that bucket. */
  lemma FullSearchNearest(self: Address, t: seq<Bucket>, target: Address, k: nat, j: nat, y: Address)
    requires |t| == 160 && forall l: nat :: l < 160 ==> GoodBucket(self, t[l], l)
    requires j < 160 && y in t[j]
    ensures var index := BucketOf(self, target);
            var seen := ClosestSpec(t, index).seen;
            |t[index]| == BUCKET_SIZE && j != index && k < |seen| ==>
              Value(Distance(seen[k], target)) < Value(Distance(y, target))
  {
    hide Visited;
    hide ClosestSpec;
    hide BucketOf;
    hide Distance;
    hide Value;
    hide NoDup;
    var index := BucketOf(self, target);
    FullSearchExact(t, index);
    VisitMembers(t, index);
    assert GoodBucket(self, t[index], index) && GoodBucket(self, t[j], j);
    if |t[index]| != BUCKET_SIZE || k >= |ClosestSpec(t, index).seen| {
      return;
    }
    var x := ClosestSpec(t, index).seen[k];
    assert x in Visited(t[index]);
    OwnBucketNearer(self, target, x, y);
  }

  // ----- nearness

  predicate Good(self: Address, t: seq<Bucket>) {
    |t| == 160 && forall l: nat :: l < 160 ==> GoodBucket(self, t[l], l)
  }

  lemma ShownIn(self: Address, t: seq<Bucket>, index: nat, j: nat, x: Address)
    requires Good(self, t) && index < 160 && j < 160 && Shown(t, index, j, x)
    ensures BucketOf(self, x) == j && x in t[j]
  {
    hide BucketOf;
    hide NoDup;
    VisitMembers(t, j);
    assert GoodBucket(self, t[j], j);
  }

  /** An address that could have been returned and was not is in no bucket nearer to the target's than any result's. */
  lemma LeftOutFarther(self: Address, t: seq<Bucket>, index: nat, k: nat, y: Address)
    requires Good(self, t) && index < 160 && k < |ClosestSpec(t, index).seen|
    requires Shown(t, index, BucketOf(self, y), y) && y !in ClosestSpec(t, index).seen
    ensures var x := ClosestSpec(t, index).seen[k];
            x in t[BucketOf(self, x)] && Gap(BucketOf(self, x), index) <= Gap(BucketOf(self, y), index)
  {
    hide ClosestSpec;
    hide BucketOf;
    hide Visited;
    hide NoDup;
    forall j: nat | j < 160
      ensures NoDup(t[j])
    {
      assert GoodBucket(self, t[j], j);
    }
    SearchOutward(t, index);
    var seen := ClosestSpec(t, index).seen;
    var i: nat :| Complete(t, index, i, seen) && Within(t, index, i + 1, seen);
    assert ShownWithin(t, index, i + 1, seen[k]);
    var j: nat :| j < |t| && Gap(j, index) < i + 1 && Shown(t, index, j, seen[k]);
    ShownIn(self, t, index, j, seen[k]);
  }

  /** How the distances of a result and a left-out address of another bucket compare. The result is farther exactly
      when it lies before the target's bucket and the other after it. Two buckets both after it are not compared. */
  lemma NearestExact(self: Address, t: seq<Bucket>, target: Address, k: nat, y: Address)
    requires Good(self, t) && k < |ClosestSpec(t, BucketOf(self, target)).seen|
    requires Shown(t, BucketOf(self, target), BucketOf(self, y), y)
    requires y !in ClosestSpec(t, BucketOf(self, target)).seen
    ensures var index := BucketOf(self, target);
            var x := ClosestSpec(t, index).seen[k];
            var jx, jy := BucketOf(self, x), BucketOf(self, y);
            jx != jy && !(index < jx && index < jy) ==>
              if jx < index < jy then Value(Distance(y, target)) < Value(Distance(x, target))
              else Value(Distance(x, target)) < Value(Distance(y, target))
  {
    hide ClosestSpec;
    hide BucketOf;
    hide Visited;
    hide Value;
    hide Distance;
    hide GoodBucket;
    var index := BucketOf(self, target);
    LeftOutFarther(self, t, index, k, y);
    var x := ClosestSpec(t, index).seen[k];
    var jx, jy := BucketOf(self, x), BucketOf(self, y);
    if jx != jy {
      if jx == index {
        OwnBucketNearer(self, target, x, y);
      } else if jx < index < jy {
        LaterNearer(self, target, y, x);
      } else if jy < index < jx {
        LaterNearer(self, target, x, y);
      } else if jy < jx < index {
        EarlierInOrder(self, target, x, y);
      }
    }
  }

  /** So with nothing stored after the target's bucket, every result is nearer than every left-out address of another
      bucket. */
  lemma NothingLaterNearest(self: Address, t: seq<Bucket>, target: Address, k: nat, y: Address)
    requires Good(self, t) && k < |ClosestSpec(t, BucketOf(self, target)).seen|
    requires forall l: nat :: BucketOf(self, target) < l < 160 ==> t[l] == []
    requires Shown(t, BucketOf(self, target), BucketOf(self, y), y)
    requires y !in ClosestSpec(t, BucketOf(self, target)).seen
    ensures var x := ClosestSpec(t, BucketOf(self, target)).seen[k];
            BucketOf(self, x) != BucketOf(self, y) ==> Value(Distance(x, target)) < Value(Distance(y, target))
  {
    hide ClosestSpec;
    hide BucketOf;
    hide Visited;
    hide Value;
    hide Distance;
    hide GoodBucket;
    NearestExact(self, t, target, k, y);
    ShownIn(self, t, BucketOf(self, target), BucketOf(self, y), y);
  }

  /** And a full bucket just before a target's, less than half full, own one hides everything after it: all that the
      next bucket holds is nearer than the result's last address and is not returned. */
  lemma FullNeighbourHides(self: Address, t: seq<Bucket>, target: Address, y: Address)
    requires Good(self, t) && 0 < BucketOf(self, target) < 159
    requires |t[BucketOf(self, target)]| < 10 && |t[BucketOf(self, target) - 1]| == BUCKET_SIZE
    requires y in t[BucketOf(self, target) + 1]
    ensures var seen := ClosestSpec(t, BucketOf(self, target)).seen;
            && |seen| == BUCKET_SIZE && y !in seen
            && Value(Distance(y, target)) < Value(Distance(seen[BUCKET_SIZE - 1], target))
  {
    hide BucketOf;
    hide Visited;
    hide Value;
    hide Distance;
    hide ClosestSpec;
    hide GoodBucket;
    var index := BucketOf(self, target);
    BucketsKnown(self, t, index, y);
    FullNeighbourSeen(t, index);
    var x := ClosestSpec(t, index).seen[BUCKET_SIZE - 1];
    BucketsKnown(self, t, index, x);
    LaterNearer(self, target, y, x);
  }

  lemma BucketsKnown(self: Address, t: seq<Bucket>, index: nat, x: Address)
    requires Good(self, t) && index < 160
    ensures Distinct(t) && forall l: nat :: l < 160 && x in t[l] ==> BucketOf(self, x) == l
  {
    hide BucketOf;
    hide NoDup;
    forall l: nat | l < 160
      ensures NoDup(t[l]) && (x in t[l] ==> BucketOf(self, x) == l)
    {
      assert GoodBucket(self, t[l], l);
    }
  }

  lemma FullNeighbourSeen(t: seq<Bucket>, index: nat)
    requires |t| == 160 && 0 < index < 159 && Distinct(t)
    requires |t[index]| < 10 && |t[index - 1]| == BUCKET_SIZE
    ensures var seen := ClosestSpec(t, index).seen;
            && |seen| == BUCKET_SIZE && seen[BUCKET_SIZE - 1] in t[index - 1]
            && forall k :: 0 <= k < |seen| ==> seen[k] in t[index] || seen[k] in t[index - 1]
  {
    hide Visited;
    hide TouchAll;
    hide NoDup;
    var w := Walk(t, []);
    OwnVisits(t, index);
    var w1 := Visit(Visit(w, index), index);
    var w2 := Visit(w1, index - 1);
    var m := Room(t[index - 1], w1.seen);
    VisitedIn(t[index - 1], m);
    assert w2.seen == w1.seen + Visited(t[index - 1])[..m];
    VisitFull(w2, index + 1);
    hide Visit;
    assert Round(w, index, 0) == w1 && Round(w1, index, 1) == w2;
    assert Rounds(w, index, 0) == Rounds(w1, index, 1) == Rounds(w2, index, 2) == w2;
  }

  /** The own bucket is visited twice. */
  lemma OwnVisits(t: seq<Bucket>, index: nat)
    requires |t| == 160 && index < 160 && Distinct(t) && |t[index]| < 10
    ensures var w := Visit(Visit(Walk(t, []), index), index);
            && |w.seen| == 2 * |t[index]|
            && (forall k :: 0 <= k < |w.seen| ==> w.seen[k] in t[index])
            && forall l :: 0 <= l < 160 && l != index ==> w.table[l] == t[l]
  {
    hide Visited;
    hide TouchAll;
    hide NoDup;
    var b := t[index];
    var v := Visited(b)[..|b|];
    VisitedIn(b, |b|);
    TouchAllPermutes(b, v);
    VisitedIn(TouchAll(b, v), |b|);
  }
}
