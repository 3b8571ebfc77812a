/** The routing table over the entry store. Buckets are Go slices: they are shifted in place and then replaced. */
module NetDb {
  import opened Text
  import opened Addresses
  import opened Buckets
  import opened Entries
  import opened EntryStore
  import opened Closest

  /** `ret` is what querying the addresses `seen` returns. */
  ghost predicate Answers(s: Store, seen: seq<Address>, ret: seq<Option<Entry>>) {
    && ValidStore(s) && |ret| == |seen|
    && forall k :: 0 <= k < |seen| ==> Known(s, seen[k]) && ret[k] == Some(ReadEntry(s, seen[k]))
  }

  lemma AnswersNext(s: Store, seen: seq<Address>, ret: seq<Option<Entry>>, a: Address)
    requires Answers(s, seen, ret) && Known(s, a)
    ensures Answers(s, seen + [a], ret + [Some(ReadEntry(s, a))])
  {
    hide ValidStore;
    hide ReadEntry;
    hide IdOf;
  }

  class NetDB {
    const self: Address
    var table: seq<array<Address>>
    var store: Store

    /** One bucket per bit, no two sharing an array. */
    ghost predicate Shape()
      reads this
    {
      |table| == 160 && forall i, j :: 0 <= i < j < 160 ==> table[i] != table[j]
    }

    ghost function Contents(j: int): Bucket
      requires 0 <= j < |table|
      reads this, table[j]
    {
      table[j][..]
    }

    ghost predicate GoodAt(j: int)
      requires 0 <= j < |table|
      reads this, table[j]
    {
      GoodBucket(self, table[j][..], j) && forall x :: x in table[j][..] ==> Known(store, x)
    }

    /** Every bucket is well formed, and every address in it has an entry row. */
    ghost predicate Valid()
      reads this, table
    {
      Shape() && ValidStore(store) && forall j :: 0 <= j < 160 ==> GoodAt(j)
    }

    constructor (self: Address)
      ensures Valid() && this.self == self && store == Store([], [])
      ensures forall j :: 0 <= j < 160 ==> Contents(j) == []
    {
      this.self := self;
      table := [];
      store := Store([], []);
      new;
      for n := 0 to 160
        invariant |table| == n && store == Store([], []) && this.self == self
        invariant forall i :: 0 <= i < n ==> table[i].Length == 0 && fresh(table[i])
        invariant forall i, j :: 0 <= i < j < n ==> table[i] != table[j]
      {
        var bucket := new Address[0];
        table := table + [bucket];
      }
    }

    method InsertIntoTable(addr: Address)
      requires Shape()
      modifies this`table, table[BucketOf(self, addr)]
      ensures Shape()
      ensures var j := BucketOf(self, addr);
              && table == old(table)[j := table[j]] && fresh(table[j])
              && table[j][..] == Touch(old(table[j][..]), addr)
              && old(table[j])[..] == Shifted(old(table[j][..]), addr)
      ensures Buckets() == Use(old(Buckets()), self, addr)
    {
      hide BucketOf;
      hide Touch;
      hide Shifted;
      var d := Xor(addr, self);
      var index := LeadingZeroes(d);
      IndexIsBucket(self, addr, d);
      var grown := MoveToFront(table[index], addr);
      var slice := new Address[|grown|](i requires 0 <= i < |grown| => grown[i]);
      assert slice[..] == grown;
      table := table[index := slice];
    }

    /** The bucket's new entries; removing the old place of the address shifts the array they are read from. */
    method MoveToFront(bucket: array<Address>, addr: Address) returns (grown: Bucket)
      modifies bucket
      ensures grown == Touch(old(bucket[..]), addr)
      ensures bucket[..] == Shifted(old(bucket[..]), addr)
    {
      hide Touch;
      hide Shifted;
      hide IndexOf;
      ghost var b := bucket[..];
      TouchCases(b, addr);
      var found := FindIn(bucket, addr);
      var rest;
      if found < bucket.Length {
        CloseGap(bucket, found);
        assert bucket[..] == b[..found] + b[found + 1..] + [b[|b| - 1]];
        rest := bucket[..bucket.Length - 1];
        assert rest == b[..found] + b[found + 1..];
      } else if bucket.Length == BUCKET_SIZE {
        rest := bucket[..bucket.Length - 1];
      } else {
        rest := bucket[..];
      }
      grown := [addr] + rest;
    }

    /** NetDB.Query: read the entry and move its address to the front of its bucket. */
    method Query(addr: Address) returns (kv: Option<Entry>)
      requires Valid()
      modifies this`table, table[BucketOf(self, addr)]
      ensures Valid()
      ensures !Known(store, addr) ==> kv == None && table == old(table) && unchanged(old(table[BucketOf(self, addr)]))
      ensures Known(store, addr) ==>
                var j := BucketOf(self, addr);
                && kv == Some(ReadEntry(store, addr))
                && table == old(table)[j := table[j]] && fresh(table[j])
                && table[j][..] == Touch(old(table[j][..]), addr)
                && old(table[j])[..] == Shifted(old(table[j][..]), addr)
    {
      hide BucketOf;
      hide Touch;
      hide Shifted;
      hide ValidStore;
      hide GoodBucket;
      hide IdOf;
      hide ReadEntry;
      if !Known(store, addr) {
        return None;
      }
      kv := Some(ReadEntry(store, addr));
      ghost var j, b := BucketOf(self, addr), table[BucketOf(self, addr)][..];
      assert GoodAt(j);
      UseKeepsGood(self, b, addr);
      InsertIntoTable(addr);
      assert GoodAt(j);
      assert forall i :: 0 <= i < 160 && i != j ==> old(GoodAt(i)) && table[i] == old(table[i]) && GoodAt(i);
    }

    /** Query every address of a bucket while ranging over the array it had at the start, until `ret` is full. */
    method QueryBucket(j: nat, ret: seq<Option<Entry>>, ghost seen: seq<Address>)
      returns (ret': seq<Option<Entry>>, ghost seen': seq<Address>)
      requires Valid() && j < 160 && |seen| <= BUCKET_SIZE && Answers(store, seen, ret)
      modifies this`table, table[j]
      ensures Valid() && table == old(table)[j := table[j]]
      ensures table[j] == old(table[j]) || fresh(table[j])
      ensures var b := old(table[j][..]);
              var v := Visited(b)[..Room(b, seen)];
              && seen' == seen + v && table[j][..] == TouchAll(b, v)
      ensures Answers(store, seen', ret')
    {
      hide BucketOf;
      hide Touch;
      hide TouchAll;
      hide Visited;
      hide Shifted;
      hide Valid;
      hide Answers;
      hide Known;
      hide ReadEntry;
      AnswersLength(store, seen, ret);
      ValidBucket(j);
      var bucket := table[j];
      ghost var b := bucket[..];
      ret', seen' := ret, seen;
      assert Visited(b)[..0] == [];
      TouchNothing(b);
      var k := 0;
      while k < bucket.Length
        invariant 0 <= k <= bucket.Length && |seen| + k <= BUCKET_SIZE
        invariant Valid() && |table| == 160 && table == old(table)[j := table[j]]
        invariant if k == 0 then table[j] == bucket && bucket[..] == b
                  else fresh(table[j]) && bucket[..] == Shifted(b, b[0])
        invariant table[j][..] == TouchAll(b, Visited(b)[..k])
        invariant seen' == seen + Visited(b)[..k]
        invariant Answers(store, seen', ret') && |ret'| == |seen'|
      {
        if |ret'| >= BUCKET_SIZE {
          break;
        }
        var i := bucket[k];
        RangeSees(b, k);
        assert i == Visited(b)[k];
        TouchAllNext(b, Visited(b), k);
        AnswersNext(store, seen', ret', i);
        var kv := Query(i);
        ret' := ret' + [kv];
        seen' := seen' + [i];
        k := k + 1;
      }
    }

    ghost function Buckets(): (t: seq<Bucket>)
      reads this, table
      ensures |t| == |table|
    {
      seq(|table|, j requires 0 <= j < |table| reads this, table => table[j][..])
    }

    /** One bucket of a search. */
    method VisitBucket(j: nat, ret: seq<Option<Entry>>, ghost seen: seq<Address>)
      returns (ret': seq<Option<Entry>>, ghost seen': seq<Address>)
      requires Valid() && j < |table| == 160 && |seen| <= BUCKET_SIZE && Answers(store, seen, ret)
      modifies this`table, table[j]
      ensures Valid() && |table| == 160 && table == old(table)[j := table[j]]
      ensures table[j] == old(table[j]) || fresh(table[j])
      ensures Walk(Buckets(), seen') == Visit(Walk(old(Buckets()), seen), j)
      ensures Answers(store, seen', ret') && |ret'| == |seen'| <= BUCKET_SIZE
    {
      hide Answers;
      hide Touch;
      hide Visited;
      hide BucketOf;
      hide GoodAt;
      ghost var t := Buckets();
      ret', seen' := QueryBucket(j, ret, seen);
      assert Buckets() == t[j := table[j][..]];
      AnswersLength(store, seen', ret');
    }

    /** One step of a search: the bucket `i` to the left, then the bucket `i` to the right. */
    method VisitRound(index: nat, i: nat, ret: seq<Option<Entry>>, ghost seen: seq<Address>)
      returns (ret': seq<Option<Entry>>, ghost seen': seq<Address>)
      requires Valid() && index < |table| == 160 && |seen| <= BUCKET_SIZE && Answers(store, seen, ret)
      modifies this`table, table
      ensures Valid() && |table| == 160
      ensures forall j :: 0 <= j < 160 ==> table[j] in old(table) || fresh(table[j])
      ensures Walk(Buckets(), seen') == Round(Walk(old(Buckets()), seen), index, i)
      ensures Answers(store, seen', ret') && |ret'| == |seen'| <= BUCKET_SIZE
    {
      hide BucketOf;
      hide Visit;
      hide Valid;
      hide Answers;
      hide Buckets;
      AnswersLength(store, seen, ret);
      ret', seen' := ret, seen;
      if index - i >= 0 {
        ret', seen' := VisitBucket(index - i, ret', seen');
      }
      if index + i < 160 {
        ret', seen' := VisitBucket(index + i, ret', seen');
      }
    }

    /** NetDB.FindClosest: the target's own bucket alone when it is full, otherwise that bucket and then outwards on
        both sides until there are enough results. Every result is an entry. */
    method FindClosest(addr: Address) returns (ret: seq<Option<Entry>>, ghost seen: seq<Address>)
      requires Valid()
      modifies this`table, table
      ensures Valid() && Answers(store, seen, ret)
      ensures |table| == |old(table)| == 160
      ensures Walk(Buckets(), seen) == ClosestSpec(old(Buckets()), BucketOf(self, addr))
    {
      hide BucketOf;
      hide Visit;
      hide Round;
      hide Valid;
      hide ValidStore;
      hide Answers;
      var d := Xor(addr, self);
      var index := LeadingZeroes(d);
      IndexIsBucket(self, addr, d);
      ValidShape();
      AnswersNothing(store);
      if table[index].Length == BUCKET_SIZE {
        ret, seen := VisitBucket(index, [], []);
      } else {
        ret, seen := Outwards(index);
      }
    }

    /** The loop over growing distances. */
    method Outwards(index: nat) returns (ret: seq<Option<Entry>>, ghost seen: seq<Address>)
      requires Valid() && index < |table| == 160
      modifies this`table, table
      ensures Valid() && Answers(store, seen, ret) && |table| == 160
      ensures Walk(Buckets(), seen) == Rounds(Walk(old(Buckets()), []), index, 0)
    {
      hide BucketOf;
      hide Round;
      hide Valid;
      hide ValidStore;
      hide Answers;
      hide Buckets;
      ghost var start := Buckets();
      ret, seen := [], [];
      ValidShape();
      AnswersNothing(store);
      var i := 0;
      while (index - i >= 0 || index + i <= 160) && |ret| < BUCKET_SIZE
        invariant Valid() && |table| == 160 && Answers(store, seen, ret) && |ret| == |seen| <= BUCKET_SIZE
        invariant forall j :: 0 <= j < 160 ==> table[j] in old(table) || fresh(table[j])
        invariant 0 <= i <= 161
        invariant Rounds(Walk(start, []), index, 0) == Rounds(Walk(Buckets(), seen), index, i)
        decreases 161 - i
      {
        ret, seen := VisitRound(index, i, ret, seen);
        i := i + 1;
      }
    }

    lemma ValidShape()
      requires Valid()
      ensures |table| == 160 && ValidStore(store)
    {
    }

    lemma ValidBucket(j: nat)
      requires Valid() && j < 160
      ensures |table| == 160 && ValidStore(store)
      ensures var b := table[j][..];
              && NoDup(b) && |b| <= BUCKET_SIZE
              && forall x :: x in b ==> BucketOf(self, x) == j && Known(store, x)
    {
      hide BucketOf;
      hide Known;
      hide ValidStore;
      assert GoodAt(j);
      GoodMembers(self, table[j][..], j);
    }

    /** NetDB.InsertSeed. */
    method InsertSeed(peer: Bytes, seed: Bytes) returns (ok: bool)
      requires Valid()
      modifies this`store
      ensures Valid()
      ensures match InsertSeedSpec(old(store), peer, seed)
              case None => !ok && store == old(store)
              case Some(s) => ok && store == s
    {
      hide GoodBucket;
      hide ValidStore;
      hide NoDup;
      var peerId, seedId := IdOf(store.rows, peer), IdOf(store.rows, seed);
      if peerId == 0 || seedId == 0 {
        return false;
      }
      AddLinkKeeps(store, Link(seedId, peerId));
      store := AddLink(store, Link(seedId, peerId));
      ok := true;
      assert forall j :: 0 <= j < 160 ==> old(GoodAt(j)) && GoodAt(j);
    }

    /** insertEntrySeeds: first the peers seeded, then the seeds, up to the first unknown address. */
    method InsertEntrySeeds(e: Entry) returns (ok: bool)
      requires Valid()
      modifies this`store
      ensures Valid() && Linked(store, ok) == LinkAll(old(store), PairsOf(e))
    {
      hide Valid;
      hide LinkAll;
      hide PairsOf;
      ghost var s, pairs := store, PairsOf(e);
      PairsAre(e);
      LinkNothing(s, pairs);
      for i := 0 to |e.seeding|
        invariant Valid() && Linked(store, true) == LinkAll(s, pairs[..i])
      {
        ok := LinkNext(e.seeding[i], e.address, s, pairs, i);
        if !ok {
          return;
        }
      }
      for i := 0 to |e.seeds|
        invariant Valid() && Linked(store, true) == LinkAll(s, pairs[..|e.seeding| + i])
      {
        ok := LinkNext(e.address, e.seeds[i], s, pairs, |e.seeding| + i);
        if !ok {
          return;
        }
      }
      assert pairs[..|pairs|] == pairs;
      ok := true;
    }

    /** Pair `k`, with the error return that ends both loops. */
    method LinkNext(peer: Bytes, seed: Bytes, ghost s: Store, ghost pairs: seq<Pair>, ghost k: nat) returns (ok: bool)
      requires Valid() && k < |pairs| && pairs[k] == Pair(peer, seed) && Linked(store, true) == LinkAll(s, pairs[..k])
      modifies this`store
      ensures Valid() && Linked(store, ok) == LinkAll(s, pairs[..k + 1])
      ensures !ok ==> LinkAll(s, pairs) == LinkAll(s, pairs[..k + 1])
    {
      hide Valid;
      hide InsertSeedSpec;
      hide LinkAll;
      LinkAllNext(s, pairs, k);
      ok := InsertSeed(peer, seed);
      if !ok {
        LinkAllStops(s, pairs, k + 1);
      }
    }

    /** NetDB.Insert, which refuses what does not verify. The address enters the routing table before the
        store is written, and is known there afterwards even when a seed could not be linked. */
    method Insert(e: Entry) returns (ok: bool)
      requires Valid()
      modifies this`table, this`store, table[BucketOf(self, e.address)]
      ensures Valid()
      ensures !Verified(e) ==>
                !ok && store == old(store) && table == old(table) && unchanged(old(table[BucketOf(self, e.address)]))
      ensures Verified(e) ==>
                var j := BucketOf(self, e.address);
                && Linked(store, ok) == InsertSpec(old(store), e)
                && table == old(table)[j := table[j]] && table[j][..] == Touch(old(table[j][..]), e.address)
    {
      hide BucketOf;
      hide Touch;
      hide Shifted;
      hide ValidStore;
      hide GoodBucket;
      hide LinkAll;
      hide PairsOf;
      hide Verified;
      if !Verified(e) {
        return false;
      }
      ghost var j, b := BucketOf(self, e.address), table[BucketOf(self, e.address)][..];
      assert GoodAt(j);
      UseKeepsGood(self, b, e.address);
      InsertIntoTable(e.address);
      assert forall i :: 0 <= i < 160 && i != j ==> old(GoodAt(i)) && table[i] == old(table[i]);
      var known := Known(store, e.address);
      WriteRow(e);
      if known {
        return true;
      }
      ok := InsertEntrySeeds(e);
    }

    /** Update, and insertIntoDB when no row was affected. */
    method WriteRow(e: Entry)
      requires Shape() && ValidStore(store)
      requires forall j :: 0 <= j < 160 ==>
        GoodBucket(self, table[j][..], j) && forall x :: x in table[j][..] ==> Known(store, x) || x == e.address
      modifies this`store
      ensures Valid() && store == Upsert(old(store), e.address, e.info)
    {
      hide GoodBucket;
      hide ValidStore;
      hide NoDup;
      UpsertKeeps(store, e.address, e.info);
      ghost var s := store;
      store := Upsert(store, e.address, e.info);
      forall j, x | 0 <= j < 160 && x in table[j][..]
        ensures Known(store, x)
      {
        if Known(s, x) {
          UpsertKeepsIds(s, e.address, e.info, x);
        }
      }
      assert forall j :: 0 <= j < 160 ==> GoodAt(j);
    }

    /** The search loop: the first position of the address, or the length. */
    method FindIn(bucket: array<Address>, addr: Address) returns (found: nat)
      ensures found == IndexOf(bucket[..], addr)
    {
      found := 0;
      while found < bucket.Length
        invariant found <= bucket.Length && addr !in bucket[..found]
      {
        if bucket[found] == addr {
          break;
        }
        found := found + 1;
      }
      FirstIsIndex(bucket[..], addr, found);
    }

    /** Appending the part after a gap to the part before it overwrites the array. */
    method CloseGap(bucket: array<Address>, found: nat)
      requires found < bucket.Length
      modifies bucket
      ensures bucket[..] == old(bucket[..found] + bucket[found + 1..] + [bucket[bucket.Length - 1]])
    {
      for k := found to bucket.Length - 1
        invariant forall i :: 0 <= i < found ==> bucket[i] == old(bucket[i])
        invariant forall i :: found <= i < k ==> bucket[i] == old(bucket[i + 1])
        invariant forall i :: k <= i < bucket.Length ==> bucket[i] == old(bucket[i])
      {
        bucket[k] := bucket[k + 1];
      }
    }
  }

  lemma TouchCases(b: Bucket, a: Address)
    ensures var f := IndexOf(b, a);
            if f < |b| then
              Touch(b, a) == [a] + (b[..f] + b[f + 1..]) && Shifted(b, a) == b[..f] + b[f + 1..] + [b[|b| - 1]]
            else
              Touch(b, a) == [a] + (if |b| == BUCKET_SIZE then b[..BUCKET_SIZE - 1] else b) && Shifted(b, a) == b
  {
  }

  lemma PairsAre(e: Entry)
    ensures forall i :: 0 <= i < |e.seeding| ==> PairsOf(e)[i] == Pair(e.seeding[i], e.address)
    ensures forall i :: 0 <= i < |e.seeds| ==> PairsOf(e)[|e.seeding| + i] == Pair(e.address, e.seeds[i])
  {
  }

  lemma LinkNothing(s: Store, pairs: seq<Pair>)
    ensures LinkAll(s, pairs[..0]) == Linked(s, true)
  {
  }

  lemma LinkAllNext(s: Store, pairs: seq<Pair>, k: nat)
    requires k < |pairs|
    ensures LinkAll(s, pairs[..k]).ok ==>
              LinkAll(s, pairs[..k + 1]) ==
              match InsertSeedSpec(LinkAll(s, pairs[..k]).store, pairs[k].peer, pairs[k].seed)
              case None => Linked(LinkAll(s, pairs[..k]).store, false)
              case Some(r) => Linked(r, true)
    ensures !LinkAll(s, pairs[..k]).ok ==> LinkAll(s, pairs[..k + 1]) == LinkAll(s, pairs[..k])
  {
    hide InsertSeedSpec;
    assert pairs[..k + 1][..k] == pairs[..k];
  }

  lemma {:induction false} LinkAllStops(s: Store, pairs: seq<Pair>, k: nat)
    requires k <= |pairs| && !LinkAll(s, pairs[..k]).ok
    ensures LinkAll(s, pairs) == LinkAll(s, pairs[..k])
    decreases |pairs| - k
  {
    if k == |pairs| {
      assert pairs[..k] == pairs;
    } else {
      LinkAllNext(s, pairs, k);
      LinkAllStops(s, pairs, k + 1);
    }
  }

  lemma AnswersNothing(s: Store)
    requires ValidStore(s)
    ensures Answers(s, [], [])
  {
  }

  lemma AnswersLength(s: Store, seen: seq<Address>, ret: seq<Option<Entry>>)
    requires Answers(s, seen, ret)
    ensures |ret| == |seen|
  {
  }

  lemma TouchNothing(b: Bucket)
    ensures TouchAll(b, []) == b
  {
  }

  lemma GoodMembers(self: Address, b: Bucket, j: int)
    requires GoodBucket(self, b, j)
    ensures NoDup(b) && |b| <= BUCKET_SIZE && forall x :: x in b ==> BucketOf(self, x) == j
  {
  }

  /** The first use of a bucket shifts the array under the loop; later uses work on its replacement. */
  lemma RangeSees(b: Bucket, k: nat)
    requires k < |b|
    ensures Visited(b)[k] == (if k == 0 then b[0] else Shifted(b, b[0])[k]) && Visited(b)[k] in b
  {
    ShiftedFirst(b);
    hide Shifted;
    if k > 0 {
      var last := b[|b| - 1];
      assert (b[1..] + [last])[k] == if k < |b| - 1 then b[k + 1] else last;
      assert ([b[0]] + b[2..] + [last])[k] == if k < |b| - 1 then b[k + 1] else last;
    }
  }

  lemma ShiftedFirst(b: Bucket)
    requires b != []
    ensures Shifted(b, b[0]) == b[1..] + [b[|b| - 1]]
  {
    TouchCases(b, b[0]);
    assert IndexOf(b, b[0]) == 0;
    assert b[..0] + b[1..] == b[1..];
  }

  lemma TouchAllNext(b: Bucket, v: seq<Address>, k: nat)
    requires k < |v|
    ensures v[..k + 1] == v[..k] + [v[k]]
    ensures TouchAll(b, v[..k + 1]) == Touch(TouchAll(b, v[..k]), v[k])
  {
    hide Touch;
    assert v[..k + 1][..k] == v[..k];
  }

  lemma IndexIsBucket(self: Address, addr: Address, d: Bytes)
    requires d == Distance(addr, self[..20])
    ensures Zeroes(d) == BucketOf(self, addr) && 0 <= Zeroes(d) < 160
  {
    assert self[..20] == self;
  }

  lemma {:induction false} FirstIsIndex(b: Bucket, a: Address, f: nat)
    requires f <= |b| && a !in b[..f] && (f < |b| ==> b[f] == a)
    ensures IndexOf(b, a) == f
  {
    if f > 0 {
      assert b[..f] == [b[0]] + b[1..][..f - 1];
      FirstIsIndex(b[1..], a, f - 1);
    }
  }
}
