/** The entry and seed tables behind the routing table, and the statements run against them. */
module EntryStore {
  import opened Text
  import opened Addresses
  import opened Buckets
  import opened Entries

  /** A row's id is its position, counted from 1: rows are never deleted. */
  datatype Row = Row(address: Address, info: Info)

  /** `seed` is a seed for `peer`; both are row ids. */
  datatype Link = Link(seed: nat, peer: nat)

  datatype Store = Store(rows: seq<Row>, links: seq<Link>)

  /** SELECT id FROM entry WHERE address = ?, zero when there is none. */
  function IdOf(rows: seq<Row>, a: Bytes): (id: nat)
    ensures id <= |rows|
    ensures id > 0 ==> rows[id - 1].address == a
    ensures id == 0 ==> forall i :: 0 <= i < |rows| ==> rows[i].address != a
  {
    if rows == [] then 0
    else if rows[|rows| - 1].address == a then |rows|
    else IdOf(rows[..|rows| - 1], a)
  }

  predicate Known(s: Store, a: Bytes) {
    IdOf(s.rows, a) > 0
  }

  predicate ValidStore(s: Store) {
    && (forall i, j :: 0 <= i < j < |s.rows| ==> s.rows[i].address != s.rows[j].address)
    && NoDup(s.links)
    && (forall k :: 0 <= k < |s.links| ==> 0 < s.links[k].seed <= |s.rows| && 0 < s.links[k].peer <= |s.rows|)
  }

  /** UPDATE entry ... WHERE address = ?, or INSERT when no row was affected. */
  function Upsert(s: Store, a: Address, info: Info): Store {
    var id := IdOf(s.rows, a);
    if id > 0 then s.(rows := s.rows[id - 1 := Row(a, info)]) else s.(rows := s.rows + [Row(a, info)])
  }

  /** INSERT OR IGNORE INTO seed. */
  function AddLink(s: Store, l: Link): Store {
    if l in s.links then s else s.(links := s.links + [l])
  }

  /** InsertSeed, which fails when either address has no row. */
  function InsertSeedSpec(s: Store, peer: Bytes, seed: Bytes): Option<Store> {
    var p, q := IdOf(s.rows, peer), IdOf(s.rows, seed);
    if p == 0 || q == 0 then None else Some(AddLink(s, Link(q, p)))
  }

  /** The addresses joined in by the links that satisfy a WHERE clause on one side. */
  function SeedsFor(s: Store, id: nat, links: seq<Link>): seq<Address>
    requires forall k :: 0 <= k < |links| ==> 0 < links[k].seed <= |s.rows|
  {
    if links == [] then []
    else
      var l := links[|links| - 1];
      SeedsFor(s, id, links[..|links| - 1]) + if l.peer == id then [s.rows[l.seed - 1].address] else []
  }

  function SeededBy(s: Store, id: nat, links: seq<Link>): seq<Address>
    requires forall k :: 0 <= k < |links| ==> 0 < links[k].peer <= |s.rows|
  {
    if links == [] then []
    else
      var l := links[|links| - 1];
      SeededBy(s, id, links[..|links| - 1]) + if l.seed == id then [s.rows[l.peer - 1].address] else []
  }

  function QuerySeeds(s: Store, id: nat): seq<Address>
    requires ValidStore(s)
  {
    SeedsFor(s, id, s.links)
  }

  function QuerySeeding(s: Store, id: nat): seq<Address>
    requires ValidStore(s)
  {
    SeededBy(s, id, s.links)
  }

  /** What Query reads for a known address. */
  function ReadEntry(s: Store, a: Address): (e: Entry)
    requires ValidStore(s) && Known(s, a)
    ensures e.address == a
  {
    var id := IdOf(s.rows, a);
    Entry(a, s.rows[id - 1].info, QuerySeeds(s, id), QuerySeeding(s, id))
  }

  // ----- the two sides of the seed table

  lemma {:induction false} SeedsForMeans(s: Store, id: nat, links: seq<Link>, q: nat)
    requires ValidStore(s) && 0 < q <= |s.rows|
    requires forall k :: 0 <= k < |links| ==> 0 < links[k].seed <= |s.rows|
    ensures s.rows[q - 1].address in SeedsFor(s, id, links) <==> Link(q, id) in links
  {
    if links != [] {
      var n := |links| - 1;
      SeedsForMeans(s, id, links[..n], q);
      assert Link(q, id) in links <==> Link(q, id) in links[..n] || links[n] == Link(q, id) by {
        assert links == links[..n] + [links[n]];
      }
      hide ValidStore;
      SameRow(s, links[n].seed, q);
    }
  }

  lemma {:induction false} SeededByMeans(s: Store, id: nat, links: seq<Link>, p: nat)
    requires ValidStore(s) && 0 < p <= |s.rows|
    requires forall k :: 0 <= k < |links| ==> 0 < links[k].peer <= |s.rows|
    ensures s.rows[p - 1].address in SeededBy(s, id, links) <==> Link(id, p) in links
  {
    if links != [] {
      var n := |links| - 1;
      SeededByMeans(s, id, links[..n], p);
      assert Link(id, p) in links <==> Link(id, p) in links[..n] || links[n] == Link(id, p) by {
        assert links == links[..n] + [links[n]];
      }
      hide ValidStore;
      SameRow(s, links[n].peer, p);
    }
  }

  lemma SameRow(s: Store, i: nat, j: nat)
    requires ValidStore(s) && 0 < i <= |s.rows| && 0 < j <= |s.rows|
    ensures s.rows[i - 1].address == s.rows[j - 1].address <==> i == j
  {
  }

  /** b is among the seeds queried for a exactly when a is among what b is seeding. */
  lemma SeedsDual(s: Store, a: Address, b: Address)
    requires ValidStore(s) && Known(s, a) && Known(s, b)
    ensures b in ReadEntry(s, a).seeds <==> a in ReadEntry(s, b).seeding
  {
    var p, q := IdOf(s.rows, a), IdOf(s.rows, b);
    SeedsForMeans(s, p, s.links, q);
    SeededByMeans(s, q, s.links, p);
  }

  lemma {:induction false} SeedsForKnown(s: Store, id: nat, links: seq<Link>)
    requires forall k :: 0 <= k < |links| ==> 0 < links[k].seed <= |s.rows|
    ensures forall x :: x in SeedsFor(s, id, links) ==> Known(s, x)
  {
    if links != [] {
      SeedsForKnown(s, id, links[..|links| - 1]);
    }
  }

  lemma {:induction false} SeededByKnown(s: Store, id: nat, links: seq<Link>)
    requires forall k :: 0 <= k < |links| ==> 0 < links[k].peer <= |s.rows|
    ensures forall x :: x in SeededBy(s, id, links) ==> Known(s, x)
  {
    if links != [] {
      SeededByKnown(s, id, links[..|links| - 1]);
    }
  }

  lemma {:induction false} SeedsForNoDup(s: Store, id: nat, links: seq<Link>)
    requires ValidStore(s) && NoDup(links)
    requires forall k :: 0 <= k < |links| ==> 0 < links[k].seed <= |s.rows|
    ensures NoDup(SeedsFor(s, id, links))
  {
    if links != [] {
      var n := |links| - 1;
      SeedsForNoDup(s, id, links[..n]);
      SeedsForMeans(s, id, links[..n], links[n].seed);
      if links[n].peer == id {
        assert links[n] == Link(links[n].seed, id) && links[n] !in links[..n];
      }
    }
  }

  lemma {:induction false} SeededByNoDup(s: Store, id: nat, links: seq<Link>)
    requires ValidStore(s) && NoDup(links)
    requires forall k :: 0 <= k < |links| ==> 0 < links[k].peer <= |s.rows|
    ensures NoDup(SeededBy(s, id, links))
  {
    if links != [] {
      var n := |links| - 1;
      SeededByNoDup(s, id, links[..n]);
      SeededByMeans(s, id, links[..n], links[n].peer);
      if links[n].seed == id {
        assert links[n] == Link(id, links[n].peer) && links[n] !in links[..n];
      }
    }
  }

  /** Neither list repeats an address. */
  lemma SeedsDistinct(s: Store, a: Address)
    requires ValidStore(s) && Known(s, a)
    ensures NoDup(ReadEntry(s, a).seeds) && NoDup(ReadEntry(s, a).seeding)
  {
    SeedsForNoDup(s, IdOf(s.rows, a), s.links);
    SeededByNoDup(s, IdOf(s.rows, a), s.links);
  }

  // ----- what the statements keep

  lemma {:induction false} IdUnique(rows: seq<Row>, a: Bytes, i: nat)
    requires i < |rows| && rows[i].address == a
    requires forall j, k :: 0 <= j < k < |rows| ==> rows[j].address != rows[k].address
    ensures IdOf(rows, a) == i + 1
  {
    if i < |rows| - 1 {
      IdUnique(rows[..|rows| - 1], a, i);
    }
  }

  lemma UpsertValid(s: Store, a: Address, info: Info)
    requires ValidStore(s)
    ensures ValidStore(Upsert(s, a, info))
  {
  }

  lemma UpsertKeeps(s: Store, a: Address, info: Info)
    requires ValidStore(s)
    ensures var r := Upsert(s, a, info);
            && ValidStore(r) && r.links == s.links && |s.rows| <= |r.rows| && Known(r, a)
            && r.rows[IdOf(r.rows, a) - 1].info == info
            && (!Known(s, a) ==> IdOf(r.rows, a) == |s.rows| + 1)
  {
    UpsertValid(s, a, info);
    var r, id := Upsert(s, a, info), IdOf(s.rows, a);
    IdUnique(r.rows, a, if id > 0 then id - 1 else |s.rows|);
    hide IdOf;
  }

  /** Ids never change once given out. */
  lemma UpsertKeepsIds(s: Store, a: Address, info: Info, x: Bytes)
    requires ValidStore(s) && Known(s, x)
    ensures IdOf(Upsert(s, a, info).rows, x) == IdOf(s.rows, x)
  {
    UpsertValid(s, a, info);
    var r := Upsert(s, a, info);
    assert r.rows[IdOf(s.rows, x) - 1].address == x;
    IdUnique(r.rows, x, IdOf(s.rows, x) - 1);
  }

  lemma AddLinkKeeps(s: Store, l: Link)
    requires ValidStore(s) && 0 < l.seed <= |s.rows| && 0 < l.peer <= |s.rows|
    ensures ValidStore(AddLink(s, l)) && AddLink(s, l).rows == s.rows
  {
  }

  lemma {:induction false} SameAddressesSameLists(s: Store, r: Store, id: nat, links: seq<Link>)
    requires |s.rows| == |r.rows| && forall i :: 0 <= i < |s.rows| ==> s.rows[i].address == r.rows[i].address
    requires forall k :: 0 <= k < |links| ==> 0 < links[k].seed <= |s.rows| && 0 < links[k].peer <= |s.rows|
    ensures SeedsFor(s, id, links) == SeedsFor(r, id, links) && SeededBy(s, id, links) == SeededBy(r, id, links)
  {
    if links != [] {
      SameAddressesSameLists(s, r, id, links[..|links| - 1]);
    }
  }

  // ----- inserting an entry

  /** A peer and a seed of it. */
  datatype Pair = Pair(peer: Bytes, seed: Bytes)

  datatype Linked = Linked(store: Store, ok: bool)

  /** InsertSeed for each pair in turn; the first unknown address ends it and what was linked before stays. */
  function LinkAll(s: Store, pairs: seq<Pair>): Linked {
    if pairs == [] then Linked(s, true)
    else
      var n := |pairs| - 1;
      var before := LinkAll(s, pairs[..n]);
      if !before.ok then before
      else
        match InsertSeedSpec(before.store, pairs[n].peer, pairs[n].seed)
        case None => Linked(before.store, false)
        case Some(r) => Linked(r, true)
  }

  /** First the peers the entry is a seed for, then its own seeds. */
  function PairsOf(e: Entry): (pairs: seq<Pair>)
    ensures |pairs| == |e.seeding| + |e.seeds|
  {
    seq(|e.seeding|, i requires 0 <= i < |e.seeding| => Pair(e.seeding[i], e.address))
    + seq(|e.seeds|, i requires 0 <= i < |e.seeds| => Pair(e.address, e.seeds[i]))
  }

  /** NetDB.Insert on the database: a known address is updated and its seed lists are not looked at. */
  function InsertSpec(s: Store, e: Entry): Linked {
    var r := Upsert(s, e.address, e.info);
    if Known(s, e.address) then Linked(r, true) else LinkAll(r, PairsOf(e))
  }

  ghost predicate Links(s: Store, pairs: seq<Pair>, l: Link) {
    exists k :: 0 <= k < |pairs| && l == Link(IdOf(s.rows, pairs[k].seed), IdOf(s.rows, pairs[k].peer))
  }

  predicate PairKnown(s: Store, p: Pair) {
    Known(s, p.peer) && Known(s, p.seed)
  }

  lemma {:induction false} LinkAllKeeps(s: Store, pairs: seq<Pair>)
    requires ValidStore(s)
    ensures ValidStore(LinkAll(s, pairs).store) && LinkAll(s, pairs).store.rows == s.rows
    ensures LinkAll(s, pairs).ok <==> forall k :: 0 <= k < |pairs| ==> PairKnown(s, pairs[k])
  {
    hide ValidStore;
    hide IdOf;
    hide AddLink;
    if pairs != [] {
      var n := |pairs| - 1;
      var before := LinkAll(s, pairs[..n]);
      LinkAllKeeps(s, pairs[..n]);
      assert pairs == pairs[..n] + [pairs[n]];
      if before.ok && PairKnown(s, pairs[n]) {
        AddLinkKeeps(before.store, Link(IdOf(s.rows, pairs[n].seed), IdOf(s.rows, pairs[n].peer)));
      }
    }
  }

  lemma {:induction false} LinkAllMeans(s: Store, pairs: seq<Pair>, l: Link)
    requires ValidStore(s) && LinkAll(s, pairs).ok
    ensures l in LinkAll(s, pairs).store.links <==> l in s.links || Links(s, pairs, l)
  {
    hide ValidStore;
    hide IdOf;
    if pairs != [] {
      var n := |pairs| - 1;
      var before := LinkAll(s, pairs[..n]);
      LinkAllMeans(s, pairs[..n], l);
      LinkAllKeeps(s, pairs[..n]);
      var added := Link(IdOf(s.rows, pairs[n].seed), IdOf(s.rows, pairs[n].peer));
      assert Links(s, pairs, l) <==> Links(s, pairs[..n], l) || l == added by {
        if Links(s, pairs[..n], l) {
          var k :| 0 <= k < n && l == Link(IdOf(s.rows, pairs[..n][k].seed), IdOf(s.rows, pairs[..n][k].peer));
          assert pairs[k] == pairs[..n][k];
        }
        if Links(s, pairs, l) && l != added {
          var k :| 0 <= k <= n && l == Link(IdOf(s.rows, pairs[k].seed), IdOf(s.rows, pairs[k].peer));
          assert k < n && pairs[..n][k] == pairs[k];
        }
      }
    }
  }

  /** With the first unknown address in pair `m`, exactly the pairs before it are linked. */
  lemma {:induction false} LinkAllStopsAt(s: Store, pairs: seq<Pair>, m: nat, l: Link)
    requires ValidStore(s) && m < |pairs| && !PairKnown(s, pairs[m])
    requires forall k :: 0 <= k < m ==> PairKnown(s, pairs[k])
    ensures !LinkAll(s, pairs).ok
    ensures l in LinkAll(s, pairs).store.links <==> l in s.links || Links(s, pairs[..m], l)
  {
    hide ValidStore;
    hide IdOf;
    hide Links;
    var n := |pairs| - 1;
    LinkAllKeeps(s, pairs[..n]);
    if m == n {
      LinkAllMeans(s, pairs[..n], l);
    } else {
      assert pairs[..n][..m] == pairs[..m];
      LinkAllStopsAt(s, pairs[..n], m, l);
    }
  }

  /** Inserting keeps the store valid and every known address known. */
  lemma InsertKeeps(s: Store, e: Entry)
    requires ValidStore(s)
    ensures var r := InsertSpec(s, e).store;
            ValidStore(r) && Known(r, e.address) && forall x :: Known(s, x) ==> Known(r, x)
  {
    hide ValidStore;
    var r := Upsert(s, e.address, e.info);
    UpsertKeeps(s, e.address, e.info);
    forall x | Known(s, x)
      ensures Known(r, x)
    {
      UpsertKeepsIds(s, e.address, e.info, x);
    }
    hide IdOf;
    hide Upsert;
    LinkAllKeeps(r, PairsOf(e));
  }

  /** The link between `x` and a new entry exists exactly when the entry lists it, on either side for itself. */
  lemma NewLinks(s: Store, e: Entry, x: Address)
    requires ValidStore(s) && !Known(s, e.address) && InsertSpec(s, e).ok
    requires Known(InsertSpec(s, e).store, x)
    ensures var r := InsertSpec(s, e).store;
            var n, q := IdOf(r.rows, e.address), IdOf(r.rows, x);
            && (Link(q, n) in r.links <==> x in e.seeds || (x == e.address && x in e.seeding))
            && (Link(n, q) in r.links <==> x in e.seeding || (x == e.address && x in e.seeds))
  {
    var s1 := Upsert(s, e.address, e.info);
    UpsertKeeps(s, e.address, e.info);
    var pairs := PairsOf(e);
    LinkAllKeeps(s1, pairs);
    var n, q := IdOf(s1.rows, e.address), IdOf(s1.rows, x);
    LinkAllMeans(s1, pairs, Link(q, n));
    LinkAllMeans(s1, pairs, Link(n, q));
    assert Link(q, n) !in s.links && Link(n, q) !in s.links;
    PairLinks(s1, e, x);
  }

  lemma SameId(s: Store, a: Bytes, b: Bytes)
    requires Known(s, a) && IdOf(s.rows, a) == IdOf(s.rows, b)
    ensures a == b
  {
  }

  lemma PairLinks(s: Store, e: Entry, x: Address)
    requires Known(s, e.address) && Known(s, x)
    ensures var n, q := IdOf(s.rows, e.address), IdOf(s.rows, x);
            && (Links(s, PairsOf(e), Link(q, n)) <==> x in e.seeds || (x == e.address && x in e.seeding))
            && (Links(s, PairsOf(e), Link(n, q)) <==> x in e.seeding || (x == e.address && x in e.seeds))
  {
    var pairs, n, q := PairsOf(e), IdOf(s.rows, e.address), IdOf(s.rows, x);
    var m := |e.seeding|;
    hide IdOf;
    forall i | 0 <= i < m
      ensures Links(s, pairs, Link(n, IdOf(s.rows, e.seeding[i])))
    {
      assert pairs[i] == Pair(e.seeding[i], e.address);
    }
    forall i | 0 <= i < |e.seeds|
      ensures Links(s, pairs, Link(IdOf(s.rows, e.seeds[i]), n))
    {
      assert pairs[m + i] == Pair(e.address, e.seeds[i]);
    }
    forall k | 0 <= k < |pairs|
      ensures var l := Link(IdOf(s.rows, pairs[k].seed), IdOf(s.rows, pairs[k].peer));
              && (l == Link(q, n) ==> x in e.seeds || (x == e.address && x in e.seeding))
              && (l == Link(n, q) ==> x in e.seeding || (x == e.address && x in e.seeds))
    {
      var l := Link(IdOf(s.rows, pairs[k].seed), IdOf(s.rows, pairs[k].peer));
      if l == Link(q, n) {
        SameId(s, x, pairs[k].seed);
        SameId(s, e.address, pairs[k].peer);
      }
      if l == Link(n, q) {
        SameId(s, e.address, pairs[k].seed);
        SameId(s, x, pairs[k].peer);
      }
    }
  }

  lemma ListedKnown(s: Store, e: Entry, x: Bytes)
    requires forall k :: 0 <= k < |PairsOf(e)| ==> PairKnown(s, PairsOf(e)[k])
    ensures x in e.seeds || x in e.seeding ==> Known(s, x)
  {
    if x in e.seeding {
      var i :| 0 <= i < |e.seeding| && e.seeding[i] == x;
      assert PairsOf(e)[i] == Pair(x, e.address);
    } else if x in e.seeds {
      var i :| 0 <= i < |e.seeds| && e.seeds[i] == x;
      assert PairsOf(e)[|e.seeding| + i] == Pair(e.address, x);
    }
  }

  lemma LinkBounds(s: Store)
    requires ValidStore(s)
    ensures forall k :: 0 <= k < |s.links| ==> 0 < s.links[k].seed <= |s.rows| && 0 < s.links[k].peer <= |s.rows|
  {
  }

  /** A first insertion whose seeds are all known is read back with the same fields and the same two sets; an entry
      that lists itself on one side is linked to itself on both. */
  lemma FirstInsertRoundTrip(s: Store, e: Entry, x: Address)
    requires ValidStore(s) && !Known(s, e.address)
    requires forall k :: 0 <= k < |PairsOf(e)| ==> PairKnown(Upsert(s, e.address, e.info), PairsOf(e)[k])
    ensures var r := InsertSpec(s, e);
            && r.ok && ValidStore(r.store) && Known(r.store, e.address)
            && var got := ReadEntry(r.store, e.address);
               && got.info == e.info
               && (x in got.seeds <==> x in e.seeds || (x == e.address && x in e.seeding))
               && (x in got.seeding <==> x in e.seeding || (x == e.address && x in e.seeds))
  {
    hide ValidStore;
    hide Links;
    var s1 := Upsert(s, e.address, e.info);
    UpsertKeeps(s, e.address, e.info);
    InsertKeeps(s, e);
    LinkAllKeeps(s1, PairsOf(e));
    var r := InsertSpec(s, e).store;
    var n := IdOf(r.rows, e.address);
    LinkBounds(r);
    if Known(r, x) {
      NewLinks(s, e, x);
      SeedsForMeans(r, n, r.links, IdOf(r.rows, x));
      SeededByMeans(r, n, r.links, IdOf(r.rows, x));
    } else {
      SeedsForKnown(r, n, r.links);
      SeededByKnown(r, n, r.links);
      ListedKnown(s1, e, x);
    }
  }

  /** A first insertion leaves every other row's fields alone, whether or not all its seeds could be linked. */
  lemma FirstInsertKeepsFields(s: Store, e: Entry, x: Address)
    requires ValidStore(s) && !Known(s, e.address) && Known(s, x)
    ensures var r := InsertSpec(s, e).store;
            ValidStore(r) && Known(r, x) && ReadEntry(r, x).info == ReadEntry(s, x).info
  {
    hide ValidStore;
    hide IdOf;
    hide Upsert;
    hide InsertSpec;
    hide ReadEntry;
    NewRows(s, e);
    InsertKeeps(s, e);
    UpsertKeepsIds(s, e.address, e.info, x);
    ReadInfo(s, x);
    ReadInfo(InsertSpec(s, e).store, x);
  }

  lemma NewRows(s: Store, e: Entry)
    requires ValidStore(s) && !Known(s, e.address)
    ensures InsertSpec(s, e).store.rows == Upsert(s, e.address, e.info).rows == s.rows + [Row(e.address, e.info)]
  {
    hide ValidStore;
    hide IdOf;
    hide LinkAll;
    UpsertKeeps(s, e.address, e.info);
    LinkAllKeeps(Upsert(s, e.address, e.info), PairsOf(e));
  }

  lemma ReadInfo(s: Store, x: Address)
    requires ValidStore(s) && Known(s, x)
    ensures ReadEntry(s, x).info == s.rows[IdOf(s.rows, x) - 1].info
  {
  }

  lemma NoOtherLinks(s: Store, e: Entry, x: Address, y: Address)
    requires Known(s, e.address) && Known(s, x) && Known(s, y) && x != e.address && y != e.address
    ensures !Links(s, PairsOf(e), Link(IdOf(s.rows, y), IdOf(s.rows, x)))
  {
    var pairs := PairsOf(e);
    hide IdOf;
    forall k | 0 <= k < |pairs|
      ensures Link(IdOf(s.rows, y), IdOf(s.rows, x)) != Link(IdOf(s.rows, pairs[k].seed), IdOf(s.rows, pairs[k].peer))
    {
      if IdOf(s.rows, y) == IdOf(s.rows, pairs[k].seed) && IdOf(s.rows, x) == IdOf(s.rows, pairs[k].peer) {
        SameId(s, y, pairs[k].seed);
        SameId(s, x, pairs[k].peer);
      }
    }
  }

  /** The links between addresses known before are those there were before. */
  lemma OldLinks(s: Store, e: Entry, x: Address, y: Address)
    requires ValidStore(s) && !Known(s, e.address) && InsertSpec(s, e).ok && Known(s, x) && Known(s, y)
    ensures var r := InsertSpec(s, e).store;
            && IdOf(r.rows, x) == IdOf(s.rows, x) && IdOf(r.rows, y) == IdOf(s.rows, y)
            && (Link(IdOf(r.rows, y), IdOf(r.rows, x)) in r.links <==>
                Link(IdOf(s.rows, y), IdOf(s.rows, x)) in s.links)
  {
    hide ValidStore;
    hide IdOf;
    hide Links;
    var s1 := Upsert(s, e.address, e.info);
    UpsertKeeps(s, e.address, e.info);
    UpsertKeepsIds(s, e.address, e.info, x);
    UpsertKeepsIds(s, e.address, e.info, y);
    LinkAllKeeps(s1, PairsOf(e));
    LinkAllMeans(s1, PairsOf(e), Link(IdOf(s1.rows, y), IdOf(s1.rows, x)));
    NoOtherLinks(s1, e, x, y);
  }

  /** And when they were all linked, the lists of an entry known before gain at most the new address, each exactly when
      the new entry names it on the other side. */
  lemma FirstInsertOthers(s: Store, e: Entry, x: Address, y: Address)
    requires ValidStore(s) && !Known(s, e.address) && InsertSpec(s, e).ok && Known(s, x)
    ensures var r := InsertSpec(s, e).store;
            && ValidStore(r) && Known(r, x)
            && (y in ReadEntry(r, x).seeds <==> y in ReadEntry(s, x).seeds || (y == e.address && x in e.seeding))
            && (y in ReadEntry(r, x).seeding <==> y in ReadEntry(s, x).seeding || (y == e.address && x in e.seeds))
  {
    hide ValidStore;
    hide IdOf;
    hide Links;
    hide InsertSpec;
    var r := InsertSpec(s, e).store;
    InsertKeeps(s, e);
    LinkBounds(r);
    LinkBounds(s);
    OldLinks(s, e, x, x);
    var q := IdOf(r.rows, x);
    SeedsForKnown(s, q, s.links);
    SeededByKnown(s, q, s.links);
    SeedsForKnown(r, q, r.links);
    SeededByKnown(r, q, r.links);
    if y == e.address {
      NewLinks(s, e, x);
      IdRow(r, y);
      SeedsForMeans(r, q, r.links, IdOf(r.rows, y));
      SeededByMeans(r, q, r.links, IdOf(r.rows, y));
    } else if Known(s, y) {
      OldLinks(s, e, x, y);
      OldLinks(s, e, y, x);
      IdRow(r, y);
      IdRow(s, y);
      SeedsForMeans(r, q, r.links, IdOf(r.rows, y));
      SeededByMeans(r, q, r.links, IdOf(r.rows, y));
      SeedsForMeans(s, q, s.links, IdOf(s.rows, y));
      SeededByMeans(s, q, s.links, IdOf(s.rows, y));
    } else {
      OnlyNewRow(s, e, y);
    }
  }

  lemma IdRow(s: Store, a: Address)
    requires Known(s, a)
    ensures s.rows[IdOf(s.rows, a) - 1].address == a
  {
  }

  lemma OnlyNewRow(s: Store, e: Entry, y: Address)
    requires ValidStore(s) && !Known(s, e.address) && !Known(s, y) && y != e.address
    ensures !Known(InsertSpec(s, e).store, y)
  {
    hide ValidStore;
    hide InsertSpec;
    hide Upsert;
    NewRows(s, e);
  }

  /** Inserting a known address replaces that entry's fields and nothing else: its seed lists stay what they were,
      whatever the new entry lists, and every other entry is untouched. */
  lemma UpdateExact(s: Store, e: Entry, x: Address)
    requires ValidStore(s) && Known(s, e.address) && Known(s, x)
    ensures var r := InsertSpec(s, e).store;
            && ValidStore(r) && Known(r, x)
            && ReadEntry(r, x) == if x == e.address then ReadEntry(s, x).(info := e.info) else ReadEntry(s, x)
  {
    var r := Upsert(s, e.address, e.info);
    UpsertKeeps(s, e.address, e.info);
    UpsertKeepsIds(s, e.address, e.info, x);
    UpdatedRows(s, e.address, e.info);
    LinkBounds(s);
    hide ValidStore;
    hide IdOf;
    hide Upsert;
    hide ReadEntry;
    ReadSame(s, r, x);
    if IdOf(s.rows, x) == IdOf(s.rows, e.address) {
      SameId(s, x, e.address);
    }
    InsertIsUpdate(s, e);
  }

  lemma InsertIsUpdate(s: Store, e: Entry)
    requires Known(s, e.address)
    ensures InsertSpec(s, e).store == Upsert(s, e.address, e.info)
  {
  }

  /** Two stores with the same addresses, ids and links read back the same but for the row's own fields. */
  lemma ReadSame(s: Store, r: Store, x: Address)
    requires ValidStore(s) && ValidStore(r) && Known(s, x) && IdOf(r.rows, x) == IdOf(s.rows, x)
    requires |s.rows| == |r.rows| && s.links == r.links
    requires forall i :: 0 <= i < |s.rows| ==> s.rows[i].address == r.rows[i].address
    ensures Known(r, x) && ReadEntry(r, x) == ReadEntry(s, x).(info := r.rows[IdOf(s.rows, x) - 1].info)
    ensures ReadEntry(s, x).info == s.rows[IdOf(s.rows, x) - 1].info
  {
    LinkBounds(s);
    SameAddressesSameLists(s, r, IdOf(s.rows, x), s.links);
    hide ValidStore;
    hide IdOf;
    hide SeedsFor;
    hide SeededBy;
  }

  lemma UpdatedRows(s: Store, a: Address, info: Info)
    requires Known(s, a)
    ensures var r := Upsert(s, a, info);
            && |r.rows| == |s.rows| && r.links == s.links
            && (forall i :: 0 <= i < |s.rows| ==> r.rows[i].address == s.rows[i].address)
            && forall i :: 0 <= i < |s.rows| ==>
                 r.rows[i].info == if i == IdOf(s.rows, a) - 1 then info else s.rows[i].info
  {
  }
}
