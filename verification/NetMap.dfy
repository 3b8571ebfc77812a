/** The map of the network: a depth-first walk over who seeds for whom. */
module NetMap {
  import opened Addresses
  import opened Buckets
  import opened EntryStore
  import opened Text

  /** What the walk reads of an entry. */
  datatype Peer = Peer(name: Bytes, seeding: seq<Address>)

  /** The stored entries, by address. */
  type Graph = map<Address, Peer>

  datatype MapNode = MapNode(address: Address, name: Bytes)

  datatype MapLink = MapLink(source: Address, target: Address)

  /** The two maps shared by all calls of one walk. */
  class Seen {
    var nodes: set<Address>
    var links: set<MapLink>

    constructor ()
      ensures nodes == {} && links == {}
    {
      nodes, links := {}, {};
    }
  }

  predicate AllIn(g: Graph, out: seq<Address>) {
    forall i :: 0 <= i < |out| ==> out[i] in g
  }

  /** Every address an entry is seeding has an entry. */
  predicate Closed(g: Graph) {
    forall x :: x in g ==> AllIn(g, g[x].seeding)
  }

  /** The graph a store's queries answer from. */
  function GraphOf(s: Store): Graph
    requires ValidStore(s)
  {
    map a | a in Stored(s) :: Peer(ReadEntry(s, a).info.name, QuerySeeding(s, IdOf(s.rows, a)))
  }

  function Stored(s: Store): (r: set<Address>)
    ensures forall a: Address :: a in r <==> Known(s, a)
  {
    set i | 0 <= i < |s.rows| :: s.rows[i].address
  }

  /** A store only lists addresses it has rows for, so its graph is closed: the walk never meets an address without
      an entry, whoever's stored list it starts from. */
  lemma StoreClosed(s: Store)
    requires ValidStore(s)
    ensures Closed(GraphOf(s))
    ensures forall a: Address :: Known(s, a) ==> AllIn(GraphOf(s), QuerySeeding(s, IdOf(s.rows, a)))
  {
    var g := GraphOf(s);
    LinkBounds(s);
    hide ValidStore;
    hide IdOf;
    forall a: Address | Known(s, a)
      ensures AllIn(g, QuerySeeding(s, IdOf(s.rows, a)))
    {
      SeededByKnown(s, IdOf(s.rows, a), s.links);
      forall x | x in QuerySeeding(s, IdOf(s.rows, a))
        ensures x in g
      {
      }
    }
  }

  /** What the graph says in the store's own terms: a peer is seeding exactly those it is a seed of. */
  lemma GraphMeans(s: Store, x: Address, y: Address)
    requires ValidStore(s)
    ensures x in GraphOf(s) <==> Known(s, x)
    ensures Known(s, x) ==> GraphOf(s)[x].name == s.rows[IdOf(s.rows, x) - 1].info.name
    ensures Known(s, x) && Known(s, y) ==>
              (y in GraphOf(s)[x].seeding <==> y in ReadEntry(s, x).seeding)
              && (y in GraphOf(s)[x].seeding <==> x in ReadEntry(s, y).seeds)
  {
    hide ValidStore;
    hide IdOf;
    if Known(s, x) && Known(s, y) {
      SeedsDual(s, y, x);
    }
  }

  // ----- reachability

  ghost predicate IsPath(g: Graph, p: seq<Address>) {
    forall i :: 0 <= i < |p| - 1 ==> p[i] in g && p[i + 1] in g[p[i]].seeding
  }

  ghost predicate PathFrom(g: Graph, out: seq<Address>, p: seq<Address>, x: Address) {
    p != [] && p[0] in out && p[|p| - 1] == x && IsPath(g, p)
  }

  /** `x` can be reached from a peer that is seeding `out`, in one step or more. */
  ghost predicate Reach(g: Graph, out: seq<Address>, x: Address) {
    exists p :: PathFrom(g, out, p, x)
  }

  lemma ReachDirect(g: Graph, out: seq<Address>, x: Address)
    requires x in out
    ensures Reach(g, out, x)
  {
    assert PathFrom(g, out, [x], x);
  }

  lemma ReachThrough(g: Graph, out: seq<Address>, w: Address, x: Address)
    requires w in out && w in g && Reach(g, g[w].seeding, x)
    ensures Reach(g, out, x)
  {
    var p :| PathFrom(g, g[w].seeding, p, x);
    var q := [w] + p;
    forall i | 0 <= i < |q| - 1
      ensures q[i] in g && q[i + 1] in g[q[i]].seeding
    {
      assert i > 0 ==> q[i] == p[i - 1] && q[i + 1] == p[i];
    }
    assert PathFrom(g, out, q, x);
  }

  /** A set that holds `out` and is closed under seeding holds everything reachable. */
  lemma {:induction false} ReachClosed(g: Graph, out: seq<Address>, s: set<Address>, p: seq<Address>)
    requires p != [] && p[0] in out && IsPath(g, p)
    requires forall w :: w in out ==> w in s
    requires forall x, w :: x in s && x in g && w in g[x].seeding ==> w in s
    ensures p[|p| - 1] in s
  {
    if |p| > 1 {
      var n := |p| - 1;
      ReachClosed(g, out, s, p[..n]);
      assert p[n - 1] in s && p[n] in g[p[n - 1]].seeding;
    }
  }

  // ----- lists that hold a set, each element once

  predicate Lists<T(==)>(q: seq<T>, s: set<T>) {
    multiset(q) == multiset(s)
  }

  lemma ListsConcat<T>(q: seq<T>, s: set<T>, r: seq<T>, t: set<T>)
    requires Lists(q, s) && Lists(r, t) && s !! t
    ensures Lists(q + r, s + t)
  {
    assert multiset(s + t) == multiset(s) + multiset(t);
    assert multiset(q + r) == multiset(q) + multiset(r);
  }

  function NodesOf(g: Graph, s: set<Address>): set<MapNode>
    requires s <= g.Keys
  {
    set x | x in s :: MapNode(x, g[x].name)
  }

  // ----- the walk

  /** Every link out of `x` has been recorded. */
  predicate Done(x: Address, out: seq<Address>, links: set<MapLink>) {
    forall i :: 0 <= i < |out| ==> MapLink(out[i], x) in links
  }

  /** A recorded link's source is a recorded node. */
  predicate Noded(nodes: set<Address>, links: set<MapLink>) {
    forall l :: l in links ==> l.source in nodes
  }

  /** What one call, or the first `k` rounds of its loop, adds to the shared maps and to its results. */
  ghost predicate Progress(g: Graph, addr: Address, out: seq<Address>, k: nat, n0: set<Address>, l0: set<MapLink>,
                           n1: set<Address>, l1: set<MapLink>, nodes: seq<MapNode>, links: seq<MapLink>)
  {
    && k <= |out| && n0 <= n1 <= g.Keys && l0 <= l1
    && Noded(n1, l1)
    && Done(addr, out[..k], l1)
    && (forall x :: x in n1 - n0 ==> Done(x, g[x].seeding, l1))
    && (forall l :: l in l1 - l0 ==>
          (l.target == addr && l.source in out) || (l.target in n1 - n0 && l.source in g[l.target].seeding))
    && (forall x :: x in n1 - n0 ==> Reach(g, out, x))
    && Lists(nodes, NodesOf(g, n1 - n0))
    && Lists(links, l1 - l0)
  }

  /** CreateNetMap. The peer walked from is listed when it is not recorded yet, and is not recorded by this. */
  method CreateNetMap(addr: Address, entry: Peer, g: Graph, seen: Seen)
    returns (nodes: seq<MapNode>, links: seq<MapLink>)
    requires Closed(g) && AllIn(g, entry.seeding)
    requires seen.nodes <= g.Keys && Noded(seen.nodes, seen.links)
    modifies seen
    ensures var self := if addr in old(seen.nodes) then [] else [MapNode(addr, entry.name)];
            && self <= nodes
            && Progress(g, addr, entry.seeding, |entry.seeding|, old(seen.nodes), old(seen.links),
                        seen.nodes, seen.links, nodes[|self|..], links)
    decreases g.Keys - seen.nodes, 1
  {
    hide Progress;
    ghost var self: seq<MapNode> := [];
    nodes, links := [], [];
    if addr !in seen.nodes {
      nodes := [MapNode(addr, entry.name)];
      self := nodes;
    }
    ghost var more: seq<MapNode> := [];
    ProgressNone(g, addr, entry.seeding, seen.nodes, seen.links);
    for k := 0 to |entry.seeding|
      invariant nodes == self + more && old(seen.nodes) <= seen.nodes <= g.Keys && Noded(seen.nodes, seen.links)
      invariant Progress(g, addr, entry.seeding, k, old(seen.nodes), old(seen.links),
                         seen.nodes, seen.links, more, links)
    {
      ghost var n1, l1 := seen.nodes, seen.links;
      var n, l := Follow(entry.seeding[k], addr, g, seen);
      ProgressNext(g, addr, entry.seeding, k, old(seen.nodes), old(seen.links), n1, l1, seen.nodes, seen.links,
                   more, links, n, l);
      nodes, links, more := nodes + n, links + l, more + n;
    }
    assert nodes[|self|..] == more;
  }

  /** One seeded peer: its link, and, when it is new, its node and its own walk. */
  ghost predicate Followed(g: Graph, w: Address, addr: Address, n0: set<Address>, l0: set<MapLink>,
                           n1: set<Address>, l1: set<MapLink>, nodes: seq<MapNode>, links: seq<MapLink>)
    requires w in g
  {
    && n0 <= n1 <= g.Keys && l0 <= l1
    && Noded(n1, l1)
    && MapLink(w, addr) in l1
    && (forall x :: x in n1 - n0 ==> Done(x, g[x].seeding, l1))
    && (forall l :: l in l1 - l0 ==>
          l == MapLink(w, addr) || (l.target in n1 - n0 && l.source in g[l.target].seeding))
    && (forall x :: x in n1 - n0 ==> x == w || Reach(g, g[w].seeding, x))
    && Lists(nodes, NodesOf(g, n1 - n0))
    && Lists(links, l1 - l0)
  }

  method Follow(w: Address, addr: Address, g: Graph, seen: Seen) returns (nodes: seq<MapNode>, links: seq<MapLink>)
    requires Closed(g) && w in g
    requires seen.nodes <= g.Keys && Noded(seen.nodes, seen.links)
    modifies seen
    ensures Followed(g, w, addr, old(seen.nodes), old(seen.links), seen.nodes, seen.links, nodes, links)
    decreases g.Keys - seen.nodes, 0
  {
    hide Progress;
    nodes, links := [], [];
    ghost var n0, l0 := seen.nodes, seen.links;
    var link := MapLink(w, addr);
    if link in seen.links {
      FollowedNone(g, w, addr, n0, l0);
      return;
    }
    seen.links := seen.links + {link};
    links := [link];
    if w in seen.nodes {
      FollowedLink(g, w, addr, n0, l0);
      return;
    }
    seen.nodes := seen.nodes + {w};
    nodes := [MapNode(w, g[w].name)];
    var n, l := CreateNetMap(w, g[w], g, seen);
    FollowedWalk(g, w, addr, n0, l0, seen.nodes, seen.links, n, l);
    nodes := nodes + n;
    links := links + l;
  }

  lemma FollowedNone(g: Graph, w: Address, addr: Address, n0: set<Address>, l0: set<MapLink>)
    requires w in g && n0 <= g.Keys && Noded(n0, l0) && MapLink(w, addr) in l0
    ensures Followed(g, w, addr, n0, l0, n0, l0, [], [])
  {
    assert n0 - n0 == {} && l0 - l0 == {};
    assert NodesOf(g, {}) == {};
  }

  lemma FollowedLink(g: Graph, w: Address, addr: Address, n0: set<Address>, l0: set<MapLink>)
    requires w in n0 && n0 <= g.Keys && Noded(n0, l0) && MapLink(w, addr) !in l0
    ensures Followed(g, w, addr, n0, l0, n0, l0 + {MapLink(w, addr)}, [], [MapLink(w, addr)])
  {
    var l1 := l0 + {MapLink(w, addr)};
    assert n0 - n0 == {} && l1 - l0 == {MapLink(w, addr)};
    assert NodesOf(g, {}) == {};
  }

  lemma FollowedWalk(g: Graph, w: Address, addr: Address, n0: set<Address>, l0: set<MapLink>,
                     n2: set<Address>, l2: set<MapLink>, nodes: seq<MapNode>, links: seq<MapLink>)
    requires w in g && w !in n0 && MapLink(w, addr) !in l0
    requires Progress(g, w, g[w].seeding, |g[w].seeding|, n0 + {w}, l0 + {MapLink(w, addr)}, n2, l2, nodes, links)
    ensures Followed(g, w, addr, n0, l0, n2, l2, [MapNode(w, g[w].name)] + nodes, [MapLink(w, addr)] + links)
  {
    var link, out := MapLink(w, addr), g[w].seeding;
    var n1, l1 := n0 + {w}, l0 + {link};
    assert out[..|out|] == out;
    assert n2 - n0 == {w} + (n2 - n1) && l2 - l0 == {link} + (l2 - l1);
    ListsNodes(g, [MapNode(w, g[w].name)], {w}, nodes, n2 - n1);
    ListsConcat([link], {link}, links, l2 - l1);
  }

  lemma ListsNodes(g: Graph, q: seq<MapNode>, s: set<Address>, r: seq<MapNode>, t: set<Address>)
    requires s <= g.Keys && t <= g.Keys && s !! t
    requires Lists(q, NodesOf(g, s)) && Lists(r, NodesOf(g, t))
    ensures Lists(q + r, NodesOf(g, s + t))
  {
    assert NodesOf(g, s) !! NodesOf(g, t);
    assert NodesOf(g, s + t) == NodesOf(g, s) + NodesOf(g, t);
    ListsConcat(q, NodesOf(g, s), r, NodesOf(g, t));
  }

  lemma ProgressNone(g: Graph, addr: Address, out: seq<Address>, n0: set<Address>, l0: set<MapLink>)
    requires n0 <= g.Keys && Noded(n0, l0)
    ensures Progress(g, addr, out, 0, n0, l0, n0, l0, [], [])
  {
    assert n0 - n0 == {} && l0 - l0 == {};
    assert NodesOf(g, {}) == {};
  }

  lemma ProgressNext(g: Graph, addr: Address, out: seq<Address>, k: nat, n0: set<Address>, l0: set<MapLink>,
                     n1: set<Address>, l1: set<MapLink>, n2: set<Address>, l2: set<MapLink>,
                     nodes: seq<MapNode>, links: seq<MapLink>, nodes': seq<MapNode>, links': seq<MapLink>)
    requires k < |out| && out[k] in g
    requires Progress(g, addr, out, k, n0, l0, n1, l1, nodes, links)
    requires Followed(g, out[k], addr, n1, l1, n2, l2, nodes', links')
    ensures Progress(g, addr, out, k + 1, n0, l0, n2, l2, nodes + nodes', links + links')
  {
    assert n2 - n0 == (n1 - n0) + (n2 - n1) && l2 - l0 == (l1 - l0) + (l2 - l1);
    ListsNodes(g, nodes, n1 - n0, nodes', n2 - n1);
    ListsConcat(links, l1 - l0, links', l2 - l1);
    forall x | x in n2 - n1
      ensures Reach(g, out, x)
    {
      if x == out[k] {
        ReachDirect(g, out, x);
      } else {
        ReachThrough(g, out, out[k], x);
      }
    }
    hide Reach;
    hide Lists;
    hide Noded;
    assert Done(addr, out[..k + 1], l2);
  }

  // ----- the whole walk

  ghost function Reachable(g: Graph, out: seq<Address>): set<Address> {
    set x | x in g.Keys && Reach(g, out, x)
  }

  /** The links of a map rooted at `addr`: its own, and those of everything reachable. */
  ghost function Edges(g: Graph, addr: Address, out: seq<Address>): iset<MapLink> {
    iset l: MapLink | (l.target == addr && l.source in out)
                    || (l.target in Reachable(g, out) && l.source in g[l.target].seeding)
  }

  /** A walk over a store, started with empty maps, lists every reachable peer once, the root once more, and every
      link between them exactly once. So the root is listed twice exactly when it can be reached from itself. */
  method NetworkMap(addr: Address, entry: Peer, s: Store) returns (nodes: seq<MapNode>, links: seq<MapLink>)
    requires ValidStore(s) && AllIn(GraphOf(s), entry.seeding)
    ensures var g := GraphOf(s);
            var reached := Reachable(g, entry.seeding);
            && multiset(nodes) == multiset{MapNode(addr, entry.name)} + multiset(NodesOf(g, reached))
            && NoDup(links)
            && (forall l :: l in links <==> l in Edges(g, addr, entry.seeding))
            && (forall l :: l in links ==> l.source in reached && (l.target == addr || l.target in reached))
            && (forall l :: l in links && l.target != addr ==> l.target in ReadEntry(s, l.source).seeds)
            && forall x, y :: x in reached && y in reached && x in ReadEntry(s, y).seeds ==> MapLink(y, x) in links
  {
    hide Progress;
    hide Reachable;
    hide Edges;
    hide NoDup;
    hide ValidStore;
    hide GraphOf;
    hide Closed;
    StoreClosed(s);
    var g := GraphOf(s);
    var seen := new Seen();
    nodes, links := CreateNetMap(addr, entry, g, seen);
    assert nodes == [MapNode(addr, entry.name)] + nodes[1..];
    FromEmpty(g, addr, entry.seeding, seen.nodes, seen.links, nodes[1..], links);
    LinksAreSeeds(s, addr, entry.seeding, links);
  }

  lemma LinksAreSeeds(s: Store, addr: Address, out: seq<Address>, links: seq<MapLink>)
    requires ValidStore(s) && forall l :: l in links <==> l in Edges(GraphOf(s), addr, out)
    requires forall l :: l in links ==> l.source in Reachable(GraphOf(s), out)
    ensures forall x :: x in Reachable(GraphOf(s), out) ==> Known(s, x)
    ensures forall l :: l in links && l.target != addr ==> l.target in ReadEntry(s, l.source).seeds
    ensures forall x, y | x in Reachable(GraphOf(s), out) && y in Reachable(GraphOf(s), out) ::
              x in ReadEntry(s, y).seeds ==> MapLink(y, x) in links
  {
    hide ValidStore;
    hide ReadEntry;
    hide Reach;
    var g := GraphOf(s);
    forall x, y | x in Reachable(g, out) && y in Reachable(g, out)
      ensures Known(s, x) && Known(s, y) && (y in g[x].seeding <==> x in ReadEntry(s, y).seeds)
    {
      GraphMeans(s, x, y);
      GraphMeans(s, y, x);
    }
    hide GraphOf;
    forall x, y | x in Reachable(g, out) && y in Reachable(g, out) && x in ReadEntry(s, y).seeds
      ensures MapLink(y, x) in links
    {
      assert MapLink(y, x) in Edges(g, addr, out);
    }
  }

  lemma FromEmpty(g: Graph, addr: Address, out: seq<Address>, n1: set<Address>, l1: set<MapLink>,
                  nodes: seq<MapNode>, links: seq<MapLink>)
    requires Progress(g, addr, out, |out|, {}, {}, n1, l1, nodes, links)
    ensures multiset(nodes) == multiset(NodesOf(g, Reachable(g, out)))
    ensures NoDup(links) && forall l :: l in links <==> l in Edges(g, addr, out)
    ensures forall l :: l in links ==>
              l.source in Reachable(g, out) && (l.target == addr || l.target in Reachable(g, out))
  {
    hide Reachable;
    hide NodesOf;
    hide NoDup;
    hide Reach;
    assert n1 - {} == n1 && l1 - {} == l1 && out[..|out|] == out;
    WholeWalk(g, addr, out, n1, l1);
    ListsMeans(links, l1);
  }

  lemma ListsMeans<T>(q: seq<T>, s: set<T>)
    requires Lists(q, s)
    ensures NoDup(q) && forall x :: x in q <==> x in s
  {
    forall x
      ensures x in q <==> x in s
    {
      assert x in q <==> x in multiset(q);
      assert x in s <==> x in multiset(s);
    }
    forall i, j | 0 <= i < j < |q|
      ensures q[i] != q[j]
    {
      var a, b := q[..j], q[j..];
      assert q == a + b;
      assert q[i] in multiset(a) && q[j] in multiset(b);
      assert multiset(q) == multiset(a) + multiset(b);
      assert multiset(s)[q[i]] <= 1;
    }
  }

  lemma WholeWalk(g: Graph, addr: Address, out: seq<Address>, nodes: set<Address>, links: set<MapLink>)
    requires nodes <= g.Keys && Noded(nodes, links) && Done(addr, out, links)
    requires forall x :: x in nodes ==> Done(x, g[x].seeding, links) && Reach(g, out, x)
    requires forall l :: l in links ==>
      (l.target == addr && l.source in out) || (l.target in nodes && l.source in g[l.target].seeding)
    ensures nodes == Reachable(g, out)
    ensures forall l :: l in links <==> l in Edges(g, addr, out)
  {
    hide IsPath;
    forall w | w in out
      ensures w in nodes
    {
      assert MapLink(w, addr) in links;
    }
    forall x, w | x in nodes && x in g && w in g[x].seeding
      ensures w in nodes
    {
      assert MapLink(w, x) in links;
    }
    forall x | x in Reachable(g, out)
      ensures x in nodes
    {
      var p :| PathFrom(g, out, p, x);
      ReachClosed(g, out, nodes, p);
    }
  }
}
