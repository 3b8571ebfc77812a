/** The post table and the statements run against it. */
module PostStore {
  import opened Text
  import opened Posts
  import opened Pieces

  /** Pieces inserted under one transaction before it is committed and the next one begun. */
  const BATCH := 99

  // ----- the table

  predicate Has(t: seq<Post>, infoHash: Bytes) {
    exists i :: 0 <= i < |t| && t[i].infoHash == infoHash
  }

  /** Rows are never deleted, so ids run from 1 without gaps; info hashes are unique. */
  predicate ValidTable(t: seq<Post>) {
    && (forall i :: 0 <= i < |t| ==> t[i].id == i + 1)
    && (forall i, j :: 0 <= i < j < |t| ==> t[i].infoHash != t[j].infoHash)
  }

  /** INSERT OR IGNORE: a known info hash changes nothing, a new one takes the next id. */
  function InsertIgnore(t: seq<Post>, p: Post): seq<Post> {
    if Has(t, p.infoHash) then t else t + [p.(id := |t| + 1)]
  }

  function InsertAll(t: seq<Post>, ps: seq<Post>): seq<Post>
    decreases ps
  {
    if ps == [] then t else InsertAll(InsertIgnore(t, ps[0]), ps[1..])
  }

  /** SELECT * FROM post WHERE id > `after`. */
  function After(t: seq<Post>, after: int): seq<Post> {
    if t == [] then []
    else (if t[0].id > after then [t[0]] else []) + After(t[1..], after)
  }

  /** ... LIMIT 0, `limit`; a negative limit is no limit. */
  function Select(t: seq<Post>, after: int, limit: int): (r: seq<Post>)
    ensures 0 <= limit ==> |r| <= limit
  {
    var rows := After(t, after);
    if 0 <= limit < |rows| then rows[..limit] else rows
  }

  function Flatten(pieces: seq<seq<Post>>): seq<Post> {
    if pieces == [] then [] else pieces[0] + Flatten(pieces[1..])
  }

  /** How many of `k` received pieces are committed while more are awaited. */
  function Committed(k: nat): (n: nat)
    ensures n <= k
  {
    if k == 0 then 0 else (k - 1) / 99 * 99
  }

  class Database {
    /** The committed rows, in id order. */
    var posts: seq<Post>

    constructor ()
      ensures posts == []
    {
      posts := [];
    }

    /** SELECT MAX(id), with an empty table read as zero. */
    function PostCount(): nat
      reads this
    {
      |posts|
    }

    /** `stale` is the connection's previous row id, which is what an ignored insert reports. */
    method InsertPost(post: Post, stale: nat) returns (id: nat)
      modifies this
      ensures posts == InsertIgnore(old(posts), post)
      ensures id == if Has(old(posts), post.infoHash) then stale else |posts|
    {
      if Has(posts, post.infoHash) {
        id := stale;
      } else {
        posts := posts + [post.(id := |posts| + 1)];
        id := |posts|;
      }
    }

    /** One piece's posts, one statement each, inside a transaction. */
    static method InsertPosts(tx: seq<Post>, ps: seq<Post>) returns (r: seq<Post>)
      ensures r == InsertAll(tx, ps)
    {
      r := tx;
      for i := 0 to |ps|
        invariant r == InsertAll(tx, ps[..i])
      {
        assert ps[..i + 1] == ps[..i] + [ps[i]];
        InsertAllSnoc(tx, ps[..i], ps[i]);
        r := InsertIgnore(r, ps[i]);
      }
      assert ps[..|ps|] == ps;
    }

    /** Consume a channel of pieces. A nil piece ends the last transaction; a channel that merely runs dry leaves it
        open, and then only the full batches before it are in the table. */
    method InsertPieces(pieces: seq<seq<Post>>, ended: bool)
      modifies this
      ensures ended ==> posts == InsertAll(old(posts), Flatten(pieces))
      ensures !ended ==> posts == InsertAll(old(posts), Flatten(pieces[..Committed(|pieces|)]))
    {
      hide InsertAll;
      hide Flatten;
      assert pieces[..0] == [];
      InsertNothing(posts);
      ghost var start := posts;
      var tx, n := posts, 0;
      for k := 0 to |pieces|
        invariant tx == InsertAll(start, Flatten(pieces[..k]))
        invariant n == k - Committed(k)
        invariant posts == InsertAll(start, Flatten(pieces[..Committed(k)]))
      {
        if n == BATCH {
          posts := tx;
          n := 0;
        }
        assert pieces[..k + 1] == pieces[..k] + [pieces[k]];
        FlattenSnoc(pieces[..k], pieces[k]);
        InsertAllConcat(start, Flatten(pieces[..k]), pieces[k]);
        tx := InsertPosts(tx, pieces[k]);
        n := n + 1;
      }
      if ended {
        assert pieces[..|pieces|] == pieces;
        posts := tx;
      }
    }

    method QueryPiece(id: nat, store: bool) returns (piece: Piece)
      ensures fresh(piece) && piece.id == id
      ensures piece.fed == Lines(Select(posts, 1000 * id, PIECE_SIZE), false)
      ensures piece.posts == if store then Select(posts, 1000 * id, PIECE_SIZE) else []
    {
      var rows := Select(posts, 1000 * id, PIECE_SIZE);
      hide Lines;
      hide Line;
      hide Select;
      piece := new Piece(id);
      LinesEmpty(rows[..0], false);
      for i := 0 to |rows|
        invariant fresh(piece) && piece.id == id && piece.fed == Lines(rows[..i], false)
        invariant piece.posts == if store then rows[..i] else []
      {
        LinesSnoc(rows[..i], rows[i], false);
        assert rows[..i + 1] == rows[..i] + [rows[i]];
        var _ := piece.Add(rows[i], store);
      }
      assert rows[..|rows|] == rows;
    }

    /** The rows a piece request streams out. */
    function QueryPiecePosts(start: int, length: int): seq<Post>
      reads this
    {
      Select(posts, start * 1000, start + 1000 * length)
    }

    method SetSeeders(id: int, seeders: int)
      modifies this
      ensures AllSameButCounts(posts, old(posts))
      ensures forall i :: 0 <= i < |posts| ==>
        posts[i] == if old(posts)[i].id == id then old(posts)[i].(seeders := seeders) else old(posts)[i]
    {
      posts := seq(|posts|, i requires 0 <= i < |posts| reads this =>
        if posts[i].id == id then posts[i].(seeders := seeders) else posts[i]);
    }

    method SetLeechers(id: int, leechers: int)
      modifies this
      ensures AllSameButCounts(posts, old(posts))
      ensures forall i :: 0 <= i < |posts| ==>
        posts[i] == if old(posts)[i].id == id then old(posts)[i].(leechers := leechers) else old(posts)[i]
    {
      posts := seq(|posts|, i requires 0 <= i < |posts| reads this =>
        if posts[i].id == id then posts[i].(leechers := leechers) else posts[i]);
    }
  }

  // ----- inserting

  lemma {:induction false} InsertAllConcat(t: seq<Post>, ps: seq<Post>, qs: seq<Post>)
    ensures InsertAll(t, ps + qs) == InsertAll(InsertAll(t, ps), qs)
    decreases ps
  {
    hide InsertIgnore;
    if ps == [] {
      assert ps + qs == qs;
    } else {
      assert (ps + qs)[1..] == ps[1..] + qs;
      InsertAllConcat(InsertIgnore(t, ps[0]), ps[1..], qs);
    }
  }

  lemma InsertAllSnoc(t: seq<Post>, ps: seq<Post>, p: Post)
    ensures InsertAll(t, ps + [p]) == InsertIgnore(InsertAll(t, ps), p)
  {
    hide InsertIgnore;
    InsertAllConcat(t, ps, [p]);
    var u := InsertAll(t, ps);
    assert InsertAll(u, [p]) == InsertAll(InsertIgnore(u, p), []);
  }

  lemma InsertNothing(t: seq<Post>)
    ensures InsertAll(t, Flatten([])) == t
  {
  }

  lemma InsertIgnoreValid(t: seq<Post>, p: Post)
    requires ValidTable(t)
    ensures ValidTable(InsertIgnore(t, p)) && t <= InsertIgnore(t, p) && Has(InsertIgnore(t, p), p.infoHash)
  {
    if !Has(t, p.infoHash) {
      assert InsertIgnore(t, p)[|t|].infoHash == p.infoHash;
    }
  }

  /** Inserting never changes or moves a row that is already there. */
  lemma {:induction false} InsertAllValid(t: seq<Post>, ps: seq<Post>)
    requires ValidTable(t)
    ensures ValidTable(InsertAll(t, ps)) && t <= InsertAll(t, ps)
    decreases ps
  {
    if ps != [] {
      InsertIgnoreValid(t, ps[0]);
      InsertAllValid(InsertIgnore(t, ps[0]), ps[1..]);
    }
  }

  /** Posts whose info hashes are all known leave the table as it is. */
  lemma {:induction false} InsertPresent(t: seq<Post>, ps: seq<Post>)
    requires forall i :: 0 <= i < |ps| ==> Has(t, ps[i].infoHash)
    ensures InsertAll(t, ps) == t
  {
    if ps != [] {
      InsertPresent(t, ps[1..]);
    }
  }

  lemma {:induction false} InsertSuffix(t: seq<Post>, m: nat)
    requires ValidTable(t) && m <= |t|
    ensures InsertAll(t[..m], t[m..]) == t
    decreases |t| - m
  {
    if m < |t| {
      assert !Has(t[..m], t[m].infoHash);
      assert InsertIgnore(t[..m], t[m]) == t[..m + 1];
      assert t[m..][1..] == t[m + 1..];
      InsertSuffix(t, m + 1);
    } else {
      assert t[..m] == t;
    }
  }

  /** Inserting a table's first `j` rows over its first `m` gives the longer of the two prefixes. */
  lemma InsertPrefix(t: seq<Post>, m: nat, j: nat)
    requires ValidTable(t) && m <= |t| && j <= |t|
    ensures InsertAll(t[..m], t[..j]) == if m < j then t[..j] else t[..m]
  {
    hide InsertAll;
    var k := if m < j then m else j;
    forall i | 0 <= i < k
      ensures Has(t[..m], t[..k][i].infoHash)
    {
      assert t[..m][i].infoHash == t[..k][i].infoHash;
    }
    InsertPresent(t[..m], t[..k]);
    if m < j {
      assert t[..j] == t[..m] + t[..j][m..];
      InsertAllConcat(t[..m], t[..m], t[..j][m..]);
      assert t[..j][..m] == t[..m];
      InsertSuffix(t[..j], m);
    }
  }

  /** The two counts take no part in what is inserted where. */
  lemma {:induction false} InsertAllSame(t: seq<Post>, u: seq<Post>, ps: seq<Post>, qs: seq<Post>)
    requires AllSameButCounts(t, u) && AllSameButCounts(ps, qs)
    ensures AllSameButCounts(InsertAll(t, ps), InsertAll(u, qs))
    decreases ps
  {
    if ps != [] {
      InsertIgnoreSame(t, u, ps[0], qs[0]);
      InsertAllSame(InsertIgnore(t, ps[0]), InsertIgnore(u, qs[0]), ps[1..], qs[1..]);
    }
  }

  lemma InsertIgnoreSame(t: seq<Post>, u: seq<Post>, p: Post, q: Post)
    requires AllSameButCounts(t, u) && SameButCounts(p, q)
    ensures AllSameButCounts(InsertIgnore(t, p), InsertIgnore(u, q))
  {
    assert forall i :: 0 <= i < |t| ==> SameButCounts(t[i], u[i]) && t[i].infoHash == u[i].infoHash;
    assert Has(t, p.infoHash) <==> Has(u, q.infoHash);
  }

  // ----- selecting

  lemma {:induction false} AfterSlice(t: seq<Post>, from: nat, after: int)
    requires forall i :: 0 <= i < |t| ==> t[i].id == from + i + 1
    ensures After(t, after) == if after <= from then t else if after - from >= |t| then [] else t[after - from..]
  {
    if t != [] {
      AfterSlice(t[1..], from + 1, after);
    }
  }

  /** On a valid table the paging query for piece `i` returns exactly the `i`-th chunk. */
  lemma SelectChunk(t: seq<Post>, i: nat)
    requires ValidTable(t)
    ensures Select(t, 1000 * i, PIECE_SIZE) == Chunk(t, i)
  {
    AfterSlice(t, 0, 1000 * i);
  }

  /** The part of a table a query for the rows after the first `after` returns, with and without a limit. */
  function Slice(t: seq<Post>, after: int, limit: int): seq<Post> {
    var from := if after < 0 then 0 else Min(after, |t|);
    if limit < 0 then t[from..] else t[from..Min(from + limit, |t|)]
  }

  lemma SelectSlice(t: seq<Post>, after: int, limit: int)
    requires ValidTable(t)
    ensures Select(t, after, limit) == Slice(t, after, limit)
  {
    AfterSlice(t, 0, after);
  }

  // ----- pieces of a table

  lemma {:induction false} FlattenConcat(a: seq<seq<Post>>, b: seq<seq<Post>>)
    ensures Flatten(a + b) == Flatten(a) + Flatten(b)
  {
    if a == [] {
      assert a + b == b;
    } else {
      assert (a + b)[1..] == a[1..] + b;
      FlattenConcat(a[1..], b);
    }
  }

  lemma FlattenSnoc(a: seq<seq<Post>>, ps: seq<Post>)
    ensures Flatten(a + [ps]) == Flatten(a) + ps
  {
    FlattenConcat(a, [ps]);
    assert Flatten([ps]) == ps;
  }

  /** The first `k` pieces of a table hold its first 1000 `k` posts. */
  lemma {:induction false} FlattenChunks(t: seq<Post>, k: nat)
    requires k <= PieceCount(|t|)
    ensures Flatten(Chunks(t)[..k]) == t[..Min(1000 * k, |t|)]
  {
    if k == 0 {
      assert Chunks(t)[..0] == [];
    } else {
      FlattenChunks(t, k - 1);
      assert Chunks(t)[..k] == Chunks(t)[..k - 1] + [Chunk(t, k - 1)];
      FlattenSnoc(Chunks(t)[..k - 1], Chunk(t, k - 1));
    }
  }
}
