/** The publishing peer: adding posts keeps the collection hash in step with the post table. */
module Publisher {
  import opened Text
  import opened Posts
  import opened Pieces
  import opened PostStore
  import opened Collections

  const TITLE_LIMIT := 140

  /** Post.Valid, against the current time. */
  predicate ValidPost(p: Post, now: int) {
    |p.title| <= TITLE_LIMIT && p.uploadDate <= now
  }

  /** What a peer keeps about its own posts. `root` is the collection hash in its entry. */
  datatype State = State(table: seq<Post>, hashList: Bytes, spare: nat, root: Bytes, postCount: int)

  const EMPTY := State([], [], 0, [], 0)

  /** `stale` is the row id an ignored insert reports, `room` the capacity a growing append leaves. */
  datatype Op =
    | AddPost(post: Post, now: int, stale: nat, room: nat)
    | SetSeeders(id: int, n: int)
    | SetLeechers(id: int, n: int)

  function SetCounts(t: seq<Post>, op: Op): (r: seq<Post>)
    requires !op.AddPost?
    ensures AllSameButCounts(r, t)
  {
    seq(|t|, i requires 0 <= i < |t| =>
      if t[i].id != op.id then t[i]
      else if op.SetSeeders? then t[i].(seeders := op.n)
      else t[i].(leechers := op.n))
  }

  /** The piece AddPost refreshes: the reported row id divided by the piece size, although row ids start at 1. */
  function Touched(t: seq<Post>, op: Op): nat
    requires op.AddPost?
  {
    (if Has(t, op.post.infoHash) then op.stale else |t| + 1) / 1000
  }

  predicate InCapacity(s: State, i: nat) {
    Appends(s.hashList, i) || 32 * i + 32 <= |s.hashList| + s.spare
  }

  /** LocalPeer.AddPost on values. A slot outside the list's capacity panics after the row is stored. */
  function AddStep(h: Hash, s: State, op: Op): State
    requires op.AddPost?
  {
    if !ValidPost(op.post, op.now) then s
    else
      var i, t := Touched(s.table, op), InsertIgnore(s.table, op.post);
      var stored := s.(table := t, postCount := s.postCount + 1);
      if !InCapacity(s, i) then stored
      else
        var l := AddSlot(s.hashList, i, h(Lines(Select(t, 1000 * i, PIECE_SIZE), false)));
        var spare := if !Appends(s.hashList, i) then s.spare else if s.spare >= 32 then s.spare - 32 else op.room;
        stored.(hashList := l, spare := spare, root := h(l[..|l| / 32 * 32]))
  }

  function Step(h: Hash, s: State, op: Op): State {
    if op.AddPost? then AddStep(h, s, op) else s.(table := SetCounts(s.table, op))
  }

  function After(h: Hash, ops: seq<Op>): State {
    if ops == [] then EMPTY else Step(h, After(h, ops[..|ops| - 1]), ops[|ops| - 1])
  }

  /** The reported id of an ignored insert is that of an earlier row, or zero. */
  predicate Plausible(h: Hash, ops: seq<Op>) {
    ops == [] ||
    var before, op := ops[..|ops| - 1], ops[|ops| - 1];
    Plausible(h, before) && (op.AddPost? ==> op.stale <= |After(h, before).table|)
  }

  class LocalPeer {
    const h: Hash
    const database: Database
    const collection: Collection
    var collectionHash: Bytes
    var postCount: int

    constructor (h: Hash)
      ensures this.h == h && Abs() == EMPTY && fresh(database) && fresh(collection)
    {
      this.h := h;
      database := new Database();
      collection := new Collection();
      collectionHash := [];
      postCount := 0;
    }

    function Abs(): State
      reads this, database, collection
    {
      State(database.posts, collection.hashList, collection.spare, collectionHash, postCount)
    }

    method AddPost(post: Post, now: int, stale: nat, room: nat) returns (ok: bool)
      modifies this, database, collection
      ensures Abs() == Step(h, old(Abs()), Op.AddPost(post, now, stale, room))
      ensures |post.title| > 140 || post.uploadDate > now ==> !ok && Abs() == old(Abs())
      ensures |post.title| <= 140 && post.uploadDate <= now ==>
                postCount == old(postCount) + 1 && database.posts == InsertIgnore(old(database.posts), post)
      ensures !ok ==> collection.hashList == old(collection.hashList) && collectionHash == old(collectionHash)
      ensures ok ==> collectionHash == h(collection.hashList[..|collection.hashList| / 32 * 32])
    {
      hide Lines;
      hide Select;
      hide Overlay;
      if !ValidPost(post, now) {
        return false;
      }
      postCount := postCount + 1;
      var id := database.InsertPost(post, stale);
      var piece := database.QueryPiece(id / 1000, false);
      ok := collection.Add(h, piece, room);
      if !ok {
        return;
      }
      collection.Rehash();
      collectionHash := collection.Sum(h);
    }

    method SetSeedLeech(id: int, seeders: int, leechers: int)
      modifies database
      ensures Abs() == Step(h, Step(h, old(Abs()), Op.SetLeechers(id, leechers)), Op.SetSeeders(id, seeders))
      ensures |database.posts| == |old(database.posts)|
      ensures forall i :: 0 <= i < |database.posts| ==>
                var row := old(database.posts)[i];
                database.posts[i] == if row.id == id then row.(seeders := seeders, leechers := leechers) else row
    {
      ghost var s0 := Abs();
      database.SetLeechers(id, leechers);
      assert database.posts == SetCounts(s0.table, Op.SetLeechers(id, leechers));
      ghost var s1 := Abs();
      database.SetSeeders(id, seeders);
      assert database.posts == SetCounts(s1.table, Op.SetSeeders(id, seeders));
    }
  }

  // ----- the table over whole runs

  predicate Admitted(op: Op) {
    op.AddPost? && |op.post.title| <= 140 && op.post.uploadDate <= op.now
  }

  /** The posts a run accepts, in order: titles of at most 140 bytes, dates not in the future. */
  function Added(ops: seq<Op>): seq<Post> {
    if ops == [] then []
    else
      var op := ops[|ops| - 1];
      Added(ops[..|ops| - 1]) + if Admitted(op) then [op.post] else []
  }

  /** Of several posts with one info hash, the first. */
  function Firsts(ps: seq<Post>): (r: seq<Post>)
    ensures |r| <= |ps|
  {
    if ps == [] then []
    else
      var before, p := ps[..|ps| - 1], ps[|ps| - 1];
      Firsts(before) + if Has(before, p.infoHash) then [] else [p]
  }

  lemma HasSnoc(ps: seq<Post>, p: Post, infoHash: Bytes)
    ensures Has(ps + [p], infoHash) <==> Has(ps, infoHash) || p.infoHash == infoHash
  {
    var qs := ps + [p];
    if Has(ps, infoHash) {
      var i :| 0 <= i < |ps| && ps[i].infoHash == infoHash;
      assert qs[i].infoHash == infoHash;
    }
    assert qs[|ps|] == p;
  }

  /** No info hash is lost, and none is repeated. */
  lemma {:induction false} FirstsDistinct(ps: seq<Post>, infoHash: Bytes)
    ensures Has(Firsts(ps), infoHash) <==> Has(ps, infoHash)
    ensures forall i, j :: 0 <= i < j < |Firsts(ps)| ==> Firsts(ps)[i].infoHash != Firsts(ps)[j].infoHash
  {
    if ps != [] {
      var before, p := ps[..|ps| - 1], ps[|ps| - 1];
      assert ps == before + [p];
      FirstsDistinct(before, infoHash);
      FirstsDistinct(before, p.infoHash);
      HasSnoc(before, p, infoHash);
      if Has(before, p.infoHash) {
        assert Firsts(ps) == Firsts(before);
      } else {
        HasSnoc(Firsts(before), p, infoHash);
      }
    }
  }

  /** The seeders last set for row `j`, counted from zero, or those its post came with. */
  function SeedersOf(ops: seq<Op>, j: nat): int
    requires j < |Firsts(Added(ops))|
  {
    var before, op := ops[..|ops| - 1], ops[|ops| - 1];
    if op.SetSeeders? && op.id == j + 1 then op.n
    else if j < |Firsts(Added(before))| then SeedersOf(before, j)
    else Firsts(Added(ops))[j].seeders
  }

  function LeechersOf(ops: seq<Op>, j: nat): int
    requires j < |Firsts(Added(ops))|
  {
    var before, op := ops[..|ops| - 1], ops[|ops| - 1];
    if op.SetLeechers? && op.id == j + 1 then op.n
    else if j < |Firsts(Added(before))| then LeechersOf(before, j)
    else Firsts(Added(ops))[j].leechers
  }

  /** The row a run leaves for its `j`-th distinct post. */
  function RowOf(ops: seq<Op>, j: nat): Post
    requires j < |Firsts(Added(ops))|
  {
    Firsts(Added(ops))[j].(id := j + 1, seeders := SeedersOf(ops, j), leechers := LeechersOf(ops, j))
  }

  /** After any run the table holds exactly the first posts of their info hashes, in the order they were added, every
      field as given but for the id, which is the position, and the counts, which are the last ones set. The post count
      is that of all accepted posts, repeated ones included. */
  lemma {:induction false} RunTable(h: Hash, ops: seq<Op>)
    ensures var s := After(h, ops);
            s.postCount == |Added(ops)| && TableOf(s.table, ops)
  {
    hide AddStep;
    hide TableOf;
    if ops == [] {
      NothingAdded();
    } else {
      var before, op := ops[..|ops| - 1], ops[|ops| - 1];
      RunTable(h, before);
      if op.AddPost? {
        AddedTable(h, After(h, before), before, op);
      } else {
        CountedTable(After(h, before).table, before, op);
      }
      assert ops == before + [op];
    }
  }

  lemma NothingAdded()
    ensures TableOf([], [])
  {
  }

  lemma FirstsSnoc(ps: seq<Post>, p: Post)
    ensures Firsts(ps + [p]) == Firsts(ps) + if Has(ps, p.infoHash) then [] else [p]
  {
    assert (ps + [p])[..|ps|] == ps;
  }

  /** The table holds those rows, one after another. */
  predicate TableOf(t: seq<Post>, ops: seq<Op>) {
    |t| == |Firsts(Added(ops))| && forall j: nat :: j < |t| ==> t[j] == RowOf(ops, j)
  }

  /** A table has the info hashes of the posts that were added. */
  lemma TableHas(t: seq<Post>, ops: seq<Op>, infoHash: Bytes)
    requires TableOf(t, ops)
    ensures Has(t, infoHash) <==> Has(Added(ops), infoHash)
  {
    var fs := Firsts(Added(ops));
    FirstsDistinct(Added(ops), infoHash);
    forall j: nat | j < |t|
      ensures t[j].infoHash == fs[j].infoHash
    {
      assert t[j] == RowOf(ops, j);
    }
    SameHashes(t, fs, infoHash);
  }

  lemma SameHashes(a: seq<Post>, b: seq<Post>, infoHash: Bytes)
    requires |a| == |b| && forall j: nat :: j < |a| ==> a[j].infoHash == b[j].infoHash
    ensures Has(a, infoHash) <==> Has(b, infoHash)
  {
  }

  lemma AddStepTable(h: Hash, s: State, op: Op)
    requires op.AddPost?
    ensures var ok := |op.post.title| <= 140 && op.post.uploadDate <= op.now;
            var r := AddStep(h, s, op);
            && r.table == (if ok then InsertIgnore(s.table, op.post) else s.table)
            && r.postCount == s.postCount + if ok then 1 else 0
  {
    hide Lines;
    hide Select;
    hide InsertIgnore;
  }

  lemma AddedSnoc(before: seq<Op>, op: Op)
    requires op.AddPost?
    ensures Added(before + [op]) == Added(before) + if Admitted(op) then [op.post] else []
    ensures var fs := Firsts(Added(before));
            Firsts(Added(before + [op])) ==
            fs + if Admitted(op) && !Has(Added(before), op.post.infoHash) then [op.post] else []
  {
    var ops := before + [op];
    assert ops[..|ops| - 1] == before && ops[|ops| - 1] == op;
    hide Firsts;
    FirstsSnoc(Added(before), op.post);
    assert Added(before) + [] == Added(before);
  }

  lemma RowKept(before: seq<Op>, op: Op, j: nat)
    requires op.AddPost? && j < |Firsts(Added(before))|
    ensures j < |Firsts(Added(before + [op]))| && RowOf(before + [op], j) == RowOf(before, j)
  {
    var ops := before + [op];
    assert ops[..|ops| - 1] == before && ops[|ops| - 1] == op;
    hide Firsts;
    hide Added;
    AddedSnoc(before, op);
  }

  lemma RowNew(before: seq<Op>, op: Op)
    requires Admitted(op) && !Has(Added(before), op.post.infoHash)
    ensures var n := |Firsts(Added(before))|;
            n < |Firsts(Added(before + [op]))| && RowOf(before + [op], n) == op.post.(id := n + 1)
  {
    hide Has;
    hide Firsts;
    hide Added;
    var ops, n := before + [op], |Firsts(Added(before))|;
    assert ops[..|ops| - 1] == before && ops[|ops| - 1] == op;
    AddedSnoc(before, op);
    assert Firsts(Added(ops))[n] == op.post;
    assert SeedersOf(ops, n) == op.post.seeders && LeechersOf(ops, n) == op.post.leechers;
  }

  lemma AddedTable(h: Hash, s: State, before: seq<Op>, op: Op)
    requires op.AddPost? && TableOf(s.table, before) && s.postCount == |Added(before)|
    ensures TableOf(AddStep(h, s, op).table, before + [op])
    ensures AddStep(h, s, op).postCount == |Added(before + [op])|
  {
    hide AddStep;
    hide Firsts;
    hide Added;
    hide RowOf;
    AddStepTable(h, s, op);
    TableHas(s.table, before, op.post.infoHash);
    AddedSnoc(before, op);
    hide Has;
    var ops, t := before + [op], AddStep(h, s, op).table;
    if Admitted(op) && !Has(Added(before), op.post.infoHash) {
      RowNew(before, op);
    }
    forall j: nat | j < |t|
      ensures t[j] == RowOf(ops, j)
    {
      if j < |s.table| {
        RowKept(before, op, j);
      }
    }
  }

  lemma CountedTable(t: seq<Post>, before: seq<Op>, op: Op)
    requires !op.AddPost? && TableOf(t, before)
    ensures TableOf(SetCounts(t, op), before + [op]) && Added(before + [op]) == Added(before)
  {
    hide Firsts;
    var ops := before + [op];
    assert ops[..|ops| - 1] == before && ops[|ops| - 1] == op;
    assert Added(ops) == Added(before);
    var r := SetCounts(t, op);
    forall j: nat | j < |r|
      ensures r[j] == RowOf(ops, j)
    {
      assert t[j] == RowOf(before, j);
    }
  }

  // ----- the collection hash over whole runs

  /** In every run, whatever the list holds, the entry's collection hash is that of its whole slots. */
  lemma {:induction false} RootOfList(h: Hash, ops: seq<Op>)
    ensures var s := After(h, ops);
            s.root == (if s.hashList == [] then [] else h(s.hashList[..|s.hashList| / 32 * 32]))
  {
    hide Lines;
    hide Select;
    hide Overlay;
    hide InsertIgnore;
    if ops != [] {
      RootOfList(h, ops[..|ops| - 1]);
    }
  }

  /** The list has the one right slot while fewer than a piece's worth of posts are stored, and stays shorter than
      one slot per piece once there are more. */
  predicate Inv(h: Hash, s: State) {
    && ValidTable(s.table) && |s.table| <= s.postCount
    && (s.table == [] ==> s.hashList == [])
    && (0 < |s.table| ==>
          |s.hashList| == 32 || (32000 <= |s.table| && |s.hashList| <= |s.table| / 1000 + 32))
    && (0 < |s.table| < PIECE_SIZE ==> s.hashList == h(Lines(s.table, false)) && s.root == h(s.hashList))
  }

  lemma OverlayWhole(l: Bytes, d: Digest)
    requires |l| == 32
    ensures Overlay(l, 0, d) == d
  {
  }

  lemma SelectAll(t: seq<Post>)
    requires ValidTable(t) && |t| <= PIECE_SIZE
    ensures Select(t, 0, PIECE_SIZE) == t
  {
    SelectChunk(t, 0);
  }

  lemma AddKeepsInv(h: Hash, s: State, op: Op)
    requires Inv(h, s) && op.AddPost? && op.stale <= |s.table|
    ensures Inv(h, AddStep(h, s, op))
  {
    hide Lines;
    hide Select;
    hide Overlay;
    hide ValidTable;
    var t := InsertIgnore(s.table, op.post);
    InsertIgnoreValid(s.table, op.post);
    if |t| < PIECE_SIZE {
      SelectAll(t);
      if s.table != [] {
        OverlayWhole(s.hashList, h(Lines(t, false)));
      }
      var l := AddStep(h, s, op).hashList;
      assert |l| == 32 ==> l[..|l| / 32 * 32] == l;
    }
  }

  lemma CountsKeepInv(h: Hash, s: State, op: Op)
    requires Inv(h, s) && !op.AddPost?
    ensures Inv(h, Step(h, s, op))
  {
    var t := SetCounts(s.table, op);
    assert forall i :: 0 <= i < |t| ==> SameButCounts(t[i], s.table[i]);
    LinesIgnoreCounts(t, s.table);
  }

  lemma {:induction false} RunKeepsInv(h: Hash, ops: seq<Op>)
    requires Plausible(h, ops)
    ensures Inv(h, After(h, ops))
  {
    hide Inv;
    hide AddStep;
    if ops == [] {
      InvEmpty(h);
    } else {
      var before, op := ops[..|ops| - 1], ops[|ops| - 1];
      RunKeepsInv(h, before);
      if op.AddPost? {
        AddKeepsInv(h, After(h, before), op);
      } else {
        CountsKeepInv(h, After(h, before), op);
      }
    }
  }

  lemma InvEmpty(h: Hash)
    ensures Inv(h, EMPTY)
  {
  }

  lemma ChunkWhole(t: seq<Post>)
    requires 0 < |t| <= PIECE_SIZE
    ensures Chunk(t, 0) == t && PieceCount(|t|) == 1
  {
  }

  lemma OnePieceList(h: Hash, t: seq<Post>)
    requires 0 < |t| <= PIECE_SIZE
    ensures HashList(h, t) == h(Lines(t, false))
  {
    hide Lines;
    hide Chunk;
    hide PieceCount;
    ChunkWhole(t);
    assert HashPrefix(h, t, 1) == [] + PieceHash(h, t, 0);
  }

  /** In every run of added posts and count updates: below a piece's worth of posts the hash list is that of the
      table and the entry carries its root; above it the list never has a slot for every piece. */
  lemma RunSynced(h: Hash, ops: seq<Op>)
    requires Plausible(h, ops)
    ensures var s := After(h, ops);
            && ValidTable(s.table)
            && (0 < |s.table| < PIECE_SIZE ==>
                  s.hashList == HashList(h, s.table) && s.root == h(HashList(h, s.table)))
            && (|s.table| > PIECE_SIZE ==> s.hashList != HashList(h, s.table))
  {
    hide Lines;
    hide ValidTable;
    hide After;
    RunKeepsInv(h, ops);
    var s := After(h, ops);
    if 0 < |s.table| < PIECE_SIZE {
      OnePieceList(h, s.table);
    } else if |s.table| > PIECE_SIZE {
      assert PieceCount(|s.table|) >= 2;
      assert |HashList(h, s.table)| == 32 * PieceCount(|s.table|);
    }
  }

  /** A new post keeps the list in step exactly when it is not the thousandth: that one refreshes the second piece,
      so the list stays the hash of the first 999 posts. */
  lemma NewPostSynced(h: Hash, ops: seq<Op>, op: Op)
    requires Plausible(h, ops) && op.AddPost? && ValidPost(op.post, op.now) && op.stale <= |After(h, ops).table|
    requires |After(h, ops).table| < PIECE_SIZE && !Has(After(h, ops).table, op.post.infoHash)
    requires var s, s' := After(h, ops), Step(h, After(h, ops), op);
             !Collision(h, Lines(s.table, false), Lines(s'.table, false))
    ensures var s' := Step(h, After(h, ops), op);
            s'.hashList == HashList(h, s'.table) <==> |s'.table| < PIECE_SIZE
  {
    hide Lines;
    hide ValidTable;
    hide After;
    hide Select;
    hide Overlay;
    var s := After(h, ops);
    var s' := Step(h, s, op);
    RunKeepsInv(h, ops);
    AddKeepsInv(h, s, op);
    OnePieceList(h, s'.table);
    if |s'.table| == PIECE_SIZE {
      assert Touched(s.table, op) == 1 && !Appends(s.hashList, 1);
      OverlayOutside(s.hashList, h(Lines(Select(s'.table, 1000, PIECE_SIZE), false)));
      assert s'.hashList == s.hashList;
      LinesSnoc(s.table, op.post.(id := |s.table| + 1), false);
    }
  }

  lemma OverlayOutside(l: Bytes, d: Digest)
    requires |l| == 32
    ensures Overlay(l, 32, d) == l
  {
  }
}
