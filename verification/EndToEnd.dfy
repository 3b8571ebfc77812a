/** From the publisher's first post to a stranger's copy of the table. */
module EndToEnd {
  import opened Text
  import opened Entries
  import opened Posts
  import opened Pieces
  import opened PostStore
  import opened Collections
  import M = Mirror
  import P = Publisher

  /** An entry that carries the collection hash and post count of a publisher's state. */
  predicate EntryFor(s: P.State, e: Entry) {
    e.info.collectionHash == s.root && e.info.postCount == s.postCount
  }

  lemma CountCoversTable(h: Hash, ops: seq<P.Op>)
    requires P.Plausible(h, ops)
    ensures |P.After(h, ops).table| <= P.After(h, ops).postCount
  {
    hide P.After;
    P.RunKeepsInv(h, ops);
  }

  /** Whatever run of added posts and count updates led to it, a table of readable posts below a piece's worth arrives
      whole at a new mirror served by an honest peer: the mirror holds the posts of the run as they were given, with
      the counts last set, and can then serve the same hash list. */
  lemma PublishedPostsArrive(h: Hash, ops: seq<P.Op>, e: Entry, target: M.Target)
    requires P.Plausible(h, ops) && EntryFor(P.After(h, ops), e)
    requires var s := P.After(h, ops); 0 < |s.table| < PIECE_SIZE && AllPrintable(s.table)
    requires Verified(e) && (target.Direct? ==> target.address == e.address)
    ensures var s := P.After(h, ops);
            var r := M.Session(h, [], target, EntryReply(e), HashListReply(s.hashList), M.HonestReply(s.table));
            && r == M.Result(M.Complete, s.table) && HashList(h, r.table) == s.hashList
            && P.TableOf(r.table, ops)
  {
    var s := P.After(h, ops);
    hide P.After;
    hide M.Download;
    hide M.HonestReply;
    hide Verified;
    hide ValidTable;
    hide P.TableOf;
    P.RunSynced(h, ops);
    P.RunTable(h, ops);
    CountCoversTable(h, ops);
    M.MirrorOfNothing(s.table);
    PrintableIsPlain(s.table);
    M.HonestCompletes(h, [], s.table, e);
  }

  lemma PrintableIsPlain(t: seq<Post>)
    requires AllPrintable(t)
    ensures AllPlainText(t)
  {
  }

  // ----- every entry of a run

  lemma StepGrows(h: Hash, s: P.State, op: P.Op)
    ensures M.MirrorOf(s.table, P.Step(h, s, op).table)
  {
    hide Lines;
    hide Select;
    hide Overlay;
    hide SameButCounts;
    var t := P.Step(h, s, op).table;
    if op.AddPost? {
      SameAsItself(s.table);
      assert t[..|s.table|] == s.table;
    } else {
      assert t[..|s.table|] == t;
      SameReversed(t, s.table);
    }
  }

  lemma SameAsItself(t: seq<Post>)
    ensures AllSameButCounts(t, t)
  {
  }

  lemma SameReversed(t: seq<Post>, u: seq<Post>)
    requires AllSameButCounts(t, u)
    ensures AllSameButCounts(u, t)
  {
    forall i | 0 <= i < |t|
      ensures SameButCounts(u[i], t[i])
    {
      assert SameButCounts(t[i], u[i]);
    }
  }

  /** Every state of a run is, up to counts, a prefix of every later one. */
  lemma {:induction false} RunGrows(h: Hash, ops: seq<P.Op>, i: nat)
    requires i <= |ops|
    ensures M.MirrorOf(P.After(h, ops[..i]).table, P.After(h, ops).table)
    decreases |ops|
  {
    hide M.MirrorOf;
    hide P.Step;
    if i == |ops| {
      assert ops[..i] == ops;
      M.MirrorOfItself(P.After(h, ops).table);
    } else {
      var n := |ops| - 1;
      assert ops[..n][..i] == ops[..i];
      RunGrows(h, ops[..n], i);
      StepGrows(h, P.After(h, ops[..n]), ops[n]);
      M.MirrorOfTransitive(P.After(h, ops[..i]).table, P.After(h, ops[..n]).table, P.After(h, ops).table);
    }
  }

  lemma {:induction false} PrefixPlausible(h: Hash, ops: seq<P.Op>, i: nat)
    requires P.Plausible(h, ops) && i <= |ops|
    ensures P.Plausible(h, ops[..i])
    decreases |ops|
  {
    hide P.After;
    if i == |ops| {
      assert ops[..i] == ops;
    } else {
      assert ops[..|ops| - 1][..i] == ops[..i];
      PrefixPlausible(h, ops[..|ops| - 1], i);
    }
  }

  lemma MirrorPlain(u: seq<Post>, t: seq<Post>)
    requires M.MirrorOf(u, t) && AllPlainText(t)
    ensures AllPlainText(u)
  {
    forall i | 0 <= i < |u|
      ensures PlainText(u[i])
    {
      assert SameButCounts(u[i], t[..|u|][i]) && PlainText(t[i]);
    }
  }

  /** What a publisher signed, under its key, after the first `i` operations of a run. */
  predicate SignedAt(h: Hash, ops: seq<P.Op>, key: Bytes, i: nat, g: M.Issue) {
    && SignsClearly(key, g.entry)
    && i <= |ops| && g.table == P.After(h, ops[..i]).table && EntryFor(P.After(h, ops[..i]), g.entry)
  }

  lemma {:induction false} NoPostsNoRoot(h: Hash, ops: seq<P.Op>)
    ensures P.After(h, ops).table == [] ==> P.After(h, ops).root == []
  {
    if ops != [] {
      NoPostsNoRoot(h, ops[..|ops| - 1]);
      RootNeedsPost(h, P.After(h, ops[..|ops| - 1]), ops[|ops| - 1]);
    }
  }

  lemma RootNeedsPost(h: Hash, s: P.State, op: P.Op)
    ensures var r := P.Step(h, s, op);
            r.table == [] ==> s.table == [] && r.root == s.root
  {
    hide Lines;
    hide Select;
    hide Overlay;
    hide AddSlot;
    if op.AddPost? && P.ValidPost(op.post, op.now) {
      assert InsertIgnore(s.table, op.post) != [];
    }
  }

  /** Each of them is genuine, for the run's final table, while that has fewer posts than a piece. */
  lemma SignedIsGenuine(h: Hash, ops: seq<P.Op>, key: Bytes, i: nat, g: M.Issue)
    requires P.Plausible(h, ops) && SignedAt(h, ops, key, i, g)
    requires |P.After(h, ops).table| < PIECE_SIZE && AllPlainText(P.After(h, ops).table)
    ensures M.Genuine(h, P.After(h, ops).table, key, g)
  {
    hide P.After;
    hide M.MirrorOf;
    hide ValidTable;
    hide AllPlainText;
    PrefixPlausible(h, ops, i);
    P.RunSynced(h, ops[..i]);
    RunGrows(h, ops, i);
    MirrorLength(g.table, P.After(h, ops).table);
    MirrorPlain(g.table, P.After(h, ops).table);
    NoPostsNoRoot(h, ops[..i]);
  }

  lemma MirrorLength(u: seq<Post>, t: seq<Post>)
    requires M.MirrorOf(u, t)
    ensures |u| <= |t|
  {
  }

  /** Every issue was signed at some point of the run. */
  ghost predicate AllSignedIn(h: Hash, ops: seq<P.Op>, key: Bytes, issued: seq<M.Issue>) {
    forall g :: g in issued ==> exists i :: SignedAt(h, ops, key, i, g)
  }

  /** A publisher's whole history against the world: after any sequence of sessions with any peers, each going by an
      answer that passes the check and whose text the publisher signed at any point of its run, a mirror holds a prefix
      of the published table. */
  lemma PublishedPostsProtected(h: Hash, ops: seq<P.Op>, key: Bytes, issued: seq<M.Issue>, visits: seq<M.Visit>)
    requires P.Plausible(h, ops) && AllSignedIn(h, ops, key, issued)
    requires |P.After(h, ops).table| < PIECE_SIZE && AllPlainText(P.After(h, ops).table)
    requires M.Plausible(h, key, issued, visits)
    ensures M.MirrorOf(M.MirrorAfter(h, visits), P.After(h, ops).table)
  {
    hide P.After;
    hide M.MirrorOf;
    hide M.Genuine;
    hide M.Plausible;
    hide ValidTable;
    hide AllPlainText;
    hide SignedAt;
    var top := P.After(h, ops).table;
    P.RunSynced(h, ops);
    forall g | g in issued
      ensures M.Genuine(h, top, key, g)
    {
      var i :| SignedAt(h, ops, key, i, g);
      SignedIsGenuine(h, ops, key, i, g);
    }
    M.MirrorAlwaysPrefix(h, top, key, issued, visits);
  }

  /** A session told that it is up to date by the entry of a state holds at least that state's posts: the count in the
      entry is never below the number of rows. */
  lemma UpToDateIsWhole(h: Hash, ops: seq<P.Op>, u: seq<Post>, e: Entry, m: MessageCollection, reply: M.Reply)
    requires P.Plausible(h, ops) && EntryFor(P.After(h, ops), e)
    ensures var s := P.After(h, ops);
            var r := M.Download(h, u, e, m, reply);
            r.outcome == M.UpToDate ==>
              r.table == u && |s.table| <= |u| && (M.MirrorOf(u, s.table) ==> |u| == |s.table|)
  {
    hide P.After;
    hide ParsePieces;
    hide InsertAll;
    hide Lines;
    CountCoversTable(h, ops);
  }
}
