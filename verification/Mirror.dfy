/** Mirroring a publisher's posts from a peer, honest or not, that also supplies the entry to go by. */
module Mirror {
  import opened Text
  import opened Addresses
  import opened Entries
  import opened Posts
  import opened Pieces
  import opened PostStore
  import opened Collections

  /** The bytes a peer streams back for a request (first piece, number of pieces). */
  type Reply = (int, int) -> Bytes

  /** Whom a mirror is made from: the publisher itself, or a peer that seeds for it. */
  datatype Target = Direct(address: Address) | ViaSeed(publisher: Address)

  datatype Outcome = Complete | UpToDate | Mismatch(at: nat) | BadHashList | NoEntry | Crashed

  datatype Result = Result(outcome: Outcome, table: seq<Post>)

  // ----- the serving side

  /** HandlePiece: every selected post in wire form, then the sentinel. */
  method HandlePiece(db: Database, id: int, length: int, w: Writer)
    modifies w
    ensures w.written == old(w.written) + HonestReply(db.posts)(id, length)
    ensures ValidTable(db.posts) ==>
              w.written == old(w.written) + Stream(Slice(db.posts, 1000 * id, id + 1000 * length))
  {
    hide Select;
    hide Stream;
    if ValidTable(db.posts) {
      SelectSlice(db.posts, 1000 * id, id + 1000 * length);
    }
    hide ValidTable;
    hide Slice;
    var rows := db.QueryPiecePosts(id, length);
    SendPosts(rows, w);
  }

  method SendPosts(rows: seq<Post>, w: Writer)
    modifies w
    ensures w.written == old(w.written) + Stream(rows)
  {
    hide Lines;
    hide Line;
    ghost var start := w.written;
    LinesEmpty(rows[..0], true);
    for i := 0 to |rows|
      invariant w.written == start + Lines(rows[..i], true)
    {
      LinesSnoc(rows[..i], rows[i], true);
      assert rows[..i + 1] == rows[..i] + [rows[i]];
      LineIsJoin(rows[i]);
      Posts.Write(rows[i], [SEP], [], true, w);
    }
    assert rows[..|rows|] == rows;
    LineIsJoin(SENTINEL);
    Posts.Write(SENTINEL, [SEP], [], true, w);
  }

  lemma LineIsJoin(p: Post)
    ensures forall s: Bytes :: s + Join(Fields(p, true), [SEP]) + [] == s + Line(p, true)
  {
  }

  /** A request for all pieces from a stored one on is answered with the whole rest of the table. */
  lemma HonestRest(t: seq<Post>, s: nat)
    requires ValidTable(t) && 1000 * s <= |t|
    ensures HonestReply(t)(s, PieceCount(|t|)) == Stream(t[1000 * s..])
  {
    hide Stream;
    SelectFrom(t, s);
  }

  function HonestReply(t: seq<Post>): Reply {
    (id, length) => Stream(Select(t, id * 1000, id + 1000 * length))
  }

  // ----- the mirroring side

  /** The first piece asked for when `n` posts are already stored. */
  function Since(n: nat): nat {
    if PieceCount(n) == 0 then 0 else PieceCount(n) - 1
  }

  predicate SlotMatches(h: Hash, l: Bytes, piece: seq<Post>, i: nat)
    requires 32 * i + 32 <= |l|
  {
    l[32 * i..32 * i + 32] == h(Lines(piece, false))
  }

  /** The first piece from `i` on that its slot does not match, or their number when all match. */
  function Matching(h: Hash, l: Bytes, pieces: seq<seq<Post>>, i: nat): (k: nat)
    requires i <= |pieces| && 32 * |pieces| <= |l|
    ensures i <= k <= |pieces|
    ensures forall j :: i <= j < k ==> SlotMatches(h, l, pieces[j], j)
    ensures k < |pieces| ==> !SlotMatches(h, l, pieces[k], k)
    decreases |pieces| - i
  {
    if i < |pieces| && SlotMatches(h, l, pieces[i], i) then Matching(h, l, pieces, i + 1) else i
  }

  /** The entry a session goes by is what the peer answers. It must verify, under the key it carries itself; a direct
      peer's must carry the address asked for, a seed's may carry any. */
  function Fetch(target: Target, answer: QueryReply): Option<Entry> {
    match ClientQuery(answer)
    case None => None
    case Some(e) => if target.Direct? && e.address != target.address then None else Some(e)
  }

  /** The download that follows, on a table. */
  function Download(h: Hash, t: seq<Post>, e: Entry, m: MessageCollection, reply: Reply): Result {
    match VerifySpec(h, m, e.info.collectionHash)
    case Panicked => Result(Crashed, t)
    case Rejected => Result(BadHashList, t)
    case Accepted =>
      if |t| == e.info.postCount then Result(UpToDate, t)
      else
        var pieces := ParsePieces(reply(Since(|t|), m.size), m.size);
        var k := Matching(h, m.hashList, pieces, 0);
        if k == |pieces| then Result(Complete, InsertAll(t, Flatten(pieces)))
        else Result(Mismatch(k), InsertAll(t, Flatten(pieces[..Committed(k)])))
  }

  /** A whole mirror session on a table: everything but the table and the target is the peer's choice. */
  function Session(h: Hash, t: seq<Post>, target: Target, answer: QueryReply, m: MessageCollection, reply: Reply)
    : Result
  {
    match Fetch(target, answer)
    case None => Result(NoEntry, t)
    case Some(e) => Download(h, t, e, m, reply)
  }

  /** The two ways of getting the entry: Peer.GetEntry with its address check, or Peer.Query alone. */
  method GetEntry(target: Target, answer: QueryReply) returns (e: Option<Entry>)
    ensures e.Some? <==> answer.EntryReply? && Verified(answer.entry)
                         && (target.Direct? ==> answer.entry.address == target.address)
    ensures e.Some? ==> e.value == answer.entry
    ensures e.Some? ==>
              var info := e.value.info;
              && |info.name| <= 32 && |info.desc| <= 160 && |e.value.seeds| <= 100000
              && 0 < |info.publicAddress| < 253 && info.port <= 65535
              && |info.publicKey| == 32 && info.signature == Signed(info.publicKey, SignedText(e.value))
    ensures e == Fetch(target, answer)
  {
    hide SignedText;
    e := ClientQuery(answer);
    match target
    case ViaSeed(_) =>
    case Direct(address) =>
      if e.Some? && e.value.address != address {
        e := None;
      }
  }

  /** Peer.Mirror, with the inserter's transactions: a mismatch leaves the last one open. */
  method Mirror(h: Hash, db: Database, target: Target, answer: QueryReply, m: MessageCollection, reply: Reply)
    returns (outcome: Outcome)
    modifies db
    ensures Result(outcome, db.posts) == Session(h, old(db.posts), target, answer, m, reply)
  {
    hide ParsePieces;
    hide InsertAll;
    hide Lines;
    hide Flatten;
    hide Fetch;
    hide Verified;
    hide SignedText;
    hide Matching;
    hide SlotMatches;
    var fetched := GetEntry(target, answer);
    if fetched == None {
      return NoEntry;
    }
    var e := fetched.value;
    var v := Verify(h, m, e.info.collectionHash);
    if v == Panicked {
      return Crashed;
    }
    if v == Rejected {
      return BadHashList;
    }
    if db.PostCount() == e.info.postCount {
      return UpToDate;
    }
    var currentStore := PieceCount(db.PostCount());
    var since := 0;
    if currentStore != 0 {
      since := currentStore - 1;
    }
    var received := ReceivePieces(reply(since, m.size), m.size);
    ghost var posts := ParsePieces(reply(since, m.size), m.size);
    var sent := CheckPieces(h, m.hashList, received, posts);
    db.InsertPieces(sent, |sent| == |received|);
    assert sent[..Committed(|sent|)] == posts[..Committed(|sent|)];
    assert |sent| == |received| ==> sent == posts;
    outcome := if |sent| == |received| then Complete else Mismatch(|sent|);
  }

  /** The loop over received pieces: hand over every piece up to the first whose digest is not in its slot. */
  method CheckPieces(h: Hash, l: Bytes, received: seq<Piece>, ghost posts: seq<seq<Post>>)
    returns (sent: seq<seq<Post>>)
    requires Built(received, posts) && 32 * |posts| <= |l|
    ensures sent == posts[..Matching(h, l, posts, 0)]
  {
    hide Lines;
    sent := [];
    var i := 0;
    while i < |received|
      invariant 0 <= i <= |received| && sent == posts[..i]
      invariant Matching(h, l, posts, 0) == Matching(h, l, posts, i)
    {
      var hash := received[i].Sum(h);
      if l[32 * i..32 * i + 32] != hash {
        return;
      }
      sent := sent + [received[i].posts];
      i := i + 1;
    }
  }

  // ----- what decides a session

  /** The piece asked for first is the one the last stored post is in. */
  lemma SinceMeans(n: nat)
    ensures n == 0 ==> Since(n) == 0
    ensures n > 0 ==> 1000 * Since(n) < n <= 1000 * Since(n) + 1000
  {
  }

  /** The bytes of the list that count for a root. */
  function Listed(m: MessageCollection): Bytes
    requires 32 * m.size <= |m.hashList|
  {
    if m.size <= 0 then [] else m.hashList[..32 * m.size]
  }

  /** When a session ends in each of the ways it can, and that only the last two of them store anything. */
  lemma SessionExact(h: Hash, u: seq<Post>, target: Target, answer: QueryReply, m: MessageCollection, reply: Reply)
    ensures var r := Session(h, u, target, answer, m, reply);
            && (r.outcome == NoEntry <==> Fetch(target, answer) == None)
            && (r.outcome in {NoEntry, Crashed, BadHashList, UpToDate} ==> r.table == u)
    ensures Fetch(target, answer).Some? ==>
              var r := Session(h, u, target, answer, m, reply);
              var info := Fetch(target, answer).value.info;
              var pieces := ParsePieces(reply(Since(|u|), m.size), m.size);
              if |m.hashList| < 32 * m.size then r.outcome == Crashed
              else if h(Listed(m)) != info.collectionHash then r.outcome == BadHashList
              else if |u| == info.postCount then r.outcome == UpToDate
              else || (r.outcome == Complete
                       && forall i: nat :: i < |pieces| ==> SlotMatches(h, m.hashList, pieces[i], i))
                   || (r.outcome.Mismatch? && r.outcome.at < |pieces|
                       && !SlotMatches(h, m.hashList, pieces[r.outcome.at], r.outcome.at)
                       && forall i: nat :: i < r.outcome.at ==> SlotMatches(h, m.hashList, pieces[i], i))
  {
    hide ParsePieces;
    hide InsertAll;
    hide Flatten;
    hide SlotMatches;
    hide Fetch;
  }

  /** A mismatch among the first hundred pieces leaves the table as it was, whatever matched before it. */
  lemma EarlyMismatch(h: Hash, u: seq<Post>, target: Target, answer: QueryReply, m: MessageCollection, reply: Reply)
    ensures var r := Session(h, u, target, answer, m, reply);
            r.outcome.Mismatch? && r.outcome.at <= 99 ==> r.table == u
  {
    hide ParsePieces;
    hide InsertAll;
    hide Matching;
    hide Fetch;
    InsertNothing(u);
  }

  // ----- what a download may store

  /** A table that holds the first rows of another, up to the two counts. */
  predicate MirrorOf(u: seq<Post>, t: seq<Post>) {
    |u| <= |t| && AllSameButCounts(u, t[..|u|])
  }

  /** An entry that names the hash list of a table whose text holds no separator. */
  predicate Published(h: Hash, t: seq<Post>, e: Entry) {
    ValidTable(t) && AllPlainText(t) && e.info.collectionHash == h(HashList(h, t))
  }

  /** None of the digests compared in a download rests on a collision with the table's data. */
  predicate NoCollisionIn(h: Hash, u: seq<Post>, t: seq<Post>, m: MessageCollection, reply: Reply) {
    && !Collision(h, Covered(m), HashList(h, t))
    && var pieces := ParsePieces(reply(Since(|u|), m.size), m.size);
       forall i :: 0 <= i < |pieces| ==> !Collision(h, Lines(pieces[i], false), Lines(Chunk(t, i), false))
  }

  lemma {:induction false} FlattenSame(a: seq<seq<Post>>, b: seq<seq<Post>>)
    requires |a| == |b| && forall i :: 0 <= i < |a| ==> AllSameButCounts(a[i], b[i])
    ensures AllSameButCounts(Flatten(a), Flatten(b))
  {
    hide SameButCounts;
    if a != [] {
      FlattenSame(a[1..], b[1..]);
    }
  }

  /** A piece that matches the publisher's slot is the publisher's piece. */
  lemma PieceGenuine(h: Hash, t: seq<Post>, s: Bytes, size: int, i: nat)
    requires AllPlainText(t) && i < size
    requires h(Lines(ParsePieces(s, size)[i], false)) == PieceHash(h, t, i)
    requires !Collision(h, Lines(ParsePieces(s, size)[i], false), Lines(Chunk(t, i), false))
    ensures AllSameButCounts(ParsePieces(s, size)[i], Chunk(t, i))
  {
    hide ParsePieces;
    hide PlainText;
    ParsedPrintable(s, size, i);
    LinesInjective(ParsePieces(s, size)[i], Chunk(t, i));
  }

  lemma MirrorOfTransitive(a: seq<Post>, b: seq<Post>, c: seq<Post>)
    requires MirrorOf(a, b) && MirrorOf(b, c)
    ensures MirrorOf(a, c)
  {
    forall i | 0 <= i < |a|
      ensures SameButCounts(a[i], c[..|a|][i])
    {
      assert SameButCounts(a[i], b[..|a|][i]) && SameButCounts(b[i], c[..|b|][i]);
    }
  }

  lemma MirrorOfNothing(t: seq<Post>)
    ensures MirrorOf([], t)
  {
  }

  lemma PrefixSame(t: seq<Post>, top: seq<Post>, j: nat)
    requires MirrorOf(t, top) && j <= |t|
    ensures AllSameButCounts(t[..j], top[..j])
  {
    forall i | 0 <= i < j
      ensures SameButCounts(t[..j][i], top[..j][i])
    {
      assert SameButCounts(t[i], top[..|t|][i]);
    }
  }

  lemma SameTransitive(a: seq<Post>, b: seq<Post>, c: seq<Post>)
    requires AllSameButCounts(a, b) && AllSameButCounts(b, c)
    ensures AllSameButCounts(a, c)
  {
    forall i | 0 <= i < |a|
      ensures SameButCounts(a[i], c[i])
    {
      assert SameButCounts(a[i], b[i]) && SameButCounts(b[i], c[i]);
    }
  }

  /** Inserting the first `k` pieces of an earlier state over a mirror of a later one gives a mirror of the later. */
  lemma InsertGenuine(u: seq<Post>, t: seq<Post>, top: seq<Post>, pieces: seq<seq<Post>>, k: nat)
    requires ValidTable(top) && MirrorOf(u, top) && MirrorOf(t, top)
    requires k <= |pieces| && k <= PieceCount(|t|)
    requires forall i :: 0 <= i < k ==> AllSameButCounts(pieces[i], Chunk(t, i))
    ensures MirrorOf(InsertAll(u, Flatten(pieces[..k])), top)
    ensures var n, j := |InsertAll(u, Flatten(pieces[..k]))|, Min(1000 * k, |t|);
            n == if |u| < j then j else |u|
  {
    hide InsertAll;
    hide Flatten;
    hide SameButCounts;
    hide ValidTable;
    hide Chunk;
    var j := Min(1000 * k, |t|);
    FlattenSame(pieces[..k], Chunks(t)[..k]);
    FlattenChunks(t, k);
    PrefixSame(t, top, j);
    SameTransitive(Flatten(pieces[..k]), t[..j], top[..j]);
    InsertAllSame(u, top[..|u|], Flatten(pieces[..k]), top[..j]);
    InsertPrefix(top, |u|, j);
  }

  lemma GenuineSlot(h: Hash, t: seq<Post>, m: MessageCollection, i: nat)
    requires Covered(m) == HashList(h, t) && i < PieceCount(|t|)
    ensures 32 * i + 32 <= |m.hashList| && m.hashList[32 * i..32 * i + 32] == PieceHash(h, t, i)
  {
    hide PieceHash;
    HashPrefixSlot(h, t, PieceCount(|t|), i);
    assert m.hashList[32 * i..32 * i + 32] == Covered(m)[32 * i..32 * i + 32];
  }

  /** The posts of the pieces committed when piece `k` of a table of `n` posts does not match. */
  lemma CommittedPosts(k: nat, n: nat)
    requires k < PieceCount(n)
    ensures Min(1000 * Committed(k), n) == if k == 0 then 0 else (k - 1) / 99 * 99000
  {
  }

  /** A download that goes by an entry for any state `t` the publisher has been in keeps a mirror of its latest state
      `top` one. When it completes the mirror holds that state, or what it had if that is more; when a piece does not
      match it holds the posts of the whole batches of 99 pieces before it. The entry may be as old as it likes. */
  lemma DownloadSafe(h: Hash, u: seq<Post>, t: seq<Post>, top: seq<Post>, e: Entry, m: MessageCollection, reply: Reply)
    requires Published(h, t, e) && ValidTable(top) && MirrorOf(t, top) && MirrorOf(u, top)
    requires NoCollisionIn(h, u, t, m, reply)
    ensures var r := Download(h, u, e, m, reply);
            && MirrorOf(r.table, top)
            && (r.outcome == Complete ==> |r.table| == if |u| < |t| then |t| else |u|)
            && (r.outcome.Mismatch? ==>
                  var k := r.outcome.at;
                  var n := if k == 0 then 0 else (k - 1) / 99 * 99000;
                  n <= |t| && |r.table| == if |u| < n then n else |u|)
  {
    hide ParsePieces;
    hide InsertAll;
    hide Flatten;
    hide Lines;
    hide MirrorOf;
    hide ValidTable;
    hide AllPlainText;
    hide Committed;
    hide Chunk;
    if VerifySpec(h, m, e.info.collectionHash) == Accepted && |u| != e.info.postCount {
      var s := reply(Since(|u|), m.size);
      var pieces := ParsePieces(s, m.size);
      var k := Matching(h, m.hashList, pieces, 0);
      AcceptedListGenuine(h, m, HashList(h, t));
      forall i | 0 <= i < k
        ensures AllSameButCounts(pieces[i], Chunk(t, i))
      {
        GenuineSlot(h, t, m, i);
        assert SlotMatches(h, m.hashList, pieces[i], i);
        PieceGenuine(h, t, s, m.size, i);
      }
      hide SlotMatches;
      hide HashList;
      if k == |pieces| {
        InsertGenuine(u, t, top, pieces, k);
        assert pieces[..k] == pieces;
      } else {
        CommittedPosts(k, |t|);
        InsertGenuine(u, t, top, pieces, Committed(k));
      }
    }
  }

  // ----- safety against every peer

  /** A state of the publisher's table and the entry it signed for it. */
  datatype Issue = Issue(table: seq<Post>, entry: Entry)

  /** What the publisher signs under its key: an entry signed before the first post names no list; every other one
      names that of a state that has since only been added to. */
  predicate Genuine(h: Hash, top: seq<Post>, key: Bytes, g: Issue) {
    && SignsClearly(key, g.entry)
    && (g.entry.info.collectionHash == [] || (Published(h, g.table, g.entry) && MirrorOf(g.table, top)))
  }

  /** The check a caller can make on an answer before going by it, with the key already held for the publisher. */
  predicate AnswerTrusted(key: Bytes, target: Target, answer: QueryReply) {
    Fetch(target, answer).Some? ==> Trusted(key, Fetch(target, answer).value)
  }

  /** A signature made with the publisher's key is on a text the publisher has signed. */
  ghost predicate Unforged(key: Bytes, issued: seq<Issue>, s: Signature) {
    s.Signed? && s.key == key ==> exists g :: g in issued && SignedText(g.entry) == s.text
  }

  /** Nothing a session compares rests on a collision with what was issued. */
  ghost predicate Clean(h: Hash, u: seq<Post>, issued: seq<Issue>, m: MessageCollection, reply: Reply) {
    forall g :: g in issued ==> NoCollisionIn(h, u, g.table, m, reply)
  }

  /** The premises of a session's safety, apart from the caller's check: no collision and no forgery. */
  ghost predicate Sound(h: Hash, u: seq<Post>, key: Bytes, issued: seq<Issue>, answer: QueryReply,
                        m: MessageCollection, reply: Reply)
  {
    && Clean(h, u, issued, m, reply)
    && (answer.EntryReply? ==> Unforged(key, issued, answer.entry.info.signature))
  }

  lemma DownloadUnlisted(h: Hash, u: seq<Post>, a: Entry, m: MessageCollection, reply: Reply)
    requires |a.info.collectionHash| != 32
    ensures var r := Download(h, u, a, m, reply);
            r.table == u && !r.outcome.Complete?
  {
    hide ParsePieces;
  }

  lemma FetchedSigned(target: Target, answer: QueryReply)
    requires Fetch(target, answer).Some?
    ensures var a := Fetch(target, answer).value;
            answer == EntryReply(a) && a.info.signature == Signed(a.info.publicKey, SignedText(a))
  {
    hide SignedText;
  }

  /** An entry that verifies, with another root or another count, is not gone by: neither branch accepts it. */
  lemma ChangeNotFetched(target: Target, e: Entry, root: Bytes, n: int)
    requires Verified(e)
    ensures root != e.info.collectionHash ==>
              Fetch(target, EntryReply(e.(info := e.info.(collectionHash := root)))) == None
    ensures n != e.info.postCount ==> Fetch(target, EntryReply(e.(info := e.info.(postCount := n)))) == None
  {
    hide Verified;
    hide Itoa;
    hide Rune;
    hide AsInt;
    if root != e.info.collectionHash {
      ChangeRefused(e, e.(info := e.info.(collectionHash := root)), 8);
    }
    if n != e.info.postCount {
      if Itoa(n) == Itoa(e.info.postCount) {
        ItoaInjective(n, e.info.postCount);
      }
      ChangeRefused(e, e.(info := e.info.(postCount := n)), 6);
    }
  }

  /** If the answer passes the check against the key held for the publisher, then whatever a peer answers, lists and
      streams, the mirror's table stays a mirror of the publisher's, and a completed session has brought it to the
      state whose root it went by. */
  lemma SessionSafe(h: Hash, u: seq<Post>, top: seq<Post>, key: Bytes, issued: seq<Issue>, target: Target,
                    answer: QueryReply, m: MessageCollection, reply: Reply)
    requires ValidTable(top) && MirrorOf(u, top) && forall g :: g in issued ==> Genuine(h, top, key, g)
    requires Sound(h, u, key, issued, answer, m, reply) && AnswerTrusted(key, target, answer)
    ensures var r := Session(h, u, target, answer, m, reply);
            && MirrorOf(r.table, top)
            && (r.outcome == Complete ==>
                  var root := Fetch(target, answer).value.info.collectionHash;
                  exists g :: g in issued && Published(h, g.table, g.entry) && g.entry.info.collectionHash == root
                              && |g.table| <= |r.table|)
  {
    hide MirrorOf;
    hide ValidTable;
    hide AllPlainText;
    hide Download;
    hide NoCollisionIn;
    hide HashList;
    hide KeyOnce;
    hide SignedText;
    match Fetch(target, answer)
    case None =>
    case Some(a) =>
      if |a.info.collectionHash| == 32 {
        FetchedSigned(target, answer);
        var g :| g in issued && SignedText(g.entry) == a.info.signature.text;
        RootPinned(key, a, g.entry);
        DownloadSafe(h, u, g.table, top, a, m, reply);
      } else {
        DownloadUnlisted(h, u, a, m, reply);
      }
  }

  /** A session never rewrites or drops a stored row, whatever the entry. */
  lemma SessionKeeps(h: Hash, u: seq<Post>, target: Target, answer: QueryReply, m: MessageCollection, reply: Reply)
    requires ValidTable(u)
    ensures var r := Session(h, u, target, answer, m, reply);
            u <= r.table && ValidTable(r.table)
  {
    hide ParsePieces;
    hide InsertAll;
    hide ValidTable;
    hide Flatten;
    hide Lines;
    hide Verified;
    match Fetch(target, answer)
    case None =>
    case Some(e) =>
      if VerifySpec(h, m, e.info.collectionHash) == Accepted {
        var pieces := ParsePieces(reply(Since(|u|), m.size), m.size);
        InsertAllValid(u, Flatten(pieces));
        InsertAllValid(u, Flatten(pieces[..Committed(Matching(h, m.hashList, pieces, 0))]));
      }
  }

  /** A mirror that holds everything is left as it is by every further session whose answer passes the check. */
  lemma WholeMirrorIdle(h: Hash, u: seq<Post>, top: seq<Post>, key: Bytes, issued: seq<Issue>, target: Target,
                        answer: QueryReply, m: MessageCollection, reply: Reply)
    requires ValidTable(top) && MirrorOf(u, top) && forall g :: g in issued ==> Genuine(h, top, key, g)
    requires Sound(h, u, key, issued, answer, m, reply) && AnswerTrusted(key, target, answer)
    requires ValidTable(u) && |u| == |top|
    ensures Session(h, u, target, answer, m, reply).table == u
  {
    hide Session;
    hide Sound;
    hide AnswerTrusted;
    hide Genuine;
    SessionSafe(h, u, top, key, issued, target, answer, m, reply);
    SessionKeeps(h, u, target, answer, m, reply);
  }

  // ----- any number of sessions

  /** One session: whom it is with, and all that peer answers. */
  datatype Visit = Visit(target: Target, answer: QueryReply, message: MessageCollection, reply: Reply)

  ghost function MirrorAfter(h: Hash, visits: seq<Visit>): seq<Post> {
    if visits == [] then []
    else
      var v := visits[|visits| - 1];
      Session(h, MirrorAfter(h, visits[..|visits| - 1]), v.target, v.answer, v.message, v.reply).table
  }

  /** Every visit goes by an answer that passes the check, old or new, and rests on no collision and no forgery. */
  ghost predicate Plausible(h: Hash, key: Bytes, issued: seq<Issue>, visits: seq<Visit>) {
    visits == [] ||
    var before, v := visits[..|visits| - 1], visits[|visits| - 1];
    && Plausible(h, key, issued, before)
    && AnswerTrusted(key, v.target, v.answer)
    && Sound(h, MirrorAfter(h, before), key, issued, v.answer, v.message, v.reply)
  }

  /** After any sequence of sessions with any peers, answering with any of the publisher's entries in any order, a
      mirror started empty holds a prefix of the publisher's latest table. */
  lemma {:induction false} MirrorAlwaysPrefix(h: Hash, top: seq<Post>, key: Bytes, issued: seq<Issue>,
                                              visits: seq<Visit>)
    requires ValidTable(top) && forall g :: g in issued ==> Genuine(h, top, key, g)
    requires Plausible(h, key, issued, visits)
    ensures MirrorOf(MirrorAfter(h, visits), top)
    decreases visits
  {
    hide MirrorOf;
    hide Session;
    hide Sound;
    hide AnswerTrusted;
    hide Genuine;
    hide ValidTable;
    if visits == [] {
      MirrorOfNothing(top);
    } else {
      var before, v := visits[..|visits| - 1], visits[|visits| - 1];
      MirrorAlwaysPrefix(h, top, key, issued, before);
      SessionSafe(h, MirrorAfter(h, before), top, key, issued, v.target, v.answer, v.message, v.reply);
    }
  }

  // ----- an honest peer

  lemma ChunkSame(u: seq<Post>, t: seq<Post>, i: nat)
    requires AllSameButCounts(u, t)
    ensures AllSameButCounts(Chunk(u, i), Chunk(t, i))
  {
    hide SameButCounts;
  }

  lemma {:induction false} HashPrefixSame(h: Hash, u: seq<Post>, t: seq<Post>, k: nat)
    requires AllSameButCounts(u, t)
    ensures HashPrefix(h, u, k) == HashPrefix(h, t, k)
  {
    hide Lines;
    hide Chunk;
    hide AllSameButCounts;
    if k > 0 {
      HashPrefixSame(h, u, t, k - 1);
      ChunkSame(u, t, k - 1);
      LinesIgnoreCounts(Chunk(u, k - 1), Chunk(t, k - 1));
    }
  }

  /** A whole mirror can serve the publisher's hash list from its own rows. */
  lemma MirrorHashes(h: Hash, u: seq<Post>, t: seq<Post>)
    requires MirrorOf(u, t) && |u| == |t|
    ensures HashList(h, u) == HashList(h, t)
  {
    assert t[..|u|] == t;
    HashPrefixSame(h, u, t, PieceCount(|t|));
  }

  lemma SelectFrom(t: seq<Post>, s: nat)
    requires ValidTable(t) && 1000 * s <= |t|
    ensures Select(t, s * 1000, s + 1000 * PieceCount(|t|)) == t[1000 * s..]
  {
    hide Select;
    SelectSlice(t, s * 1000, s + 1000 * PieceCount(|t|));
    hide ValidTable;
  }

  lemma ChunkOfSuffix(t: seq<Post>, s: nat)
    requires 1000 * s <= |t|
    ensures Chunk(t[1000 * s..], 0) == Chunk(t, s)
  {
  }

  lemma ChunksAre(t: seq<Post>, i: nat)
    requires i < PieceCount(|t|)
    ensures Chunks(t)[i] == Chunk(t, i)
  {
  }

  /** What an honest peer streams for all pieces matches the publisher's list in every slot. */
  lemma HonestPieces(h: Hash, t: seq<Post>)
    requires ValidTable(t) && AllPrintable(t)
    ensures ParsePieces(HonestReply(t)(0, PieceCount(|t|)), PieceCount(|t|)) == Chunks(t)
    ensures Matching(h, HashList(h, t), Chunks(t), 0) == |Chunks(t)|
  {
    hide ParsePieces;
    hide Stream;
    hide Select;
    hide Chunks;
    hide Printable;
    SelectFrom(t, 0);
    assert t[0..] == t;
    ParseStream(t);
    assert |Chunks(t)| == PieceCount(|t|) by { ChunksCount(t); }
    forall i: nat | i < PieceCount(|t|)
      ensures SlotMatches(h, HashList(h, t), Chunks(t)[i], i)
    {
      ChunksAre(t, i);
      HashPrefixSlot(h, t, PieceCount(|t|), i);
    }
  }

  lemma ChunksCount(t: seq<Post>)
    ensures |Chunks(t)| == PieceCount(|t|)
  {
  }

  /** With at most one piece's worth of posts stored, an honest peer completes the mirror; started empty, every one
      of the ten fields arrives. */
  lemma HonestCompletes(h: Hash, u: seq<Post>, t: seq<Post>, e: Entry)
    requires Published(h, t, e) && AllPrintable(t)
    requires MirrorOf(u, t) && |u| <= PIECE_SIZE && |u| != e.info.postCount
    ensures var r := Download(h, u, e, HashListReply(HashList(h, t)), HonestReply(t));
            && r.outcome == Complete && MirrorOf(r.table, t) && |r.table| == |t|
            && (u == [] ==> r.table == t)
  {
    hide ParsePieces;
    hide InsertAll;
    hide Flatten;
    hide Chunks;
    hide HonestReply;
    hide AllPrintable;
    hide AllPlainText;
    hide ValidTable;
    hide HashList;
    hide Matching;
    hide Chunk;
    ListSize(h, t);
    var m, n := HashListReply(HashList(h, t)), PieceCount(|t|);
    HonestListAccepted(h, HashList(h, t));
    HonestPieces(h, t);
    assert Since(|u|) == 0;
    ChunksCount(t);
    forall i: nat | i < n
      ensures AllSameButCounts(Chunks(t)[i], Chunk(t, i))
    {
      ChunksAre(t, i);
    }
    MirrorOfItself(t);
    InsertGenuine(u, t, t, Chunks(t), n);
    assert Chunks(t)[..n] == Chunks(t);
    if u == [] {
      FlattenChunks(t, n);
      InsertPrefix(t, 0, |t|);
      assert t[..|t|] == t && t[..0] == [];
    }
  }

  lemma ListSize(h: Hash, t: seq<Post>)
    ensures |HashList(h, t)| == 32 * PieceCount(|t|)
  {
  }

  lemma DifferentPieces(t: seq<Post>, s: nat)
    requires ValidTable(t) && AllPlainText(t) && 0 < s && 1000 * s < |t|
    ensures Lines(Chunk(t, s), false) != Lines(Chunk(t, 0), false)
  {
    hide PlainText;
    var a, b := Chunk(t, s), Chunk(t, 0);
    assert a[0].id != b[0].id && !SameButCounts(a[0], b[0]);
    if Lines(a, false) == Lines(b, false) {
      LinesInjective(a, b);
    }
  }

  /** Beyond that, the pieces asked for start at a later one while the slots compared start at the first: even an
      honest peer is refused at once, and nothing is stored. */
  lemma HonestRefused(h: Hash, u: seq<Post>, t: seq<Post>, e: Entry)
    requires Published(h, t, e) && AllPrintable(t)
    requires MirrorOf(u, t) && PIECE_SIZE < |u| && |u| != e.info.postCount
    ensures !Collision(h, Lines(Chunk(t, Since(|u|)), false), Lines(Chunk(t, 0), false)) ==>
              Download(h, u, e, HashListReply(HashList(h, t)), HonestReply(t)) == Result(Mismatch(0), u)
  {
    hide Lines;
    hide HonestReply;
    hide ParsePieces;
    hide Flatten;
    hide InsertAll;
    hide Chunk;
    hide Published;
    var l, n := HashList(h, t), PieceCount(|t|);
    HonestListAccepted(h, l);
    PublishedMeans(h, t, e);
    HonestLaterPiece(t, Since(|u|));
    DifferentPieces(t, Since(|u|));
    HashPrefixSlot(h, t, n, 0);
    assert !Collision(h, Lines(Chunk(t, Since(|u|)), false), Lines(Chunk(t, 0), false)) ==>
        !SlotMatches(h, l, Chunk(t, Since(|u|)), 0);
    InsertNothing(u);
  }

  /** Asked for later pieces, an honest peer starts with the first of those. */
  lemma HonestLaterPiece(t: seq<Post>, s: nat)
    requires ValidTable(t) && AllPrintable(t) && 1000 * s < |t|
    ensures ParsePieces(HonestReply(t)(s, PieceCount(|t|)), PieceCount(|t|))[0] == Chunk(t, s)
  {
    hide Stream;
    hide Select;
    hide ParsePieces;
    hide Printable;
    hide Chunk;
    SelectFrom(t, s);
    FirstPiece(t[1000 * s..], PieceCount(|t|));
    ChunkOfSuffix(t, s);
  }

  lemma PublishedMeans(h: Hash, t: seq<Post>, e: Entry)
    requires Published(h, t, e)
    ensures ValidTable(t) && e.info.collectionHash == h(HashList(h, t))
  {
  }

  lemma MirrorOfItself(t: seq<Post>)
    ensures MirrorOf(t, t)
  {
    assert t[..|t|] == t;
  }

  lemma FirstPiece(rows: seq<Post>, n: nat)
    requires rows != [] && n > 0 && Sendable(rows)
    ensures ParsePieces(Stream(rows), n)[0] == Chunk(rows, 0)
  {
    ParseStream(rows);
    ChunksAre(rows, 0);
    assert ParsePieces(Stream(rows), n)[0] == ParsePiece(Stream(rows), 0).posts;
    assert ParsePieces(Stream(rows), PieceCount(|rows|))[0] == ParsePiece(Stream(rows), 0).posts;
  }

  // ----- a peer that answers with an entry of its own

  /** A length no info hash of the table reaches. */
  function Beyond(t: seq<Post>): (n: nat)
    ensures forall i :: 0 <= i < |t| ==> |t[i].infoHash| < n
  {
    if t == [] then 0
    else
      var n, k := Beyond(t[..|t| - 1]), |t[|t| - 1].infoHash| + 1;
      if n < k then k else n
  }

  /** A post that is in no state of a table. */
  function Stranger(t: seq<Post>): (p: Post)
    ensures Printable(p) && p.id == 1 && forall i :: 0 <= i < |t| ==> t[i].infoHash != p.infoHash
  {
    Post(1, seq(Beyond(t), _ => ZERO), [], 0, 0, 0, 0, 0, [], [])
  }

  lemma StrangerBreaksMirror(u: seq<Post>, top: seq<Post>)
    requires MirrorOf(u, top)
    ensures !MirrorOf(InsertAll(u, [Stranger(top)]), top)
  {
    var p := Stranger(top);
    assert forall i :: 0 <= i < |u| ==> SameButCounts(u[i], top[..|u|][i]) && u[i].infoHash == top[i].infoHash;
    assert !Has(u, p.infoHash);
    InsertAllSnoc(u, [], p);
    assert [] + [p] == [p] && InsertAll(u, []) == u;
    var r := InsertAll(u, [p]);
    assert r == u + [p.(id := |u| + 1)];
    if |r| <= |top| {
      assert top[..|r|][|u|] == top[|u|] && !SameButCounts(r[|u|], top[..|r|][|u|]);
    }
  }

  /** An entry anyone with a key can sign for an address and a table of posts. */
  function SelfSigned(h: Hash, address: Address, key: Bytes, t: seq<Post>, postCount: int): (e: Entry)
    requires |key| == 32
    ensures Verified(e) && e.address == address && e.info.publicKey == key
    ensures e.info.collectionHash == h(HashList(h, t)) && e.info.postCount == postCount
  {
    var unsigned := Entry(address, Info([], [], [ZERO], 0, key, Blank, h(HashList(h, t)), postCount, 0, 0), [], []);
    unsigned.(info := unsigned.info.(signature := Signed(key, SignedText(unsigned))))
  }

  function StrangerList(h: Hash, top: seq<Post>): MessageCollection {
    HashListReply(HashList(h, [Stranger(top)]))
  }

  function StrangerReply(top: seq<Post>): Reply {
    (_, _) => Stream([Stranger(top)])
  }

  /** A session that accepts the answer completes and stores a post the publisher never had. */
  ghost predicate Breaks(h: Hash, u: seq<Post>, top: seq<Post>, a: Entry) {
    forall target :: Fetch(target, EntryReply(a)) == Some(a) ==>
      var r := Session(h, u, target, EntryReply(a), StrangerList(h, top), StrangerReply(top));
      r.outcome == Complete && !MirrorOf(r.table, top)
  }

  lemma StrangerServed(h: Hash, u: seq<Post>, top: seq<Post>, a: Entry)
    requires MirrorOf(u, top)
    requires a.info.collectionHash == h(HashList(h, [Stranger(top)])) && a.info.postCount != |u|
    ensures Breaks(h, u, top, a)
  {
    hide MirrorOf;
    hide ParsePieces;
    hide InsertAll;
    hide Stream;
    hide Chunks;
    hide Matching;
    hide Fetch;
    hide Stranger;
    hide HashList;
    var f := [Stranger(top)];
    ListOfOne(h, f);
    HonestListAccepted(h, HashList(h, f));
    ParseStream(f);
    ChunksSmall(f);
    HonestPieces(h, f);
    StrangerBreaksMirror(u, top);
    assert Flatten([f]) == f + Flatten([]) == f;
  }

  /** Both branches go by `a` when it is the answer for its own address. */
  predicate GoneBy(a: Entry) {
    Fetch(Direct(a.address), EntryReply(a)) == Some(a) == Fetch(ViaSeed(a.address), EntryReply(a))
  }

  lemma VerifiedGoneBy(a: Entry)
    requires Verified(a)
    ensures GoneBy(a)
  {
  }

  /** The check on the key is needed, and no other field replaces it: under every key there is an entry, for whatever
      address is asked for, that is accepted directly or through a seed and breaks the mirror. */
  lemma ForeignKeyUnsafe(h: Hash, u: seq<Post>, top: seq<Post>, address: Address, key: Bytes) returns (a: Entry)
    requires MirrorOf(u, top) && |key| == 32
    ensures a.address == address && a.info.publicKey == key
    ensures GoneBy(a) && Breaks(h, u, top, a)
  {
    hide MirrorOf;
    hide SelfSigned;
    hide Breaks;
    hide Verified;
    hide GoneBy;
    a := SelfSigned(h, address, key, [Stranger(top)], |u| + 1);
    VerifiedGoneBy(a);
    StrangerServed(h, u, top, a);
  }

  /** Nor is the held key enough. For any entry of moderate size there are four addresses such that, once its owner is
      seeding them, the owner's signature also covers an entry, with the owner's address and key, that breaks the
      mirror. The key then stands twice in the text. */
  lemma RepeatedKeyUnsafe(h: Hash, u: seq<Post>, top: seq<Post>, e: Entry) returns (g: Entry, a: Entry)
    requires MirrorOf(u, top) && Verified(e) && |SignedText(e)| <= 252
    ensures g == Resigned(e.(seeding := g.seeding)) && Verified(g) && |g.seeding| == 4 && AddressSized(g.seeding)
    ensures ClearRoot(e.info.collectionHash) ==> SignsClearly(e.info.publicKey, g)
    ensures a.address == e.address && a.info.publicKey == e.info.publicKey && SignedText(a) == SignedText(g)
    ensures !KeyOnce(e.info.publicKey, SignedText(a))
    ensures GoneBy(a) && Breaks(h, u, top, a)
  {
    hide MirrorOf;
    hide Breaks;
    hide Verified;
    hide SignedText;
    hide GoneBy;
    hide KeyOnce;
    g, a := KeyInSeeding(e, if |u| == 1 then 2 else 1, h(HashList(h, [Stranger(top)])));
    VerifiedGoneBy(a);
    StrangerServed(h, u, top, a);
  }

  /** Nor is the check enough for an owner that signs an empty root and a seeding list: two addresses do, and the
      answer differs from the signed entry in its root and that list only. */
  lemma UnlistedUnsafe(h: Hash, u: seq<Post>, top: seq<Post>, e: Entry) returns (g: Entry, a: Entry)
    requires MirrorOf(u, top) && Verified(e) && e.info.collectionHash == [] && e.info.postCount != |u|
    ensures g == Resigned(e.(seeding := g.seeding)) && Verified(g) && |g.seeding| == 2 && AddressSized(g.seeding)
    ensures a == g.(info := g.info.(collectionHash := a.info.collectionHash), seeding := a.seeding)
    ensures SignedText(a) == SignedText(g) && !SignsClearly(e.info.publicKey, g)
    ensures GoneBy(a) && Breaks(h, u, top, a)
  {
    hide MirrorOf;
    hide Breaks;
    hide Verified;
    hide SignedText;
    hide GoneBy;
    g, a := DigestInSeeding(e, h(HashList(h, [Stranger(top)])));
    VerifiedGoneBy(a);
    StrangerServed(h, u, top, a);
  }

  lemma ListOfOne(h: Hash, f: seq<Post>)
    requires |f| == 1
    ensures |HashList(h, f)| == 32 && PieceCount(|f|) == 1
  {
  }
}
