/** Pieces of a collection: hashing, cutting a table into pieces, and the stream parser. */
module Pieces {
  import opened Text
  import opened Posts

  const PIECE_SIZE := 1000

  /** SHA3-256 digests; the hash function itself is always a parameter. */
  type Digest = d: Bytes | |d| == 32 witness seq(32, _ => 0)
  type Hash = Bytes -> Digest

  /** Two different inputs with one digest. */
  predicate Collision(h: Hash, x: Bytes, y: Bytes) {
    x != y && h(x) == h(y)
  }

  /** A piece under construction. `fed` is what its running hash has been given so far. */
  class Piece {
    var id: nat
    var posts: seq<Post>
    var fed: Bytes

    constructor (id: nat)
      ensures this.id == id && posts == [] && fed == []
    {
      this.id, posts, fed := id, [], [];
    }

    /** The bound lets a stored piece grow to one post more than its nominal size. */
    method Add(post: Post, store: bool) returns (ok: bool)
      modifies this`posts, this`fed
      ensures ok <==> |old(posts)| <= PIECE_SIZE
      ensures ok ==> posts == old(posts) + (if store then [post] else [])
      ensures ok ==> fed == old(fed) + Line(post, false)
      ensures !ok ==> posts == old(posts) && fed == old(fed)
    {
      if |posts| > PIECE_SIZE {
        return false;
      }
      if store {
        posts := posts + [post];
      }
      fed := fed + Line(post, false);
      return true;
    }

    function Sum(h: Hash): Digest
      reads this
    {
      h(fed)
    }

    /** Restarting the hash from the stored posts. */
    method Rehash(h: Hash) returns (d: Digest)
      modifies this`fed
      ensures fed == Lines(posts, false) && d == h(Lines(posts, false))
    {
      hide Lines;
      hide Line;
      LinesEmpty(posts[..0], false);
      fed := [];
      for i := 0 to |posts|
        invariant fed == Lines(posts[..i], false)
      {
        LinesSnoc(posts[..i], posts[i], false);
        assert posts[..i + 1] == posts[..i] + [posts[i]];
        fed := fed + Line(posts[i], false);
      }
      assert posts[..|posts|] == posts;
      d := h(fed);
    }
  }

  /** A delimiter reader over the bytes not yet consumed. */
  class ErrorReader {
    var rest: Bytes
    var err: bool

    constructor (input: Bytes)
      ensures rest == input && !err
    {
      rest, err := input, false;
    }

    /** The bytes before the next delimiter, which is consumed; without one the rest is consumed and dropped. */
    method ReadString(delim: Byte) returns (ret: Bytes)
      modifies this
      ensures !err ==> old(rest) == ret + [delim] + rest && delim !in ret
      ensures err ==> delim !in old(rest) && ret == [] && rest == []
    {
      var n := 0;
      while n < |rest| && rest[n] != delim
        invariant 0 <= n <= |rest| && rest == old(rest) && delim !in rest[..n]
      {
        n := n + 1;
      }
      if n == |rest| {
        assert rest[..n] == rest;
        ret, rest, err := [], [], true;
      } else {
        ret, rest, err := rest[..n], rest[n + 1..], false;
      }
    }
  }

  // ----- printing

  lemma {:induction false} LinesConcat(ps: seq<Post>, qs: seq<Post>, seedLeech: bool)
    ensures Lines(ps + qs, seedLeech) == Lines(ps, seedLeech) + Lines(qs, seedLeech)
  {
    if ps == [] {
      assert ps + qs == qs;
    } else {
      assert (ps + qs)[1..] == ps[1..] + qs;
      LinesConcat(ps[1..], qs, seedLeech);
    }
  }

  lemma LinesEmpty(ps: seq<Post>, seedLeech: bool)
    requires ps == []
    ensures Lines(ps, seedLeech) == []
  {
  }

  lemma LinesCons(ps: seq<Post>, seedLeech: bool)
    requires ps != []
    ensures Lines(ps, seedLeech) == Line(ps[0], seedLeech) + Lines(ps[1..], seedLeech)
  {
  }

  lemma LinesSnoc(ps: seq<Post>, p: Post, seedLeech: bool)
    ensures Lines(ps + [p], seedLeech) == Lines(ps, seedLeech) + Line(p, seedLeech)
  {
    LinesConcat(ps, [p], seedLeech);
    assert Lines([p], seedLeech) == Line(p, seedLeech);
  }

  // ----- parsing

  /** A malformed integer is logged and read as zero. */
  function Convert(s: Bytes): (n: int)
    ensures InRange(n)
  {
    match Atoi(s)
    case None => 0
    case Some(n) => n
  }

  /** Anything but an optional sign and a run of digits reads as zero. */
  lemma MalformedIsZero(s: Bytes)
    requires !AllDigits(s) && (s[0] == PLUS || s[0] == MINUS ==> !AllDigits(s[1..]))
    ensures Convert(s) == 0
  {
    if Atoi(s).Some? {
      AtoiSyntax(s);
    }
  }

  /** The state of a reader after some fields: what it returned, what is left, and its last error. */
  datatype Fieldwise = Fieldwise(fields: seq<Bytes>, rest: Bytes, err: bool)

  /** Reading `k` fields one after another from `s`. */
  function ReadFields(s: Bytes, k: nat): (r: Fieldwise)
    ensures |r.fields| == k && AllSepFree(r.fields) && |r.rest| <= |s|
    ensures r.err ==> r.rest == []
    ensures k > 0 && !r.err ==> |r.rest| < |s|
  {
    if k == 0 then Fieldwise([], s, false)
    else
      var r := ReadFields(s, k - 1);
      var c := ReadUntil(r.rest, SEP);
      Fieldwise(r.fields + [c.field], c.rest, !c.found)
  }

  function FromFields(fs: seq<Bytes>): (p: Post)
    requires |fs| == 10 && AllSepFree(fs)
    ensures Printable(p)
  {
    Post(Convert(fs[0]), fs[1], fs[2], Convert(fs[3]), Convert(fs[4]), Convert(fs[5]), Convert(fs[6]),
         Convert(fs[7]), fs[8], fs[9])
  }

  datatype Parse = Sentinel(rest: Bytes) | Broken | Good(post: Post, rest: Bytes)

  /** One round of the receiving loop. Only the last read's error is looked at. */
  function ParsePost(s: Bytes): (r: Parse)
    ensures r.Good? ==> |r.rest| < |s| && Printable(r.post) && r.post.id != -1
  {
    var first := ReadFields(s, 1);
    var id := Convert(first.fields[0]);
    if id == -1 then Sentinel(first.rest)
    else
      var all := ReadFields(s, 10);
      if all.err then Broken else Good(FromFields(all.fields).(id := id), all.rest)
  }

  datatype Framed = Framed(posts: seq<Post>, rest: Bytes)

  /** The posts read into one piece that already holds `count` of them. */
  function ParsePiece(s: Bytes, count: nat): (f: Framed)
    decreases |s|
  {
    if count >= PIECE_SIZE then Framed([], s)
    else
      match ParsePost(s)
      case Sentinel(rest) => Framed([], rest)
      case Broken => Framed([], [])
      case Good(p, rest) =>
        var f := ParsePiece(rest, count + 1);
        Framed([p] + f.posts, f.rest)
  }

  /** The posts of every piece a client makes out of a stream when it asked for `length` pieces. */
  function ParsePieces(s: Bytes, length: int): (pieces: seq<seq<Post>>)
    ensures |pieces| == if length < 0 then 0 else length
    decreases if length < 0 then 0 else length
  {
    if length <= 0 then []
    else
      var f := ParsePiece(s, 0);
      [f.posts] + ParsePieces(f.rest, length - 1)
  }

  /** Posts that survive the trip: printable, and none mistaken for the sentinel. */
  predicate Sendable(ps: seq<Post>) {
    AllPrintable(ps) && forall i :: 0 <= i < |ps| ==> ps[i].id != -1
  }

  lemma {:induction false} ParsedPiecePrintable(s: Bytes, count: nat)
    requires count <= PIECE_SIZE
    ensures Sendable(ParsePiece(s, count).posts) && count + |ParsePiece(s, count).posts| <= PIECE_SIZE
    decreases |s|
  {
    hide ParsePost;
    hide Printable;
    if count < PIECE_SIZE && ParsePost(s).Good? {
      ParsedPiecePrintable(ParsePost(s).rest, count + 1);
    }
  }

  /** Whatever the stream holds, the parsed posts are printable and no piece is over-full. */
  lemma {:induction false} ParsedPrintable(s: Bytes, length: int, i: nat)
    requires i < length
    ensures Sendable(ParsePieces(s, length)[i]) && |ParsePieces(s, length)[i]| <= PIECE_SIZE
    decreases i
  {
    if i == 0 {
      ParsedPiecePrintable(s, 0);
    } else {
      ParsedPrintable(ParsePiece(s, 0).rest, length - 1, i - 1);
    }
  }

  ghost predicate Built(pieces: seq<Piece>, posts: seq<seq<Post>>)
    reads pieces
  {
    |pieces| == |posts|
    && forall i :: 0 <= i < |pieces| ==> pieces[i].posts == posts[i] && pieces[i].fed == Lines(posts[i], false)
  }

  /** Client.Pieces: read the stream into `length` pieces, whatever the stream holds. */
  method ReceivePieces(stream: Bytes, length: int) returns (ret: seq<Piece>)
    ensures Built(ret, ParsePieces(stream, length))
    ensures fresh(ret)
  {
    hide ParsePieces;
    hide ParsePiece;
    hide Lines;
    hide Line;
    var errReader := new ErrorReader(stream);
    ret := [];
    ghost var done: seq<seq<Post>> := [];
    ParsePiecesStep(stream, length, done);
    var i := 0;
    while i < length
      invariant 0 <= i && (length >= 0 ==> i <= length)
      invariant done + ParsePieces(errReader.rest, length - i) == ParsePieces(stream, length)
      invariant Built(ret, done)
      invariant fresh(ret) && fresh(errReader)
    {
      ParsePiecesStep(errReader.rest, length - i, done);
      var piece := new Piece(0);
      ReceivePiece(errReader, piece);
      ret := ret + [piece];
      done := done + [piece.posts];
      i := i + 1;
    }
    ParsePiecesStep(errReader.rest, length - i, done);
  }

  lemma ParsePiecesStep(s: Bytes, length: int, done: seq<seq<Post>>)
    ensures length <= 0 ==> done + ParsePieces(s, length) == done
    ensures length > 0 ==>
              var f := ParsePiece(s, 0);
              done + ParsePieces(s, length) == (done + [f.posts]) + ParsePieces(f.rest, length - 1)
    ensures [] + ParsePieces(s, length) == ParsePieces(s, length)
  {
    hide ParsePiece;
  }

  /** Field `k` of the post that starts at `s`. */
  method NextField(errReader: ErrorReader, ghost s: Bytes, ghost k: nat) returns (f: Bytes)
    requires k < 10 && errReader.rest == ReadFields(s, k).rest
    modifies errReader
    ensures errReader.rest == ReadFields(s, k + 1).rest && errReader.err == ReadFields(s, k + 1).err
    ensures f == ReadFields(s, k + 1).fields[k] == ReadFields(s, 10).fields[k]
  {
    ReadFieldsPrefix(s, k, 10);
    ghost var before := errReader.rest;
    f := errReader.ReadString(SEP);
    if errReader.err {
      ReadUntilNone(before, SEP);
    } else {
      ReadUntilField(f, errReader.rest, SEP);
    }
  }

  lemma {:induction false} ReadFieldsPrefix(s: Bytes, k: nat, n: nat)
    requires k < n
    ensures ReadFields(s, n).fields[k] == ReadFields(s, k + 1).fields[k]
  {
    if k + 1 < n {
      ReadFieldsPrefix(s, k, n - 1);
    }
  }

  /** The body of the inner loop: one post, the sentinel, or the end of the stream. */
  method ReceivePost(errReader: ErrorReader) returns (r: Parse)
    modifies errReader
    ensures r == ParsePost(old(errReader.rest))
    ensures errReader.rest == if r.Broken? then [] else r.rest
  {
    ghost var s := errReader.rest;
    assert s == ReadFields(s, 0).rest;
    hide ReadFields;
    hide Convert;
    hide AllSepFree;
    hide Printable;
    var idField := NextField(errReader, s, 0);
    var id := Convert(idField);
    if id == -1 {
      return Sentinel(errReader.rest);
    }
    var infoHash := NextField(errReader, s, 1);
    var title := NextField(errReader, s, 2);
    var size := NextField(errReader, s, 3);
    var fileCount := NextField(errReader, s, 4);
    var seeders := NextField(errReader, s, 5);
    var leechers := NextField(errReader, s, 6);
    var uploadDate := NextField(errReader, s, 7);
    var tags := NextField(errReader, s, 8);
    var meta := NextField(errReader, s, 9);
    if errReader.err {
      return Broken;
    }
    return Good(Post(id, infoHash, title, Convert(size), Convert(fileCount), Convert(seeders), Convert(leechers),
                     Convert(uploadDate), tags, meta), errReader.rest);
  }

  function Prepend(done: seq<Post>, f: Framed): Framed {
    Framed(done + f.posts, f.rest)
  }

  lemma ParsePieceStep(s: Bytes, count: nat, done: seq<Post>)
    ensures Prepend([], ParsePiece(s, count)) == ParsePiece(s, count)
    ensures count >= PIECE_SIZE ==> Prepend(done, ParsePiece(s, count)) == Framed(done, s)
    ensures count < PIECE_SIZE ==>
              Prepend(done, ParsePiece(s, count)) ==
              match ParsePost(s)
              case Sentinel(rest) => Framed(done, rest)
              case Broken => Framed(done, [])
              case Good(p, rest) => Prepend(done + [p], ParsePiece(rest, count + 1))
  {
    hide ParsePost;
  }

  /** What the rest of the loop will make of the piece and the stream. */
  ghost function Outcome(errReader: ErrorReader, piece: Piece): Framed
    reads errReader, piece
  {
    Prepend(piece.posts, ParsePiece(errReader.rest, |piece.posts|))
  }

  /** One round of the inner loop: add the next post, or stop at the sentinel or the end of the stream. */
  method ReceiveNext(errReader: ErrorReader, piece: Piece) returns (stop: bool)
    requires |piece.posts| < PIECE_SIZE && piece.fed == Lines(piece.posts, false)
    modifies errReader, piece
    ensures piece.fed == Lines(piece.posts, false)
    ensures stop ==> Framed(piece.posts, errReader.rest) == old(Outcome(errReader, piece))
    ensures !stop ==> Outcome(errReader, piece) == old(Outcome(errReader, piece))
    ensures !stop ==> |piece.posts| == |old(piece.posts)| + 1 && |errReader.rest| < |old(errReader.rest)|
  {
    hide ParsePiece;
    hide ParsePost;
    hide Printable;
    hide Prepend;
    hide Lines;
    hide Line;
    ParsePieceStep(errReader.rest, |piece.posts|, piece.posts);
    var r := ReceivePost(errReader);
    if !r.Good? {
      return true;
    }
    LinesSnoc(piece.posts, r.post, false);
    var _ := piece.Add(r.post, true);
    stop := false;
  }

  /** The inner loop: fill one piece until it is full, the sentinel is read or the stream breaks. */
  method ReceivePiece(errReader: ErrorReader, piece: Piece)
    requires piece.posts == [] && piece.fed == []
    modifies errReader, piece
    ensures Framed(piece.posts, errReader.rest) == ParsePiece(old(errReader.rest), 0)
    ensures piece.fed == Lines(piece.posts, false)
  {
    LinesEmpty(piece.posts, false);
    ParsePieceStep(errReader.rest, 0, piece.posts);
    hide ParsePiece;
    hide ParsePost;
    hide Prepend;
    hide Lines;
    var count := 0;
    while true
      invariant count == |piece.posts| <= PIECE_SIZE
      invariant piece.fed == Lines(piece.posts, false)
      invariant Outcome(errReader, piece) == ParsePiece(old(errReader.rest), 0)
      decreases |errReader.rest|
    {
      if count >= PIECE_SIZE {
        ParsePieceStep(errReader.rest, count, piece.posts);
        break;
      }
      var stop := ReceiveNext(errReader, piece);
      if stop {
        break;
      }
      count := count + 1;
    }
  }

  // ----- cutting a table into pieces

  /** Ceiling division by the piece size, as both sides compute it. */
  function PieceCount(n: nat): nat {
    (n + 999) / 1000
  }

  function Min(a: int, b: int): int {
    if a < b then a else b
  }

  /** The `i`-th piece of a table, empty past its end. */
  function Chunk(ps: seq<Post>, i: nat): seq<Post> {
    if 1000 * i >= |ps| then [] else ps[1000 * i..Min(1000 * i + 1000, |ps|)]
  }

  function Chunks(ps: seq<Post>): seq<seq<Post>> {
    seq(PieceCount(|ps|), i requires 0 <= i => Chunk(ps, i))
  }

  /** What a seed prints for posts `ps`: every post, then the sentinel. */
  function Stream(ps: seq<Post>): Bytes {
    Lines(ps, true) + Line(SENTINEL, true)
  }

  lemma ReadFieldsNext(s: Bytes, fs: seq<Bytes>, k: nat, f: Bytes, rest: Bytes)
    requires ReadFields(s, k) == Fieldwise(fs, f + [SEP] + rest, false) && SepFree(f)
    ensures ReadFields(s, k + 1) == Fieldwise(fs + [f], rest, false)
  {
    ReadUntilField(f, rest, SEP);
    hide ReadUntil;
  }

  lemma {:induction false} ReadFieldsJoin(fs: seq<Bytes>, t: Bytes, k: nat)
    requires AllSepFree(fs) && k <= |fs|
    ensures ReadFields(Join(fs, [SEP]) + t, k) == Fieldwise(fs[..k], Join(fs[k..], [SEP]) + t, false)
  {
    hide ReadFields;
    if k == 0 {
      assert fs[0..] == fs;
      ReadFieldsNone(Join(fs, [SEP]) + t);
    } else {
      ReadFieldsJoin(fs, t, k - 1);
      var f, rest := fs[k - 1], Join(fs[k..], [SEP]) + t;
      assert fs[k - 1..][1..] == fs[k..];
      assert Join(fs[k - 1..], [SEP]) + t == f + [SEP] + rest;
      ReadFieldsNext(Join(fs, [SEP]) + t, fs[..k - 1], k - 1, f, rest);
      assert fs[..k - 1] + [f] == fs[..k];
    }
  }

  lemma ReadFieldsNone(s: Bytes)
    ensures ReadFields(s, 0) == Fieldwise([], s, false)
  {
  }

  lemma FieldsSepFree(p: Post, seedLeech: bool)
    requires PlainText(p)
    ensures AllSepFree(Fields(p, seedLeech))
  {
    ItoaSepFree(p.id);
    ItoaSepFree(p.size);
    ItoaSepFree(p.fileCount);
    ItoaSepFree(p.seeders);
    ItoaSepFree(p.leechers);
    ItoaSepFree(p.uploadDate);
  }

  lemma ConvertItoa(n: int)
    requires InRange(n)
    ensures Convert(Itoa(n)) == n
  {
    AtoiItoa(n);
  }

  lemma ParseGoodLine(p: Post, t: Bytes)
    requires Printable(p) && p.id != -1
    ensures ParsePost(Line(p, true) + t) == Good(p, t)
  {
    var fs := Fields(p, true);
    FieldsSepFree(p, true);
    ReadFieldsJoin(fs, t, 1);
    ReadFieldsJoin(fs, t, 10);
    assert fs[..10] == fs && Join(fs[10..], [SEP]) + t == t;
    ConvertItoa(p.id);
    ConvertItoa(p.size);
    ConvertItoa(p.fileCount);
    ConvertItoa(p.seeders);
    ConvertItoa(p.leechers);
    ConvertItoa(p.uploadDate);
  }

  /** A written post is read back with all ten fields intact exactly when its text holds no separator, its integers
      are 64-bit values and its id is not the sentinel's. */
  lemma ParseLine(p: Post, t: Bytes)
    ensures ParsePost(Line(p, true) + t) == Good(p, t) <==> Printable(p) && p.id != -1
  {
    hide ParsePost;
    hide Line;
    hide Printable;
    if Printable(p) && p.id != -1 {
      ParseGoodLine(p, t);
    }
  }

  lemma ParseSentinel(t: Bytes)
    ensures ParsePost(Line(SENTINEL, true) + t).Sentinel?
  {
    FieldsSepFree(SENTINEL, true);
    ReadFieldsJoin(Fields(SENTINEL, true), t, 1);
    ConvertItoa(-1);
  }

  // ----- streams that are not what a seed prints

  /** Ten fields are a post, whatever they hold, unless the first reads as the sentinel's id. */
  lemma ParseWhole(fs: seq<Bytes>, rest: Bytes)
    requires |fs| == 10 && AllSepFree(fs)
    ensures ParsePost(Join(fs, [SEP]) + rest) ==
            if Convert(fs[0]) == -1 then Sentinel(Join(fs[1..], [SEP]) + rest) else Good(FromFields(fs), rest)
  {
    hide ReadFields;
    hide Join;
    hide Convert;
    hide AllSepFree;
    ReadFieldsJoin(fs, rest, 1);
    ReadFieldsJoin(fs, rest, 10);
    assert fs[..10] == fs && fs[..1][0] == fs[0] && fs[10..] == [];
    assert Join([], [SEP]) + rest == rest by { JoinNone(rest); }
  }

  lemma JoinNone(rest: Bytes)
    ensures Join([], [SEP]) + rest == rest
  {
  }

  lemma {:induction false} ReadFieldsDry(s: Bytes, k: nat, n: nat)
    requires k < n && SepFree(ReadFields(s, k).rest)
    ensures ReadFields(s, n).err && ReadFields(s, n).rest == []
    ensures n == k + 1 ==> ReadFields(s, n).fields == ReadFields(s, k).fields + [[]]
    decreases n
  {
    if k + 1 < n {
      ReadFieldsDry(s, k, n - 1);
      ReadUntilNone(ReadFields(s, n - 1).rest, SEP);
    } else {
      ReadUntilNone(ReadFields(s, k).rest, SEP);
    }
  }

  /** Fewer are none, however far the last one got. */
  lemma ParseShort(fs: seq<Bytes>, tail: Bytes)
    requires |fs| < 10 && AllSepFree(fs) && SepFree(tail)
    ensures ParsePost(Join(fs, [SEP]) + tail) ==
            if fs != [] && Convert(fs[0]) == -1 then Sentinel(Join(fs[1..], [SEP]) + tail) else Broken
  {
    hide ReadFields;
    hide Join;
    hide AllSepFree;
    var s := Join(fs, [SEP]) + tail;
    ReadFieldsJoin(fs, tail, |fs|);
    assert fs[|fs|..] == [];
    JoinNone(tail);
    ReadFieldsDry(s, |fs|, 10);
    if fs == [] {
      ReadFieldsDry(s, 0, 1);
      assert Convert([]) == 0;
    } else {
      ReadFieldsJoin(fs, tail, 1);
      assert fs[..1][0] == fs[0];
    }
  }

  lemma {:induction false} JoinCut(fs: seq<Bytes>, n: nat) returns (k: nat, m: nat)
    requires n < |Join(fs, [SEP])|
    ensures k < |fs| && m <= |fs[k]| && Join(fs, [SEP])[..n] == Join(fs[..k], [SEP]) + fs[k][..m]
  {
    var f, rest := fs[0], Join(fs[1..], [SEP]);
    if n <= |f| {
      k, m := 0, n;
      assert fs[..0] == [] && Join(fs, [SEP])[..n] == f[..n];
    } else {
      var k', m' := JoinCut(fs[1..], n - |f| - 1);
      k, m := k' + 1, m';
      assert fs[..k][1..] == fs[1..][..k'] && fs[..k][0] == f;
      assert Join(fs, [SEP])[..n] == f + [SEP] + rest[..n - |f| - 1];
    }
  }

  lemma CutLine(p: Post, n: nat)
    requires Printable(p) && p.id != -1 && n < |Line(p, true)|
    ensures ParsePost(Line(p, true)[..n]) == Broken
  {
    hide ParsePost;
    hide Join;
    hide Convert;
    var fs := Fields(p, true);
    FieldsSepFree(p, true);
    var k, m := JoinCut(fs, n);
    assert SepFree(fs[k][..m]);
    ParseShort(fs[..k], fs[k][..m]);
    ConvertItoa(p.id);
  }

  /** A stream that ends in the middle of a post yields exactly the posts before it, cut into the table's pieces, and
      nothing of the unfinished one. */
  lemma {:induction false} CutStream(ps: seq<Post>, p: Post, n: nat)
    requires Sendable(ps) && Printable(p) && p.id != -1 && n < |Line(p, true)|
    ensures ParsePieces(Lines(ps, true) + Line(p, true)[..n], PieceCount(|ps|)) == Chunks(ps)
    ensures ParsePiece(Line(p, true)[..n], 0) == Framed([], [])
  {
    hide ParsePost;
    hide Line;
    hide Lines;
    hide Printable;
    hide Chunk;
    var tail := Line(p, true)[..n];
    CutLine(p, n);
    if |ps| > PIECE_SIZE {
      var head, more := ps[..PIECE_SIZE], ps[PIECE_SIZE..];
      assert ps == head + more;
      LinesConcat(head, more, true);
      assert Lines(ps, true) + tail == Lines(head, true) + (Lines(more, true) + tail);
      ParseLines(head, Lines(more, true) + tail, 0);
      assert ParsePiece(Lines(ps, true) + tail, 0) == Framed(head, Lines(more, true) + tail);
      CutStream(more, p, n);
      assert PieceCount(|ps|) - 1 == PieceCount(|more|);
      ChunksStep(ps);
    } else if ps != [] {
      ParseLines(ps, tail, 0);
      assert ParsePiece(Lines(ps, true) + tail, 0).posts == ps;
      assert ParsePieces(ParsePiece(Lines(ps, true) + tail, 0).rest, 0) == [];
      ChunksSmall(ps);
    }
  }

  lemma ParsePieceLine(p: Post, rest: Bytes, count: nat)
    requires Printable(p) && p.id != -1 && count < PIECE_SIZE
    ensures var f := ParsePiece(rest, count + 1);
            ParsePiece(Line(p, true) + rest, count) == Framed([p] + f.posts, f.rest)
  {
    hide ParsePost;
    hide Line;
    ParseGoodLine(p, rest);
  }

  lemma {:induction false} ParseLines(ps: seq<Post>, t: Bytes, count: nat)
    requires Sendable(ps) && count + |ps| <= PIECE_SIZE
    ensures var f := ParsePiece(t, count + |ps|);
            ParsePiece(Lines(ps, true) + t, count) == Framed(ps + f.posts, f.rest)
  {
    hide ParsePiece;
    hide Lines;
    hide Line;
    hide Printable;
    if ps == [] {
      LinesEmpty(ps, true);
      assert Lines(ps, true) + t == t;
    } else {
      var rest := Lines(ps[1..], true) + t;
      LinesCons(ps, true);
      assert Lines(ps, true) + t == Line(ps[0], true) + rest;
      ParsePieceLine(ps[0], rest, count);
      ParseLines(ps[1..], t, count + 1);
      var f := ParsePiece(t, count + |ps|);
      assert [ps[0]] + (ps[1..] + f.posts) == ps + f.posts;
    }
  }

  lemma ChunkShift(ps: seq<Post>, i: nat)
    requires |ps| > PIECE_SIZE
    ensures Chunk(ps, i + 1) == Chunk(ps[PIECE_SIZE..], i)
  {
    var tail := ps[PIECE_SIZE..];
    if 1000 * i < |tail| {
      var to := Min(1000 * i + 1000, |tail|);
      assert Min(1000 * (i + 1) + 1000, |ps|) == to + 1000;
      assert tail[1000 * i..to] == ps[1000 * i + 1000..to + 1000];
    }
  }

  lemma ChunksStep(ps: seq<Post>)
    requires |ps| > PIECE_SIZE
    ensures Chunks(ps) == [ps[..PIECE_SIZE]] + Chunks(ps[PIECE_SIZE..])
  {
    var tail := ps[PIECE_SIZE..];
    assert PieceCount(|ps|) == 1 + PieceCount(|tail|);
    assert Chunk(ps, 0) == ps[..PIECE_SIZE];
    hide Chunk;
    var r := [ps[..PIECE_SIZE]] + Chunks(tail);
    forall i | 0 <= i < |r|
      ensures Chunks(ps)[i] == r[i]
    {
      if i > 0 {
        ChunkShift(ps, i - 1);
      }
    }
  }

  lemma ChunksSmall(ps: seq<Post>)
    requires 0 < |ps| <= PIECE_SIZE
    ensures PieceCount(|ps|) == 1 && Chunks(ps) == [ps]
  {
    assert Chunk(ps, 0) == ps;
  }

  lemma {:induction false} ParseStream(ps: seq<Post>)
    requires Sendable(ps)
    ensures ParsePieces(Stream(ps), PieceCount(|ps|)) == Chunks(ps)
  {
    hide ParsePost;
    hide Line;
    hide Lines;
    hide Printable;
    hide Chunk;
    if |ps| > PIECE_SIZE {
      var head, tail := ps[..PIECE_SIZE], ps[PIECE_SIZE..];
      assert ps == head + tail;
      LinesConcat(head, tail, true);
      assert Stream(ps) == Lines(head, true) + Stream(tail);
      ParseLines(head, Stream(tail), 0);
      assert ParsePiece(Stream(ps), 0) == Framed(head, Stream(tail));
      ParseStream(tail);
      assert PieceCount(|ps|) - 1 == PieceCount(|tail|);
      ChunksStep(ps);
    } else if ps != [] {
      ParseLines(ps, Line(SENTINEL, true), 0);
      ParseSentinel([]);
      assert Line(SENTINEL, true) + [] == Line(SENTINEL, true);
      assert ParsePiece(Stream(ps), 0).posts == ps;
      assert ParsePieces(ParsePiece(Stream(ps), 0).rest, 0) == [];
      ChunksSmall(ps);
    }
  }

  lemma ChunkAt(ps: seq<Post>, i: nat)
    requires i < |ps|
    ensures i / 1000 < PieceCount(|ps|) && i % 1000 < |Chunk(ps, i / 1000)|
    ensures Chunks(ps)[i / 1000] == Chunk(ps, i / 1000) && Chunk(ps, i / 1000)[i % 1000] == ps[i]
  {
  }

  /** A table's stream is cut into exactly the pieces of the table, with nothing lost, repeated or taken from the
      sentinel, if and only if every post can be read back. */
  lemma StreamSurvives(ps: seq<Post>)
    ensures ParsePieces(Stream(ps), PieceCount(|ps|)) == Chunks(ps) <==> Sendable(ps)
  {
    hide ParsePieces;
    hide Stream;
    hide Printable;
    hide Chunks;
    hide Chunk;
    if Sendable(ps) {
      ParseStream(ps);
    } else if ParsePieces(Stream(ps), PieceCount(|ps|)) == Chunks(ps) {
      forall i | 0 <= i < |ps|
        ensures Printable(ps[i]) && ps[i].id != -1
      {
        ChunkAt(ps, i);
        ParsedPrintable(Stream(ps), PieceCount(|ps|), i / 1000);
      }
    }
  }

  // ----- hashing identifies a piece

  /** Equality in every field except the two counts that peers may change. */
  predicate SameButCounts(p: Post, q: Post) {
    p == q.(seeders := p.seeders, leechers := p.leechers)
  }

  predicate AllSameButCounts(ps: seq<Post>, qs: seq<Post>) {
    |ps| == |qs| && forall i :: 0 <= i < |ps| ==> SameButCounts(ps[i], qs[i])
  }

  function AllFields(ps: seq<Post>): seq<Bytes> {
    if ps == [] then [] else Fields(ps[0], false) + AllFields(ps[1..])
  }

  lemma {:induction false} AllFieldsJoin(ps: seq<Post>)
    requires AllPlainText(ps)
    ensures Join(AllFields(ps), [SEP]) == Lines(ps, false)
    ensures AllSepFree(AllFields(ps)) && |AllFields(ps)| == 8 * |ps|
  {
    if ps != [] {
      FieldsSepFree(ps[0], false);
      AllFieldsJoin(ps[1..]);
      JoinConcat(Fields(ps[0], false), AllFields(ps[1..]), [SEP]);
    }
  }

  lemma FieldsInjective(p: Post, q: Post)
    requires Fields(p, false) == Fields(q, false)
    ensures SameButCounts(p, q)
  {
    var fs, gs := Fields(p, false), Fields(q, false);
    assert fs[0] == gs[0] && fs[1] == gs[1] && fs[2] == gs[2] && fs[3] == gs[3];
    assert fs[4] == gs[4] && fs[5] == gs[5] && fs[6] == gs[6] && fs[7] == gs[7];
    ItoaInjective(p.id, q.id);
    ItoaInjective(p.size, q.size);
    ItoaInjective(p.fileCount, q.fileCount);
    ItoaInjective(p.uploadDate, q.uploadDate);
  }

  lemma {:induction false} AllFieldsInjective(ps: seq<Post>, qs: seq<Post>)
    requires |ps| == |qs| && AllFields(ps) == AllFields(qs)
    ensures AllSameButCounts(ps, qs)
  {
    if ps != [] {
      var fs, gs := Fields(ps[0], false), Fields(qs[0], false);
      assert fs == AllFields(ps)[..8] && gs == AllFields(qs)[..8];
      assert AllFields(ps[1..]) == AllFields(ps)[8..] && AllFields(qs[1..]) == AllFields(qs)[8..];
      FieldsInjective(ps[0], qs[0]);
      AllFieldsInjective(ps[1..], qs[1..]);
    }
  }

  /** Two lists of posts with the same hash input agree in everything the hash is meant to protect. */
  lemma LinesInjective(ps: seq<Post>, qs: seq<Post>)
    requires AllPlainText(ps) && AllPlainText(qs)
    requires Lines(ps, false) == Lines(qs, false)
    ensures AllSameButCounts(ps, qs)
  {
    AllFieldsJoin(ps);
    AllFieldsJoin(qs);
    JoinInjective(AllFields(ps), AllFields(qs));
    AllFieldsInjective(ps, qs);
  }

  /** The condition is needed: a separator at the end of one text field can be moved to the start of the next without
      changing the hash input, whatever else the post holds. */
  lemma SeparatorAmbiguous(p: Post, a: Bytes, b: Bytes)
    ensures var q, r := p.(infoHash := a + [SEP], title := b), p.(infoHash := a, title := [SEP] + b);
            Line(q, false) == Line(r, false) && !SameButCounts(q, r)
  {
    var q, r := p.(infoHash := a + [SEP], title := b), p.(infoHash := a, title := [SEP] + b);
    var fs, gs := Fields(q, false), Fields(r, false);
    hide Itoa;
    hide Join;
    JoinThree(fs[0], fs[1], fs[2], fs[3..]);
    JoinThree(gs[0], gs[1], gs[2], gs[3..]);
    assert fs == [fs[0], fs[1], fs[2]] + fs[3..] && gs == [gs[0], gs[1], gs[2]] + gs[3..] && fs[3..] == gs[3..];
    assert |a + [SEP]| != |a|;
  }

  lemma JoinThree(a: Bytes, b: Bytes, c: Bytes, rest: seq<Bytes>)
    ensures Join([a, b, c] + rest, [SEP]) == (a + [SEP] + b + [SEP] + c + [SEP]) + Join(rest, [SEP])
  {
    JoinConcat([a, b, c], rest, [SEP]);
    assert [a, b, c][1..] == [b, c] && [b, c][1..] == [c] && [c][1..] == [];
    assert Join([c], [SEP]) == c + [SEP];
    assert Join([b, c], [SEP]) == b + [SEP] + (c + [SEP]);
  }

  lemma {:induction false} LinesIgnoreCounts(ps: seq<Post>, qs: seq<Post>)
    requires AllSameButCounts(ps, qs)
    ensures Lines(ps, false) == Lines(qs, false)
  {
    if ps != [] {
      assert SameButCounts(ps[0], qs[0]);
      assert Fields(ps[0], false) == Fields(qs[0], false);
      LinesIgnoreCounts(ps[1..], qs[1..]);
    }
  }
}
