/** Posts and the two textual forms they are written in. */
module Posts {
  import opened Text

  datatype Post = Post(
    id: int,
    infoHash: Bytes,
    title: Bytes,
    size: int,
    fileCount: int,
    seeders: int,
    leechers: int,
    uploadDate: int,
    tags: Bytes,
    meta: Bytes)

  /** The post that ends a piece stream: Id -1 and Go's zero values elsewhere. */
  const SENTINEL := Post(-1, [], [], 0, 0, 0, 0, 0, [], [])

  /** An io.Writer that keeps what it is given. */
  class Writer {
    var written: Bytes

    constructor ()
      ensures written == []
    {
      written := [];
    }

    method Write(bs: Bytes)
      modifies this
      ensures written == old(written) + bs
    {
      written := written + bs;
    }
  }

  /** A post whose text holds no separator. */
  predicate PlainText(p: Post) {
    SepFree(p.infoHash) && SepFree(p.title) && SepFree(p.tags) && SepFree(p.meta)
  }

  predicate AllPlainText(ps: seq<Post>) {
    forall i :: 0 <= i < |ps| ==> PlainText(ps[i])
  }

  /** Such a post whose integers are 64-bit values. */
  predicate Printable(p: Post) {
    && InRange(p.id) && InRange(p.size) && InRange(p.fileCount)
    && InRange(p.seeders) && InRange(p.leechers) && InRange(p.uploadDate)
    && PlainText(p)
  }

  predicate AllPrintable(ps: seq<Post>) {
    forall i :: 0 <= i < |ps| ==> Printable(ps[i])
  }

  function Fields(p: Post, seedLeech: bool): (fs: seq<Bytes>)
    ensures |fs| == if seedLeech then 10 else 8
  {
    if seedLeech then
      [Itoa(p.id), p.infoHash, p.title, Itoa(p.size), Itoa(p.fileCount), Itoa(p.seeders), Itoa(p.leechers),
       Itoa(p.uploadDate), p.tags, p.meta]
    else
      [Itoa(p.id), p.infoHash, p.title, Itoa(p.size), Itoa(p.fileCount), Itoa(p.uploadDate), p.tags, p.meta]
  }

  /** Under the hash a post has the fields it has on the wire, in the same order, without the two counts. */
  lemma HashFormDropsCounts(p: Post)
    ensures Fields(p, false) == Fields(p, true)[..5] + Fields(p, true)[7..]
  {
    hide Itoa;
  }

  /** The form used on the wire (with seeders and leechers) and under the hash (without). */
  function Line(p: Post, seedLeech: bool): (s: Bytes) {
    Join(Fields(p, seedLeech), [SEP])
  }

  function Lines(ps: seq<Post>, seedLeech: bool): Bytes {
    if ps == [] then [] else Line(ps[0], seedLeech) + Lines(ps[1..], seedLeech)
  }

  /** Field `k` of `fs` and the separator after it. */
  method WriteField(f: Bytes, sep: Bytes, w: Writer, ghost start: Bytes, ghost fs: seq<Bytes>, ghost k: nat)
    requires k < |fs| && fs[k] == f && w.written == start + Join(fs[..k], sep)
    modifies w
    ensures w.written == start + Join(fs[..k + 1], sep)
  {
    w.Write(f);
    w.Write(sep);
    assert fs[..k + 1] == fs[..k] + [f];
    JoinConcat(fs[..k], [f], sep);
    assert Join([f], sep) == f + sep;
  }

  method WriteHead(p: Post, sep: Bytes, w: Writer, ghost start: Bytes, ghost fs: seq<Bytes>)
    requires |fs| >= 5 && fs[..5] == [Itoa(p.id), p.infoHash, p.title, Itoa(p.size), Itoa(p.fileCount)]
    requires w.written == start
    modifies w
    ensures w.written == start + Join(fs[..5], sep)
  {
    assert Join(fs[..0], sep) == [];
    hide Join;
    WriteField(Itoa(p.id), sep, w, start, fs, 0);
    WriteField(p.infoHash, sep, w, start, fs, 1);
    WriteField(p.title, sep, w, start, fs, 2);
    WriteField(Itoa(p.size), sep, w, start, fs, 3);
    WriteField(Itoa(p.fileCount), sep, w, start, fs, 4);
  }

  method WriteTail(p: Post, sep: Bytes, w: Writer, ghost start: Bytes, ghost fs: seq<Bytes>, ghost n: nat)
    requires |fs| == n + 3 && fs[n..] == [Itoa(p.uploadDate), p.tags, p.meta]
    requires w.written == start + Join(fs[..n], sep)
    modifies w
    ensures w.written == start + Join(fs, sep)
  {
    hide Join;
    assert fs[n..][0] == fs[n] && fs[n..][1] == fs[n + 1] && fs[n..][2] == fs[n + 2];
    WriteField(Itoa(p.uploadDate), sep, w, start, fs, n);
    WriteField(p.tags, sep, w, start, fs, n + 1);
    WriteField(p.meta, sep, w, start, fs, n + 2);
    assert fs[..n + 3] == fs;
  }

  /** Post.Write: the fields in order into `w`, the two counts only when asked for. */
  method Write(p: Post, sep: Bytes, term: Bytes, seedLeech: bool, w: Writer)
    modifies w
    ensures w.written == old(w.written) + Join(Fields(p, seedLeech), sep) + term
  {
    hide Join;
    hide Itoa;
    ghost var start, fs := w.written, Fields(p, seedLeech);
    WriteHead(p, sep, w, start, fs);
    if seedLeech {
      WriteField(Itoa(p.seeders), sep, w, start, fs, 5);
      WriteField(Itoa(p.leechers), sep, w, start, fs, 6);
    }
    WriteTail(p, sep, w, start, fs, if seedLeech then 7 else 5);
    w.Write(term);
  }
}
