/** Hash lists: building them, and checking a received one against a signed root. */
module Collections {
  import opened Text
  import opened Posts
  import opened Pieces
  import opened PostStore

  /** The hash of the `i`-th piece of a table. */
  function PieceHash(h: Hash, t: seq<Post>, i: nat): Digest {
    h(Lines(Chunk(t, i), false))
  }

  /** The first `k` piece hashes of a table, one after another. */
  function HashPrefix(h: Hash, t: seq<Post>, k: nat): (l: Bytes)
    ensures |l| == 32 * k
  {
    if k == 0 then [] else HashPrefix(h, t, k - 1) + PieceHash(h, t, k - 1)
  }

  /** The hash list a table should have. */
  function HashList(h: Hash, t: seq<Post>): Bytes {
    HashPrefix(h, t, PieceCount(|t|))
  }

  /** `copy` of a digest to position `at` of a list; bytes past the list's length are not part of it. */
  function Overlay(l: Bytes, at: nat, d: Digest): (r: Bytes)
    ensures |r| == |l|
  {
    seq(|l|, j requires 0 <= j < |l| => if at <= j < at + 32 then d[j - at] else l[j])
  }

  /** Collection.Add compares the byte length of the list with a piece number. */
  predicate Appends(l: Bytes, id: nat) {
    |l| < id + 1
  }

  function AddSlot(l: Bytes, id: nat, d: Digest): Bytes {
    if Appends(l, id) then l + d else Overlay(l, 32 * id, d)
  }

  /** Adding a slot appends it, replaces that slot and no other byte, or changes nothing past the list's end. */
  lemma AddSlotMeans(l: Bytes, id: nat, d: Digest)
    requires |l| % 32 == 0
    ensures var r := AddSlot(l, id, d);
            && (|l| <= id ==> r == l + d)
            && (id < |l| <= 32 * id ==> r == l)
            && (32 * id < |l| ==> r == l[..32 * id] + d + l[32 * id + 32..])
  {
    if 32 * id < |l| {
      assert 32 * id + 32 <= |l|;
    }
  }

  class Collection {
    var hashList: Bytes
    /** Capacity of the list beyond its length. */
    var spare: nat
    /** What the running root hash has been given. */
    var fed: Bytes

    constructor ()
      ensures hashList == [] && spare == 0 && fed == []
    {
      hashList, spare, fed := [], 0, [];
    }

    /** `room` is the capacity a growing append leaves over. A slot outside the capacity is a run-time panic,
        one between length and capacity is a write nobody reads. */
    method Add(h: Hash, piece: Piece, room: nat) returns (ok: bool)
      modifies this
      ensures ok <==> |old(hashList)| <= piece.id || 32 * piece.id + 32 <= |old(hashList)| + old(spare)
      ensures ok ==> hashList == AddSlot(old(hashList), piece.id, piece.Sum(h)) && fed == old(fed) + piece.Sum(h)
      ensures !ok ==> hashList == old(hashList) && fed == old(fed)
      ensures spare == if !old(Appends(hashList, piece.id)) then old(spare)
                       else if old(spare) >= 32 then old(spare) - 32 else room
    {
      if |hashList| < piece.id + 1 {
        spare := if spare >= 32 then spare - 32 else room;
        hashList := hashList + piece.Sum(h);
      } else {
        if 32 * piece.id + 32 > |hashList| + spare {
          return false;
        }
        hashList := Overlay(hashList, 32 * piece.id, piece.Sum(h));
      }
      fed := fed + piece.Sum(h);
      ok := true;
    }

    function Sum(h: Hash): Digest
      reads this
    {
      h(fed)
    }

    /** Restart the root hash from the list, slot by slot; an incomplete last slot is left out. */
    method Rehash()
      modifies this`fed
      ensures fed == hashList[..|hashList| / 32 * 32]
    {
      fed := [];
      for i := 0 to |hashList| / 32
        invariant fed == hashList[..32 * i]
      {
        fed := fed + hashList[32 * i..32 * i + 32];
      }
    }
  }

  /** CreateCollection over a whole table. The loop's own root always covers every piece; the list does so
      exactly when the table fits into one piece. */
  method CreateCollection(h: Hash, db: Database, rooms: nat -> nat) returns (col: Collection, ok: bool)
    requires ValidTable(db.posts)
    ensures fresh(col)
    ensures ok ==> col.fed == HashList(h, db.posts)
    ensures ok && col.hashList == HashList(h, db.posts) <==> |db.posts| <= PIECE_SIZE
  {
    hide Lines;
    hide Chunk;
    hide Select;
    hide Overlay;
    hide ValidTable;
    col := new Collection();
    ok := true;
    var pieceCount := PieceCount(db.PostCount());
    var i := 0;
    while i < pieceCount && ok
      invariant 0 <= i <= pieceCount && fresh(col)
      invariant ok ==> col.fed == HashPrefix(h, db.posts, i)
      invariant i <= 1 ==> ok && col.hashList == HashPrefix(h, db.posts, i)
      invariant i >= 2 ==> |col.hashList| <= 32 * i - 32
    {
      var piece := db.QueryPiece(i, false);
      SelectChunk(db.posts, i);
      assert piece.Sum(h) == PieceHash(h, db.posts, i);
      ok := col.Add(h, piece, rooms(i));
      i := i + 1;
    }
  }

  // ----- the hash list message

  /** `hashList` holds the bytes up to the slice's capacity, which is as far as Go lets `Verify` slice. */
  datatype MessageCollection = MessageCollection(hashList: Bytes, size: int)

  datatype Verdict = Accepted | Rejected | Panicked

  /** The bytes Verify hashes. */
  function Covered(m: MessageCollection): Bytes {
    if 0 <= 32 * m.size <= |m.hashList| then m.hashList[..32 * m.size] else []
  }

  function VerifySpec(h: Hash, m: MessageCollection, root: Bytes): Verdict {
    if 32 * m.size > |m.hashList| then Panicked
    else if h(Covered(m)) == root then Accepted
    else Rejected
  }

  /** MessageCollection.Verify: the digest is fed in 32-byte slices, and the result is that of hashing the prefix. */
  method Verify(h: Hash, m: MessageCollection, root: Bytes) returns (v: Verdict)
    ensures v == VerifySpec(h, m, root)
    ensures v == Panicked <==> |m.hashList| < 32 * m.size
    ensures v == Accepted <==>
              if m.size <= 0 then root == h([]) else 32 * m.size <= |m.hashList| && root == h(m.hashList[..32 * m.size])
  {
    var fed: Bytes := [];
    var i := 0;
    while i < m.size
      invariant 0 <= i && (i <= m.size || i == 0) && 32 * i <= |m.hashList|
      invariant fed == m.hashList[..32 * i]
    {
      if 32 * i + 32 > |m.hashList| {
        return Panicked;
      }
      fed := fed + m.hashList[32 * i..32 * i + 32];
      i := i + 1;
    }
    v := if h(fed) == root then Accepted else Rejected;
  }

  /** The reply HandleHashList builds. */
  function HashListReply(hashList: Bytes): MessageCollection {
    MessageCollection(hashList, |hashList| / 32)
  }

  /** Rehash, Hash and Verify agree on every list of whole slots. */
  lemma HonestListAccepted(h: Hash, l: Bytes)
    requires |l| % 32 == 0
    ensures VerifySpec(h, HashListReply(l), h(l[..|l| / 32 * 32])) == Accepted
    ensures Covered(HashListReply(l)) == l
  {
    assert l[..|l|] == l;
  }

  /** A message accepted for the root of `l` has as many slots as `l` and the same bytes in them, unless it
      exhibits a collision. */
  lemma AcceptedListGenuine(h: Hash, m: MessageCollection, l: Bytes)
    requires VerifySpec(h, m, h(l)) == Accepted
    requires !Collision(h, Covered(m), l)
    ensures Covered(m) == l
    ensures |l| == 32 * if m.size < 0 then 0 else m.size
  {
    assert Covered(m) == l;
  }

  lemma {:induction false} HashPrefixSlot(h: Hash, t: seq<Post>, k: nat, i: nat)
    requires i < k
    ensures HashPrefix(h, t, k)[32 * i..32 * i + 32] == PieceHash(h, t, i)
  {
    hide PieceHash;
    if i < k - 1 {
      HashPrefixSlot(h, t, k - 1, i);
      assert HashPrefix(h, t, k)[32 * i..32 * i + 32] == HashPrefix(h, t, k - 1)[32 * i..32 * i + 32];
    }
  }
}
