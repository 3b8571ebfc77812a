/** Signed entries: the text an owner signs, and the check every entry from the network goes through. */
module Entries {
  import opened Text
  import opened Addresses

  /** Signatures are symbolic: one is made with a key and speaks about one text. */
  datatype Signature = Signed(key: Bytes, text: Bytes) | Blank

  /** The columns of an entry other than its address. */
  datatype Info = Info(
    name: Bytes,
    desc: Bytes,
    publicAddress: Bytes,
    port: int,
    publicKey: Bytes,
    signature: Signature,
    collectionHash: Bytes,
    postCount: int,
    updated: nat,
    seen: int)

  datatype Entry = Entry(address: Address, info: Info, seeds: seq<Bytes>, seeding: seq<Bytes>)

  // ----- the signed text

  /** Go's conversion of an integer to a string: the UTF-8 form of that code point. */
  function Rune(n: int): Bytes {
    if n < 0 || n > 0x10FFFF || 0xD800 <= n < 0xE000 then [0xEF, 0xBF, 0xBD]
    else if n < 0x80 then [n]
    else if n < 0x800 then [0xC0 + n / 64, 0x80 + n % 64]
    else if n < 0x10000 then [0xE0 + n / 4096, 0x80 + n / 64 % 64, 0x80 + n % 64]
    else [0xF0 + n / 262144, 0x80 + n / 4096 % 64, 0x80 + n / 64 % 64, 0x80 + n % 64]
  }

  /** The code point a UTF-8 sequence of one to four bytes stands for. */
  function CodePoint(s: Bytes): int
    requires 1 <= |s| <= 4
  {
    var lead: int := s[0];
    if |s| == 1 then lead
    else if |s| == 2 then Continued(lead % 32, s[1..])
    else if |s| == 3 then Continued(lead % 16, s[1..])
    else Continued(lead % 8, s[1..])
  }

  /** Six more bits from every further byte. */
  function Continued(n: int, s: Bytes): int
    decreases s
  {
    if s == [] then n else Continued(64 * n + s[0] % 64, s[1..])
  }

  /** A rune is the encoding of its code point, or of the replacement character when there is none. */
  lemma RuneDecodes(n: int)
    ensures 1 <= |Rune(n)| <= 4
    ensures CodePoint(Rune(n)) == if 0 <= n < 0xD800 || 0xE000 <= n <= 0x10FFFF then n else 0xFFFD
  {
    hide CodePoint;
    if n < 0 || n > 0x10FFFF || 0xD800 <= n < 0xE000 {
      DecodeThree(0xF, 0x3F, 0x3D);
    } else if n < 0x80 {
      DecodeOne(n);
    } else if n < 0x800 {
      DecodeTwo(n / 64, n % 64);
    } else if n < 0x10000 {
      Base64(n);
      DecodeThree(n / 4096, n / 64 % 64, n % 64);
    } else {
      Base64(n);
      DecodeFour(n / 262144, n / 4096 % 64, n / 64 % 64, n % 64);
    }
  }

  lemma Quotients(n: nat)
    ensures n / 4096 == n / 64 / 64 && n / 262144 == n / 64 / 64 / 64
  {
  }

  lemma Base64(n: nat)
    ensures 4096 * (n / 4096) + 64 * (n / 64 % 64) + n % 64 == n
    ensures 262144 * (n / 262144) + 4096 * (n / 4096 % 64) + 64 * (n / 64 % 64) + n % 64 == n
  {
    Quotients(n);
    var a := n / 64;
    var b := a / 64;
    var c := b / 64;
    assert n == 64 * a + n % 64 && a == 64 * b + a % 64 && b == 64 * c + b % 64;
  }

  lemma DecodeOne(a: Byte)
    ensures CodePoint([a]) == a
  {
  }

  lemma Continuing(b: int)
    requires 0 <= b < 64
    ensures (0x80 + b) % 64 == b
  {
  }

  lemma DecodeTwo(a: int, b: int)
    requires 0 <= a < 32 && 0 <= b < 64
    ensures CodePoint([0xC0 + a, 0x80 + b]) == 64 * a + b
  {
    hide Continued;
    Continuing(b);
    ContinuedOne(a, 0x80 + b);
    assert [0xC0 + a, 0x80 + b][1..] == [0x80 + b];
  }

  lemma DecodeThree(a: int, b: int, c: int)
    requires 0 <= a < 16 && 0 <= b < 64 && 0 <= c < 64
    ensures CodePoint([0xE0 + a, 0x80 + b, 0x80 + c]) == 4096 * a + 64 * b + c
  {
    hide Continued;
    Continuing(b);
    Continuing(c);
    ContinuedTwo(a, 0x80 + b, 0x80 + c);
    assert [0xE0 + a, 0x80 + b, 0x80 + c][1..] == [0x80 + b, 0x80 + c];
  }

  lemma DecodeFour(a: int, b: int, c: int, d: int)
    requires 0 <= a < 8 && 0 <= b < 64 && 0 <= c < 64 && 0 <= d < 64
    ensures CodePoint([0xF0 + a, 0x80 + b, 0x80 + c, 0x80 + d]) == 262144 * a + 4096 * b + 64 * c + d
  {
    hide Continued;
    Continuing(b);
    Continuing(c);
    Continuing(d);
    ContinuedThree(a, 0x80 + b, 0x80 + c, 0x80 + d);
    assert [0xF0 + a, 0x80 + b, 0x80 + c, 0x80 + d][1..] == [0x80 + b, 0x80 + c, 0x80 + d];
  }

  lemma ContinuedOne(n: int, a: Byte)
    ensures Continued(n, [a]) == 64 * n + a % 64
  {
    assert [a][1..] == [];
  }

  lemma ContinuedTwo(n: int, a: Byte, b: Byte)
    ensures Continued(n, [a, b]) == 64 * (64 * n + a % 64) + b % 64
  {
    assert [a, b][1..] == [b];
    ContinuedOne(64 * n + a % 64, b);
  }

  lemma ContinuedThree(n: int, a: Byte, b: Byte, c: Byte)
    ensures Continued(n, [a, b, c]) == 64 * (64 * (64 * n + a % 64) + b % 64) + c % 64
  {
    assert [a, b, c][1..] == [b, c];
    ContinuedTwo(64 * n + a % 64, b, c);
  }

  /** The 64-bit `int` an unsigned number turns into. */
  function AsInt(n: nat): (r: int)
    ensures InRange(r) && (n - r) % 0x1_0000_0000_0000_0000 == 0
  {
    if n % 0x1_0000_0000_0000_0000 > MAX_INT then n % 0x1_0000_0000_0000_0000 - 0x1_0000_0000_0000_0000
    else n % 0x1_0000_0000_0000_0000
  }

  function Concat(parts: seq<Bytes>): Bytes {
    if parts == [] then [] else parts[0] + Concat(parts[1..])
  }

  function Preamble(e: Entry): Bytes {
    e.address + e.info.name + e.info.desc + e.info.publicAddress + e.info.publicKey + Rune(e.info.port)
    + Itoa(e.info.postCount)
  }

  /** Entry.String: the fields one after another with nothing between them. Seeds are not signed. */
  function SignedText(e: Entry): Bytes {
    Preamble(e) + Itoa(AsInt(e.info.updated)) + e.info.collectionHash + Concat(e.seeding)
  }

  // ----- verification

  /** An Ed25519 check, on keys of the right size. */
  predicate ValidSignature(key: Bytes, text: Bytes, s: Signature) {
    |key| == 32 && s == Signed(key, text)
  }

  /** Entry.Verify: bounded fields, and a signature under the key inside the entry. */
  predicate Verified(e: Entry) {
    && |e.info.name| <= 32 && |e.info.desc| <= 160 && |e.seeds| <= 100000
    && ValidSignature(e.info.publicKey, SignedText(e), e.info.signature)
    && 0 < |e.info.publicAddress| < 253 && e.info.port <= 65535
  }

  /** What comes back for an address query. */
  datatype QueryReply = NoReply | Unreadable | EntryReply(entry: Entry)

  /** Client.Query: an entry that verifies, or an error; never neither. */
  function ClientQuery(r: QueryReply): (e: Option<Entry>)
    ensures e.Some? ==> Verified(e.value)
  {
    if r.EntryReply? && Verified(r.entry) then Some(r.entry) else None
  }

  // ----- what a signature protects

  /** A signature is good for one key and one text: two entries that verify with it have both in common. */
  lemma OneSignatureOneText(a: Entry, b: Entry)
    requires Verified(a) && Verified(b) && a.info.signature == b.info.signature
    ensures a.info.publicKey == b.info.publicKey && SignedText(a) == SignedText(b)
  {
    hide SignedText;
  }

  /** The signed fields, one after another. */
  function SignedFields(e: Entry): (fs: seq<Bytes>)
    ensures |fs| == 10
  {
    [e.address, e.info.name, e.info.desc, e.info.publicAddress, e.info.publicKey, Rune(e.info.port),
     Itoa(e.info.postCount), Itoa(AsInt(e.info.updated)), e.info.collectionHash, Concat(e.seeding)]
  }

  lemma TextIsFields(e: Entry)
    ensures SignedText(e) == Concat(SignedFields(e))
  {
    hide Rune;
    hide Itoa;
    hide AsInt;
    var fs := SignedFields(e);
    ConcatSplit(fs, 5);
    ConcatFive(fs[..5]);
    ConcatFive(fs[5..]);
  }

  lemma ConcatFive(fs: seq<Bytes>)
    requires |fs| == 5
    ensures Concat(fs) == fs[0] + fs[1] + fs[2] + fs[3] + fs[4]
  {
    assert fs[1..][1..] == fs[2..] && fs[2..][1..] == fs[3..] && fs[3..][1..] == fs[4..] && fs[4..][1..] == [];
    assert Concat(fs[4..]) == fs[4];
    assert Concat(fs[3..]) == fs[3] + fs[4];
    assert Concat(fs[2..]) == fs[2] + (fs[3] + fs[4]);
    assert Concat(fs[1..]) == fs[1] + (fs[2] + (fs[3] + fs[4]));
  }

  lemma {:induction false} ConcatSplit(fs: seq<Bytes>, k: nat)
    requires k <= |fs|
    ensures Concat(fs) == Concat(fs[..k]) + Concat(fs[k..])
  {
    if k == 0 {
      assert fs[0..] == fs;
    } else {
      ConcatSplit(fs[1..], k - 1);
      assert fs[1..][..k - 1] == fs[..k][1..] && fs[1..][k - 1..] == fs[k..];
    }
  }

  /** With all other fields the same, no field can change without changing the text. */
  lemma FieldPinned(fs: seq<Bytes>, gs: seq<Bytes>, k: nat)
    requires k < |fs| == |gs| && Concat(fs) == Concat(gs)
    requires forall i :: 0 <= i < |fs| && i != k ==> fs[i] == gs[i]
    ensures fs[k] == gs[k]
  {
    ConcatSplit(fs, k);
    ConcatSplit(gs, k);
    assert fs[..k] == gs[..k] && fs[k..][1..] == gs[k..][1..];
    var x, y := Concat(fs[..k]), Concat(fs[k..][1..]);
    assert Concat(fs[k..]) == fs[k] + y && Concat(gs[k..]) == gs[k] + y;
    assert Concat(fs)[|x|..] == fs[k] + y && Concat(gs)[|x|..] == gs[k] + y;
    var s := fs[k] + y;
    assert |fs[k]| == |gs[k]|;
    assert fs[k] == s[..|fs[k]|] && gs[k] == s[..|gs[k]|];
  }

  /** A verified entry in which one signed field is changed is refused: its signature does not cover the result. */
  lemma ChangeRefused(e: Entry, a: Entry, k: nat)
    requires Verified(e) && a.info.signature == e.info.signature && k < 10
    requires forall i :: 0 <= i < 10 && i != k ==> SignedFields(a)[i] == SignedFields(e)[i]
    requires SignedFields(a)[k] != SignedFields(e)[k]
    ensures !Verified(a)
  {
    hide SignedFields;
    TextIsFields(a);
    TextIsFields(e);
    if Verified(a) {
      OneSignatureOneText(a, e);
      hide Verified;
      hide SignedText;
      FieldPinned(SignedFields(a), SignedFields(e), k);
    }
  }

  // ----- what a signature leaves open

  lemma {:induction false} ConcatCons(a: Bytes, parts: seq<Bytes>)
    ensures Concat([a] + parts) == a + Concat(parts)
  {
    assert ([a] + parts)[1..] == parts;
  }

  /** The text does not say where one field ends and the next begins: the last digit of the time can be read as the
      first byte of the root, whose own last byte then belongs to the seeding list. One signature covers both. */
  lemma SignatureLeavesRootOpen(e: Entry)
    requires Verified(e) && |e.info.collectionHash| == 32 && 10 <= e.info.updated <= MAX_INT
    requires e.info.collectionHash[0] != ZERO + e.info.updated % 10
    ensures var root := e.info.collectionHash;
            var shifted := [ZERO + e.info.updated % 10] + root[..31];
            var a := e.(info := e.info.(updated := e.info.updated / 10, collectionHash := shifted),
                        seeding := [root[31..]] + e.seeding);
            Verified(a) && SignedText(a) == SignedText(e) && |shifted| == 32 && shifted != root
  {
    hide Verified;
    hide Preamble;
    hide Itoa;
    hide AsInt;
    hide Concat;
    var root, u := e.info.collectionHash, e.info.updated;
    var d: Byte := ZERO + u % 10;
    var a := e.(info := e.info.(updated := u / 10, collectionHash := [d] + root[..31]),
                seeding := [root[31..]] + e.seeding);
    SamePreamble(e, a);
    LastDigit(u);
    ConcatCons(root[31..], e.seeding);
    assert root == root[..31] + root[31..];
    Regroup(Preamble(e), Itoa(AsInt(u / 10)), [d], root[..31], root[31..], Concat(e.seeding));
    SameVerdict(e, a);
    assert ([d] + root[..31])[0] != root[0];
  }

  lemma SamePreamble(e: Entry, a: Entry)
    requires a.address == e.address
    requires a.info == e.info.(updated := a.info.updated, collectionHash := a.info.collectionHash)
    ensures Preamble(a) == Preamble(e)
  {
  }

  lemma LastDigit(u: nat)
    requires 10 <= u <= MAX_INT
    ensures Itoa(AsInt(u)) == Itoa(AsInt(u / 10)) + [ZERO + u % 10]
  {
    assert AsInt(u) == u && AsInt(u / 10) == u / 10;
  }

  lemma Regroup(p: Bytes, i: Bytes, d: Bytes, r: Bytes, s: Bytes, c: Bytes)
    ensures p + (i + d) + (r + s) + c == p + i + (d + r) + (s + c)
  {
  }

  lemma SameVerdict(e: Entry, a: Entry)
    requires SignedText(a) == SignedText(e) && a.seeds == e.seeds
    requires a.info == e.info.(updated := a.info.updated, collectionHash := a.info.collectionHash)
    ensures Verified(a) <==> Verified(e)
  {
    hide SignedText;
  }

  predicate Window(text: Bytes, i: int, d: Bytes) {
    0 <= i && i + |d| <= |text| && text[i..i + |d|] == d
  }

  /** A byte that can stand in a printed number. */
  predicate Numeric(b: Byte) {
    IsDigit(b) || b == MINUS
  }

  predicate AllNumeric(s: Bytes) {
    forall i :: 0 <= i < |s| ==> Numeric(s[i])
  }

  /** A digest that cannot be taken for the end of the numbers before it. */
  predicate ClearRoot(d: Bytes) {
    |d| == 32 && !Numeric(d[0])
  }

  predicate KeyOnce(key: Bytes, text: Bytes) {
    forall i, j :: 0 <= i < j <= |text| ==> !(Window(text, i, key) && Window(text, j, key))
  }

  /** What a mirror can check of an answer, given the key it holds for the publisher. A root of another size than a
      digest's matches no list. */
  predicate Trusted(key: Bytes, a: Entry) {
    a.info.publicKey == key
    && (|a.info.collectionHash| == 32 ==> KeyOnce(key, SignedText(a)) && ClearRoot(a.info.collectionHash))
  }

  /** What a publisher has to keep to: before it has a root to sign, its entry lists nobody either. */
  predicate SignsClearly(key: Bytes, g: Entry) {
    g.info.publicKey == key
    && (ClearRoot(g.info.collectionHash) || (g.info.collectionHash == [] && g.seeding == []))
  }

  function Head(e: Entry): Bytes {
    e.address + e.info.name + e.info.desc + e.info.publicAddress
  }

  function Numbers(e: Entry): Bytes {
    Itoa(e.info.postCount) + Itoa(AsInt(e.info.updated))
  }

  function Tail(e: Entry): Bytes {
    e.info.collectionHash + Concat(e.seeding)
  }

  lemma TextParts(e: Entry)
    ensures SignedText(e) == Head(e) + e.info.publicKey + (Rune(e.info.port) + (Numbers(e) + Tail(e)))
  {
  }

  /** The first byte of a rune says how long it is. */
  lemma RunePrefixFree(m: int, n: int, x: Bytes, y: Bytes)
    requires Rune(m) + x == Rune(n) + y
    ensures Rune(m) == Rune(n) && x == y
  {
    var s := Rune(m) + x;
    assert s[0] == Rune(m)[0] == Rune(n)[0];
    assert |Rune(m)| == |Rune(n)|;
    assert Rune(m) == s[..|Rune(m)|] && x == s[|Rune(m)|..];
  }

  lemma NumbersNumeric(e: Entry)
    ensures AllNumeric(Numbers(e))
  {
    ItoaNumeric(e.info.postCount);
    ItoaNumeric(AsInt(e.info.updated));
  }

  lemma ItoaNumeric(n: int)
    ensures AllNumeric(Itoa(n))
  {
    var ds := Digits(if n < 0 then -n else n);
    assert forall i :: 0 <= i < |ds| ==> IsDigit(ds[i]);
  }

  /** Numbers end where the first byte that is not numeric stands. */
  lemma NumbersEnd(m: Bytes, r: Bytes, n: Bytes, s: Bytes)
    requires m + r == n + s && AllNumeric(m) && AllNumeric(n)
    requires r != [] && !Numeric(r[0]) && (s == [] || !Numeric(s[0]))
    ensures r == s
  {
    var t := m + r;
    assert t[|m|] == r[0] && (s != [] ==> t[|n|] == s[0]);
    assert r == t[|m|..] && s == t[|n|..];
  }

  lemma SplitAtKey(a: Entry, g: Entry)
    requires SignedText(a) == SignedText(g) && a.info.publicKey == g.info.publicKey
    requires KeyOnce(a.info.publicKey, SignedText(a))
    ensures Rune(a.info.port) + (Numbers(a) + Tail(a)) == Rune(g.info.port) + (Numbers(g) + Tail(g))
  {
    hide Head;
    hide Rune;
    hide Numbers;
    hide Tail;
    var key, text := a.info.publicKey, SignedText(a);
    TextParts(a);
    TextParts(g);
    hide SignedText;
    var x, y := Rune(a.info.port) + (Numbers(a) + Tail(a)), Rune(g.info.port) + (Numbers(g) + Tail(g));
    MiddleIsWindow(Head(a), key, x);
    MiddleIsWindow(Head(g), key, y);
    assert |Head(a)| == |Head(g)|;
    assert x == text[|Head(a)| + |key|..] && y == text[|Head(g)| + |key|..];
  }

  lemma MiddleIsWindow(x: Bytes, d: Bytes, y: Bytes)
    ensures Window(x + d + y, |x|, d)
  {
  }

  /** An answer that passes the check and has a text the publisher signed names the very root the publisher signed. */
  lemma RootPinned(key: Bytes, a: Entry, g: Entry)
    requires SignedText(a) == SignedText(g) && Trusted(key, a) && SignsClearly(key, g)
    requires |a.info.collectionHash| == 32
    ensures a.info.collectionHash == g.info.collectionHash
  {
    hide Rune;
    hide Numbers;
    hide AllNumeric;
    hide KeyOnce;
    SplitAtKey(a, g);
    hide SignedText;
    RunePrefixFree(a.info.port, g.info.port, Numbers(a) + Tail(a), Numbers(g) + Tail(g));
    NumbersNumeric(a);
    NumbersNumeric(g);
    NumbersEnd(Numbers(a), Tail(a), Numbers(g), Tail(g));
    assert a.info.collectionHash == Tail(a)[..32];
    assert ClearRoot(g.info.collectionHash) ==> g.info.collectionHash == Tail(g)[..32];
  }

  // ----- why each part of the check is needed

  /** An entry signed by the owner of the key in it. */
  function Resigned(e: Entry): Entry {
    e.(info := e.info.(signature := Signed(e.info.publicKey, SignedText(e))))
  }

  lemma ResignedVerified(e: Entry, g: Entry)
    requires Verified(e) && g == Resigned(e.(seeding := g.seeding))
    ensures Verified(g)
  {
    assert SignedText(g) == SignedText(e.(seeding := g.seeding));
  }

  /** The addresses an entry is seeding are bytes others choose. */
  predicate AddressSized(seeding: seq<Bytes>) {
    forall i :: 0 <= i < |seeding| ==> |seeding[i]| == 20
  }

  const PAD13: Bytes := [0, 0, 0, 0, 0, 0, 0, 0, 0, 0, 0, 0, 0]
  const PAD8: Bytes := [0, 0, 0, 0, 0, 0, 0, 0]

  lemma ConcatTwo(s: Bytes)
    requires |s| == 40
    ensures Concat([s[..20], s[20..]]) == s
  {
    ConcatCons(s[..20], [s[20..]]);
    ConcatOne(s[20..]);
    assert [s[..20]] + [s[20..]] == [s[..20], s[20..]];
  }

  lemma ConcatFour(s: Bytes)
    requires |s| == 80
    ensures Concat([s[..20], s[20..40], s[40..60], s[60..]]) == s
  {
    ConcatCons(s[..20], [s[20..40], s[40..60], s[60..]]);
    ConcatCons(s[20..40], [s[40..60], s[60..]]);
    ConcatCons(s[40..60], [s[60..]]);
    ConcatOne(s[60..]);
    assert [s[..20]] + [s[20..40], s[40..60], s[60..]] == [s[..20], s[20..40], s[40..60], s[60..]];
    assert [s[20..40]] + [s[40..60], s[60..]] == [s[20..40], s[40..60], s[60..]];
    assert [s[40..60]] + [s[60..]] == [s[40..60], s[60..]];
  }

  lemma ConcatOne(s: Bytes)
    ensures Concat([s]) == s
  {
    ConcatCons(s, []);
    assert [s] + [] == [s];
  }

  /** While an owner has no root to sign, any digest can stand where the text of two seeded addresses begins. */
  lemma DigestInSeeding(e: Entry, d: Bytes) returns (g: Entry, a: Entry)
    requires Verified(e) && e.info.collectionHash == [] && |d| == 32
    ensures g == Resigned(e.(seeding := g.seeding)) && Verified(g) && |g.seeding| == 2 && AddressSized(g.seeding)
    ensures a == g.(info := g.info.(collectionHash := d), seeding := a.seeding)
    ensures Verified(a) && SignedText(a) == SignedText(g)
  {
    hide Verified;
    hide Preamble;
    hide Itoa;
    hide AsInt;
    hide Concat;
    var s := d + PAD8;
    g := Resigned(e.(seeding := [s[..20], s[20..]]));
    a := g.(info := g.info.(collectionHash := d), seeding := [PAD8]);
    ResignedVerified(e, g);
    ConcatTwo(s);
    ConcatOne(PAD8);
    SamePreamble(g, a);
    SameVerdict(g, a);
  }

  /** When the seeded addresses spell the owner's key again, everything up to there can be read as the owner's public
      address, and any root, with any count, after it. */
  lemma KeyInSeeding(e: Entry, n: nat, d: Bytes) returns (g: Entry, a: Entry)
    requires Verified(e) && |SignedText(e)| <= 252 && n < 10 && |d| == 32
    ensures g == Resigned(e.(seeding := g.seeding)) && Verified(g) && |g.seeding| == 4 && AddressSized(g.seeding)
    ensures a.address == g.address && a.info.publicKey == g.info.publicKey
    ensures a.info.collectionHash == d && a.info.postCount == n
    ensures Verified(a) && SignedText(a) == SignedText(g) && !KeyOnce(a.info.publicKey, SignedText(a))
  {
    hide Verified;
    hide SignedText;
    hide AsInt;
    hide Concat;
    var key := e.info.publicKey;
    assert |key| == 32 by { KeySize(e); }
    var s := key + Rune(0) + Itoa(n) + Itoa(0) + d + PAD13;
    g := Resigned(e.(seeding := [s[..20], s[20..40], s[40..60], s[60..]]));
    a := Misread(g, n, d);
    ResignedVerified(e, g);
    ConcatFour(s);
    MisreadText(g, n, d);
    MisreadVerified(e, g, n, d);
    KeyTwice(g, n, d);
  }

  lemma KeyTwice(g: Entry, n: nat, d: Bytes)
    requires SignedText(Misread(g, n, d)) == SignedText(g) && |g.info.publicKey| == 32
    ensures !KeyOnce(g.info.publicKey, SignedText(g))
  {
    hide SignedText;
    hide Rune;
    hide Itoa;
    hide Tail;
    var a := Misread(g, n, d);
    TextParts(a);
    TextParts(g);
    MiddleIsWindow(Head(a), g.info.publicKey, Rune(a.info.port) + (Numbers(a) + Tail(a)));
    MiddleIsWindow(Head(g), g.info.publicKey, Rune(g.info.port) + (Numbers(g) + Tail(g)));
    assert |Head(g)| < |Head(a)|;
  }

  lemma KeySize(e: Entry)
    requires Verified(e)
    ensures |e.info.publicKey| == 32
  {
  }

  function Misread(g: Entry, n: nat, d: Bytes): Entry {
    g.(info := g.info.(publicAddress := g.info.publicAddress + g.info.publicKey + Rune(g.info.port) + Numbers(g)
                                        + g.info.collectionHash,
                       port := 0, postCount := n, updated := 0, collectionHash := d),
       seeding := [PAD13])
  }

  lemma MisreadText(g: Entry, n: nat, d: Bytes)
    requires Concat(g.seeding) == g.info.publicKey + Rune(0) + Itoa(n) + Itoa(0) + d + PAD13
    ensures SignedText(Misread(g, n, d)) == SignedText(g)
  {
    hide SignedText;
    hide Concat;
    hide Itoa;
    hide Rune;
    var a := Misread(g, n, d);
    TextParts(a);
    TextParts(g);
    ConcatOne(PAD13);
    assert AsInt(0) == 0;
    Reassociate(g.address + g.info.name + g.info.desc, g.info.publicAddress, g.info.publicKey, Rune(g.info.port),
                Numbers(g), g.info.collectionHash, Rune(0), Itoa(n), Itoa(0), d + PAD13);
    assert Tail(a) == d + PAD13;
    assert g.info.publicKey + Rune(0) + Itoa(n) + Itoa(0) + d + PAD13
        == g.info.publicKey + Rune(0) + Itoa(n) + Itoa(0) + (d + PAD13);
  }

  lemma Reassociate(x: Bytes, p: Bytes, k: Bytes, r: Bytes, n: Bytes, c: Bytes, r': Bytes, i: Bytes, j: Bytes, t: Bytes)
    ensures x + (p + k + r + n + c) + k + (r' + ((i + j) + t)) == x + p + k + (r + (n + (c + (k + r' + i + j + t))))
  {
  }

  lemma MisreadVerified(e: Entry, g: Entry, n: nat, d: Bytes)
    requires Verified(g) && g == Resigned(e.(seeding := g.seeding)) && |SignedText(e)| <= 252
    requires SignedText(Misread(g, n, d)) == SignedText(g)
    ensures Verified(Misread(g, n, d))
  {
    TextParts(e);
    hide SignedText;
    hide Rune;
    hide Itoa;
  }
}
