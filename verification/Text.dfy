/** Byte strings: Go's decimal conversions and delimiter-terminated fields. */
module Text {
  type Byte = b: int | 0 <= b < 256
  type Bytes = seq<Byte>

  const SEP: Byte := 124    // '|'
  const PLUS: Byte := 43    // '+'
  const MINUS: Byte := 45   // '-'
  const ZERO: Byte := 48    // '0'

  const MAX_INT := 0x7FFF_FFFF_FFFF_FFFF

  datatype Option<+T> = None | Some(value: T)

  /** The values of Go's 64-bit `int`. */
  predicate InRange(n: int) {
    -MAX_INT - 1 <= n <= MAX_INT
  }

  predicate SepFree(s: Bytes) {
    SEP !in s
  }

  predicate IsDigit(b: Byte) {
    ZERO <= b < ZERO + 10
  }

  predicate AllDigits(s: Bytes) {
    forall i :: 0 <= i < |s| ==> IsDigit(s[i])
  }

  // ----- strconv.Itoa and strconv.Atoi

  function Digits(n: nat): (s: Bytes)
    ensures s != [] && AllDigits(s)
  {
    if n < 10 then [ZERO + n] else Digits(n / 10) + [ZERO + n % 10]
  }

  function Itoa(n: int): Bytes {
    if n < 0 then [MINUS] + Digits(-n) else Digits(n)
  }

  /** The number a run of decimal digits denotes, or None at the first byte that is not a digit. */
  function Unsigned(s: Bytes): Option<nat> {
    if s == [] then Some(0)
    else
      var last := s[|s| - 1];
      match Unsigned(s[..|s| - 1])
      case None => None
      case Some(v) => if IsDigit(last) then Some(10 * v + (last - ZERO)) else None
  }

  /** None stands for both of Atoi's errors, bad syntax and out of range. */
  function Atoi(s: Bytes): (r: Option<int>)
    ensures r.Some? ==> InRange(r.value)
  {
    if s == [] then None
    else
      var body := if s[0] == PLUS || s[0] == MINUS then s[1..] else s;
      if body == [] then None
      else
        match Unsigned(body)
        case None => None
        case Some(v) =>
          var n := if s[0] == MINUS then 0 - v else v;
          if InRange(n) then Some(n) else None
  }

  lemma {:induction false} UnsignedDigits(n: nat)
    ensures Unsigned(Digits(n)) == Some(n)
  {
    if n >= 10 {
      UnsignedDigits(n / 10);
      assert Digits(n)[..|Digits(n)| - 1] == Digits(n / 10);
    } else {
      assert Digits(n)[..0] == [];
    }
  }

  /** Reading back a printed integer gives the integer, for every 64-bit value. */
  lemma AtoiItoa(n: int)
    requires InRange(n)
    ensures Atoi(Itoa(n)) == Some(n)
  {
    hide Digits;
    hide Unsigned;
    var ds := Digits(if n < 0 then -n else n);
    UnsignedDigits(if n < 0 then -n else n);
    assert IsDigit(ds[0]);
    if n < 0 {
      assert Itoa(n)[1..] == ds;
    }
  }

  lemma {:induction false} UnsignedSyntax(s: Bytes)
    ensures Unsigned(s).Some? <==> AllDigits(s)
  {
    if s != [] {
      var n := |s| - 1;
      UnsignedSyntax(s[..n]);
      assert s == s[..n] + [s[n]];
    }
  }

  /** Only an optional sign and a run of digits is read as a number. */
  lemma AtoiSyntax(s: Bytes)
    requires Atoi(s).Some?
    ensures AllDigits(s) || (AllDigits(s[1..]) && |s| > 1 && (s[0] == PLUS || s[0] == MINUS))
  {
    UnsignedSyntax(if s[0] == PLUS || s[0] == MINUS then s[1..] else s);
  }

  lemma ItoaInjective(m: int, n: int)
    requires Itoa(m) == Itoa(n)
    ensures m == n
  {
    var a, b := if m < 0 then -m else m, if n < 0 then -n else n;
    assert IsDigit(Digits(a)[0]) && IsDigit(Digits(b)[0]);
    assert m < 0 ==> Itoa(m)[1..] == Digits(a);
    assert n < 0 ==> Itoa(n)[1..] == Digits(b);
    UnsignedDigits(a);
    UnsignedDigits(b);
  }

  lemma ItoaSepFree(n: int)
    ensures SepFree(Itoa(n))
  {
    var ds := Digits(if n < 0 then -n else n);
    assert forall i :: 0 <= i < |ds| ==> IsDigit(ds[i]);
  }

  // ----- delimiter-terminated fields

  datatype Cut = Cut(field: Bytes, rest: Bytes, found: bool)

  /** What reading up to the next `delim` returns: the field without its delimiter and the unread rest.
      Without a delimiter the reader runs to the end of its input and the field is dropped. */
  function ReadUntil(s: Bytes, delim: Byte): (c: Cut)
    ensures delim !in c.field
    ensures if c.found then |c.rest| < |s| else c.field == [] && c.rest == []
  {
    if s == [] then Cut([], [], false)
    else if s[0] == delim then Cut([], s[1..], true)
    else
      var c := ReadUntil(s[1..], delim);
      if c.found then Cut([s[0]] + c.field, c.rest, true) else c
  }

  lemma {:induction false} ReadUntilNone(s: Bytes, delim: Byte)
    requires delim !in s
    ensures ReadUntil(s, delim) == Cut([], [], false)
  {
    if s != [] {
      ReadUntilNone(s[1..], delim);
    }
  }

  lemma {:induction false} ReadUntilField(f: Bytes, t: Bytes, delim: Byte)
    requires delim !in f
    ensures ReadUntil(f + [delim] + t, delim) == Cut(f, t, true)
  {
    var s := f + [delim] + t;
    if f == [] {
      assert s[1..] == t;
    } else {
      assert s[1..] == f[1..] + [delim] + t;
      ReadUntilField(f[1..], t, delim);
      assert [s[0]] + f[1..] == f;
    }
  }

  /** Every field followed by the separator. */
  function Join(fs: seq<Bytes>, sep: Bytes): Bytes {
    if fs == [] then [] else fs[0] + sep + Join(fs[1..], sep)
  }

  predicate AllSepFree(fs: seq<Bytes>) {
    forall i :: 0 <= i < |fs| ==> SepFree(fs[i])
  }

  lemma {:induction false} JoinConcat(fs: seq<Bytes>, gs: seq<Bytes>, sep: Bytes)
    ensures Join(fs + gs, sep) == Join(fs, sep) + Join(gs, sep)
  {
    if fs == [] {
      assert fs + gs == gs;
    } else {
      assert (fs + gs)[1..] == fs[1..] + gs;
      JoinConcat(fs[1..], gs, sep);
    }
  }

  /** Unique decodability: separator-free fields can be read off their joined form. */
  lemma {:induction false} JoinInjective(fs: seq<Bytes>, gs: seq<Bytes>)
    requires AllSepFree(fs) && AllSepFree(gs)
    requires Join(fs, [SEP]) == Join(gs, [SEP])
    ensures fs == gs
  {
    if fs == [] || gs == [] {
      return;
    }
    ReadUntilField(fs[0], Join(fs[1..], [SEP]), SEP);
    ReadUntilField(gs[0], Join(gs[1..], [SEP]), SEP);
    JoinInjective(fs[1..], gs[1..]);
    assert fs == [fs[0]] + fs[1..] && gs == [gs[0]] + gs[1..];
  }
}
