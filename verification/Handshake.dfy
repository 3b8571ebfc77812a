/** The two-sided handshake, as steps of a connector and a listener over two FIFO channels. */
module Handshake {
  import opened Text
  import opened Entries

  type Key = Bytes
  type Caps = seq<Bytes>

  /** A cookie is read into twenty bytes, which stay zero when it does not decode. */
  type Nonce = c: Bytes | |c| == 20 witness [0, 0, 0, 0, 0, 0, 0, 0, 0, 0, 0, 0, 0, 0, 0, 0, 0, 0, 0, 0]

  const BLANK: Nonce := [0, 0, 0, 0, 0, 0, 0, 0, 0, 0, 0, 0, 0, 0, 0, 0, 0, 0, 0, 0]

  datatype Msg = Header(entry: Entry) | Ok | No | Cap(caps: Caps) | Cookie(cookie: Nonce) | Sig(signature: Signature)

  // ----- one side

  /** What a peer brings to a handshake: its entry and key, its capabilities and the random cookie it will issue. */
  datatype Config = Config(entry: Entry, key: Key, caps: Caps, cookie: Nonce)

  /** A peer whose entry is signed with its own key. */
  predicate Honest(p: Config) {
    Verified(p.entry) && p.entry.info.publicKey == p.key
  }

  datatype Role = Connector | Listener

  /** `pc` counts the messages handled. The rest is what was learnt of the other side. */
  datatype Side = Side(
    pc: nat,
    entry: Option<Entry>,
    caps: Option<Caps>,
    cookie: Nonce,
    proof: Option<Signature>,
    failed: bool)

  const START := Side(0, None, None, BLANK, None, false)

  datatype Kind = KHeader | KOk | KCap | KCookie | KSig

  datatype Act = Read(kind: Kind) | Write(kind: Kind) | Halt

  /** handshake_recieve, message by message. */
  const RECEIVE: seq<Act> :=
    [Read(KHeader), Write(KOk), Read(KCap), Write(KCookie), Read(KSig), Write(KOk)]

  /** handshake_send, message by message. */
  const SEND: seq<Act> :=
    [Write(KHeader), Read(KOk), Write(KCap), Read(KCookie), Write(KSig), Read(KOk)]

  /** The listener receives, says ok and sends; the connector sends, waits for that ok and receives. */
  function Program(role: Role): (p: seq<Act>)
    ensures |p| == 13
  {
    if role == Listener then RECEIVE + [Write(KOk)] + SEND else SEND + [Read(KOk)] + RECEIVE
  }

  function Now(role: Role, s: Side): Act {
    if s.failed || s.pc >= 13 then Halt else Program(role)[s.pc]
  }

  function Outgoing(p: Config, s: Side, k: Kind): Msg {
    match k
    case KHeader => Header(p.entry)
    case KOk => Ok
    case KCap => Cap(p.caps)
    case KCookie => Cookie(p.cookie)
    case KSig => Sig(Signed(p.key, s.cookie))
  }

  /** A refusal. While still sending, a connector drops the error and goes on to the next read. */
  function Refused(role: Role, s: Side): Side {
    if role == Connector && s.pc < 6 then s.(pc := 6) else s.(failed := true)
  }

  /** Handling a message at a point that expects kind `k`. Contents that do not decode are an error only for the
      entry; capabilities and cookie are then left at their zero values, and so is the signature. */
  function Incoming(role: Role, p: Config, s: Side, k: Kind, m: Msg): (r: Side)
    ensures r.failed || r.pc > s.pc
  {
    var next := s.(pc := s.pc + 1);
    match k
    case KHeader =>
      if m.Header? && Verified(m.entry) then next.(entry := Some(m.entry)) else Refused(role, s)
    case KOk =>
      if m.Ok? then next else Refused(role, s)
    case KCap =>
      next.(caps := Some(if m.Cap? then m.caps else []))
    case KCookie =>
      next.(cookie := if m.Cookie? then m.cookie else BLANK)
    case KSig =>
      var sig := if m.Sig? then m.signature else Blank;
      if s.entry.Some? && ValidSignature(s.entry.value.info.publicKey, p.cookie, sig) then next.(proof := Some(sig))
      else Refused(role, s)
  }

  // ----- against any peer

  /** A side that has finished holds a verified entry and a signature by that entry's key over its own cookie. */
  predicate Authenticated(p: Config, s: Side) {
    && s.entry.Some? && Verified(s.entry.value) && s.caps.Some?
    && s.proof.Some? && ValidSignature(s.entry.value.info.publicKey, p.cookie, s.proof.value)
  }

  /** What a side knows at each point of its receiving half, which starts at `base`. */
  predicate Learnt(role: Role, p: Config, s: Side) {
    var base := if role == Listener then 0 else 7;
    && (s.pc > base ==> s.entry.Some? && Verified(s.entry.value))
    && (s.pc > base + 2 ==> s.caps.Some?)
    && (s.pc > base + 4 ==> Authenticated(p, s))
  }

  function Left(s: Side): nat {
    if s.failed || s.pc >= 13 then 0 else 13 - s.pc
  }

  /** How far a side gets when its peer sends `input`, whatever that is. */
  function Against(role: Role, p: Config, s: Side, input: seq<Msg>): Side
    decreases Left(s)
  {
    match Now(role, s)
    case Halt => s
    case Write(_) => Against(role, p, s.(pc := s.pc + 1), input)
    case Read(k) => if input == [] then s else Against(role, p, Incoming(role, p, s, k, input[0]), input[1..])
  }

  lemma LearntAfterWrite(role: Role, p: Config, s: Side)
    requires Learnt(role, p, s) && Now(role, s).Write?
    ensures Learnt(role, p, s.(pc := s.pc + 1))
  {
    hide SignedText;
  }

  lemma LearntAfterRead(role: Role, p: Config, s: Side, m: Msg)
    requires Learnt(role, p, s) && Now(role, s).Read?
    ensures Learnt(role, p, Incoming(role, p, s, Now(role, s).kind, m))
  {
    hide SignedText;
  }

  /** Whatever a peer sends, a side that completes the handshake has authenticated it. */
  lemma {:induction false} AnyPeerAuthenticated(role: Role, p: Config, s: Side, input: seq<Msg>)
    requires Learnt(role, p, s)
    ensures var r := Against(role, p, s, input);
            Learnt(role, p, r) && (r.pc >= 13 ==> Authenticated(p, r))
    decreases Left(s)
  {
    hide SignedText;
    hide Learnt;
    hide Incoming;
    hide Authenticated;
    match Now(role, s)
    case Halt =>
      LearntDone(role, p, s);
    case Write(_) =>
      LearntAfterWrite(role, p, s);
      AnyPeerAuthenticated(role, p, s.(pc := s.pc + 1), input);
    case Read(k) =>
      if input == [] {
        LearntDone(role, p, s);
      } else {
        LearntAfterRead(role, p, s, input[0]);
        AnyPeerAuthenticated(role, p, Incoming(role, p, s, k, input[0]), input[1..]);
      }
  }

  lemma LearntDone(role: Role, p: Config, s: Side)
    requires Learnt(role, p, s)
    ensures s.pc >= 13 ==> Authenticated(p, s)
  {
    hide SignedText;
  }

  // ----- exactly which peers are let through

  /** A message that is the signature of an entry's key over a side's cookie. */
  predicate Proves(p: Config, e: Entry, m: Msg) {
    m.Sig? && |e.info.publicKey| == 32 && m.signature == Signed(e.info.publicKey, p.cookie)
  }

  predicate Introduces(m: Msg) {
    m.Header? && Verified(m.entry)
  }

  function CapsIn(m: Msg): Caps {
    if m.Cap? then m.caps else []
  }

  lemma ListenerAt8(p: Config, s: Side, input: seq<Msg>)
    requires s.pc == 8 && !s.failed
    ensures var r := Against(Listener, p, s, input);
            && (r.pc >= 13 <==> |input| >= 3 && input[0].Ok? && input[2].Ok?)
            && r.entry == s.entry && r.caps == s.caps
  {
    hide SignedText;
    hide Verified;
    if input != [] && input[0].Ok? {
      var s10, i1 := s.(pc := 10), input[1..];
      assert Against(Listener, p, s, input) == Against(Listener, p, s.(pc := 9), i1) == Against(Listener, p, s10, i1);
      if i1 != [] {
        var s11 := Incoming(Listener, p, s10, KCookie, i1[0]);
        var s12, i2 := s11.(pc := 12), i1[1..];
        assert Against(Listener, p, s10, i1) == Against(Listener, p, s11, i2) == Against(Listener, p, s12, i2);
        if i2 != [] {
          assert i2[0] == input[2];
          assert Against(Listener, p, s12, i2) == Incoming(Listener, p, s12, KOk, i2[0]);
        }
      }
    }
  }

  lemma ListenerAt4(p: Config, s: Side, input: seq<Msg>)
    requires s.pc == 4 && !s.failed && s.entry.Some?
    ensures var r := Against(Listener, p, s, input);
            && (r.pc >= 13 <==> |input| >= 4 && Proves(p, s.entry.value, input[0]) && input[1].Ok? && input[3].Ok?)
            && r.entry == s.entry && r.caps == s.caps
  {
    hide SignedText;
    hide Verified;
    if input != [] {
      var s5, i1 := Incoming(Listener, p, s, KSig, input[0]), input[1..];
      assert Against(Listener, p, s, input) == Against(Listener, p, s5, i1);
      if Proves(p, s.entry.value, input[0]) {
        var s8 := s5.(pc := 8);
        assert Against(Listener, p, s5, i1) == Against(Listener, p, s5.(pc := 6), i1);
        assert Against(Listener, p, s5.(pc := 6), i1) == Against(Listener, p, s5.(pc := 7), i1)
            == Against(Listener, p, s8, i1);
        hide Against;
        ListenerAt8(p, s8, i1);
      }
    }
  }

  /** A listener completes exactly for a peer that sends a verified entry, capabilities of any kind, its key's signature
      over the cookie, then Ok, anything and Ok; and it then holds that entry and those capabilities. */
  lemma ListenerExact(p: Config, input: seq<Msg>)
    ensures var r := Against(Listener, p, START, input);
            && (r.pc >= 13 <==> && |input| >= 6 && Introduces(input[0]) && Proves(p, input[0].entry, input[2])
                                && input[3].Ok? && input[5].Ok?)
            && (r.pc >= 13 ==> r.entry == Some(input[0].entry) && r.caps == Some(CapsIn(input[1])))
  {
    hide SignedText;
    hide Verified;
    if input != [] {
      var s1, i1 := Incoming(Listener, p, START, KHeader, input[0]), input[1..];
      assert Against(Listener, p, START, input) == Against(Listener, p, s1, i1);
      if Introduces(input[0]) {
        var s2 := s1.(pc := 2);
        assert Against(Listener, p, s1, i1) == Against(Listener, p, s2, i1);
        if i1 != [] {
          var s3, i2 := Incoming(Listener, p, s2, KCap, i1[0]), i1[1..];
          assert Against(Listener, p, s2, i1) == Against(Listener, p, s3, i2) == Against(Listener, p, s3.(pc := 4), i2);
          hide Against;
          ListenerAt4(p, s3.(pc := 4), i2);
          assert i2 == input[2..];
        }
      }
    }
  }

  /** What a connector needs from the ok before its receiving half on. */
  predicate Receives(p: Config, input: seq<Msg>) {
    |input| >= 4 && input[0].Ok? && Introduces(input[1]) && Proves(p, input[1].entry, input[3])
  }

  lemma ConnectorAt9(p: Config, s: Side, input: seq<Msg>)
    requires s.pc == 9 && !s.failed && s.entry.Some?
    ensures var r := Against(Connector, p, s, input);
            && (r.pc >= 13 <==> |input| >= 2 && Proves(p, s.entry.value, input[1]))
            && (r.pc >= 13 ==> r.entry == s.entry && r.caps == Some(CapsIn(input[0])))
  {
    hide SignedText;
    hide Verified;
    if input != [] {
      var s10, i1 := Incoming(Connector, p, s, KCap, input[0]), input[1..];
      var s11 := s10.(pc := 11);
      assert Against(Connector, p, s, input) == Against(Connector, p, s10, i1) == Against(Connector, p, s11, i1);
      if i1 != [] {
        var s12 := Incoming(Connector, p, s11, KSig, i1[0]);
        assert Against(Connector, p, s11, i1) == Against(Connector, p, s12, i1[1..]);
        if Proves(p, s.entry.value, i1[0]) {
          assert Against(Connector, p, s12, i1[1..]) == Against(Connector, p, s12.(pc := 13), i1[1..]);
        }
      }
    }
  }

  lemma ConnectorAt6(p: Config, s: Side, input: seq<Msg>)
    requires s.pc == 6 && !s.failed
    ensures var r := Against(Connector, p, s, input);
            && (r.pc >= 13 <==> Receives(p, input))
            && (r.pc >= 13 ==> r.entry == Some(input[1].entry) && r.caps == Some(CapsIn(input[2])))
  {
    hide SignedText;
    hide Verified;
    if input != [] {
      var s7, i1 := Incoming(Connector, p, s, KOk, input[0]), input[1..];
      assert Against(Connector, p, s, input) == Against(Connector, p, s7, i1);
      if input[0].Ok? && i1 != [] {
        var s8, i2 := Incoming(Connector, p, s7, KHeader, i1[0]), i1[1..];
        assert Against(Connector, p, s7, i1) == Against(Connector, p, s8, i2);
        if Introduces(i1[0]) {
          assert Against(Connector, p, s8, i2) == Against(Connector, p, s8.(pc := 9), i2);
          hide Against;
          ConnectorAt9(p, s8.(pc := 9), i2);
          assert i2 == input[2..];
        }
      }
    }
  }

  /** A connector looks at nothing its peer says about its own half: a refusal there only moves it on. It completes
      exactly when Ok, a verified entry, anything and that key's signature over its cookie follow. */
  lemma ConnectorExact(p: Config, input: seq<Msg>)
    ensures var r := Against(Connector, p, START, input);
            r.pc >= 13 <==>
              && input != []
              && if input[0].Ok? then |input| >= 3 && Receives(p, input[3..]) else Receives(p, input[1..])
  {
    hide SignedText;
    hide Verified;
    var s1 := START.(pc := 1);
    assert Against(Connector, p, START, input) == Against(Connector, p, s1, input);
    if input != [] {
      var s2, i1 := Incoming(Connector, p, s1, KOk, input[0]), input[1..];
      assert Against(Connector, p, s1, input) == Against(Connector, p, s2, i1);
      if !input[0].Ok? {
        ConnectorAt6(p, s2, i1);
      } else {
        ConnectorAt3(p, s2.(pc := 3), i1);
      }
    }
  }

  lemma ConnectorAt3(p: Config, s: Side, input: seq<Msg>)
    requires s.pc == 3 && !s.failed
    ensures Against(Connector, p, s, input).pc >= 13 <==> |input| >= 2 && Receives(p, input[2..])
  {
    hide SignedText;
    hide Verified;
    if input != [] {
      var s4, i1 := Incoming(Connector, p, s, KCookie, input[0]), input[1..];
      var s5 := s4.(pc := 5);
      assert Against(Connector, p, s, input) == Against(Connector, p, s4, i1) == Against(Connector, p, s5, i1);
      if i1 != [] {
        var s6, i2 := Incoming(Connector, p, s5, KOk, i1[0]), i1[1..];
        assert Against(Connector, p, s5, i1) == Against(Connector, p, s6, i2);
        hide Against;
        ConnectorAt6(p, s6, i2);
        assert i2 == input[2..];
      }
    }
  }

  // ----- what a signature over a cookie says

  /** Signing any cookie it is sent never makes a side sign an entry: no signature it writes verifies one. */
  lemma CookiesAreNoEntries(p: Config, s: Side, k: Kind, e: Entry)
    requires Verified(e) && Outgoing(p, s, k).Sig?
    ensures !ValidSignature(e.info.publicKey, SignedText(e), Outgoing(p, s, k).signature)
  {
    TextParts(e);
    hide SignedText;
    assert |SignedText(e)| > 20;
  }

  /** What a side writes when its peer sends `input`. */
  function Written(role: Role, p: Config, s: Side, input: seq<Msg>): seq<Msg>
    decreases Left(s)
  {
    match Now(role, s)
    case Halt => []
    case Write(k) => [Outgoing(p, s, k)] + Written(role, p, s.(pc := s.pc + 1), input)
    case Read(k) => if input == [] then [] else Written(role, p, Incoming(role, p, s, k, input[0]), input[1..])
  }

  lemma OwnerWrites(p: Config, c: Nonce)
    ensures Written(Connector, p, START, [Ok, Cookie(c)]) == [Header(p.entry), Cap(p.caps), Sig(Signed(p.key, c))]
    ensures Against(Connector, p, START, [Ok, Cookie(c)]).entry == None
  {
    hide SignedText;
    var two, one, none := [Ok, Cookie(c)], [Cookie(c)], [];
    assert two[1..] == one && one[1..] == none;
    var s1, s2, s3 := START.(pc := 1), START.(pc := 2), START.(pc := 3);
    var s4, s5 := START.(pc := 4, cookie := c), START.(pc := 5, cookie := c);
    assert Written(Connector, p, s5, none) == [] && Against(Connector, p, s5, none) == s5;
    assert Written(Connector, p, s4, none) == [Sig(Signed(p.key, c))] && Against(Connector, p, s4, none) == s5;
    assert Written(Connector, p, s3, one) == [Sig(Signed(p.key, c))] && Against(Connector, p, s3, one) == s5;
    assert Written(Connector, p, s2, one) == [Cap(p.caps), Sig(Signed(p.key, c))]
        && Against(Connector, p, s2, one) == s5;
    assert Written(Connector, p, s1, two) == [Cap(p.caps), Sig(Signed(p.key, c))]
        && Against(Connector, p, s1, two) == s5;
  }

  lemma ListenerAccepts(o: Config, p: Config, rest: seq<Msg>)
    requires Honest(o)
    ensures Against(Listener, p, START, [Header(o.entry), Cap(o.caps), Sig(Signed(o.key, p.cookie))] + rest)
         == Against(Listener, p, START.(pc := 6, entry := Some(o.entry), caps := Some(o.caps),
                                        proof := Some(Signed(o.key, p.cookie))), rest)
  {
    hide SignedText;
    KeySize(o.entry);
    var sig := Signed(o.key, p.cookie);
    var i0 := [Header(o.entry), Cap(o.caps), Sig(sig)] + rest;
    var i1, i2 := [Cap(o.caps), Sig(sig)] + rest, [Sig(sig)] + rest;
    assert i0[1..] == i1 && i1[1..] == i2 && i2[1..] == rest;
    hide Verified;
    var s1 := START.(pc := 1, entry := Some(o.entry));
    var s3 := s1.(pc := 3, caps := Some(o.caps));
    var s5 := s3.(pc := 5, proof := Some(sig));
    assert Against(Listener, p, START, i0) == Against(Listener, p, s1, i1);
    assert Against(Listener, p, s1, i1) == Against(Listener, p, s1.(pc := 2), i1) == Against(Listener, p, s3, i2);
    assert Against(Listener, p, s3, i2) == Against(Listener, p, s3.(pc := 4), i2) == Against(Listener, p, s5, rest);
    assert Against(Listener, p, s5, rest) == Against(Listener, p, s5.(pc := 6), rest);
  }

  lemma ListenerSends(p: Config, s: Side)
    requires s.pc == 6 && !s.failed && s.cookie == BLANK
    ensures Against(Listener, p, s, [Ok, Cookie(BLANK), Ok]) == s.(pc := 13)
  {
    hide SignedText;
    hide Verified;
    var i0, i1, i2, i3: seq<Msg> := [Ok, Cookie(BLANK), Ok], [Cookie(BLANK), Ok], [Ok], [];
    assert i0[1..] == i1 && i1[1..] == i2 && i2[1..] == i3;
    assert Against(Listener, p, s.(pc := 12), i2) == Against(Listener, p, s.(pc := 13), i3) == s.(pc := 13);
    assert Against(Listener, p, s.(pc := 11), i2) == s.(pc := 13);
    assert Against(Listener, p, s.(pc := 10), i1) == s.(pc := 13);
    assert Against(Listener, p, s.(pc := 9), i1) == s.(pc := 13);
    assert Against(Listener, p, s.(pc := 8), i0) == s.(pc := 13);
    assert Against(Listener, p, s.(pc := 7), i0) == s.(pc := 13);
  }

  /** A signature over a side's cookie does not say that its peer made it. An owner that connects to someone else and
      is sent that cookie writes its header, its capabilities and the signature, and has then learnt nothing of the
      listener; the listener, handed those three messages, completes and holds the owner's entry. */
  lemma CookieRelayed(owner: Config, pl: Config)
    requires Honest(owner)
    ensures var sent := Written(Connector, owner, START, [Ok, Cookie(pl.cookie)]);
            var o := Against(Connector, owner, START, [Ok, Cookie(pl.cookie)]);
            var l := Against(Listener, pl, START, sent + [Ok, Cookie(BLANK), Ok]);
            && |sent| == 3 && o.entry == None
            && l.pc == 13 && !l.failed && l.entry == Some(owner.entry) && Authenticated(pl, l)
  {
    hide SignedText;
    hide Against;
    hide Written;
    OwnerWrites(owner, pl.cookie);
    ListenerAccepts(owner, pl, [Ok, Cookie(BLANK), Ok]);
    ListenerSends(pl, START.(pc := 6, entry := Some(owner.entry), caps := Some(owner.caps),
                             proof := Some(Signed(owner.key, pl.cookie))));
    KeySize(owner.entry);
  }

  // ----- two honest peers

  datatype Sys = Sys(c: Side, l: Side, toL: seq<Msg>, toC: seq<Msg>, sent: nat)

  const BEGIN := Sys(START, START, [], [], 0)

  /** One step of the connector: its next write, or its next read when there is something to read. */
  function ConnectorStep(pc: Config, s: Sys): Sys {
    match Now(Connector, s.c)
    case Halt => s
    case Write(k) => s.(c := s.c.(pc := s.c.pc + 1), toL := s.toL + [Outgoing(pc, s.c, k)], sent := s.sent + 1)
    case Read(k) =>
      if s.toC == [] then s else s.(c := Incoming(Connector, pc, s.c, k, s.toC[0]), toC := s.toC[1..])
  }

  function ListenerStep(pl: Config, s: Sys): Sys {
    match Now(Listener, s.l)
    case Halt => s
    case Write(k) => s.(l := s.l.(pc := s.l.pc + 1), toC := s.toC + [Outgoing(pl, s.l, k)], sent := s.sent + 1)
    case Read(k) =>
      if s.toL == [] then s else s.(l := Incoming(Listener, pl, s.l, k, s.toL[0]), toL := s.toL[1..])
  }

  /** An interleaving: which side is scheduled at each step. */
  function Run(pc: Config, pl: Config, schedule: seq<Role>): Sys {
    if schedule == [] then BEGIN
    else
      var n := |schedule| - 1;
      var s := Run(pc, pl, schedule[..n]);
      if schedule[n] == Connector then ConnectorStep(pc, s) else ListenerStep(pl, s)
  }

  /** Message `i` of an undisturbed handshake. */
  function Script(pc: Config, pl: Config, i: nat): Msg
    requires i < 13
  {
    if i == 0 then Header(pc.entry)
    else if i == 2 then Cap(pc.caps)
    else if i == 3 then Cookie(pl.cookie)
    else if i == 4 then Sig(Signed(pc.key, pl.cookie))
    else if i == 7 then Header(pl.entry)
    else if i == 9 then Cap(pl.caps)
    else if i == 10 then Cookie(pc.cookie)
    else if i == 11 then Sig(Signed(pl.key, pc.cookie))
    else Ok
  }

  /** The side that writes message `i`. */
  predicate Writes(role: Role, i: nat)
    requires i < 13
  {
    Program(role)[i].Write?
  }

  /** The two programs are each other's mirror image. */
  lemma Dual(i: nat)
    requires i < 13
    ensures Writes(Connector, i) <==> !Writes(Listener, i)
    ensures Program(Connector)[i].kind == Program(Listener)[i].kind
    ensures !Program(Connector)[i].Halt? && !Program(Listener)[i].Halt?
  {
  }

  /** What an undisturbed side has learnt when it has handled `s.pc` messages. */
  predicate OnScript(role: Role, me: Config, other: Config, s: Side) {
    var recv, send := if role == Listener then 0 else 7, if role == Listener then 7 else 0;
    && !s.failed && s.pc <= 13
    && (s.pc > recv ==> s.entry == Some(other.entry))
    && (s.pc > recv + 2 ==> s.caps == Some(other.caps))
    && (s.pc > recv + 4 ==> s.proof == Some(Signed(other.key, me.cookie)))
    && (s.pc > send + 3 ==> s.cookie == other.cookie)
  }

  /** Messages `from` up to `to`, all written by `role`, are exactly what its channel holds. */
  predicate InFlight(pc: Config, pl: Config, role: Role, from: nat, to: nat, channel: seq<Msg>) {
    && from <= to <= 13 && |channel| == to - from
    && forall i :: from <= i < to ==> Writes(role, i) && channel[i - from] == Script(pc, pl, i)
  }

  predicate Inv(pc: Config, pl: Config, s: Sys) {
    && OnScript(Connector, pc, pl, s.c) && OnScript(Listener, pl, pc, s.l)
    && s.sent == (if s.c.pc >= s.l.pc then s.c.pc else s.l.pc)
    && (if s.c.pc >= s.l.pc then s.toC == [] && InFlight(pc, pl, Connector, s.l.pc, s.c.pc, s.toL)
        else s.toL == [] && InFlight(pc, pl, Listener, s.c.pc, s.l.pc, s.toC))
  }

  lemma OutgoingOnScript(pc: Config, pl: Config, role: Role, s: Side)
    requires OnScript(role, if role == Connector then pc else pl, if role == Connector then pl else pc, s)
    requires s.pc < 13 && Writes(role, s.pc)
    ensures Outgoing(if role == Connector then pc else pl, s, Program(role)[s.pc].kind) == Script(pc, pl, s.pc)
    ensures OnScript(role, if role == Connector then pc else pl, if role == Connector then pl else pc,
                     s.(pc := s.pc + 1))
  {
    hide SignedText;
  }

  lemma IncomingOnScript(pc: Config, pl: Config, role: Role, s: Side)
    requires Honest(pc) && Honest(pl)
    requires OnScript(role, if role == Connector then pc else pl, if role == Connector then pl else pc, s)
    requires s.pc < 13 && !Writes(role, s.pc)
    ensures var me, other := if role == Connector then pc else pl, if role == Connector then pl else pc;
            var r := Incoming(role, me, s, Program(role)[s.pc].kind, Script(pc, pl, s.pc));
            OnScript(role, me, other, r) && r.pc == s.pc + 1
  {
    hide SignedText;
  }

  lemma ConnectorKeeps(pc: Config, pl: Config, s: Sys)
    requires Honest(pc) && Honest(pl) && Inv(pc, pl, s)
    ensures Inv(pc, pl, ConnectorStep(pc, s))
  {
    hide SignedText;
    hide OnScript;
    hide Program;
    hide Script;
    hide Incoming;
    hide Outgoing;
    OnScriptLive(Connector, pc, pl, s.c);
    OnScriptLive(Listener, pl, pc, s.l);
    var i := s.c.pc;
    if i < 13 {
      Dual(i);
      if Writes(Connector, i) {
        OutgoingOnScript(pc, pl, Connector, s.c);
      } else if s.toC != [] {
        IncomingOnScript(pc, pl, Connector, s.c);
      }
    }
  }

  lemma ListenerKeeps(pc: Config, pl: Config, s: Sys)
    requires Honest(pc) && Honest(pl) && Inv(pc, pl, s)
    ensures Inv(pc, pl, ListenerStep(pl, s))
  {
    hide SignedText;
    hide OnScript;
    hide Program;
    hide Script;
    hide Incoming;
    hide Outgoing;
    OnScriptLive(Connector, pc, pl, s.c);
    OnScriptLive(Listener, pl, pc, s.l);
    var i := s.l.pc;
    if i < 13 {
      Dual(i);
      if Writes(Listener, i) {
        OutgoingOnScript(pc, pl, Listener, s.l);
      } else if s.toL != [] {
        IncomingOnScript(pc, pl, Listener, s.l);
      }
    }
  }

  lemma OnScriptLive(role: Role, me: Config, other: Config, s: Side)
    requires OnScript(role, me, other, s)
    ensures !s.failed && s.pc <= 13
  {
  }

  lemma {:induction false} RunKeepsInv(pc: Config, pl: Config, schedule: seq<Role>)
    requires Honest(pc) && Honest(pl)
    ensures Inv(pc, pl, Run(pc, pl, schedule))
  {
    hide SignedText;
    hide Inv;
    hide ConnectorStep;
    hide ListenerStep;
    if schedule == [] {
      InvBegin(pc, pl);
    } else {
      var n := |schedule| - 1;
      RunKeepsInv(pc, pl, schedule[..n]);
      ConnectorKeeps(pc, pl, Run(pc, pl, schedule[..n]));
      ListenerKeeps(pc, pl, Run(pc, pl, schedule[..n]));
    }
  }

  lemma InvBegin(pc: Config, pl: Config)
    ensures Inv(pc, pl, BEGIN)
  {
    hide SignedText;
  }

  predicate Finished(s: Sys) {
    s.c.pc == 13 && s.l.pc == 13
  }

  /** The kind of message a point expects. */
  predicate Matches(k: Kind, m: Msg) {
    match k
    case KHeader => m.Header?
    case KOk => m.Ok?
    case KCap => m.Cap?
    case KCookie => m.Cookie?
    case KSig => m.Sig?
  }

  /** In every interleaving of two honest peers: no side fails, a message waiting to be read is of the kind expected,
      and until both have finished one of them can move, each move bringing the end one message nearer. */
  lemma NoDeadlock(pc: Config, pl: Config, schedule: seq<Role>)
    requires Honest(pc) && Honest(pl)
    ensures var s := Run(pc, pl, schedule);
            && !s.c.failed && !s.l.failed
            && (Now(Connector, s.c).Read? && s.toC != [] ==> Matches(Now(Connector, s.c).kind, s.toC[0]))
            && (Now(Listener, s.l).Read? && s.toL != [] ==> Matches(Now(Listener, s.l).kind, s.toL[0]))
            && (!Finished(s) ==>
                  || (ConnectorStep(pc, s).c.pc == s.c.pc + 1)
                  || (ListenerStep(pl, s).l.pc == s.l.pc + 1))
  {
    hide SignedText;
    hide Run;
    RunKeepsInv(pc, pl, schedule);
    var s := Run(pc, pl, schedule);
    StateLive(pc, pl, s);
  }

  lemma StateLive(pc: Config, pl: Config, s: Sys)
    requires Honest(pc) && Honest(pl) && Inv(pc, pl, s)
    ensures Now(Connector, s.c).Read? && s.toC != [] ==> Matches(Now(Connector, s.c).kind, s.toC[0])
    ensures Now(Listener, s.l).Read? && s.toL != [] ==> Matches(Now(Listener, s.l).kind, s.toL[0])
    ensures !Finished(s) ==>
              || ConnectorStep(pc, s).c.pc == s.c.pc + 1
              || ListenerStep(pl, s).l.pc == s.l.pc + 1
  {
    hide SignedText;
    hide OnScript;
    hide Program;
    hide Script;
    hide Incoming;
    hide Outgoing;
    OnScriptLive(Connector, pc, pl, s.c);
    OnScriptLive(Listener, pl, pc, s.l);
    if s.c.pc < 13 {
      Dual(s.c.pc);
      ScriptKind(pc, pl, s.c.pc);
      if !Writes(Connector, s.c.pc) {
        IncomingOnScript(pc, pl, Connector, s.c);
      }
    }
    if s.l.pc < 13 {
      Dual(s.l.pc);
      ScriptKind(pc, pl, s.l.pc);
      if !Writes(Listener, s.l.pc) {
        IncomingOnScript(pc, pl, Listener, s.l);
      }
    }
  }

  lemma ScriptKind(pc: Config, pl: Config, i: nat)
    requires i < 13
    ensures Matches(Program(Connector)[i].kind, Script(pc, pl, i))
  {
  }

  /** When both have finished, exactly thirteen messages have passed, none is left over, and each side holds the
      other's entry and capabilities and the other's signature over the cookie it issued itself. */
  lemma BothAuthenticated(pc: Config, pl: Config, schedule: seq<Role>)
    requires Honest(pc) && Honest(pl) && Finished(Run(pc, pl, schedule))
    ensures var s := Run(pc, pl, schedule);
            && s.sent == 13 && s.toL == [] && s.toC == []
            && s.c.entry == Some(pl.entry) && s.c.caps == Some(pl.caps) && Authenticated(pc, s.c)
            && s.l.entry == Some(pc.entry) && s.l.caps == Some(pc.caps) && Authenticated(pl, s.l)
  {
    hide SignedText;
    hide Run;
    RunKeepsInv(pc, pl, schedule);
  }
}
