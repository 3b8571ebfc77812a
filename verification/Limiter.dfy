/** The token-bucket rate limiter: a buffered channel filled by a ticker and drained by waiters. */
module Limiter {
  /** `tokens` is what the channel holds, `waiting` the calls blocked on it. */
  datatype State = State(burst: nat, tokens: nat, waiting: nat)

  datatype Event = Tick | Wait

  predicate Valid(s: State) {
    s.tokens <= s.burst && (s.waiting > 0 ==> s.tokens == 0)
  }

  /** NewLimiter, with the loop that fills the bucket. */
  method NewLimiter(burst: nat, fill: bool) returns (s: State)
    ensures s == State(burst, if fill then burst else 0, 0) && Valid(s)
  {
    var tokens := 0;
    if fill {
      for i := 0 to burst
        invariant tokens == i
      {
        tokens := tokens + 1;
      }
    }
    s := State(burst, tokens, 0);
  }

  /** A tick goes to a blocked waiter, else into the buffer, else nowhere. A wait takes a token or blocks. */
  function Step(s: State, e: Event): State {
    match e
    case Tick =>
      if s.waiting > 0 then s.(waiting := s.waiting - 1)
      else if s.tokens < s.burst then s.(tokens := s.tokens + 1)
      else s
    case Wait =>
      if s.tokens > 0 then s.(tokens := s.tokens - 1) else s.(waiting := s.waiting + 1)
  }

  /** Whether an event lets one waiter through. */
  predicate Completes(s: State, e: Event) {
    match e
    case Tick => s.waiting > 0
    case Wait => s.tokens > 0
  }

  predicate Dropped(s: State, e: Event) {
    e == Tick && s.waiting == 0 && s.tokens == s.burst
  }

  function Run(s: State, es: seq<Event>): State
    decreases es
  {
    if es == [] then s else Run(Step(s, es[0]), es[1..])
  }

  function Ticks(es: seq<Event>): nat {
    if es == [] then 0 else (if es[0] == Tick then 1 else 0) + Ticks(es[1..])
  }

  function Waits(es: seq<Event>): nat {
    if es == [] then 0 else (if es[0] == Wait then 1 else 0) + Waits(es[1..])
  }

  function Completed(s: State, es: seq<Event>): nat
    decreases es
  {
    if es == [] then 0 else (if Completes(s, es[0]) then 1 else 0) + Completed(Step(s, es[0]), es[1..])
  }

  function Drops(s: State, es: seq<Event>): nat
    decreases es
  {
    if es == [] then 0 else (if Dropped(s, es[0]) then 1 else 0) + Drops(Step(s, es[0]), es[1..])
  }

  /** Over any run: the bucket stays within its bounds; every tick is spent, kept or dropped; every wait completes or
      is still blocked. */
  lemma {:induction false} Conservation(s: State, es: seq<Event>)
    requires Valid(s)
    ensures Valid(Run(s, es)) && Run(s, es).burst == s.burst
    ensures s.tokens + Ticks(es) == Completed(s, es) + Run(s, es).tokens + Drops(s, es)
    ensures s.waiting + Waits(es) == Completed(s, es) + Run(s, es).waiting
    decreases es
  {
    if es != [] {
      Conservation(Step(s, es[0]), es[1..]);
    }
  }

  lemma {:induction false} RunSplit(s: State, a: seq<Event>, b: seq<Event>)
    ensures Run(s, a + b) == Run(Run(s, a), b)
    ensures Completed(s, a + b) == Completed(s, a) + Completed(Run(s, a), b)
    decreases a
  {
    if a == [] {
      assert a + b == b;
    } else {
      assert (a + b)[1..] == a[1..] + b;
      RunSplit(Step(s, a[0]), a[1..], b);
    }
  }

  /** In every window of every run, no more waits complete than the burst plus the ticks in that window. */
  lemma WindowBound(s: State, before: seq<Event>, window: seq<Event>)
    requires Valid(s)
    ensures Completed(s, before + window) - Completed(s, before) <= s.burst + Ticks(window)
  {
    Conservation(s, before);
    RunSplit(s, before, window);
    Conservation(Run(s, before), window);
  }
}
