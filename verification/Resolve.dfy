/** Resolving an address over the network with one depth budget for the whole search. */
module Resolve {
  import opened Text
  import opened Addresses
  import opened Entries

  const MAX_DEPTH := 6

  datatype QueryAnswer = QueryFailed | NoEntry | Found(entry: Entry)

  /** Peer.Query hands on what Client.Query makes of the reply. */
  function PeerQuery(r: QueryReply): QueryAnswer {
    match ClientQuery(r)
    case None => QueryFailed
    case Some(e) => Found(e)
  }

  /** What the peer asked in one step does: whether it can be reached, its answer to the query, and the closest
      entries it names, None when asking for them fails. */
  datatype Answer = Answer(reached: bool, query: QueryAnswer, closest: Option<seq<Entry>>)

  /** The network, by the number of steps taken before: peers may change their answers at any time. */
  type Network = nat -> Answer

  datatype StepResult = RecursionLimit | Failed | Nothing | Got(entry: Entry)

  datatype After = After(result: StepResult, steps: nat)

  /** A step after `steps` earlier ones. */
  function StepSpec(net: Network, steps: nat): (r: After)
    requires steps <= MAX_DEPTH
    ensures steps <= r.steps <= MAX_DEPTH
    ensures r.result == RecursionLimit ==> r.steps == MAX_DEPTH
    ensures r.result != RecursionLimit ==> steps < r.steps
    ensures r.result.Got? ==> net(r.steps - 1).query == Found(r.result.entry)
    decreases MAX_DEPTH - steps, 0, 0
  {
    if steps == MAX_DEPTH then After(RecursionLimit, steps)
    else
      var a := net(steps);
      if !a.reached || a.query.QueryFailed? then After(Failed, steps + 1)
      else if a.query.Found? then After(Got(a.query.entry), steps + 1)
      else if a.closest == None then After(Failed, steps + 1)
      else Rounds(net, |a.closest.value|, steps + 1)
  }

  /** The loop over the closest entries a peer named, `n` of them still to ask: an error or an entry ends it. */
  function Rounds(net: Network, n: nat, steps: nat): (r: After)
    requires steps <= MAX_DEPTH
    ensures steps <= r.steps <= MAX_DEPTH
    ensures r.result == RecursionLimit ==> r.steps == MAX_DEPTH
    ensures r.result.Got? ==> 0 < r.steps && net(r.steps - 1).query == Found(r.result.entry)
    decreases MAX_DEPTH - steps, 1, n
  {
    if n == 0 then After(Failed, steps)
    else
      var a := StepSpec(net, steps);
      if a.result == Nothing then Rounds(net, n - 1, a.steps) else a
  }

  /** The shared depth counter. `passes` counts how often its check has been passed. */
  class Budget {
    var depth: nat
    ghost var passes: nat

    constructor ()
      ensures depth == MAX_DEPTH && passes == 0
    {
      depth, passes := MAX_DEPTH, 0;
    }

    ghost predicate Valid()
      reads this
    {
      depth + passes == MAX_DEPTH
    }
  }

  /** PeerManager.resolveStep. */
  method ResolveStep(net: Network, budget: Budget) returns (r: StepResult)
    requires budget.Valid()
    modifies budget
    ensures budget.Valid() && After(r, budget.passes) == StepSpec(net, old(budget.passes))
    decreases budget.depth
  {
    hide StepSpec;
    hide Rounds;
    ghost var steps := budget.passes;
    StepCases(net, steps);
    if budget.depth == 0 {
      return RecursionLimit;
    }
    var a := net(MAX_DEPTH - budget.depth);
    budget.depth := budget.depth - 1;
    budget.passes := budget.passes + 1;
    if !a.reached || a.query.QueryFailed? {
      return Failed;
    }
    if a.query.Found? {
      return Got(a.query.entry);
    }
    if a.closest == None {
      return Failed;
    }
    var closest := a.closest.value;
    ghost var spec := StepSpec(net, steps);
    assert spec == Rounds(net, |closest|, steps + 1);
    for i := 0 to |closest|
      invariant budget.Valid() && steps < budget.passes
      invariant spec == Rounds(net, |closest| - i, budget.passes)
    {
      RoundsCases(net, |closest| - i, budget.passes);
      r := ResolveStep(net, budget);
      if r != Nothing {
        return;
      }
    }
    RoundsCases(net, 0, budget.passes);
    return Failed;
  }

  lemma StepCases(net: Network, steps: nat)
    requires steps <= MAX_DEPTH
    ensures steps == MAX_DEPTH ==> StepSpec(net, steps) == After(RecursionLimit, steps)
    ensures steps < MAX_DEPTH ==>
              var a, r := net(steps), StepSpec(net, steps);
              if !a.reached || a.query.QueryFailed? then r == After(Failed, steps + 1)
              else if a.query.Found? then r == After(Got(a.query.entry), steps + 1)
              else if a.closest == None then r == After(Failed, steps + 1)
              else r == Rounds(net, |a.closest.value|, steps + 1)
  {
  }

  lemma RoundsCases(net: Network, n: nat, steps: nat)
    requires steps <= MAX_DEPTH
    ensures n == 0 ==> Rounds(net, n, steps) == After(Failed, steps)
    ensures n > 0 ==>
              var a := StepSpec(net, steps);
              Rounds(net, n, steps) == if a.result == Nothing then Rounds(net, n - 1, a.steps) else a
  {
  }

  /** A step never ends with neither entry nor error, so the first round of the loop over the closest entries is also
      its last: the second entry a peer names is never asked. */
  lemma {:induction false} FirstRoundEnds(net: Network, n: nat, steps: nat)
    requires steps <= MAX_DEPTH
    ensures StepSpec(net, steps).result != Nothing
    ensures Rounds(net, n, steps) == if n == 0 then After(Failed, steps) else StepSpec(net, steps)
    decreases MAX_DEPTH - steps
  {
    if steps < MAX_DEPTH {
      FirstRoundEnds(net, if net(steps).closest == None then 0 else |net(steps).closest.value|, steps + 1);
    }
  }

  datatype Resolved = Unresolved(limit: bool) | ResolvedTo(entry: Entry)

  /** The loop over the entries closest to the address in our own table, `n` of them still to try. */
  function TrySpec(net: Network, addr: Address, n: nat, steps: nat): (r: Resolved)
    requires steps <= MAX_DEPTH
    ensures r.ResolvedTo? ==>
              r.entry.address == addr && exists k: nat :: k < MAX_DEPTH && net(k).query == Found(r.entry)
  {
    if n == 0 then Unresolved(false)
    else
      var a := StepSpec(net, steps);
      match a.result
      case RecursionLimit => Unresolved(true)
      case Failed => TrySpec(net, addr, n - 1, a.steps)
      case Nothing => TrySpec(net, addr, n - 1, a.steps)
      case Got(e) => if e.address == addr then ResolvedTo(e) else TrySpec(net, addr, n - 1, a.steps)
  }

  /** PeerManager.Resolve. `self` is our own entry, `stored` what the local table has for the address, `closest` how
      many entries the local table offers. */
  method Resolve(net: Network, addr: Address, self: Entry, stored: Option<Entry>, closest: nat)
    returns (r: Resolved, ghost passes: nat)
    requires stored.Some? ==> stored.value.address == addr
    ensures passes <= 6
    ensures r.ResolvedTo? ==> r.entry.address == addr
    ensures addr == self.address ==> r == ResolvedTo(self) && passes == 0
    ensures addr != self.address && stored.Some? ==> r == ResolvedTo(stored.value) && passes == 0
    ensures addr != self.address && stored == None ==> r == TrySpec(net, addr, closest, 0)
  {
    hide StepSpec;
    passes := 0;
    if addr == self.address {
      return ResolvedTo(self), passes;
    }
    if stored.Some? {
      return ResolvedTo(stored.value), passes;
    }
    var budget := new Budget();
    var i := 0;
    while i < closest
      invariant 0 <= i <= closest && budget.Valid() && fresh(budget)
      invariant TrySpec(net, addr, closest, 0) == TrySpec(net, addr, closest - i, budget.passes)
    {
      var step := ResolveStep(net, budget);
      if step == RecursionLimit {
        return Unresolved(true), budget.passes;
      }
      if step.Got? && step.entry.address == addr {
        return ResolvedTo(step.entry), budget.passes;
      }
      i := i + 1;
    }
    return Unresolved(false), budget.passes;
  }

  /** The peer asked in step `k` can be reached and answers with the address's entry. */
  predicate Names(net: Network, addr: Address, k: nat) {
    net(k).reached && net(k).query.Found? && net(k).query.entry.address == addr
  }

  /** A search that gives up on the budget has asked six peers, none of which named the address to us. */
  lemma {:induction false} LimitMeansExhausted(net: Network, addr: Address, n: nat, steps: nat)
    requires steps <= MAX_DEPTH && TrySpec(net, addr, n, steps) == Unresolved(true)
    ensures forall k: nat :: steps <= k < MAX_DEPTH ==> !Names(net, addr, k)
    decreases n
  {
    hide StepSpec;
    var a := StepSpec(net, steps);
    StepSkips(net, steps);
    if a.result != RecursionLimit {
      LimitMeansExhausted(net, addr, n - 1, a.steps);
    }
  }

  predicate Silent(net: Network, from: nat, to: int) {
    forall k: nat :: from <= k < to ==> !net(k).query.Found?
  }

  lemma {:induction false} StepSkips(net: Network, steps: nat)
    requires steps <= MAX_DEPTH
    ensures var a := StepSpec(net, steps);
            && a.result != Nothing
            && Silent(net, steps, a.steps - 1)
            && (a.result == RecursionLimit ==> Silent(net, steps, MAX_DEPTH))
            && (a.result == Failed ==> !(net(a.steps - 1).reached && net(a.steps - 1).query.Found?))
    decreases MAX_DEPTH - steps
  {
    hide StepSpec;
    FirstRoundEnds(net, 0, steps);
    if steps < MAX_DEPTH {
      StepUnfold(net, steps);
      StepSkips(net, steps + 1);
    }
  }

  /** A step either ends at once or is the next step, after an answer without an entry. */
  lemma StepUnfold(net: Network, steps: nat)
    requires steps < MAX_DEPTH
    ensures var a := StepSpec(net, steps);
            || (a.steps == steps + 1 && a.result.Got?)
            || (a == After(Failed, steps + 1) && !(net(steps).reached && net(steps).query.Found?))
            || (a == StepSpec(net, steps + 1) && !net(steps).query.Found?)
  {
    FirstRoundEnds(net, if net(steps).closest == None then 0 else |net(steps).closest.value|, steps + 1);
  }

  /** Unless the budget or the candidates ran out first, the first matching answer is found: a search with six
      candidates fails only if no peer it asked named the address. */
  lemma {:induction false} FoundWhenAnswered(net: Network, addr: Address, n: nat, steps: nat, k: nat)
    requires steps <= k < MAX_DEPTH && n > k - steps
    requires Names(net, addr, k)
    ensures TrySpec(net, addr, n, steps).ResolvedTo?
    decreases n
  {
    hide StepSpec;
    var a := StepSpec(net, steps);
    StepSkips(net, steps);
    if a.result == Failed || (a.result.Got? && a.result.entry.address != addr) {
      FoundWhenAnswered(net, addr, n - 1, a.steps, k);
    }
  }

  // ----- what Client.Query implies

  /** Every peer is asked through Client.Query. */
  ghost predicate FromClient(net: Network) {
    forall k: nat :: exists r :: net(k).query == PeerQuery(r)
  }

  lemma NeverNoEntry(net: Network, k: nat)
    requires FromClient(net)
    ensures net(k).query != NoEntry
    ensures net(k).query.Found? ==> Verified(net(k).query.entry)
  {
    hide Verified;
    var r :| net(k).query == PeerQuery(r);
  }

  /** A peer's closest entries are then never asked for: every step asks one peer. */
  lemma ClosestNeverAsked(net: Network, steps: nat)
    requires FromClient(net) && steps < MAX_DEPTH
    ensures var a := net(steps);
            StepSpec(net, steps) ==
            After(if a.reached && a.query.Found? then Got(a.query.entry) else Failed, steps + 1)
  {
    NeverNoEntry(net, steps);
  }

  /** The first of the peers asked in steps `from` to `to` that names the address. */
  ghost predicate FirstToName(net: Network, addr: Address, from: nat, to: int, k: nat) {
    from <= k < to && Names(net, addr, k) && forall j: nat :: from <= j < k ==> !Names(net, addr, j)
  }

  ghost predicate NoneNames(net: Network, addr: Address, from: nat, to: int) {
    forall k: nat :: from <= k < to ==> !Names(net, addr, k)
  }

  function LastStep(n: nat, steps: nat): int {
    if steps + n < 6 then steps + n else 6
  }

  /** The search asks the first six of our own closest entries, one step each, and returns the first answer that
      names the address, a verified entry. It gives up on the budget exactly when there are more and none does. */
  lemma {:induction false} ResolveExact(net: Network, addr: Address, n: nat, steps: nat)
    requires FromClient(net) && steps <= MAX_DEPTH
    ensures var r, to := TrySpec(net, addr, n, steps), LastStep(n, steps);
            && (r.ResolvedTo? <==> !NoneNames(net, addr, steps, to))
            && (r == Unresolved(true) <==> steps + n > 6 && NoneNames(net, addr, steps, to))
            && (r.ResolvedTo? ==> Verified(r.entry))
            && (r.ResolvedTo? ==>
                  exists k: nat :: FirstToName(net, addr, steps, to, k) && net(k).query == Found(r.entry))
    decreases n
  {
    hide StepSpec;
    hide Verified;
    if n > 0 && steps < MAX_DEPTH {
      ClosestNeverAsked(net, steps);
      NeverNoEntry(net, steps);
      if Names(net, addr, steps) {
        assert FirstToName(net, addr, steps, LastStep(n, steps), steps);
      } else {
        ResolveExact(net, addr, n - 1, steps + 1);
        NamesLater(net, addr, steps, LastStep(n, steps));
      }
    }
  }

  lemma NamesLater(net: Network, addr: Address, from: nat, to: int)
    requires !Names(net, addr, from)
    ensures NoneNames(net, addr, from, to) <==> NoneNames(net, addr, from + 1, to)
    ensures forall k: nat :: FirstToName(net, addr, from + 1, to, k) ==> FirstToName(net, addr, from, to, k)
  {
    hide Names;
    forall k: nat | FirstToName(net, addr, from + 1, to, k)
      ensures FirstToName(net, addr, from, to, k)
    {
    }
  }
}
