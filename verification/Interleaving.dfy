/** Transaction flows in flight at the same time. A flow checks its amount in one atomic step and
    records it in another; between the two, other flows check, record and reset. */
module Interleaving {
  import opened Wrappers
  import opened Policies
  import Runs
  import Spending

  datatype Event =
    | Begin(now: u64, amount: u64)
    | Abort(flow: nat)
    | Settle(flow: nat)
    | Tick(now: u64)
    | Request(now: u64, names: seq<string>, url: string, ready: bool)
    | SetPolicy(policy: Policy)

  /** The engine and the amounts that are checked but not yet recorded. */
  datatype Skies = Skies(engine: Engine, inFlight: seq<nat>)

  function Without(xs: seq<nat>, i: nat): seq<nat>
    requires i < |xs|
  {
    xs[..i] + xs[i + 1..]
  }

  function Step(w: Width, s: Skies, ev: Event): Skies {
    match ev
    case Tick(now) => s.(engine := Runs.AfterEvent(w, s.engine, Runs.Tick(now)))
    case Request(now, names, url, ready) =>
      s.(engine := Runs.AfterEvent(w, s.engine, Runs.Request(now, names, url, ready)))
    case SetPolicy(policy) => s.(engine := Runs.AfterEvent(w, s.engine, Runs.SetPolicy(policy)))
    case Begin(now, amount) =>
      var e := Reset(w, s.engine, now);
      Skies(e, if SpendingVerdict(w, e, amount, now).Allowed? then s.inFlight + [amount] else s.inFlight)
    case Abort(i) => if i < |s.inFlight| then s.(inFlight := Without(s.inFlight, i)) else s
    case Settle(i) =>
      if i < |s.inFlight| then Skies(Record(w, s.engine, s.inFlight[i]), Without(s.inFlight, i)) else s
  }

  function Run(w: Width, s: Skies, evs: seq<Event>): Skies {
    if evs == [] then s else Step(w, Run(w, s, evs[..|evs| - 1]), evs[|evs| - 1])
  }

  /** At no time are more than `k` flows in flight. */
  predicate AtMost(w: Width, s: Skies, evs: seq<Event>, k: nat) {
    |Run(w, s, evs).inFlight| <= k && (evs != [] ==> AtMost(w, s, evs[..|evs| - 1], k))
  }

  function Sum(xs: seq<nat>): nat {
    if xs == [] then 0 else Sum(xs[..|xs| - 1]) + xs[|xs| - 1]
  }

  lemma {:induction false} SumWithout(xs: seq<nat>, i: nat)
    requires i < |xs|
    ensures Sum(xs) == Sum(Without(xs, i)) + xs[i]
  {
    if i == |xs| - 1 {
      assert Without(xs, i) == xs[..i];
    } else {
      SumWithout(xs[..|xs| - 1], i);
      assert Without(xs, i)[..|xs| - 2] == Without(xs[..|xs| - 1], i);
    }
  }

  lemma {:induction false} SumBound(xs: seq<nat>, k: nat, t: nat)
    requires |xs| <= k && forall i :: 0 <= i < |xs| ==> xs[i] <= t
    ensures Sum(xs) <= k * t
  {
    if xs != [] {
      SumBound(xs[..|xs| - 1], k - 1, t);
      assert k * t == (k - 1) * t + t;
    }
  }

  /** The most one flow can carry. */
  function Single(p: SpendingPolicy): nat {
    if p.maxPerTx <= p.maxDaily then p.maxPerTx else p.maxDaily
  }

  lemma {:induction false} ProductIsNat(a: nat, b: nat)
    ensures a * b >= 0
  {
    if a > 0 {
      ProductIsNat(a - 1, b);
      assert a * b == (a - 1) * b + b;
    }
  }

  function Overshoot(p: SpendingPolicy, k: nat): (most: nat)
    requires k > 0
    ensures most >= p.maxDaily
  {
    ProductIsNat(k - 1, Single(p));
    p.maxDaily + (k - 1) * Single(p)
  }

  predicate Below(p: SpendingPolicy, most: SpendingPolicy) {
    Spending.LimitsWithin(p, most.maxPerTx, most.maxDaily)
  }

  /** `most` has the largest limits that any policy of the run has. */
  predicate NoneAbove(evs: seq<Event>, most: SpendingPolicy) {
    forall i :: 0 <= i < |evs| && evs[i].SetPolicy? ==> Below(evs[i].policy.spending, most)
  }

  ghost predicate Bounded(s: Skies, most: SpendingPolicy, cap: nat) {
    && Below(s.engine.policy.spending, most)
    && (forall i :: 0 <= i < |s.inFlight| ==> s.inFlight[i] <= Single(most))
    && s.engine.spendingToday + Sum(s.inFlight) <= cap
  }

  predicate InRange(w: Width, most: SpendingPolicy, cap: nat) {
    w == Machine ==> cap + most.maxPerTx < TWO_TO_THE_64
  }

  lemma RemovalKeepsBound(w: Width, s: Skies, i: nat, most: SpendingPolicy, cap: nat)
    requires InRange(w, most, cap) && Bounded(s, most, cap) && i < |s.inFlight|
    ensures Bounded(Step(w, s, Settle(i)), most, cap)
    ensures Bounded(Step(w, s, Abort(i)), most, cap)
  {
    SumWithout(s.inFlight, i);
  }

  /** A flow that is let off fits the limits by itself. */
  lemma AllowedFits(w: Width, e: Engine, amount: u64, now: u64, most: SpendingPolicy, spent: nat, cap: nat)
    requires Below(e.policy.spending, most) && InRange(w, most, cap) && e.spendingToday <= spent <= cap
    requires SpendingVerdict(w, e, amount, now).Allowed?
    ensures amount <= Single(most) && e.spendingToday + amount <= most.maxDaily
  {
  }

  lemma BeginKeepsBound(w: Width, s: Skies, now: u64, amount: u64, most: SpendingPolicy, k: nat)
    requires k > 0 && InRange(w, most, Overshoot(most, k)) && Bounded(s, most, Overshoot(most, k))
    requires |Step(w, s, Begin(now, amount)).inFlight| <= k
    ensures Bounded(Step(w, s, Begin(now, amount)), most, Overshoot(most, k))
  {
    var e := Reset(w, s.engine, now);
    if SpendingVerdict(w, e, amount, now).Allowed? {
      AllowedFits(w, e, amount, now, most, s.engine.spendingToday, Overshoot(most, k));
      SumBound(s.inFlight, k - 1, Single(most));
      assert (s.inFlight + [amount])[..|s.inFlight|] == s.inFlight;
    }
  }

  lemma StepKeepsBound(w: Width, s: Skies, ev: Event, most: SpendingPolicy, k: nat)
    requires k > 0 && InRange(w, most, Overshoot(most, k)) && Bounded(s, most, Overshoot(most, k))
    requires ev.SetPolicy? ==> Below(ev.policy.spending, most)
    requires |Step(w, s, ev).inFlight| <= k
    ensures Bounded(Step(w, s, ev), most, Overshoot(most, k))
  {
    match ev
    case Tick(_) =>
    case Request(now, names, url, ready) => Runs.RequestOnlyResetsSpending(w, s.engine, names, url, now, ready);
    case SetPolicy(_) =>
    case Begin(now, amount) => BeginKeepsBound(w, s, now, amount, most, k);
    case Abort(i) =>
      if i < |s.inFlight| {
        RemovalKeepsBound(w, s, i, most, Overshoot(most, k));
      }
    case Settle(i) =>
      if i < |s.inFlight| {
        RemovalKeepsBound(w, s, i, most, Overshoot(most, k));
      }
  }

  /** In every reachable state of every interleaving of at most `k` flows, requests, resets and
      policy changes, what is spent and what is in flight stay within the largest daily limit plus
      `k - 1` times the most one flow can carry. One flow at a time stays within the daily limit.
      The machine's sums do not wrap if that bound and one more transaction fit 64 bits. */
  lemma {:induction false} InterleavedBound(w: Width, policy: Policy, t: u64, evs: seq<Event>,
                                            most: SpendingPolicy, k: nat)
    requires k > 0 && InRange(w, most, Overshoot(most, k))
    requires Below(policy.spending, most) && NoneAbove(evs, most)
    requires AtMost(w, Skies(NewEngine(policy, t), []), evs, k)
    ensures var s := Run(w, Skies(NewEngine(policy, t), []), evs);
            && Bounded(s, most, Overshoot(most, k))
            && s.engine.spendingToday + Sum(s.inFlight) <= Overshoot(most, k)
  {
    if evs != [] {
      InterleavedBound(w, policy, t, evs[..|evs| - 1], most, k);
      StepKeepsBound(w, Run(w, Skies(NewEngine(policy, t), []), evs[..|evs| - 1]), evs[|evs| - 1], most, k);
    }
  }

  /** A flow that runs alone is one step of a sequential run: begin and settle make a settled
      spend, begin and abort an unsettled one. */
  lemma FlowAlone(w: Width, e: Engine, now: u64, amount: u64, settled: bool)
    ensures var end := if settled then Settle(0) else Abort(0);
            Run(w, Skies(e, []), [Begin(now, amount), end]) ==
            Skies(Runs.AfterEvent(w, e, Runs.Spend(now, amount, settled)), [])
  {
    var begin, end := Begin(now, amount), if settled then Settle(0) else Abort(0);
    assert [begin, end][..1] == [begin] && [begin][..0] == [];
    assert Run(w, Skies(e, []), [begin]) == Step(w, Skies(e, []), begin);
    assert Without([amount], 0) == [];
  }

  /** An event of a sequential run: a flow begins and ends before anything else happens. */
  function Alone(ev: Runs.Event): seq<Event> {
    match ev
    case Tick(now) => [Tick(now)]
    case Spend(now, amount, settled) => [Begin(now, amount), if settled then Settle(0) else Abort(0)]
    case Request(now, names, url, ready) => [Request(now, names, url, ready)]
    case SetPolicy(policy) => [SetPolicy(policy)]
  }

  function OneByOne(evs: seq<Runs.Event>): seq<Event> {
    if evs == [] then [] else OneByOne(evs[..|evs| - 1]) + Alone(evs[|evs| - 1])
  }

  lemma {:induction false} RunConcat(w: Width, s: Skies, a: seq<Event>, b: seq<Event>)
    ensures Run(w, s, a + b) == Run(w, Run(w, s, a), b)
  {
    if b == [] {
      assert a + b == a;
    } else {
      RunConcat(w, s, a, b[..|b| - 1]);
      assert (a + b)[..|a + b| - 1] == a + b[..|b| - 1];
    }
  }

  lemma EventAlone(w: Width, e: Engine, ev: Runs.Event)
    ensures Run(w, Skies(e, []), Alone(ev)) == Skies(Runs.AfterEvent(w, e, ev), [])
  {
    if ev.Spend? {
      FlowAlone(w, e, ev.now, ev.amount, ev.settled);
    } else {
      assert Alone(ev)[..0] == [];
    }
  }

  /** Every sequential run is an interleaving in which no two flows overlap. */
  lemma {:induction false} SequentialRun(w: Width, e: Engine, evs: seq<Runs.Event>)
    ensures Run(w, Skies(e, []), OneByOne(evs)) == Skies(Runs.AfterEvents(w, e, evs), [])
  {
    if evs != [] {
      var before, last := evs[..|evs| - 1], evs[|evs| - 1];
      SequentialRun(w, e, before);
      RunConcat(w, Skies(e, []), OneByOne(before), Alone(last));
      EventAlone(w, Runs.AfterEvents(w, e, before), last);
    }
  }

  // ---------- the bound is reached ----------

  lemma RunOneMore(s: Skies, evs: seq<Event>, ev: Event)
    ensures Run(Unbounded, s, evs + [ev]) == Step(Unbounded, Run(Unbounded, s, evs), ev)
    ensures forall k: nat :: AtMost(Unbounded, s, evs + [ev], k) <==>
                             AtMost(Unbounded, s, evs, k) && |Run(Unbounded, s, evs + [ev]).inFlight| <= k
  {
    assert (evs + [ev])[..|evs|] == evs;
  }

  /** The state of a run at time `t` in the first window, with `n` full flows in flight. */
  predicate Reaches(policy: Policy, t: u64, evs: seq<Event>, k: nat, spent: nat, n: nat) {
    var start := Skies(NewEngine(policy, t), []);
    var s := Run(Unbounded, start, evs);
    && AtMost(Unbounded, start, evs, k)
    && s.engine.policy == policy && s.engine.usage == map[] && s.engine.lastDayReset == t
    && s.engine.spendingToday == spent
    && s.inFlight == seq(n, _ => Single(policy.spending))
  }

  predicate Useful(p: SpendingPolicy, now: nat) {
    p.maxPerTx > 0 && p.maxDaily > 0 && Spending.Unexpired(p, now)
  }

  lemma {:induction false} ReachSpent(policy: Policy, t: u64, k: nat, spent: u64) returns (evs: seq<Event>)
    requires Useful(policy.spending, t)
    requires k > 0 && spent <= policy.spending.maxDaily
    ensures Reaches(policy, t, evs, k, spent, 0)
    decreases spent
  {
    if spent == 0 {
      evs := [];
    } else {
      var perTx := policy.spending.maxPerTx;
      var rest: u64 := if spent <= perTx then 0 else spent - perTx;
      var before := ReachSpent(policy, t, k, rest);
      var start := Skies(NewEngine(policy, t), []);
      RunOneMore(start, before, Begin(t, spent - rest));
      RunOneMore(start, before + [Begin(t, spent - rest)], Settle(0));
      evs := before + [Begin(t, spent - rest)] + [Settle(0)];
    }
  }

  lemma {:induction false} ReachInFlight(policy: Policy, t: u64, k: nat, n: nat) returns (evs: seq<Event>)
    requires Useful(policy.spending, t)
    requires n <= k && k > 0
    ensures Reaches(policy, t, evs, k, policy.spending.maxDaily - Single(policy.spending), n)
  {
    var p := policy.spending;
    if n == 0 {
      evs := ReachSpent(policy, t, k, p.maxDaily - Single(p));
    } else {
      var before := ReachInFlight(policy, t, k, n - 1);
      RunOneMore(Skies(NewEngine(policy, t), []), before, Begin(t, Single(p)));
      evs := before + [Begin(t, Single(p))];
      assert seq(n, _ => Single(p)) == seq(n - 1, _ => Single(p)) + [Single(p)];
    }
  }

  lemma {:induction false} ReachSettled(policy: Policy, t: u64, k: nat, n: nat) returns (evs: seq<Event>)
    requires Useful(policy.spending, t)
    requires n <= k && k > 0
    ensures Reaches(policy, t, evs, k,
                    policy.spending.maxDaily - Single(policy.spending) + n * Single(policy.spending), k - n)
  {
    var p := policy.spending;
    if n == 0 {
      evs := ReachInFlight(policy, t, k, k);
    } else {
      var before := ReachSettled(policy, t, k, n - 1);
      RunOneMore(Skies(NewEngine(policy, t), []), before, Settle(0));
      evs := before + [Settle(0)];
      assert Without(seq(k - n + 1, _ => Single(p)), 0) == seq(k - n, _ => Single(p));
      assert n * Single(p) == (n - 1) * Single(p) + Single(p);
    }
  }

  /** The bound cannot be improved: with `k` flows in flight, some interleaving records exactly
      the daily limit plus `k - 1` times the most one flow can carry. */
  lemma OvershootIsReached(policy: Policy, t: u64, k: nat) returns (evs: seq<Event>)
    requires Useful(policy.spending, t) && k > 0
    ensures AtMost(Unbounded, Skies(NewEngine(policy, t), []), evs, k)
    ensures Run(Unbounded, Skies(NewEngine(policy, t), []), evs).engine.spendingToday ==
            policy.spending.maxDaily + (k - 1) * Single(policy.spending)
  {
    evs := ReachSettled(policy, t, k, k);
    assert k * Single(policy.spending) == (k - 1) * Single(policy.spending) + Single(policy.spending);
  }
}
