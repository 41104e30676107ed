/** Whole sequential runs of the policy engine, with the ledger of everything they recorded. */
module Spending {
  import opened Wrappers
  import opened Windows
  import opened Policies
  import opened Runs

  /** `limit` is the daily limit in force at the latest spend recorded since the last reset. */
  datatype System = System(engine: Engine, ledger: seq<Rec>, limit: Option<nat>)

  function Start(policy: Policy, now: u64): System {
    System(NewEngine(policy, now), [], None)
  }

  /** The engine moved on without recording an amount. */
  function Moved(s: System, e: Engine): System {
    System(e, s.ledger, if e.lastDayReset == s.engine.lastDayReset then s.limit else None)
  }

  function ResetSystem(w: Width, s: System, now: nat): System {
    Moved(s, Reset(w, s.engine, now))
  }

  function Step(w: Width, s: System, ev: Event): System {
    var e := AfterEvent(w, s.engine, ev);
    if ev.Spend? && Settles(w, s.engine, ev) then
      System(e, s.ledger + [Rec(ev.now, e.lastDayReset, ev.amount)], Some(e.policy.spending.maxDaily))
    else if ev.SetPolicy? then s.(engine := e)
    else Moved(s, e)
  }

  function Run(w: Width, s: System, evs: seq<Event>): System {
    if evs == [] then s else Step(w, Run(w, s, evs[..|evs| - 1]), evs[|evs| - 1])
  }

  /** The ledger is kept beside the engine and does not act on it. */
  lemma {:induction false} RunIsOfEngine(w: Width, s: System, evs: seq<Event>)
    ensures Run(w, s, evs).engine == AfterEvents(w, s.engine, evs)
  {
    if evs != [] {
      RunIsOfEngine(w, s, evs[..|evs| - 1]);
    }
  }

  // ---------- the books ----------

  /** A window that starts at `start` is the engine's first or comes after it. */
  predicate Opened(start: nat, born: nat) {
    start == born || born + SECONDS_PER_DAY <= start
  }

  /** A record made by `clock` in the newest window or an earlier one. */
  predicate Entered(r: Rec, newest: nat, born: nat, clock: nat) {
    && r.start <= r.time < r.start + SECONDS_PER_DAY && r.time <= clock
    && (r.start == newest || r.start + SECONDS_PER_DAY <= newest)
    && Opened(r.start, born)
  }

  /** What every state keeps that an engine born at `born` reaches by `clock`: the counters are
      sums over the ledger, and windows neither overlap nor come before the engine. */
  ghost predicate Books(s: System, born: nat, clock: nat) {
    && s.engine.totalAllTime == Total(s.ledger)
    && s.engine.spendingToday == InWindow(s.ledger, s.engine.lastDayReset)
    && s.engine.lastDayReset <= clock && Opened(s.engine.lastDayReset, born)
    && (forall i :: 0 <= i < |s.ledger| ==> Entered(s.ledger[i], s.engine.lastDayReset, born, clock))
    && (s.engine.spendingToday == 0 || (s.limit.Some? && s.engine.spendingToday <= s.limit.value))
  }

  lemma ResetKeepsBooks(s: System, born: nat, clock: nat, now: nat)
    requires Books(s, born, clock) && clock <= now
    ensures Books(ResetSystem(Unbounded, s, now), born, now)
    ensures now < ResetSystem(Unbounded, s, now).engine.lastDayReset + SECONDS_PER_DAY
  {
    var r := ResetSystem(Unbounded, s, now);
    if r.engine.lastDayReset != s.engine.lastDayReset {
      EmptyWindow(s.ledger, now);
    }
  }

  /** To the spending side, a request is a reset or nothing at all. */
  lemma RequestStep(w: Width, s: System, ev: Event)
    requires ev.Request?
    ensures var r, n := if ev.names == [] then s else ResetSystem(w, s, ev.now), Step(w, s, ev);
            n == r.(engine := r.engine.(usage := n.engine.usage))
  {
    RequestOnlyResetsSpending(w, s.engine, ev.names, ev.url, ev.now, ev.ready);
  }

  lemma RecordKeepsBooks(r: System, now: u64, amount: u64, born: nat)
    requires Books(r, born, now) && now < r.engine.lastDayReset + SECONDS_PER_DAY
    requires r.engine.spendingToday + amount <= r.engine.policy.spending.maxDaily
    ensures Books(System(Record(Unbounded, r.engine, amount), r.ledger + [Rec(now, r.engine.lastDayReset, amount)],
                         Some(r.engine.policy.spending.maxDaily)), born, now)
  {
    SumsExtend(r.ledger, Rec(now, r.engine.lastDayReset, amount), r.engine.lastDayReset);
  }

  lemma StepKeepsBooks(s: System, ev: Event, born: nat, clock: nat)
    requires Books(s, born, clock) && (!ev.SetPolicy? ==> clock <= ev.now)
    ensures Books(Step(Unbounded, s, ev), born, if ev.SetPolicy? then clock else ev.now)
  {
    if !ev.SetPolicy? {
      ResetKeepsBooks(s, born, clock, ev.now);
      if ev.Request? {
        RequestStep(Unbounded, s, ev);
      } else if ev.Spend? && Settles(Unbounded, s.engine, ev) {
        RecordKeepsBooks(ResetSystem(Unbounded, s, ev.now), ev.now, ev.amount, born);
      }
    }
  }

  lemma {:induction false} RunKeepsBooks(policy: Policy, t: u64, evs: seq<Event>)
    requires Clocked(t, evs)
    ensures Books(Run(Unbounded, Start(policy, t), evs), t, Clock(t, evs))
  {
    if evs != [] {
      var before := evs[..|evs| - 1];
      RunKeepsBooks(policy, t, before);
      StepKeepsBooks(Run(Unbounded, Start(policy, t), before), evs[|evs| - 1], t, Clock(t, before));
    }
  }

  /** Over any run, with any requests and changes of policy: the all-time total is the sum of all
      recorded amounts, today's spending the sum of those since the last reset, and today's
      spending never exceeds the daily limit in force when the latest of them was recorded. */
  lemma CountersAreLedgerSums(policy: Policy, t: u64, evs: seq<Event>)
    requires Clocked(t, evs)
    ensures var s := Run(Unbounded, Start(policy, t), evs);
            && s.engine.totalAllTime == Total(s.ledger)
            && s.engine.spendingToday == InWindow(s.ledger, s.engine.lastDayReset)
            && (s.engine.spendingToday > 0 ==> s.limit.Some? && s.engine.spendingToday <= s.limit.value)
  {
    RunKeepsBooks(policy, t, evs);
  }

  /** Any number of policy changes, wherever they come, leave what is spent as it was. */
  lemma {:induction false} PolicyChangesKeepSpending(w: Width, s: System, evs: seq<Event>, changes: seq<Event>)
    requires forall i :: 0 <= i < |changes| ==> changes[i].SetPolicy?
    ensures var before, after := Run(w, s, evs), Run(w, s, evs + changes);
            after == before.(engine := before.engine.(policy := after.engine.policy))
    ensures changes != [] ==> Run(w, s, evs + changes).engine.policy == changes[|changes| - 1].policy
  {
    if changes == [] {
      assert evs + changes == evs;
    } else {
      var fewer := changes[..|changes| - 1];
      PolicyChangesKeepSpending(w, s, evs, fewer);
      assert (evs + changes)[..|evs + changes| - 1] == evs + fewer;
    }
  }

  lemma StepGrows(w: Width, s: System, ev: Event)
    ensures s.ledger <= Step(w, s, ev).ledger
    ensures w == Unbounded ==> s.engine.totalAllTime <= Step(w, s, ev).engine.totalAllTime
  {
    if ev.Request? {
      RequestStep(w, s, ev);
    }
  }

  /** Whatever happens later, policy changes included, nothing recorded is ever forgotten. */
  lemma {:induction false} LedgerOnlyGrows(w: Width, s: System, evs: seq<Event>, more: seq<Event>)
    ensures Run(w, s, evs).ledger <= Run(w, s, evs + more).ledger
    ensures w == Unbounded ==> Run(w, s, evs).engine.totalAllTime <= Run(w, s, evs + more).engine.totalAllTime
  {
    if more == [] {
      assert evs + more == evs;
    } else {
      LedgerOnlyGrows(w, s, evs, more[..|more| - 1]);
      assert (evs + more)[..|evs + more| - 1] == evs + more[..|more| - 1];
      StepGrows(w, Run(w, s, evs + more[..|more| - 1]), more[|more| - 1]);
    }
  }

  // ---------- sliding intervals ----------

  predicate Unexpired(p: SpendingPolicy, now: nat) {
    p.expiresAt.Some? ==> now <= p.expiresAt.value
  }

  predicate LimitsWithin(p: SpendingPolicy, perTx: nat, daily: nat) {
    p.maxPerTx <= perTx && p.maxDaily <= daily
  }

  /** Every policy adopted during the run stays within these limits. */
  predicate PoliciesWithin(evs: seq<Event>, perTx: nat, daily: nat) {
    forall i :: 0 <= i < |evs| && evs[i].SetPolicy? ==> LimitsWithin(evs[i].policy.spending, perTx, daily)
  }

  /** The most one window can record. */
  function Cap(perTx: nat, daily: nat): nat {
    if perTx == 0 then 0 else daily
  }

  lemma RecordIsTumbling(r: System, ev: Event, born: nat, perTx: nat, daily: nat)
    requires ev.Spend? && Books(r, born, ev.now) && ev.now < r.engine.lastDayReset + SECONDS_PER_DAY
    requires LimitsWithin(r.engine.policy.spending, perTx, daily)
    requires Tumbling(r.ledger, SECONDS_PER_DAY, Cap(perTx, daily))
    requires SpendingVerdict(Unbounded, r.engine, ev.amount, ev.now).Allowed?
    ensures Tumbling(r.ledger + [Rec(ev.now, r.engine.lastDayReset, ev.amount)], SECONDS_PER_DAY, Cap(perTx, daily))
    ensures r.engine.spendingToday + ev.amount <= Cap(perTx, daily)
  {
    assert perTx == 0 ==> ev.amount == 0;
    WithinCap(r.ledger, SECONDS_PER_DAY, Cap(perTx, daily), r.engine.lastDayReset);
    TumblingExtend(r.ledger, Rec(ev.now, r.engine.lastDayReset, ev.amount), SECONDS_PER_DAY, Cap(perTx, daily));
  }

  lemma StepIsTumbling(s: System, ev: Event, born: nat, clock: nat, perTx: nat, daily: nat)
    requires Books(s, born, clock) && (!ev.SetPolicy? ==> clock <= ev.now)
    requires LimitsWithin(s.engine.policy.spending, perTx, daily)
    requires ev.SetPolicy? ==> LimitsWithin(ev.policy.spending, perTx, daily)
    requires Tumbling(s.ledger, SECONDS_PER_DAY, Cap(perTx, daily)) && s.engine.spendingToday <= Cap(perTx, daily)
    ensures var n := Step(Unbounded, s, ev);
            && LimitsWithin(n.engine.policy.spending, perTx, daily)
            && Tumbling(n.ledger, SECONDS_PER_DAY, Cap(perTx, daily)) && n.engine.spendingToday <= Cap(perTx, daily)
  {
    if ev.Request? {
      RequestStep(Unbounded, s, ev);
    } else if ev.Spend? && Settles(Unbounded, s.engine, ev) {
      ResetKeepsBooks(s, born, clock, ev.now);
      RecordIsTumbling(ResetSystem(Unbounded, s, ev.now), ev, born, perTx, daily);
    }
  }

  /** Whatever policies are adopted on the way, each window records at most the largest of their
      daily limits. */
  lemma {:induction false} RunIsTumbling(policy: Policy, t: u64, evs: seq<Event>, perTx: nat, daily: nat)
    requires Clocked(t, evs)
    requires LimitsWithin(policy.spending, perTx, daily) && PoliciesWithin(evs, perTx, daily)
    ensures var s := Run(Unbounded, Start(policy, t), evs);
            && LimitsWithin(s.engine.policy.spending, perTx, daily)
            && Tumbling(s.ledger, SECONDS_PER_DAY, Cap(perTx, daily))
            && s.engine.spendingToday <= Cap(perTx, daily)
  {
    if evs != [] {
      var before := evs[..|evs| - 1];
      RunIsTumbling(policy, t, before, perTx, daily);
      RunKeepsBooks(policy, t, before);
      StepIsTumbling(Run(Unbounded, Start(policy, t), before), evs[|evs| - 1], t, Clock(t, before), perTx, daily);
    }
  }

  /** Every half-open interval of 24 hours records at most twice the cap; one that begins no later
      than the engine, at most once the cap. */
  lemma SlidingDayBound(policy: Policy, t: u64, evs: seq<Event>, perTx: nat, daily: nat, from: nat)
    requires Clocked(t, evs)
    requires LimitsWithin(policy.spending, perTx, daily) && PoliciesWithin(evs, perTx, daily)
    ensures var ledger := Run(Unbounded, Start(policy, t), evs).ledger;
            InInterval(ledger, from, 86_400) <= (if from <= t then 1 else 2) * Cap(perTx, daily)
  {
    var ledger := Run(Unbounded, Start(policy, t), evs).ledger;
    RunIsTumbling(policy, t, evs, perTx, daily);
    RunKeepsBooks(policy, t, evs);
    if from <= t {
      OneWindowBound(ledger, SECONDS_PER_DAY, Cap(perTx, daily), t, from);
    } else {
      SlidingBound(ledger, SECONDS_PER_DAY, Cap(perTx, daily), from);
    }
  }

  lemma FixedPolicyStays(w: Width, s: System, evs: seq<Event>)
    requires PolicyFixed(evs)
    ensures Run(w, s, evs).engine.policy == s.engine.policy
  {
    RunIsOfEngine(w, s, evs);
    PolicyStays(w, s.engine, evs);
  }

  /** Under one policy, every 24 hours record at most twice its daily limit. */
  lemma FixedPolicyDayBound(policy: Policy, t: u64, evs: seq<Event>, from: nat)
    requires Clocked(t, evs) && PolicyFixed(evs)
    ensures var s, cap := Run(Unbounded, Start(policy, t), evs),
                          Cap(policy.spending.maxPerTx, policy.spending.maxDaily);
            && s.engine.policy == policy
            && s.engine.spendingToday <= cap
            && InInterval(s.ledger, from, 86_400) <= 2 * cap
  {
    FixedPolicyStays(Unbounded, Start(policy, t), evs);
    RunIsTumbling(policy, t, evs, policy.spending.maxPerTx, policy.spending.maxDaily);
    SlidingDayBound(policy, t, evs, policy.spending.maxPerTx, policy.spending.maxDaily, from);
  }

  /** The policy in force when event `k` of a run comes. */
  function PolicyAt(w: Width, s: System, evs: seq<Event>, k: nat): SpendingPolicy
    requires k <= |evs|
  {
    Run(w, s, evs[..k]).engine.policy.spending
  }

  /** Every record is a settled spend of the run, made within the transaction limit and before the
      expiry of the policy in force at that moment. */
  lemma {:induction false} EveryRecordWithinLimits(w: Width, policy: Policy, t: u64, evs: seq<Event>, i: nat)
    returns (k: nat)
    requires i < |Run(w, Start(policy, t), evs).ledger|
    ensures var r := Run(w, Start(policy, t), evs).ledger[i];
            && k < |evs| && evs[k].Spend? && evs[k].settled
            && r.time == evs[k].now && r.amount == evs[k].amount
            && r.amount <= PolicyAt(w, Start(policy, t), evs, k).maxPerTx
            && Unexpired(PolicyAt(w, Start(policy, t), evs, k), r.time)
  {
    var before, ev := evs[..|evs| - 1], evs[|evs| - 1];
    var s := Run(w, Start(policy, t), before);
    if ev.Request? {
      RequestStep(w, s, ev);
    }
    if i < |s.ledger| {
      k := EveryRecordWithinLimits(w, policy, t, before, i);
      assert evs[..k] == before[..k];
    } else {
      k := |evs| - 1;
    }
  }

  // ---------- the bound is reached ----------

  /** Spends at one moment that together amount to `missing`. */
  function Fill(now: u64, perTx: u64, missing: u64): seq<Event>
    requires perTx > 0
  {
    if missing == 0 then []
    else if missing <= perTx then [Spend(now, missing, true)]
    else Fill(now, perTx, missing - perTx) + [Spend(now, perTx, true)]
  }

  lemma {:induction false} RunAppend(w: Width, s: System, a: seq<Event>, b: seq<Event>)
    ensures Run(w, s, a + b) == Run(w, Run(w, s, a), b)
  {
    if b == [] {
      assert a + b == a;
    } else {
      RunAppend(w, s, a, b[..|b| - 1]);
      assert (a + b)[..|a + b| - 1] == a + b[..|b| - 1];
    }
  }

  lemma SpendSettles(e: Engine, now: u64, amount: u64)
    requires amount <= e.policy.spending.maxPerTx && Unexpired(e.policy.spending, now)
    requires Reset(Unbounded, e, now).spendingToday + amount <= e.policy.spending.maxDaily
    ensures Settles(Unbounded, e, Spend(now, amount, true))
    ensures AfterEvent(Unbounded, e, Spend(now, amount, true)) == Record(Unbounded, Reset(Unbounded, e, now), amount)
  {
  }

  /** A settled spend within the limits is recorded. */
  lemma SpendIsRecorded(s: System, now: u64, amount: u64, from: nat)
    requires var p := s.engine.policy.spending; amount <= p.maxPerTx && Unexpired(p, now)
    requires Reset(Unbounded, s.engine, now).spendingToday + amount <= s.engine.policy.spending.maxDaily
    ensures var n := Step(Unbounded, s, Spend(now, amount, true));
            && n.engine == Record(Unbounded, Reset(Unbounded, s.engine, now), amount)
            && InInterval(n.ledger, from, SECONDS_PER_DAY) ==
               InInterval(s.ledger, from, SECONDS_PER_DAY) +
               if from <= now < from + SECONDS_PER_DAY then amount else 0
  {
    var start := AfterEvent(Unbounded, s.engine, Spend(now, amount, true)).lastDayReset;
    SpendSettles(s.engine, now, amount);
    SumsExtend(s.ledger, Rec(now, start, amount), start);
  }

  lemma RunOneMore(w: Width, s: System, evs: seq<Event>, ev: Event)
    ensures Run(w, s, evs + [ev]) == Step(w, Run(w, s, evs), ev)
  {
    assert (evs + [ev])[..|evs|] == evs;
  }

  /** Spending so far in the window that `now` falls in, and when that window began. */
  function SpentBy(s: System, now: nat): nat {
    if now >= s.engine.lastDayReset + SECONDS_PER_DAY then 0 else s.engine.spendingToday
  }

  function WindowAt(s: System, now: nat): nat {
    if now >= s.engine.lastDayReset + SECONDS_PER_DAY then now else s.engine.lastDayReset
  }

  predicate CanFill(s: System, now: u64, missing: u64) {
    var p := s.engine.policy.spending;
    p.maxPerTx > 0 && Unexpired(p, now) && missing <= p.maxDaily && SpentBy(s, now) == 0
  }

  /** `r` is `s` after `missing` was spent at `now`, on top of nothing. */
  predicate FilledTo(s: System, r: System, now: u64, missing: u64, from: nat) {
    && r.engine.policy == s.engine.policy
    && SpentBy(r, now) == missing
    && WindowAt(r, now) == WindowAt(s, now)
    && (missing > 0 ==> r.engine.lastDayReset == WindowAt(s, now))
    && InInterval(r.ledger, from, SECONDS_PER_DAY) ==
       InInterval(s.ledger, from, SECONDS_PER_DAY) +
       if from <= now < from + SECONDS_PER_DAY then missing else 0
  }

  lemma FillStep(s: System, m: System, now: u64, missing: u64, amount: u64, from: nat)
    requires CanFill(s, now, missing) && amount <= missing && 0 < amount <= s.engine.policy.spending.maxPerTx
    requires FilledTo(s, m, now, missing - amount, from)
    ensures FilledTo(s, Step(Unbounded, m, Spend(now, amount, true)), now, missing, from)
  {
    SpendIsRecorded(m, now, amount, from);
  }

  lemma FillLast(now: u64, perTx: u64, missing: u64) returns (rest: u64)
    requires perTx > 0 && missing > 0
    ensures rest < missing <= rest + perTx
    ensures Fill(now, perTx, missing) == Fill(now, perTx, rest) + [Spend(now, missing - rest, true)]
  {
    rest := if missing <= perTx then 0 else missing - perTx;
    assert [] + [Spend(now, missing, true)] == [Spend(now, missing, true)];
  }

  lemma FillNothing(s: System, now: u64, from: nat)
    requires SpentBy(s, now) == 0
    ensures FilledTo(s, s, now, 0, from)
  {
  }

  lemma RunLastSpend(s: System, now: u64, missing: u64, rest: u64, from: nat)
    requires CanFill(s, now, missing)
    requires var perTx := s.engine.policy.spending.maxPerTx;
             rest < missing <= rest + perTx &&
             Fill(now, perTx, missing) == Fill(now, perTx, rest) + [Spend(now, missing - rest, true)]
    requires FilledTo(s, Run(Unbounded, s, Fill(now, s.engine.policy.spending.maxPerTx, rest)), now, rest, from)
    ensures FilledTo(s, Run(Unbounded, s, Fill(now, s.engine.policy.spending.maxPerTx, missing)), now, missing, from)
  {
    var before := Fill(now, s.engine.policy.spending.maxPerTx, rest);
    var amount: u64 := missing - rest;
    RunOneMore(Unbounded, s, before, Spend(now, amount, true));
    FillStep(s, Run(Unbounded, s, before), now, missing, amount, from);
  }

  /** From nothing spent today, `Fill` brings today's spending to any amount within the limit. */
  lemma {:induction false} FillSpends(s: System, now: u64, missing: u64, from: nat)
    requires CanFill(s, now, missing)
    ensures FilledTo(s, Run(Unbounded, s, Fill(now, s.engine.policy.spending.maxPerTx, missing)),
                     now, missing, from)
    decreases missing
  {
    if missing == 0 {
      FillNothing(s, now, from);
    } else {
      var rest := FillLast(now, s.engine.policy.spending.maxPerTx, missing);
      FillSpends(s, now, rest, from);
      RunLastSpend(s, now, missing, rest, from);
    }
  }

  lemma EndsByOneMore(t: nat, evs: seq<Event>, now: u64, amount: u64)
    requires EndsBy(t, evs, now)
    ensures EndsBy(t, evs + [Spend(now, amount, true)], now)
  {
    assert (evs + [Spend(now, amount, true)])[..|evs|] == evs;
  }

  lemma {:induction false} FillClock(t: nat, evs: seq<Event>, now: u64, perTx: u64, missing: u64)
    requires perTx > 0 && EndsBy(t, evs, now)
    ensures EndsBy(t, evs + Fill(now, perTx, missing), now)
    decreases missing
  {
    if missing == 0 {
      assert evs + [] == evs;
    } else {
      var rest := FillLast(now, perTx, missing);
      FillClock(t, evs, now, perTx, rest);
      EndsByOneMore(t, evs + Fill(now, perTx, rest), now, missing - rest);
      assert evs + Fill(now, perTx, missing) ==
             evs + Fill(now, perTx, rest) + [Spend(now, missing - rest, true)];
    }
  }

  lemma FillFromStart(t: u64, now: u64, perTx: u64, missing: u64)
    requires perTx > 0 && t <= now
    ensures EndsBy(t, Fill(now, perTx, missing), now)
  {
    FillClock(t, [], now, perTx, missing);
    assert [] + Fill(now, perTx, missing) == Fill(now, perTx, missing);
  }

  /** Spend the whole limit in the last second of one window and again in the first of the next. */
  function AcrossMidnight(p: SpendingPolicy, t: u64): seq<Event>
    requires p.maxPerTx > 0 && t + SECONDS_PER_DAY < TWO_TO_THE_64
  {
    Fill(t + SECONDS_PER_DAY - 1, p.maxPerTx, p.maxDaily) + Fill(t + SECONDS_PER_DAY, p.maxPerTx, p.maxDaily)
  }

  lemma AcrossMidnightIsClocked(p: SpendingPolicy, t: u64)
    requires p.maxPerTx > 0 && t + SECONDS_PER_DAY < TWO_TO_THE_64
    ensures EndsBy(t, AcrossMidnight(p, t), t + SECONDS_PER_DAY)
  {
    var a := Fill(t + SECONDS_PER_DAY - 1, p.maxPerTx, p.maxDaily);
    FillFromStart(t, t + SECONDS_PER_DAY - 1, p.maxPerTx, p.maxDaily);
    FillClock(t, a, t + SECONDS_PER_DAY, p.maxPerTx, p.maxDaily);
  }

  /** Once the limit is spent in the last second of the first window, the next one starts empty. */
  lemma FreshAtTheEdge(policy: Policy, t: u64, m: System)
    requires var p := policy.spending; p.maxPerTx > 0 && Unexpired(p, t + SECONDS_PER_DAY)
    requires t + SECONDS_PER_DAY < TWO_TO_THE_64
    requires var late: nat := t + SECONDS_PER_DAY - 1;
             FilledTo(Start(policy, t), m, late, policy.spending.maxDaily, late)
    ensures CanFill(m, t + SECONDS_PER_DAY, policy.spending.maxDaily) && m.engine.policy == policy
    ensures InInterval(m.ledger, t + SECONDS_PER_DAY - 1, SECONDS_PER_DAY) == policy.spending.maxDaily
  {
  }

  lemma SecondWindowFills(policy: Policy, t: u64, m: System)
    requires t + SECONDS_PER_DAY < TWO_TO_THE_64
    requires CanFill(m, t + SECONDS_PER_DAY, policy.spending.maxDaily) && m.engine.policy == policy
    ensures var p, early := policy.spending, t + SECONDS_PER_DAY;
            InInterval(Run(Unbounded, m, Fill(early, p.maxPerTx, p.maxDaily)).ledger, early - 1, SECONDS_PER_DAY)
            == InInterval(m.ledger, early - 1, SECONDS_PER_DAY) + p.maxDaily
  {
    FillSpends(m, t + SECONDS_PER_DAY, policy.spending.maxDaily, t + SECONDS_PER_DAY - 1);
  }

  /** The bound cannot be improved: some run records twice the limit within 24 hours. */
  lemma TwiceTheLimitIsReached(policy: Policy, t: u64)
    requires var p := policy.spending; p.maxPerTx > 0 && Unexpired(p, t + 86_400)
    requires t + 86_400 < TWO_TO_THE_64
    ensures InInterval(Run(Unbounded, Start(policy, t), AcrossMidnight(policy.spending, t)).ledger,
                       t + 86_400 - 1, 86_400)
            == 2 * policy.spending.maxDaily
  {
    var p := policy.spending;
    var late, early := t + SECONDS_PER_DAY - 1, t + SECONDS_PER_DAY;
    var a, b := Fill(late, p.maxPerTx, p.maxDaily), Fill(early, p.maxPerTx, p.maxDaily);
    var m := Run(Unbounded, Start(policy, t), a);
    FillSpends(Start(policy, t), late, p.maxDaily, late);
    FreshAtTheEdge(policy, t, m);
    SecondWindowFills(policy, t, m);
    RunAppend(Unbounded, Start(policy, t), a, b);
  }

  /** The documented promise: no 24 hours, wherever they start, record more than the limit. */
  ghost predicate RollingPromise(policy: Policy, t: u64) {
    forall evs, from: nat :: Clocked(t, evs) && PolicyFixed(evs) ==>
      InInterval(Run(Unbounded, Start(policy, t), evs).ledger, from, 86_400) <= policy.spending.maxDaily
  }

  /** A mandate that expires within a day of its engine's start records in one window only. */
  lemma ExpiringDayBound(policy: Policy, t: u64, evs: seq<Event>, from: nat)
    requires Clocked(t, evs) && PolicyFixed(evs) && !Unexpired(policy.spending, t + SECONDS_PER_DAY)
    ensures InInterval(Run(Unbounded, Start(policy, t), evs).ledger, from, SECONDS_PER_DAY)
            <= policy.spending.maxDaily
  {
    var s := Start(policy, t);
    var ledger := Run(Unbounded, s, evs).ledger;
    RunKeepsBooks(policy, t, evs);
    RunIsTumbling(policy, t, evs, policy.spending.maxPerTx, policy.spending.maxDaily);
    forall i | 0 <= i < |ledger|
      ensures ledger[i].start == t
    {
      var k := EveryRecordWithinLimits(Unbounded, policy, t, evs, i);
      FixedPolicyStays(Unbounded, s, evs[..k]);
    }
    OneWindowBound(ledger, SECONDS_PER_DAY, Cap(policy.spending.maxPerTx, policy.spending.maxDaily), t, from);
  }

  /** The windows tumble, so the promise holds exactly for a policy that allows nothing at all or
      expires before a second window can begin. */
  lemma RollingPromiseExactly(policy: Policy, t: u64)
    requires t + 86_400 < TWO_TO_THE_64
    ensures RollingPromise(policy, t) <==>
              policy.spending.maxPerTx == 0 || policy.spending.maxDaily == 0 ||
              !Unexpired(policy.spending, t + 86_400)
  {
    var p := policy.spending;
    if p.maxPerTx == 0 || p.maxDaily == 0 || !Unexpired(p, t + SECONDS_PER_DAY) {
      forall evs, from: nat | Clocked(t, evs) && PolicyFixed(evs)
        ensures InInterval(Run(Unbounded, Start(policy, t), evs).ledger, from, SECONDS_PER_DAY) <= p.maxDaily
      {
        if Unexpired(p, t + SECONDS_PER_DAY) {
          FixedPolicyDayBound(policy, t, evs, from);
        } else {
          ExpiringDayBound(policy, t, evs, from);
        }
      }
    } else {
      AcrossMidnightIsClocked(p, t);
      TwiceTheLimitIsReached(policy, t);
      var evs := AcrossMidnight(p, t);
      assert InInterval(Run(Unbounded, Start(policy, t), evs).ledger, t + SECONDS_PER_DAY - 1, SECONDS_PER_DAY)
             > p.maxDaily;
    }
  }

  // ---------- machine integers ----------

  predicate TimesInRange(evs: seq<Event>) {
    forall i :: 0 <= i < |evs| && !evs[i].SetPolicy? ==> evs[i].now + SECONDS_PER_DAY < TWO_TO_THE_64
  }

  /** The machine's state stands for the exact one. */
  ghost predicate Agree(m: System, x: System) {
    && m.ledger == x.ledger && m.limit == x.limit
    && m.engine.policy == x.engine.policy
    && m.engine.spendingToday == x.engine.spendingToday
    && m.engine.totalAllTime == x.engine.totalAllTime % TWO_TO_THE_64
    && m.engine.lastDayReset == x.engine.lastDayReset
    && x.engine.lastDayReset + SECONDS_PER_DAY < TWO_TO_THE_64
  }

  lemma ResetAgrees(m: System, x: System, now: u64)
    requires Agree(m, x) && now + SECONDS_PER_DAY < TWO_TO_THE_64
    ensures Agree(ResetSystem(Machine, m, now), ResetSystem(Unbounded, x, now))
  {
  }

  lemma SumAgrees(a: nat, b: nat)
    ensures (a % TWO_TO_THE_64 + b) % TWO_TO_THE_64 == (a + b) % TWO_TO_THE_64
  {
  }

  lemma RecordAgrees(m: System, x: System, now: u64, amount: u64)
    requires Agree(m, x) && x.engine.spendingToday + amount < TWO_TO_THE_64
    ensures var rec := Rec(now, x.engine.lastDayReset, amount);
            var limit := Some(x.engine.policy.spending.maxDaily);
            Agree(System(Record(Machine, m.engine, amount), m.ledger + [rec], limit),
                  System(Record(Unbounded, x.engine, amount), x.ledger + [rec], limit))
  {
    SumAgrees(x.engine.totalAllTime, amount);
  }

  lemma StepAgrees(m: System, x: System, ev: Event)
    requires Agree(m, x) && (!ev.SetPolicy? ==> ev.now + SECONDS_PER_DAY < TWO_TO_THE_64)
    requires ev.Spend? ==> x.engine.policy.spending.maxPerTx + x.engine.spendingToday < TWO_TO_THE_64
    ensures Agree(Step(Machine, m, ev), Step(Unbounded, x, ev))
  {
    if !ev.SetPolicy? {
      ResetAgrees(m, x, ev.now);
      if ev.Request? {
        RequestStep(Machine, m, ev);
        RequestStep(Unbounded, x, ev);
      } else if ev.Spend? && Settles(Unbounded, x.engine, ev) {
        RecordAgrees(ResetSystem(Machine, m, ev.now), ResetSystem(Unbounded, x, ev.now), ev.now, ev.amount);
      }
    }
  }

  /** Limits that fit one machine integer together. */
  predicate NoOverflow(t: nat, evs: seq<Event>, perTx: nat, daily: nat) {
    perTx + daily < TWO_TO_THE_64 && TimesInRange(evs) && t + SECONDS_PER_DAY < TWO_TO_THE_64
  }

  /** While the largest limits adopted fit one machine integer together, the wrapping engine makes
      the same decisions and keeps the same counters as exact arithmetic; only the all-time total
      is kept modulo 2^64. */
  lemma {:induction false} MachineAgrees(policy: Policy, t: u64, evs: seq<Event>, perTx: nat, daily: nat)
    requires Clocked(t, evs) && NoOverflow(t, evs, perTx, daily)
    requires LimitsWithin(policy.spending, perTx, daily) && PoliciesWithin(evs, perTx, daily)
    ensures Agree(Run(Machine, Start(policy, t), evs), Run(Unbounded, Start(policy, t), evs))
  {
    if evs != [] {
      var before := evs[..|evs| - 1];
      MachineAgrees(policy, t, before, perTx, daily);
      RunIsTumbling(policy, t, before, perTx, daily);
      StepAgrees(Run(Machine, Start(policy, t), before), Run(Unbounded, Start(policy, t), before), evs[|evs| - 1]);
    }
  }

  /** So the bound over every 24 hours holds of the machine's ledger too. */
  lemma MachineSlidingDayBound(policy: Policy, t: u64, evs: seq<Event>, perTx: nat, daily: nat, from: nat)
    requires Clocked(t, evs) && NoOverflow(t, evs, perTx, daily)
    requires LimitsWithin(policy.spending, perTx, daily) && PoliciesWithin(evs, perTx, daily)
    ensures var m := Run(Machine, Start(policy, t), evs);
            && InInterval(m.ledger, from, 86_400) <= (if from <= t then 1 else 2) * Cap(perTx, daily)
            && m.engine.spendingToday == InWindow(m.ledger, m.engine.lastDayReset) <= Cap(perTx, daily)
            && m.engine.totalAllTime == Total(m.ledger) % TWO_TO_THE_64
  {
    MachineAgrees(policy, t, evs, perTx, daily);
    SlidingDayBound(policy, t, evs, perTx, daily, from);
    RunKeepsBooks(policy, t, evs);
    RunIsTumbling(policy, t, evs, perTx, daily);
  }

  /** In every state that a run under this policy reaches, the wrapping check decides as the exact
      one. */
  ghost predicate CheckNeverWraps(policy: Policy, t: u64) {
    forall evs, amount: u64, now: u64 :: Clocked(t, evs) && PolicyFixed(evs) ==>
      var e := Run(Unbounded, Start(policy, t), evs).engine;
      SpendingVerdict(Machine, e, amount, now) == SpendingVerdict(Unbounded, e, amount, now)
  }

  lemma NothingAfterExpiry(policy: Policy, t: u64, evs: seq<Event>)
    requires Clocked(t, evs) && PolicyFixed(evs) && !Unexpired(policy.spending, t)
    ensures Run(Unbounded, Start(policy, t), evs).engine.spendingToday == 0
  {
    var s := Run(Unbounded, Start(policy, t), evs);
    RunKeepsBooks(policy, t, evs);
    if s.ledger != [] {
      var k := EveryRecordWithinLimits(Unbounded, policy, t, evs, 0);
      FixedPolicyStays(Unbounded, Start(policy, t), evs[..k]);
    }
  }

  lemma CheckNeverWrapsExactly(policy: Policy, t: u64)
    ensures CheckNeverWraps(policy, t) <==>
            policy.spending.maxPerTx + policy.spending.maxDaily < TWO_TO_THE_64 || !Unexpired(policy.spending, t)
  {
    var p := policy.spending;
    if p.maxPerTx + p.maxDaily < TWO_TO_THE_64 || !Unexpired(p, t) {
      forall evs, amount: u64, now: u64 | Clocked(t, evs) && PolicyFixed(evs)
        ensures var e := Run(Unbounded, Start(policy, t), evs).engine;
                SpendingVerdict(Machine, e, amount, now) == SpendingVerdict(Unbounded, e, amount, now)
      {
        FixedPolicyDayBound(policy, t, evs, 0);
        if !Unexpired(p, t) {
          NothingAfterExpiry(policy, t, evs);
        }
      }
    } else {
      var s, evs := Start(policy, t), Fill(t, p.maxPerTx, p.maxDaily);
      FillSpends(s, t, p.maxDaily, 0);
      FillFromStart(t, t, p.maxPerTx, p.maxDaily);
      var e := Run(Unbounded, s, evs).engine;
      assert SpendingVerdict(Machine, e, p.maxPerTx, t) != SpendingVerdict(Unbounded, e, p.maxPerTx, t);
    }
  }
}
