/** Runs across restarts. The engine lives in memory only: after a restart the next caller creates
    one that has counted nothing and knows no rules, whatever happened before. */
module Lives {
  import opened Wrappers
  import opened Windows
  import opened Policies
  import opened Runs
  import Spending
  import Rates

  /** One life of the module: when it was booted, when its engine was created, and what happened to
      the engine since. */
  datatype Life = Life(booted: nat, born: u64, events: seq<Event>)

  /** What is counted: amounts paid, or the calls of a secret in their minute or day windows. */
  datatype Tally = Payments | CallsPerMinute(name: string) | CallsPerDay(name: string)

  function Span(tally: Tally): nat {
    if tally.CallsPerMinute? then SECONDS_PER_MINUTE else SECONDS_PER_DAY
  }

  function StateOf(w: Width, life: Life): Spending.System {
    Spending.Run(w, Spending.Start(NO_POLICY, life.born), life.events)
  }

  function MeterOf(w: Width, life: Life, n: string): Rates.Meter {
    Rates.Run(w, n, Rates.Begin(NewEngine(NO_POLICY, life.born)), life.events)
  }

  function Tallied(w: Width, life: Life, tally: Tally): seq<Rec> {
    match tally
    case Payments => StateOf(w, life).ledger
    case CallsPerMinute(n) => MeterOf(w, life, n).minute
    case CallsPerDay(n) => MeterOf(w, life, n).day
  }

  ghost function EngineAt(w: Width, life: Life): Engine {
    AfterEvents(w, NewEngine(NO_POLICY, life.born), life.events)
  }

  /** The record that an event adds to a tally. */
  function Added(w: Width, e: Engine, ev: Event, tally: Tally): seq<Rec> {
    var after := AfterEvent(w, e, ev);
    match tally
    case Payments =>
      if ev.Spend? && Settles(w, e, ev) then [Rec(ev.now, after.lastDayReset, ev.amount)] else []
    case CallsPerMinute(n) =>
      if Rates.Calls(w, e, n, ev) then [Rec(ev.now, Rates.Counters(after, n, ev.now).lastMinuteReset, 1)] else []
    case CallsPerDay(n) =>
      if Rates.Calls(w, e, n, ev) then [Rec(ev.now, Rates.Counters(after, n, ev.now).lastDayReset, 1)] else []
  }

  /** A life that goes on by one event adds one record or none to each tally. */
  lemma TalliedOneMore(w: Width, life: Life, ev: Event, tally: Tally)
    ensures var grown := life.(events := life.events + [ev]);
            && Tallied(w, grown, tally) == Tallied(w, life, tally) + Added(w, EngineAt(w, life), ev, tally)
            && EngineAt(w, grown) == AfterEvent(w, EngineAt(w, life), ev)
  {
    var e := NewEngine(NO_POLICY, life.born);
    assert (life.events + [ev])[..|life.events|] == life.events;
    match tally
    case Payments => Spending.RunIsOfEngine(w, Spending.Start(NO_POLICY, life.born), life.events);
    case CallsPerMinute(n) => Rates.RunIsOfEngine(w, n, Rates.Begin(e), life.events);
    case CallsPerDay(n) => Rates.RunIsOfEngine(w, n, Rates.Begin(e), life.events);
  }

  /** Everything recorded over several lives. */
  function All(w: Width, lives: seq<Life>, tally: Tally): seq<Rec> {
    if lives == [] then []
    else All(w, lives[..|lives| - 1], tally) + Tallied(w, lives[|lives| - 1], tally)
  }

  function End(lives: seq<Life>): nat {
    if lives == [] then 0 else Clock(lives[|lives| - 1].born, lives[|lives| - 1].events)
  }

  /** Each life begins after the one before it has ended. */
  predicate InOrder(lives: seq<Life>) {
    lives == [] ||
    (var before, life := lives[..|lives| - 1], lives[|lives| - 1];
     && InOrder(before) && End(before) <= life.booted <= life.born
     && Clocked(life.born, life.events))
  }

  /** Restarts in `[from, from + span)`; the first boot is none. */
  function Restarts(lives: seq<Life>, from: nat, span: nat): nat {
    if |lives| <= 1 then 0
    else
      Restarts(lives[..|lives| - 1], from, span) +
      if from <= lives[|lives| - 1].booted < from + span then 1 else 0
  }

  // ---------- restarts add up ----------

  /** The records of a life lie between its birth and its end. An interval holds at most `first` of
      them, and at most `cap` if it begins no later than the life. */
  ghost predicate Capped(w: Width, life: Life, tally: Tally, first: nat, cap: nat) {
    var h := Tallied(w, life, tally);
    && (forall i :: 0 <= i < |h| ==> life.born <= h[i].time <= Clock(life.born, life.events))
    && (forall from: nat :: InInterval(h, from, Span(tally)) <= if from <= life.born then cap else first)
  }

  ghost predicate AllCapped(w: Width, lives: seq<Life>, tally: Tally, first: nat, cap: nat) {
    InOrder(lives) && cap <= first && forall i :: 0 <= i < |lives| ==> Capped(w, lives[i], tally, first, cap)
  }

  lemma CappedBefore(w: Width, lives: seq<Life>, tally: Tally, first: nat, cap: nat)
    requires AllCapped(w, lives, tally, first, cap) && lives != []
    ensures AllCapped(w, lives[..|lives| - 1], tally, first, cap)
    ensures Capped(w, lives[|lives| - 1], tally, first, cap)
  {
    assert forall i :: 0 <= i < |lives| - 1 ==> lives[..|lives| - 1][i] == lives[i];
  }

  lemma {:induction false} ClockAfter(t: nat, evs: seq<Event>)
    requires Clocked(t, evs)
    ensures t <= Clock(t, evs)
  {
    if evs != [] {
      ClockAfter(t, evs[..|evs| - 1]);
    }
  }

  lemma {:induction false} RecordedByTheEnd(w: Width, lives: seq<Life>, tally: Tally, first: nat, cap: nat)
    requires AllCapped(w, lives, tally, first, cap)
    ensures forall i :: 0 <= i < |All(w, lives, tally)| ==> All(w, lives, tally)[i].time <= End(lives)
  {
    if lives != [] {
      var life := lives[|lives| - 1];
      CappedBefore(w, lives, tally, first, cap);
      RecordedByTheEnd(w, lives[..|lives| - 1], tally, first, cap);
      ClockAfter(life.born, life.events);
    }
  }

  /** What the last life adds to an interval. */
  lemma LastLifeAdds(w: Width, lives: seq<Life>, tally: Tally, first: nat, cap: nat, from: nat)
    requires AllCapped(w, lives, tally, first, cap) && lives != []
    ensures var before, life := lives[..|lives| - 1], lives[|lives| - 1];
            var sum := InInterval(All(w, lives, tally), from, Span(tally));
            var earlier := InInterval(All(w, before, tally), from, Span(tally));
            sum <= if life.booted < from then first
                   else if life.booted < from + Span(tally) then earlier + cap
                   else earlier
  {
    var before, life := lives[..|lives| - 1], lives[|lives| - 1];
    CappedBefore(w, lives, tally, first, cap);
    InIntervalConcat(All(w, before, tally), Tallied(w, life, tally), from, Span(tally));
    if life.booted < from {
      RecordedByTheEnd(w, before, tally, first, cap);
      NothingInside(All(w, before, tally), from, Span(tally));
    } else if life.booted >= from + Span(tally) {
      NothingInside(Tallied(w, life, tally), from, Span(tally));
    }
  }

  /** Every restart within an interval allows one more cap on top of what one life can put into it. */
  lemma {:induction false} RestartBound(w: Width, lives: seq<Life>, tally: Tally, first: nat, cap: nat, from: nat)
    requires AllCapped(w, lives, tally, first, cap)
    ensures InInterval(All(w, lives, tally), from, Span(tally)) <= first + Restarts(lives, from, Span(tally)) * cap
  {
    if |lives| == 1 {
      LastLifeAdds(w, lives, tally, first, cap, from);
      assert All(w, lives[..0], tally) == [];
    } else if lives != [] {
      var r := Restarts(lives[..|lives| - 1], from, Span(tally));
      CappedBefore(w, lives, tally, first, cap);
      LastLifeAdds(w, lives, tally, first, cap, from);
      RestartBound(w, lives[..|lives| - 1], tally, first, cap, from);
      CapsGrow(r, Restarts(lives, from, Span(tally)), cap);
    }
  }

  lemma OneMoreCap(r: nat, cap: nat)
    ensures 0 <= r * cap && r * cap + cap == (r + 1) * cap
  {
  }

  lemma CapsGrow(r: nat, total: nat, cap: nat)
    requires r <= total <= r + 1
    ensures 0 <= r * cap <= total * cap && (total == r + 1 ==> total * cap == r * cap + cap)
  {
    OneMoreCap(r, cap);
  }

  // ---------- payments ----------

  /** All policies adopted in any life stay within these limits, and no sum overflows. */
  ghost predicate Proper(w: Width, lives: seq<Life>, perTx: nat, daily: nat) {
    && InOrder(lives)
    && (forall i :: 0 <= i < |lives| ==> Spending.PoliciesWithin(lives[i].events, perTx, daily))
    && (w == Machine ==>
          forall i :: 0 <= i < |lives| ==> Spending.NoOverflow(lives[i].born, lives[i].events, perTx, daily))
  }

  lemma PaymentsAreCapped(w: Width, life: Life, perTx: nat, daily: nat)
    requires Clocked(life.born, life.events) && Spending.PoliciesWithin(life.events, perTx, daily)
    requires w == Machine ==> Spending.NoOverflow(life.born, life.events, perTx, daily)
    ensures Capped(w, life, Payments, 2 * Spending.Cap(perTx, daily), Spending.Cap(perTx, daily))
  {
    Spending.RunKeepsBooks(NO_POLICY, life.born, life.events);
    if w == Machine {
      Spending.MachineAgrees(NO_POLICY, life.born, life.events, perTx, daily);
    }
    forall from: nat
      ensures InInterval(StateOf(w, life).ledger, from, SECONDS_PER_DAY)
              <= (if from <= life.born then 1 else 2) * Spending.Cap(perTx, daily)
    {
      Spending.SlidingDayBound(NO_POLICY, life.born, life.events, perTx, daily, from);
    }
  }

  lemma {:induction false} OrderedIsClocked(lives: seq<Life>, i: nat)
    requires InOrder(lives) && i < |lives|
    ensures Clocked(lives[i].born, lives[i].events)
  {
    if i < |lives| - 1 {
      OrderedIsClocked(lives[..|lives| - 1], i);
    }
  }

  lemma ProperIsCapped(w: Width, lives: seq<Life>, perTx: nat, daily: nat)
    requires Proper(w, lives, perTx, daily)
    ensures AllCapped(w, lives, Payments, 2 * Spending.Cap(perTx, daily), Spending.Cap(perTx, daily))
  {
    forall i | 0 <= i < |lives|
      ensures Capped(w, lives[i], Payments, 2 * Spending.Cap(perTx, daily), Spending.Cap(perTx, daily))
    {
      OrderedIsClocked(lives, i);
      PaymentsAreCapped(w, lives[i], perTx, daily);
    }
  }

  /** Every 24 hours pay at most two limits, and one more for every restart in them. */
  lemma PaymentsBound(w: Width, lives: seq<Life>, perTx: nat, daily: nat, from: nat)
    requires Proper(w, lives, perTx, daily)
    ensures InInterval(All(w, lives, Payments), from, 86_400)
            <= 2 * Spending.Cap(perTx, daily) + Restarts(lives, from, 86_400) * Spending.Cap(perTx, daily)
  {
    ProperIsCapped(w, lives, perTx, daily);
    RestartBound(w, lives, Payments, 2 * Spending.Cap(perTx, daily), Spending.Cap(perTx, daily), from);
  }

  // ---------- calls ----------

  /** Whenever the secret is called in any life, the policy in force restricts it to these limits. */
  ghost predicate Ruled(w: Width, lives: seq<Life>, n: string, perMinute: nat, perDay: nat) {
    && InOrder(lives)
    && forall i :: 0 <= i < |lives| ==> RuledLife(w, lives[i], n, perMinute, perDay)
  }

  ghost predicate RuledLife(w: Width, life: Life, n: string, perMinute: nat, perDay: nat) {
    && Rates.Proper(w, life.born, life.events)
    && Rates.Ruled(w, NewEngine(NO_POLICY, life.born), life.events, n, perMinute, perDay)
  }

  /** The most calls one window can hold. */
  function MinuteCap(perMinute: nat, perDay: nat): nat {
    Rates.Less(Rates.Most(perMinute), Rates.Most(perDay))
  }

  lemma LifeCalls(w: Width, life: Life, n: string, perMinute: nat, perDay: nat, from: nat)
    requires RuledLife(w, life, n, perMinute, perDay)
    ensures var m, c, d := MeterOf(w, life, n), MinuteCap(perMinute, perDay), Rates.Most(perDay);
            && InInterval(m.minute, from, SECONDS_PER_MINUTE) <= (if from <= life.born then c else 2 * c)
            && InInterval(m.day, from, SECONDS_PER_DAY) <= (if from <= life.born then d else 2 * d)
  {
    var e := NewEngine(NO_POLICY, life.born);
    Rates.RateLimitsHold(w, e, life.born, life.events, n, perMinute, perDay, from);
    if from <= life.born {
      Rates.FirstLimitsHold(w, e, life.born, life.events, n, perMinute, perDay, from);
    }
  }

  lemma LifeCallTimes(w: Width, life: Life, n: string)
    requires Rates.Proper(w, life.born, life.events)
    ensures var m := MeterOf(w, life, n);
            && Rates.Dated(m.minute, life.born, Clock(life.born, life.events))
            && Rates.Dated(m.day, life.born, Clock(life.born, life.events))
            && |m.minute| == |m.day|
  {
    Rates.RunOpens(w, NewEngine(NO_POLICY, life.born), life.born, life.events, n);
  }

  lemma MinutesAreCapped(w: Width, lives: seq<Life>, n: string, perMinute: nat, perDay: nat)
    requires Ruled(w, lives, n, perMinute, perDay)
    ensures var c := MinuteCap(perMinute, perDay); AllCapped(w, lives, CallsPerMinute(n), 2 * c, c)
  {
    var c := MinuteCap(perMinute, perDay);
    forall i | 0 <= i < |lives|
      ensures Capped(w, lives[i], CallsPerMinute(n), 2 * c, c)
    {
      LifeCallTimes(w, lives[i], n);
      forall from: nat
        ensures InInterval(MeterOf(w, lives[i], n).minute, from, SECONDS_PER_MINUTE)
                <= if from <= lives[i].born then c else 2 * c
      {
        LifeCalls(w, lives[i], n, perMinute, perDay, from);
      }
    }
  }

  lemma DaysAreCapped(w: Width, lives: seq<Life>, n: string, perMinute: nat, perDay: nat)
    requires Ruled(w, lives, n, perMinute, perDay)
    ensures var d := Rates.Most(perDay); AllCapped(w, lives, CallsPerDay(n), 2 * d, d)
  {
    var d := Rates.Most(perDay);
    forall i | 0 <= i < |lives|
      ensures Capped(w, lives[i], CallsPerDay(n), 2 * d, d)
    {
      LifeCallTimes(w, lives[i], n);
      forall from: nat
        ensures InInterval(MeterOf(w, lives[i], n).day, from, SECONDS_PER_DAY)
                <= if from <= lives[i].born then d else 2 * d
      {
        LifeCalls(w, lives[i], n, perMinute, perDay, from);
      }
    }
  }

  /** A limit of zero lets one call through in every life. */
  lemma ZeroIsCapped(w: Width, lives: seq<Life>, n: string, perMinute: nat, perDay: nat, tally: Tally)
    requires Ruled(w, lives, n, perMinute, perDay) && (perMinute == 0 || perDay == 0)
    requires tally == CallsPerMinute(n) || tally == CallsPerDay(n)
    ensures AllCapped(w, lives, tally, 1, 1)
  {
    forall i | 0 <= i < |lives|
      ensures Capped(w, lives[i], tally, 1, 1)
    {
      var life := lives[i];
      var h := Tallied(w, life, tally);
      LifeCallTimes(w, life, n);
      Rates.RateLimitsHold(w, NewEngine(NO_POLICY, life.born), life.born, life.events, n, perMinute, perDay, 0);
      forall from: nat
        ensures InInterval(h, from, Span(tally)) <= 1
      {
        SingleRecord(h, from, Span(tally));
      }
    }
  }

  /** Every minute holds at most twice the smaller limit, and once more for every restart in it. */
  lemma MinuteCallsBound(w: Width, lives: seq<Life>, n: string, perMinute: nat, perDay: nat, from: nat)
    requires Ruled(w, lives, n, perMinute, perDay)
    ensures var c := MinuteCap(perMinute, perDay);
            InInterval(All(w, lives, CallsPerMinute(n)), from, 60)
            <= 2 * c + Restarts(lives, from, 60) * c
  {
    var c := MinuteCap(perMinute, perDay);
    MinutesAreCapped(w, lives, n, perMinute, perDay);
    RestartBound(w, lives, CallsPerMinute(n), 2 * c, c, from);
  }

  /** Every day holds at most twice the daily limit, and once more for every restart in it. */
  lemma DayCallsBound(w: Width, lives: seq<Life>, n: string, perMinute: nat, perDay: nat, from: nat)
    requires Ruled(w, lives, n, perMinute, perDay)
    ensures var d := Rates.Most(perDay);
            InInterval(All(w, lives, CallsPerDay(n)), from, 86_400)
            <= 2 * d + Restarts(lives, from, 86_400) * d
  {
    var d := Rates.Most(perDay);
    DaysAreCapped(w, lives, n, perMinute, perDay);
    RestartBound(w, lives, CallsPerDay(n), 2 * d, d, from);
  }

  /** With a limit of zero, a minute or day holds one call and one for every restart in it. */
  lemma ZeroCallsBound(w: Width, lives: seq<Life>, n: string, perMinute: nat, perDay: nat, tally: Tally, from: nat)
    requires Ruled(w, lives, n, perMinute, perDay) && (perMinute == 0 || perDay == 0)
    requires tally == CallsPerMinute(n) || tally == CallsPerDay(n)
    ensures InInterval(All(w, lives, tally), from, Span(tally)) <= 1 + Restarts(lives, from, Span(tally))
  {
    ZeroIsCapped(w, lives, n, perMinute, perDay, tally);
    RestartBound(w, lives, tally, 1, 1, from);
  }

  // ---------- the bounds are reached ----------

  function Adopting(policy: Policy, evs: seq<Event>): seq<Event> {
    [SetPolicy(policy)] + evs
  }

  lemma AdoptingLast(policy: Policy, evs: seq<Event>)
    requires evs != []
    ensures var all := Adopting(policy, evs);
            all[..|all| - 1] == Adopting(policy, evs[..|evs| - 1]) && all[|all| - 1] == evs[|evs| - 1]
  {
  }

  lemma AdoptingFirst(policy: Policy)
    ensures Adopting(policy, []) == [SetPolicy(policy)] && Adopting(policy, [])[..0] == []
  {
  }

  lemma {:induction false} ClockAfterAdopting(t: nat, policy: Policy, evs: seq<Event>)
    ensures Clock(t, Adopting(policy, evs)) == Clock(t, evs)
    ensures Clocked(t, Adopting(policy, evs)) <==> Clocked(t, evs)
  {
    if evs == [] {
      AdoptingFirst(policy);
      assert Clocked(t, Adopting(policy, [])[..0]);
    } else {
      AdoptingLast(policy, evs);
      ClockAfterAdopting(t, policy, evs[..|evs| - 1]);
    }
  }

  /** An engine that adopts a policy first runs like one that was created with it. */
  lemma {:induction false} EngineAfterAdopting(w: Width, t: u64, policy: Policy, evs: seq<Event>)
    ensures AfterEvents(w, NewEngine(NO_POLICY, t), Adopting(policy, evs)) ==
            AfterEvents(w, NewEngine(policy, t), evs)
  {
    if evs == [] {
      AdoptingFirst(policy);
      assert AfterEvents(w, NewEngine(NO_POLICY, t), Adopting(policy, [])[..0]) == NewEngine(NO_POLICY, t);
    } else {
      AdoptingLast(policy, evs);
      EngineAfterAdopting(w, t, policy, evs[..|evs| - 1]);
    }
  }

  lemma {:induction false} PaymentsAfterAdopting(w: Width, t: u64, policy: Policy, evs: seq<Event>)
    ensures Spending.Run(w, Spending.Start(NO_POLICY, t), Adopting(policy, evs)) ==
            Spending.Run(w, Spending.Start(policy, t), evs)
  {
    if evs == [] {
      AdoptingFirst(policy);
      assert Spending.Run(w, Spending.Start(NO_POLICY, t), Adopting(policy, [])[..0]) == Spending.Start(NO_POLICY, t);
    } else {
      AdoptingLast(policy, evs);
      PaymentsAfterAdopting(w, t, policy, evs[..|evs| - 1]);
    }
  }

  lemma {:induction false} CallsAfterAdopting(w: Width, t: u64, n: string, policy: Policy, evs: seq<Event>)
    ensures Rates.Run(w, n, Rates.Begin(NewEngine(NO_POLICY, t)), Adopting(policy, evs)) ==
            Rates.Run(w, n, Rates.Begin(NewEngine(policy, t)), evs)
  {
    var begin := Rates.Begin(NewEngine(NO_POLICY, t));
    if evs == [] {
      AdoptingFirst(policy);
      assert Rates.Run(w, n, begin, Adopting(policy, [])[..0]) == begin;
    } else {
      AdoptingLast(policy, evs);
      CallsAfterAdopting(w, t, n, policy, evs[..|evs| - 1]);
    }
  }

  lemma {:induction false} AdoptingIsRuled(w: Width, t: u64, n: string, policy: Policy, evs: seq<Event>)
    requires n in policy.secrets && PolicyFixed(evs)
    ensures Rates.Ruled(w, NewEngine(NO_POLICY, t), Adopting(policy, evs), n,
                        policy.secrets[n].rateLimit, policy.secrets[n].dailyLimit)
  {
    if evs == [] {
      AdoptingFirst(policy);
      assert Rates.Ruled(w, NewEngine(NO_POLICY, t), Adopting(policy, [])[..0], n,
                         policy.secrets[n].rateLimit, policy.secrets[n].dailyLimit);
    } else {
      AdoptingLast(policy, evs);
      AdoptingIsRuled(w, t, n, policy, evs[..|evs| - 1]);
      EngineAfterAdopting(w, t, policy, evs[..|evs| - 1]);
      PolicyStays(w, NewEngine(policy, t), evs[..|evs| - 1]);
    }
  }

  /** `lives` end by `edge`, with `r` restarts in the interval from `from` on and this sum in it. */
  predicate Reached(lives: seq<Life>, tally: Tally, from: nat, edge: nat, r: nat, sum: nat) {
    && InOrder(lives) && End(lives) <= edge && |lives| == r + 1
    && Restarts(lives, from, Span(tally)) == r
    && InInterval(All(Unbounded, lives, tally), from, Span(tally)) == sum
  }

  /** A life that begins and ends at `edge`. */
  predicate AtOnce(life: Life, tally: Tally, from: nat, edge: nat, cap: nat) {
    && life.booted == life.born == edge && from <= edge < from + Span(tally)
    && Clocked(life.born, life.events) && Clock(life.born, life.events) <= edge
    && InInterval(Tallied(Unbounded, life, tally), from, Span(tally)) == cap
  }

  lemma SingleLife(life: Life, tally: Tally, from: nat, edge: nat, sum: nat)
    requires life.booted <= life.born && Clocked(life.born, life.events) && Clock(life.born, life.events) <= edge
    requires InInterval(Tallied(Unbounded, life, tally), from, Span(tally)) == sum
    ensures Reached([life], tally, from, edge, 0, sum)
  {
    assert [life][..0] == [] && All(Unbounded, [life][..0], tally) == [] && InOrder([life][..0]);
    assert All(Unbounded, [life], tally) == Tallied(Unbounded, life, tally);
  }

  /** One life and `r` restarts into another one. */
  function Repeated(first: Life, again: Life, r: nat): seq<Life> {
    if r == 0 then [first] else Repeated(first, again, r - 1) + [again]
  }

  lemma OneMoreLife(before: seq<Life>, life: Life, tally: Tally, from: nat, edge: nat, r: nat, sum: nat, cap: nat)
    requires Reached(before, tally, from, edge, r, sum) && AtOnce(life, tally, from, edge, cap)
    ensures Reached(before + [life], tally, from, edge, r + 1, sum + cap)
  {
    assert (before + [life])[..|before|] == before;
    InIntervalConcat(All(Unbounded, before, tally), Tallied(Unbounded, life, tally), from, Span(tally));
  }

  lemma {:induction false} RepeatedReaches(first: Life, again: Life, tally: Tally, from: nat, edge: nat, r: nat,
                                           sum: nat, cap: nat)
    requires Reached([first], tally, from, edge, 0, sum) && AtOnce(again, tally, from, edge, cap)
    ensures 0 <= r * cap && Reached(Repeated(first, again, r), tally, from, edge, r, sum + r * cap)
  {
    if r > 0 {
      RepeatedReaches(first, again, tally, from, edge, r - 1, sum, cap);
      OneMoreCap(r - 1, cap);
      OneMoreLife(Repeated(first, again, r - 1), again, tally, from, edge, r - 1, sum + (r - 1) * cap, cap);
    }
  }

  lemma {:induction false} RepeatedAre(first: Life, again: Life, r: nat)
    ensures forall i :: 0 <= i < |Repeated(first, again, r)| ==>
              Repeated(first, again, r)[i] == first || Repeated(first, again, r)[i] == again
  {
    if r > 0 {
      RepeatedAre(first, again, r - 1);
    }
  }

  lemma AdoptingIsWithin(policy: Policy, evs: seq<Event>)
    requires PolicyFixed(evs)
    ensures Spending.PoliciesWithin(Adopting(policy, evs), policy.spending.maxPerTx, policy.spending.maxDaily)
  {
  }

  predicate Useful(p: SpendingPolicy, now: nat) {
    p.maxPerTx > 0 && Spending.Unexpired(p, now)
  }

  /** Twice the limit across the edge of the first window. */
  lemma FirstPayments(policy: Policy, t: u64) returns (life: Life)
    requires Useful(policy.spending, t + SECONDS_PER_DAY) && t + SECONDS_PER_DAY < TWO_TO_THE_64
    ensures Reached([life], Payments, t + SECONDS_PER_DAY - 1, t + SECONDS_PER_DAY, 0, 2 * policy.spending.maxDaily)
    ensures Spending.PoliciesWithin(life.events, policy.spending.maxPerTx, policy.spending.maxDaily)
  {
    var evs := Spending.AcrossMidnight(policy.spending, t);
    life := Life(0, t, Adopting(policy, evs));
    Spending.AcrossMidnightIsClocked(policy.spending, t);
    ClockAfterAdopting(t, policy, evs);
    PaymentsAfterAdopting(Unbounded, t, policy, evs);
    Spending.TwiceTheLimitIsReached(policy, t);
    AdoptingIsWithin(policy, evs);
    SingleLife(life, Payments, t + SECONDS_PER_DAY - 1, t + SECONDS_PER_DAY, 2 * policy.spending.maxDaily);
  }

  /** The limit once more, at one moment. */
  lemma PaymentsAgain(policy: Policy, now: u64, from: nat) returns (life: Life)
    requires Useful(policy.spending, now) && from <= now < from + SECONDS_PER_DAY
    ensures AtOnce(life, Payments, from, now, policy.spending.maxDaily)
    ensures Spending.PoliciesWithin(life.events, policy.spending.maxPerTx, policy.spending.maxDaily)
  {
    var p := policy.spending;
    var evs := Spending.Fill(now, p.maxPerTx, p.maxDaily);
    life := Life(now, now, Adopting(policy, evs));
    Spending.FillFromStart(now, now, p.maxPerTx, p.maxDaily);
    ClockAfterAdopting(now, policy, evs);
    PaymentsAfterAdopting(Unbounded, now, policy, evs);
    AdoptingIsWithin(policy, evs);
    Spending.FillSpends(Spending.Start(policy, now), now, p.maxDaily, from);
  }

  /** The bound on payments cannot be improved: with `r` restarts, `r + 2` daily limits are paid in
      one day. */
  lemma PaymentsBoundIsReached(policy: Policy, t: u64, r: nat) returns (lives: seq<Life>)
    requires Useful(policy.spending, t + 86_400) && t + 86_400 < TWO_TO_THE_64
    ensures Proper(Unbounded, lives, policy.spending.maxPerTx, policy.spending.maxDaily)
    ensures var p, from := policy.spending, t + 86_400 - 1;
            && Restarts(lives, from, 86_400) == r
            && InInterval(All(Unbounded, lives, Payments), from, 86_400) == 2 * p.maxDaily + r * p.maxDaily
  {
    var edge := t + SECONDS_PER_DAY;
    var first := FirstPayments(policy, t);
    var again := PaymentsAgain(policy, edge, edge - 1);
    lives := Repeated(first, again, r);
    RepeatedAre(first, again, r);
    RepeatedReaches(first, again, Payments, edge - 1, edge, r, 2 * policy.spending.maxDaily, policy.spending.maxDaily);
  }

  /** No 24 hours with `r` restarts hold more than twice the daily limit, as they do without. */
  ghost predicate DayHolds(perTx: nat, daily: nat, r: nat) {
    forall lives, from: nat ::
      Proper(Unbounded, lives, perTx, daily) && Restarts(lives, from, 86_400) == r ==>
        InInterval(All(Unbounded, lives, Payments), from, 86_400) <= 2 * daily
  }

  /** Twice the limit is the bound exactly for days without a restart, if anything is allowed. */
  lemma DayHoldsExactly(perTx: u64, daily: u64, r: nat)
    ensures DayHolds(perTx, daily, r) <==> r == 0 || perTx == 0 || daily == 0
  {
    if r == 0 || perTx == 0 || daily == 0 {
      forall lives, from: nat | Proper(Unbounded, lives, perTx, daily) && Restarts(lives, from, SECONDS_PER_DAY) == r
        ensures InInterval(All(Unbounded, lives, Payments), from, SECONDS_PER_DAY) <= 2 * daily
      {
        PaymentsBound(Unbounded, lives, perTx, daily, from);
        NoMoreCaps(r, Spending.Cap(perTx, daily));
      }
    } else {
      var lives := PaymentsBoundIsReached(Policy.Policy(SpendingPolicy(perTx, daily, None), map[]), 0, r);
      SomeMoreCaps(r, daily);
    }
  }

  lemma NoMoreCaps(r: nat, cap: nat)
    ensures r == 0 || cap == 0 ==> r * cap == 0
  {
  }

  lemma SomeMoreCaps(r: nat, cap: nat)
    requires r > 0 && cap > 0
    ensures r * cap > 0
  {
  }

  // ---------- calls across restarts ----------

  function TallyOf(n: string, perDay: bool): Tally {
    if perDay then CallsPerDay(n) else CallsPerMinute(n)
  }

  lemma AdoptedIsRuled(life: Life, n: string, policy: Policy, evs: seq<Event>)
    requires n in policy.secrets && life.events == Adopting(policy, evs)
    requires Rates.Proper(Unbounded, life.born, evs) && PolicyFixed(evs)
    ensures RuledLife(Unbounded, life, n, policy.secrets[n].rateLimit, policy.secrets[n].dailyLimit)
  {
    ClockAfterAdopting(life.born, policy, evs);
    AdoptingIsRuled(Unbounded, life.born, n, policy, evs);
    forall i | 0 <= i < |life.events|
      ensures Rates.Fits(Unbounded, life.events[i])
    {
      if i > 0 {
        assert life.events[i] == evs[i - 1];
      }
    }
  }

  /** Twice the smaller limit in one minute, across the edge of a day. */
  lemma FirstCallsLife(policy: Policy, t: u64, n: string, perDay: bool) returns (life: Life)
    requires n in policy.secrets && t + 3 * SECONDS_PER_DAY < TWO_TO_THE_64
    ensures var p, edge := policy.secrets[n], t + 2 * SECONDS_PER_DAY;
            Reached([life], TallyOf(n, perDay), edge - 1, edge, 0, 2 * Rates.Less(p.rateLimit, p.dailyLimit))
    ensures RuledLife(Unbounded, life, n, policy.secrets[n].rateLimit, policy.secrets[n].dailyLimit)
  {
    var p, edge := policy.secrets[n], t + 2 * SECONDS_PER_DAY;
    var evs := Rates.TwiceTheCallsAreReached(Unbounded, policy, t, n);
    life := Life(0, t, Adopting(policy, evs));
    ClockAfterAdopting(t, policy, evs);
    CallsAfterAdopting(Unbounded, t, n, policy, evs);
    AdoptedIsRuled(life, n, policy, evs);
    SingleLife(life, TallyOf(n, perDay), edge - 1, edge, 2 * Rates.Less(p.rateLimit, p.dailyLimit));
  }

  /** `k` calls at one moment of a new life. */
  lemma CallsAgain(policy: Policy, now: u64, n: string, k: nat, from: nat, perDay: bool) returns (life: Life)
    requires n in policy.secrets && from <= now < from + SECONDS_PER_MINUTE
    requires k == 1 || 1 <= k <= Rates.Less(policy.secrets[n].rateLimit, policy.secrets[n].dailyLimit)
    ensures AtOnce(life, TallyOf(n, perDay), from, now, k)
    ensures RuledLife(Unbounded, life, n, policy.secrets[n].rateLimit, policy.secrets[n].dailyLimit)
  {
    var evs := Rates.FirstCalls(Unbounded, policy, now, n, k, from);
    life := Life(now, now, Adopting(policy, evs));
    ClockAfterAdopting(now, policy, evs);
    CallsAfterAdopting(Unbounded, now, n, policy, evs);
    AdoptedIsRuled(life, n, policy, evs);
  }

  lemma {:induction false} RepeatedIsRuled(first: Life, again: Life, r: nat, n: string, perMinute: nat, perDay: nat)
    requires InOrder(Repeated(first, again, r))
    requires RuledLife(Unbounded, first, n, perMinute, perDay) && RuledLife(Unbounded, again, n, perMinute, perDay)
    ensures Ruled(Unbounded, Repeated(first, again, r), n, perMinute, perDay)
  {
    RepeatedAre(first, again, r);
  }

  /** The bounds on calls cannot be improved: for positive limits and any number of restarts, all at
      once, the smaller limit is called twice and once more for every restart. */
  lemma CallsBoundIsReached(policy: Policy, t: u64, n: string, r: nat, perDay: bool) returns (lives: seq<Life>)
    requires n in policy.secrets && t + 3 * SECONDS_PER_DAY < TWO_TO_THE_64
    requires policy.secrets[n].rateLimit > 0 && policy.secrets[n].dailyLimit > 0
    ensures Ruled(Unbounded, lives, n, policy.secrets[n].rateLimit, policy.secrets[n].dailyLimit)
    ensures var c := Rates.Less(policy.secrets[n].rateLimit, policy.secrets[n].dailyLimit);
            var from, tally := t + 2 * SECONDS_PER_DAY - 1, TallyOf(n, perDay);
            && Restarts(lives, from, Span(tally)) == r
            && InInterval(All(Unbounded, lives, tally), from, Span(tally)) == 2 * c + r * c
  {
    var p, edge := policy.secrets[n], t + 2 * SECONDS_PER_DAY;
    var c := Rates.Less(p.rateLimit, p.dailyLimit);
    var first := FirstCallsLife(policy, t, n, perDay);
    var again := CallsAgain(policy, edge, n, c, edge - 1, perDay);
    lives := Repeated(first, again, r);
    RepeatedReaches(first, again, TallyOf(n, perDay), edge - 1, edge, r, 2 * c, c);
    RepeatedIsRuled(first, again, r, n, p.rateLimit, p.dailyLimit);
  }

  /** Whatever the limits, one call and one more for every restart are let through at once. */
  lemma OneCallForEveryLife(policy: Policy, t: u64, n: string, r: nat, perDay: bool) returns (lives: seq<Life>)
    requires n in policy.secrets
    ensures Ruled(Unbounded, lives, n, policy.secrets[n].rateLimit, policy.secrets[n].dailyLimit)
    ensures var tally := TallyOf(n, perDay);
            && Restarts(lives, t, Span(tally)) == r
            && InInterval(All(Unbounded, lives, tally), t, Span(tally)) == 1 + r
  {
    var p, tally := policy.secrets[n], TallyOf(n, perDay);
    var life := CallsAgain(policy, t, n, 1, t, perDay);
    SingleLife(life, tally, t, t, 1);
    lives := Repeated(life, life, r);
    RepeatedReaches(life, life, tally, t, t, r, 1, 1);
    RepeatedIsRuled(life, life, r, n, p.rateLimit, p.dailyLimit);
  }

  /** No minute with `r` restarts holds more calls than the limit per minute. */
  ghost predicate MinuteHolds(perMinute: nat, perDay: nat, r: nat) {
    forall lives, n, from: nat ::
      Ruled(Unbounded, lives, n, perMinute, perDay) && Restarts(lives, from, 60) == r ==>
        InInterval(All(Unbounded, lives, CallsPerMinute(n)), from, 60) <= perMinute
  }

  /** Which limits keep the promise in minutes with `r` restarts. */
  predicate KeepsMinutes(perMinute: nat, perDay: nat, r: nat) {
    perMinute > 0 && (if perDay == 0 then 1 + r else 2 * perDay + r * perDay) <= perMinute
  }

  lemma MinuteWithin(lives: seq<Life>, n: string, perMinute: nat, perDay: nat, r: nat, from: nat)
    requires Ruled(Unbounded, lives, n, perMinute, perDay) && Restarts(lives, from, SECONDS_PER_MINUTE) == r
    requires KeepsMinutes(perMinute, perDay, r)
    ensures InInterval(All(Unbounded, lives, CallsPerMinute(n)), from, SECONDS_PER_MINUTE) <= perMinute
  {
    if perDay == 0 {
      ZeroCallsBound(Unbounded, lives, n, perMinute, perDay, CallsPerMinute(n), from);
    } else {
      MinuteCallsBound(Unbounded, lives, n, perMinute, perDay, from);
      SmallerCap(r, MinuteCap(perMinute, perDay), perDay);
    }
  }

  lemma {:induction false} SmallerCap(r: nat, a: nat, b: nat)
    requires a <= b
    ensures 0 <= r * a <= r * b
  {
    if r > 0 {
      SmallerCap(r - 1, a, b);
      OneMoreCap(r - 1, a);
      OneMoreCap(r - 1, b);
    }
  }

  lemma MinuteBroken(perMinute: u32, perDay: u32, r: nat) returns (lives: seq<Life>, from: nat)
    requires !KeepsMinutes(perMinute, perDay, r)
    ensures Ruled(Unbounded, lives, "", perMinute, perDay) && Restarts(lives, from, SECONDS_PER_MINUTE) == r
    ensures InInterval(All(Unbounded, lives, CallsPerMinute("")), from, SECONDS_PER_MINUTE) > perMinute
  {
    var policy := Policy.Policy(SpendingPolicy(0, 0, None), map["" := SecretPolicy(perMinute, perDay, [])]);
    if perMinute == 0 || perDay == 0 {
      lives := OneCallForEveryLife(policy, 0, "", r, false);
      from := 0;
    } else {
      lives := CallsBoundIsReached(policy, 0, "", r, false);
      from := 2 * SECONDS_PER_DAY - 1;
      SmallerCap(r, 0, Rates.Less(perMinute, perDay));
    }
  }

  /** The limit per minute holds in minutes with `r` restarts exactly when it is positive and has room
      for what `r + 2` windows can take: the daily limit each, or for a daily limit of zero one call
      in every life. No limit holds whatever the number of restarts. */
  lemma MinuteHoldsExactly(perMinute: u32, perDay: u32, r: nat)
    ensures MinuteHolds(perMinute, perDay, r) <==> KeepsMinutes(perMinute, perDay, r)
    ensures r >= perMinute ==> !KeepsMinutes(perMinute, perDay, r)
  {
    if KeepsMinutes(perMinute, perDay, r) {
      forall lives, n, from: nat | Ruled(Unbounded, lives, n, perMinute, perDay) &&
                                   Restarts(lives, from, SECONDS_PER_MINUTE) == r
        ensures InInterval(All(Unbounded, lives, CallsPerMinute(n)), from, SECONDS_PER_MINUTE) <= perMinute
      {
        MinuteWithin(lives, n, perMinute, perDay, r, from);
      }
    } else {
      var lives, from := MinuteBroken(perMinute, perDay, r);
    }
    if perDay > 0 {
      AtLeastOneEach(r, perDay);
    }
  }

  lemma {:induction false} AtLeastOneEach(r: nat, cap: nat)
    requires cap > 0
    ensures r * cap >= r
  {
    if r > 0 {
      AtLeastOneEach(r - 1, cap);
      OneMoreCap(r - 1, cap);
    }
  }

  /** No day with `r` restarts holds more than twice the daily limit of calls. */
  ghost predicate CallDayHolds(perMinute: nat, perDay: nat, r: nat) {
    forall lives, n, from: nat ::
      Ruled(Unbounded, lives, n, perMinute, perDay) && Restarts(lives, from, 86_400) == r ==>
        InInterval(All(Unbounded, lives, CallsPerDay(n)), from, 86_400) <= 2 * perDay
  }

  /** Unless the limit per minute is the smaller one, that is so exactly for days without a restart. */
  lemma CallDayHoldsExactly(perMinute: u32, perDay: u32, r: nat)
    requires 0 < perDay <= perMinute
    ensures CallDayHolds(perMinute, perDay, r) <==> r == 0
  {
    if r == 0 {
      forall lives, n, from: nat | Ruled(Unbounded, lives, n, perMinute, perDay) &&
                                   Restarts(lives, from, SECONDS_PER_DAY) == r
        ensures InInterval(All(Unbounded, lives, CallsPerDay(n)), from, SECONDS_PER_DAY) <= 2 * perDay
      {
        DayCallsBound(Unbounded, lives, n, perMinute, perDay, from);
      }
    } else {
      var policy := Policy.Policy(SpendingPolicy(0, 0, None), map["" := SecretPolicy(perMinute, perDay, [])]);
      var lives := CallsBoundIsReached(policy, 0, "", r, true);
      SomeMoreCaps(r, perDay);
    }
  }
}
