/** Whole lifetimes of the module over one store. What is paid and which secrets are sent is read off
    the results of the actions and compared with the engine's books. */
module Lifetimes {
  import opened Wrappers
  import opened Windows
  import opened Policies
  import opened Host
  import opened Wallet
  import opened Vault
  import opened Mandate
  import opened Actions
  import opened Lives
  import Rates
  import Runs
  import Spending
  import Usdc

  type Timed = (Action, u64)

  // ---------- what the actions say ----------

  function Latest(actions: seq<Timed>): nat {
    if actions == [] then 0 else actions[|actions| - 1].1
  }

  /** The clock neither runs backwards nor overflows. */
  predicate Orderly(actions: seq<Timed>) {
    actions == [] ||
    (var before, now := actions[..|actions| - 1], actions[|actions| - 1].1;
     Orderly(before) && Latest(before) <= now && now + 86_400 < TWO_TO_THE_64)
  }

  predicate AdoptsWithin(action: Action, perTx: nat, daily: nat) {
    && (action.NewPolicy? ==> Spending.LimitsWithin(action.policy.spending, perTx, daily))
    && (action.Initialize? && action.mine.Some? && Limits(action.mine.value).Some? ==>
          Spending.LimitsWithin(Limits(action.mine.value).value, perTx, daily))
  }

  /** All spending limits adopted stay within these, and their sum does not overflow. */
  predicate Modest(actions: seq<Timed>, perTx: nat, daily: nat) {
    perTx + daily < TWO_TO_THE_64 && forall i :: 0 <= i < |actions| ==> AdoptsWithin(actions[i].0, perTx, daily)
  }

  /** The rules for secrets in force after these actions: those of the last policy set since the
      module was last started. */
  function Rules(actions: seq<Timed>): map<string, SecretPolicy> {
    if actions == [] then map[]
    else
      match actions[|actions| - 1].0
      case NewPolicy(policy) => policy.secrets
      case RestartModule => map[]
      case _ => Rules(actions[..|actions| - 1])
  }

  /** Whenever the secret was sent, the rules in force restricted it to these limits. */
  predicate UnderRules(actions: seq<Timed>, outs: seq<Outcome>, n: string, perMinute: nat, perDay: nat)
    requires |actions| == |outs|
  {
    actions == [] ||
    (var k := |actions| - 1;
     && UnderRules(actions[..k], outs[..k], n, perMinute, perDay)
     && (n in outs[k].called ==>
           var rules := Rules(actions[..k]);
           n in rules && rules[n].rateLimit <= perMinute && rules[n].dailyLimit <= perDay))
  }

  lemma {:induction false} OrderlyExactly(actions: seq<Timed>)
    ensures Orderly(actions) <==>
              && (forall i, j :: 0 <= i < j < |actions| ==> actions[i].1 <= actions[j].1)
              && (forall i :: 0 <= i < |actions| ==> actions[i].1 < 0x1_0000_0000_0000_0000 - 86_400)
  {
    if actions != [] {
      var before, last := actions[..|actions| - 1], actions[|actions| - 1];
      OrderlyExactly(before);
      assert actions == before + [last];
      if before != [] && Latest(before) <= last.1 && Orderly(before) {
        assert forall i :: 0 <= i < |before| ==> before[i].1 <= Latest(before);
      }
    }
  }

  lemma ModestExactly(actions: seq<Timed>, perTx: nat, daily: nat)
    ensures Modest(actions, perTx, daily) <==>
              && perTx + daily < 0x1_0000_0000_0000_0000
              && forall i :: 0 <= i < |actions| ==>
                   var action := actions[i].0;
                   && (action.NewPolicy? ==>
                         action.policy.spending.maxPerTx <= perTx && action.policy.spending.maxDaily <= daily)
                   && (action.Initialize? && action.mine.Some? ==>
                         var p, d := Usdc.ParseUsdcAmount(action.mine.value.maxPerTx),
                                     Usdc.ParseUsdcAmount(action.mine.value.maxDaily);
                         p.Some? && d.Some? ==> p.value <= perTx && d.value <= daily)
  {
    forall i | 0 <= i < |actions|
      ensures AdoptsWithin(actions[i].0, perTx, daily) <==>
                var action := actions[i].0;
                && (action.NewPolicy? ==>
                      action.policy.spending.maxPerTx <= perTx && action.policy.spending.maxDaily <= daily)
                && (action.Initialize? && action.mine.Some? ==>
                      var p, d := Usdc.ParseUsdcAmount(action.mine.value.maxPerTx),
                                  Usdc.ParseUsdcAmount(action.mine.value.maxDaily);
                      p.Some? && d.Some? ==> p.value <= perTx && d.value <= daily)
    {
    }
  }

  lemma {:induction false} UnderRulesExactly(actions: seq<Timed>, outs: seq<Outcome>, n: string,
                                             perMinute: nat, perDay: nat)
    requires |actions| == |outs|
    ensures UnderRules(actions, outs, n, perMinute, perDay) <==>
              forall k :: 0 <= k < |actions| && n in outs[k].called ==>
                var rules := Rules(actions[..k]);
                n in rules && rules[n].rateLimit <= perMinute && rules[n].dailyLimit <= perDay
  {
    if actions != [] {
      var last := |actions| - 1;
      UnderRulesExactly(actions[..last], outs[..last], n, perMinute, perDay);
      assert forall k :: 0 <= k < last ==> actions[..last][..k] == actions[..k] && outs[..last][k] == outs[k];
    }
  }

  /** Restarts in `[from, from + span)`. */
  function Reboots(actions: seq<Timed>, from: nat, span: nat): nat {
    if actions == [] then 0
    else
      var (action, now) := actions[|actions| - 1];
      Reboots(actions[..|actions| - 1], from, span) +
      if action.RestartModule? && from <= now < from + span then 1 else 0
  }

  /** What is added up: payments, or the calls of a secret. */
  datatype Account = Payment | CallsOf(name: string)

  function AccountOf(tally: Tally): Account {
    match tally
    case Payments => Payment
    case CallsPerMinute(n) => CallsOf(n)
    case CallsPerDay(n) => CallsOf(n)
  }

  function Amount(out: Outcome, a: Account): Option<nat> {
    match a
    case Payment => if out.paid.Some? then Some(out.paid.value) else None
    case CallsOf(n) => if n in out.called then Some(1) else None
  }

  function Counted(now: nat, amount: Option<nat>, from: nat, span: nat): nat {
    if amount.Some? && from <= now < from + span then amount.value else 0
  }

  /** Everything paid, or every call made, in `[from, from + span)`. */
  function SumIn(actions: seq<Timed>, outs: seq<Outcome>, a: Account, from: nat, span: nat): nat
    requires |actions| == |outs|
  {
    if actions == [] then 0
    else
      var k := |actions| - 1;
      SumIn(actions[..k], outs[..k], a, from, span) + Counted(actions[k].1, Amount(outs[k], a), from, span)
  }

  /** The same, since the module was last started. */
  function SumSinceBoot(actions: seq<Timed>, outs: seq<Outcome>, a: Account, from: nat, span: nat): nat
    requires |actions| == |outs|
  {
    if actions == [] || actions[|actions| - 1].0.RestartModule? then 0
    else
      var k := |actions| - 1;
      SumSinceBoot(actions[..k], outs[..k], a, from, span) + Counted(actions[k].1, Amount(outs[k], a), from, span)
  }

  /** What the vault keeps after these actions if the host never fails. */
  function KeptAfter(codec: Codec, k: Kept, actions: seq<Timed>): Kept {
    if actions == [] then k
    else
      var before, op := KeptAfter(codec, k, actions[..|actions| - 1]), OpOf(actions[|actions| - 1].0);
      After(codec, before, op, Works(before, op))
  }

  // ---------- lives behind the actions ----------

  ghost function EngineOf(m: Module): Option<Engine>
    reads m`engine, m.engine
  {
    if m.engine == null then None else Some(m.engine.View())
  }

  function Found(engine: Option<Engine>, now: u64): Engine {
    if engine.Some? then engine.value else NewEngine(NO_POLICY, now)
  }

  /** The engine is the one that this life has led to; before its first event there is none. */
  ghost predicate Follows(engine: Option<Engine>, life: Life) {
    if engine.None? then life.events == [] && life.booted == life.born
    else engine.value == EngineAt(Machine, life)
  }

  /** The life as the next event finds it, which may have to create the engine. */
  function Base(life: Life, engine: Option<Engine>, now: u64): Life {
    if engine.None? then Life(life.booted, now, []) else life
  }

  function GrownBy(life: Life, engine: Option<Engine>, now: u64, ev: Runs.Event): Life {
    var base := Base(life, engine, now);
    base.(events := base.events + [ev])
  }

  /** The lives after one more action: a restart begins one, an event extends the last one. */
  function GoOn(lives: seq<Life>, action: Action, now: u64, engine: Option<Engine>, ev: Option<Runs.Event>): seq<Life>
    requires lives != []
  {
    var k := |lives| - 1;
    if action.RestartModule? then lives + [Life(now, now, [])]
    else if ev.None? then lives
    else lives[..k] + [GrownBy(lives[k], engine, now, ev.value)]
  }

  /** How one action changes the engine, as `Act` states it. */
  ghost predicate Acts(engine: Option<Engine>, action: Action, now: u64, out: Outcome,
                       ev: Option<Runs.Event>, after: Option<Engine>) {
    && Explains(action, now, out, ev) && Allows(Found(engine, now), action, now, out, ev)
    && if action.RestartModule? then after == None && ev == None
       else if ev.None? then after == engine
       else after == Some(Advanced(Found(engine, now), ev))
  }

  lemma BaseIsFound(life: Life, engine: Option<Engine>, now: u64, tally: Tally)
    requires Follows(engine, life)
    ensures EngineAt(Machine, Base(life, engine, now)) == Found(engine, now)
    ensures Tallied(Machine, Base(life, engine, now), tally) == Tallied(Machine, life, tally)
  {
  }

  /** One record of this amount, or none. */
  predicate IsEntry(added: seq<Rec>, now: nat, amount: Option<nat>) {
    if amount.None? then added == [] else |added| == 1 && added[0].time == now && added[0].amount == amount.value
  }

  /** An event adds to a tally what its action brought about. */
  lemma AddsOutcome(e: Engine, action: Action, now: u64, out: Outcome, ev: Runs.Event, tally: Tally)
    requires Explains(action, now, out, Some(ev)) && Allows(e, action, now, out, Some(ev))
    ensures IsEntry(Added(Machine, e, ev, tally), now, Amount(out, AccountOf(tally)))
  {
  }

  lemma LifeGoesOn(life: Life, engine: Option<Engine>, action: Action, now: u64, out: Outcome, ev: Runs.Event,
                   after: Option<Engine>, tally: Tally) returns (added: seq<Rec>)
    requires Follows(engine, life) && Acts(engine, action, now, out, Some(ev), after) && !action.RestartModule?
    ensures var grown := GrownBy(life, engine, now, ev);
            && Follows(after, grown)
            && Tallied(Machine, grown, tally) == Tallied(Machine, life, tally) + added
    ensures IsEntry(added, now, Amount(out, AccountOf(tally)))
  {
    BaseIsFound(life, engine, now, tally);
    TalliedOneMore(Machine, Base(life, engine, now), ev, tally);
    AddsOutcome(Found(engine, now), action, now, out, ev, tally);
    added := Added(Machine, Found(engine, now), ev, tally);
  }

  // ---------- sums ----------

  /** What the actions brought about is what the lives recorded. */
  ghost predicate SumsAgree(actions: seq<Timed>, outs: seq<Outcome>, lives: seq<Life>, tally: Tally)
    requires |actions| == |outs| && lives != []
  {
    forall from: nat, span: nat ::
      && InInterval(All(Machine, lives, tally), from, span) == SumIn(actions, outs, AccountOf(tally), from, span)
      && InInterval(Tallied(Machine, lives[|lives| - 1], tally), from, span) ==
         SumSinceBoot(actions, outs, AccountOf(tally), from, span)
  }

  lemma SumsAt(actions: seq<Timed>, outs: seq<Outcome>, lives: seq<Life>, tally: Tally, from: nat, span: nat)
    requires |actions| == |outs| && lives != [] && SumsAgree(actions, outs, lives, tally)
    ensures InInterval(All(Machine, lives, tally), from, span) == SumIn(actions, outs, AccountOf(tally), from, span)
    ensures InInterval(Tallied(Machine, lives[|lives| - 1], tally), from, span) ==
            SumSinceBoot(actions, outs, AccountOf(tally), from, span)
  {
    assert InInterval(All(Machine, lives, tally), from, span) == SumIn(actions, outs, AccountOf(tally), from, span);
  }

  lemma AddedSums(h: seq<Rec>, added: seq<Rec>, now: u64, amount: Option<nat>, from: nat, span: nat)
    requires IsEntry(added, now, amount)
    ensures InInterval(h + added, from, span) == InInterval(h, from, span) + Counted(now, amount, from, span)
  {
    if amount.Some? {
      assert added == [added[0]];
      SumsExtend(h, added[0], 0);
    } else {
      assert h + added == h;
    }
  }

  lemma AllLast(lives: seq<Life>, life: Life, tally: Tally)
    ensures All(Machine, lives + [life], tally) == All(Machine, lives, tally) + Tallied(Machine, life, tally)
  {
    assert (lives + [life])[..|lives|] == lives;
  }

  lemma OneMoreSum(actions: seq<Timed>, outs: seq<Outcome>, a: Account, action: Action, now: u64, out: Outcome,
                   from: nat, span: nat)
    requires |actions| == |outs|
    ensures SumIn(actions + [(action, now)], outs + [out], a, from, span) ==
            SumIn(actions, outs, a, from, span) + Counted(now, Amount(out, a), from, span)
    ensures SumSinceBoot(actions + [(action, now)], outs + [out], a, from, span) ==
            if action.RestartModule? then 0
            else SumSinceBoot(actions, outs, a, from, span) + Counted(now, Amount(out, a), from, span)
  {
    assert (actions + [(action, now)])[..|actions|] == actions && (outs + [out])[..|outs|] == outs;
  }

  lemma RestartSums(actions: seq<Timed>, outs: seq<Outcome>, lives: seq<Life>, now: u64, tally: Tally)
    requires |actions| == |outs| && lives != [] && SumsAgree(actions, outs, lives, tally)
    ensures SumsAgree(actions + [(RestartModule, now)], outs + [NOTHING], lives + [Life(now, now, [])], tally)
  {
    var life := Life(now, now, []);
    AllLast(lives, life, tally);
    assert Tallied(Machine, life, tally) == [];
    assert All(Machine, lives, tally) + [] == All(Machine, lives, tally);
    forall from: nat, span: nat
      ensures InInterval(All(Machine, lives + [life], tally), from, span) ==
              SumIn(actions + [(RestartModule, now)], outs + [NOTHING], AccountOf(tally), from, span)
      ensures SumSinceBoot(actions + [(RestartModule, now)], outs + [NOTHING], AccountOf(tally), from, span) == 0
    {
      OneMoreSum(actions, outs, AccountOf(tally), RestartModule, now, NOTHING, from, span);
    }
  }

  lemma GrownLifeSum(actions: seq<Timed>, outs: seq<Outcome>, before: seq<Life>, life: Life, grown: Life,
                     added: seq<Rec>, action: Action, now: u64, out: Outcome, tally: Tally, from: nat, span: nat)
    requires |actions| == |outs| && SumsAgree(actions, outs, before + [life], tally) && !action.RestartModule?
    requires Tallied(Machine, grown, tally) == Tallied(Machine, life, tally) + added
    requires IsEntry(added, now, Amount(out, AccountOf(tally)))
    ensures InInterval(Tallied(Machine, grown, tally), from, span) ==
            SumSinceBoot(actions + [(action, now)], outs + [out], AccountOf(tally), from, span)
  {
    var a := AccountOf(tally);
    SumsAt(actions, outs, before + [life], tally, from, span);
    OneMoreSum(actions, outs, a, action, now, out, from, span);
    AddedSums(Tallied(Machine, life, tally), added, now, Amount(out, a), from, span);
  }

  lemma Regrouped(a: seq<Rec>, b: seq<Rec>, c: seq<Rec>)
    ensures a + (b + c) == (a + b) + c
  {
  }

  lemma AllGrown(before: seq<Life>, life: Life, grown: Life, added: seq<Rec>, tally: Tally)
    requires Tallied(Machine, grown, tally) == Tallied(Machine, life, tally) + added
    ensures All(Machine, before + [grown], tally) == All(Machine, before + [life], tally) + added
  {
    AllLast(before, life, tally);
    AllLast(before, grown, tally);
    Regrouped(All(Machine, before, tally), Tallied(Machine, life, tally), added);
  }

  lemma GrownTotalSum(actions: seq<Timed>, outs: seq<Outcome>, before: seq<Life>, life: Life, grown: Life,
                      added: seq<Rec>, action: Action, now: u64, out: Outcome, tally: Tally, from: nat, span: nat)
    requires |actions| == |outs| && SumsAgree(actions, outs, before + [life], tally)
    requires Tallied(Machine, grown, tally) == Tallied(Machine, life, tally) + added
    requires IsEntry(added, now, Amount(out, AccountOf(tally)))
    ensures InInterval(All(Machine, before + [grown], tally), from, span) ==
            SumIn(actions + [(action, now)], outs + [out], AccountOf(tally), from, span)
  {
    var a := AccountOf(tally);
    AllGrown(before, life, grown, added, tally);
    SumsAt(actions, outs, before + [life], tally, from, span);
    OneMoreSum(actions, outs, a, action, now, out, from, span);
    AddedSums(All(Machine, before + [life], tally), added, now, Amount(out, a), from, span);
  }

  /** The sums after the tally of the last life grew by `added`. */
  lemma GrownSums(actions: seq<Timed>, outs: seq<Outcome>, before: seq<Life>, life: Life, grown: Life,
                  added: seq<Rec>, action: Action, now: u64, out: Outcome, tally: Tally)
    requires |actions| == |outs| && SumsAgree(actions, outs, before + [life], tally) && !action.RestartModule?
    requires Tallied(Machine, grown, tally) == Tallied(Machine, life, tally) + added
    requires IsEntry(added, now, Amount(out, AccountOf(tally)))
    ensures SumsAgree(actions + [(action, now)], outs + [out], before + [grown], tally)
  {
    forall from: nat, span: nat
      ensures InInterval(All(Machine, before + [grown], tally), from, span) ==
              SumIn(actions + [(action, now)], outs + [out], AccountOf(tally), from, span)
      ensures InInterval(Tallied(Machine, grown, tally), from, span) ==
              SumSinceBoot(actions + [(action, now)], outs + [out], AccountOf(tally), from, span)
    {
      GrownTotalSum(actions, outs, before, life, grown, added, action, now, out, tally, from, span);
      GrownLifeSum(actions, outs, before, life, grown, added, action, now, out, tally, from, span);
    }
  }

  lemma EventSums(actions: seq<Timed>, outs: seq<Outcome>, before: seq<Life>, life: Life, engine: Option<Engine>,
                  action: Action, now: u64, out: Outcome, ev: Runs.Event, after: Option<Engine>, tally: Tally)
    requires |actions| == |outs| && SumsAgree(actions, outs, before + [life], tally) && !action.RestartModule?
    requires Follows(engine, life) && Acts(engine, action, now, out, Some(ev), after)
    ensures var grown := GrownBy(life, engine, now, ev);
            SumsAgree(actions + [(action, now)], outs + [out], before + [grown], tally) && Follows(after, grown)
  {
    var added := LifeGoesOn(life, engine, action, now, out, ev, after, tally);
    GrownSums(actions, outs, before, life, GrownBy(life, engine, now, ev), added, action, now, out, tally);
  }

  lemma NoEventSums(actions: seq<Timed>, outs: seq<Outcome>, before: seq<Life>, life: Life,
                    action: Action, now: u64, tally: Tally)
    requires |actions| == |outs| && SumsAgree(actions, outs, before + [life], tally) && !action.RestartModule?
    ensures SumsAgree(actions + [(action, now)], outs + [NOTHING], before + [life], tally)
  {
    assert Tallied(Machine, life, tally) + [] == Tallied(Machine, life, tally);
    GrownSums(actions, outs, before, life, life, [], action, now, NOTHING, tally);
  }

  lemma SumsGoOn(actions: seq<Timed>, outs: seq<Outcome>, lives: seq<Life>, engine: Option<Engine>,
                 action: Action, now: u64, out: Outcome, ev: Option<Runs.Event>, after: Option<Engine>, tally: Tally)
    requires |actions| == |outs| && lives != [] && Follows(engine, lives[|lives| - 1])
    requires SumsAgree(actions, outs, lives, tally) && Acts(engine, action, now, out, ev, after)
    ensures var grown := GoOn(lives, action, now, engine, ev);
            SumsAgree(actions + [(action, now)], outs + [out], grown, tally) && Follows(after, grown[|grown| - 1])
  {
    var before, life := lives[..|lives| - 1], lives[|lives| - 1];
    assert lives == before + [life];
    if action.RestartModule? {
      RestartSums(actions, outs, lives, now, tally);
    } else if ev.Some? {
      EventSums(actions, outs, before, life, engine, action, now, out, ev.value, after, tally);
    } else {
      NoEventSums(actions, outs, before, life, action, now, tally);
    }
  }

  ghost predicate RestartsAgree(actions: seq<Timed>, lives: seq<Life>) {
    forall from: nat, span: nat :: Restarts(lives, from, span) == Reboots(actions, from, span)
  }

  lemma RestartsGoOn(actions: seq<Timed>, lives: seq<Life>, action: Action, now: u64, engine: Option<Engine>,
                     ev: Option<Runs.Event>)
    requires lives != [] && RestartsAgree(actions, lives)
    ensures RestartsAgree(actions + [(action, now)], GoOn(lives, action, now, engine, ev))
  {
    var after := GoOn(lives, action, now, engine, ev);
    assert (actions + [(action, now)])[..|actions|] == actions;
    if action.RestartModule? {
      assert after[..|lives|] == lives;
    } else {
      assert after[..|lives| - 1] == lives[..|lives| - 1];
    }
    forall from: nat, span: nat
      ensures Restarts(after, from, span) == Reboots(actions + [(action, now)], from, span)
    {
      assert Restarts(lives, from, span) == Reboots(actions, from, span);
    }
  }

  // ---------- order ----------

  /** No time of the life overflows the clock, and no request names a secret twice. */
  ghost predicate InTime(life: Life) {
    life.born + SECONDS_PER_DAY < TWO_TO_THE_64 &&
    forall i :: 0 <= i < |life.events| ==> Rates.Fits(Machine, life.events[i])
  }

  ghost predicate AllInTime(lives: seq<Life>) {
    forall i :: 0 <= i < |lives| ==> InTime(lives[i])
  }

  ghost predicate LivesInOrder(actions: seq<Timed>, lives: seq<Life>) {
    Orderly(actions) ==>
      OrderedBy(lives, Latest(actions)) && AllInTime(lives)
  }

  lemma ExplainedFits(action: Action, now: u64, out: Outcome, ev: Runs.Event)
    requires Explains(action, now, out, Some(ev)) && now + SECONDS_PER_DAY < TWO_TO_THE_64
    ensures Rates.Fits(Machine, ev) && (!ev.SetPolicy? ==> ev.now == now)
  {
  }

  lemma ClockGoesOn(t: nat, evs: seq<Runs.Event>, ev: Runs.Event, now: nat)
    requires Runs.Clocked(t, evs) && Runs.Clock(t, evs) <= now && (!ev.SetPolicy? ==> ev.now == now)
    ensures Runs.Clocked(t, evs + [ev]) && Runs.Clock(t, evs + [ev]) <= now
  {
    assert (evs + [ev])[..|evs|] == evs;
  }

  predicate OrderedBy(lives: seq<Life>, now: nat) {
    InOrder(lives) && End(lives) <= now
  }

  lemma OrderAppend(before: seq<Life>, life: Life, now: nat)
    requires OrderedBy(before, life.booted) && life.booted <= life.born
    requires Runs.Clocked(life.born, life.events) && Runs.Clock(life.born, life.events) <= now
    ensures OrderedBy(before + [life], now)
  {
    assert (before + [life])[..|before|] == before;
  }

  lemma GrownInTime(life: Life, engine: Option<Engine>, now: u64, ev: Runs.Event)
    requires InTime(life) && now + SECONDS_PER_DAY < TWO_TO_THE_64 && Rates.Fits(Machine, ev)
    ensures InTime(GrownBy(life, engine, now, ev))
  {
  }

  lemma LastInOrder(lives: seq<Life>, now: nat)
    requires lives != [] && OrderedBy(lives, now)
    ensures var life := lives[|lives| - 1];
            && OrderedBy(lives[..|lives| - 1], life.booted) && life.booted <= life.born
            && Runs.Clocked(life.born, life.events) && Runs.Clock(life.born, life.events) <= now
  {
  }

  lemma GrownClock(life: Life, engine: Option<Engine>, now: u64, ev: Runs.Event)
    requires Follows(engine, life) && life.booted <= life.born && Runs.Clocked(life.born, life.events)
    requires Runs.Clock(life.born, life.events) <= now && (!ev.SetPolicy? ==> ev.now == now)
    ensures var grown := GrownBy(life, engine, now, ev);
            && life.booted == grown.booted <= grown.born
            && Runs.Clocked(grown.born, grown.events) && Runs.Clock(grown.born, grown.events) <= now
  {
    var base := Base(life, engine, now);
    ClockGoesOn(base.born, base.events, ev, now);
  }

  lemma GrownInOrder(lives: seq<Life>, engine: Option<Engine>, now: u64, ev: Runs.Event)
    requires lives != [] && OrderedBy(lives, now) && Follows(engine, lives[|lives| - 1])
    requires !ev.SetPolicy? ==> ev.now == now
    ensures OrderedBy(lives[..|lives| - 1] + [GrownBy(lives[|lives| - 1], engine, now, ev)], now)
  {
    LastInOrder(lives, now);
    GrownClock(lives[|lives| - 1], engine, now, ev);
    OrderAppend(lives[..|lives| - 1], GrownBy(lives[|lives| - 1], engine, now, ev), now);
  }

  lemma TimesGoOn(lives: seq<Life>, action: Action, now: u64, out: Outcome, engine: Option<Engine>,
                  ev: Option<Runs.Event>)
    requires lives != [] && AllInTime(lives) && now + SECONDS_PER_DAY < TWO_TO_THE_64
    requires Explains(action, now, out, ev)
    ensures AllInTime(GoOn(lives, action, now, engine, ev))
  {
    if !action.RestartModule? && ev.Some? {
      ExplainedFits(action, now, out, ev.value);
      GrownInTime(lives[|lives| - 1], engine, now, ev.value);
    }
  }

  lemma LivesGoOnInOrder(lives: seq<Life>, action: Action, now: u64, out: Outcome, engine: Option<Engine>,
                         ev: Option<Runs.Event>)
    requires lives != [] && OrderedBy(lives, now) && now + SECONDS_PER_DAY < TWO_TO_THE_64
    requires Follows(engine, lives[|lives| - 1]) && Explains(action, now, out, ev)
    ensures OrderedBy(GoOn(lives, action, now, engine, ev), now)
  {
    if action.RestartModule? {
      OrderAppend(lives, Life(now, now, []), now);
    } else if ev.Some? {
      ExplainedFits(action, now, out, ev.value);
      GrownInOrder(lives, engine, now, ev.value);
    }
  }

  lemma OrderGoesOn(actions: seq<Timed>, lives: seq<Life>, action: Action, now: u64, out: Outcome,
                    engine: Option<Engine>, ev: Option<Runs.Event>)
    requires lives != [] && LivesInOrder(actions, lives) && Follows(engine, lives[|lives| - 1])
    requires Explains(action, now, out, ev)
    ensures LivesInOrder(actions + [(action, now)], GoOn(lives, action, now, engine, ev))
  {
    assert (actions + [(action, now)])[..|actions|] == actions;
    if Orderly(actions + [(action, now)]) {
      LivesGoOnInOrder(lives, action, now, out, engine, ev);
      TimesGoOn(lives, action, now, out, engine, ev);
    }
  }

  // ---------- limits and rules ----------

  ghost predicate LivesModest(actions: seq<Timed>, lives: seq<Life>, perTx: nat, daily: nat) {
    Modest(actions, perTx, daily) ==>
      forall i :: 0 <= i < |lives| ==> Spending.PoliciesWithin(lives[i].events, perTx, daily)
  }

  lemma ModestGoesOn(actions: seq<Timed>, lives: seq<Life>, action: Action, now: u64, out: Outcome,
                     engine: Option<Engine>, ev: Option<Runs.Event>, perTx: nat, daily: nat)
    requires lives != [] && LivesModest(actions, lives, perTx, daily) && Explains(action, now, out, ev)
    ensures LivesModest(actions + [(action, now)], GoOn(lives, action, now, engine, ev), perTx, daily)
  {
    var all := actions + [(action, now)];
    if Modest(all, perTx, daily) {
      assert all[|actions|] == (action, now);
      assert forall i :: 0 <= i < |actions| ==> all[i] == actions[i];
    }
  }

  /** The engine knows the rules that the actions have set; one that does not exist knows none. */
  ghost predicate RulesInForce(actions: seq<Timed>, engine: Option<Engine>) {
    (if engine.Some? then engine.value.policy.secrets else map[]) == Rules(actions)
  }

  lemma RulesGoOn(actions: seq<Timed>, engine: Option<Engine>, action: Action, now: u64, out: Outcome,
                  ev: Option<Runs.Event>, after: Option<Engine>)
    requires RulesInForce(actions, engine) && Acts(engine, action, now, out, ev, after)
    ensures RulesInForce(actions + [(action, now)], after)
  {
    assert (actions + [(action, now)])[..|actions|] == actions;
    if ev.Some? && !ev.value.SetPolicy? {
      Runs.EventKeepsPolicy(Machine, Found(engine, now), ev.value);
    }
  }

  ghost predicate LivesRuled(actions: seq<Timed>, outs: seq<Outcome>, lives: seq<Life>,
                             n: string, perMinute: nat, perDay: nat)
    requires |actions| == |outs|
  {
    UnderRules(actions, outs, n, perMinute, perDay) ==> AllRuled(lives, n, perMinute, perDay)
  }

  ghost predicate RuledBy(life: Life, n: string, perMinute: nat, perDay: nat) {
    Rates.Ruled(Machine, NewEngine(NO_POLICY, life.born), life.events, n, perMinute, perDay)
  }

  lemma GrownIsRuled(life: Life, engine: Option<Engine>, action: Action, now: u64, out: Outcome, ev: Runs.Event,
                     n: string, perMinute: nat, perDay: nat)
    requires Follows(engine, life) && RuledBy(life, n, perMinute, perDay)
    requires Explains(action, now, out, Some(ev)) && Allows(Found(engine, now), action, now, out, Some(ev))
    requires n in out.called ==> Rates.Restricts(Found(engine, now).policy, n, perMinute, perDay)
    ensures RuledBy(GrownBy(life, engine, now, ev), n, perMinute, perDay)
  {
    var base := Base(life, engine, now);
    BaseIsFound(life, engine, now, Payments);
    AddsOutcome(Found(engine, now), action, now, out, ev, CallsPerMinute(n));
    assert (base.events + [ev])[..|base.events|] == base.events;
  }

  ghost predicate AllRuled(lives: seq<Life>, n: string, perMinute: nat, perDay: nat) {
    forall i :: 0 <= i < |lives| ==> RuledBy(lives[i], n, perMinute, perDay)
  }

  lemma LivesGoOnRuled(lives: seq<Life>, action: Action, now: u64, out: Outcome, engine: Option<Engine>,
                       ev: Option<Runs.Event>, after: Option<Engine>, n: string, perMinute: nat, perDay: nat)
    requires lives != [] && AllRuled(lives, n, perMinute, perDay) && Follows(engine, lives[|lives| - 1])
    requires Acts(engine, action, now, out, ev, after)
    requires n in out.called ==> Rates.Restricts(Found(engine, now).policy, n, perMinute, perDay)
    ensures AllRuled(GoOn(lives, action, now, engine, ev), n, perMinute, perDay)
  {
    if !action.RestartModule? && ev.Some? {
      GrownIsRuled(lives[|lives| - 1], engine, action, now, out, ev.value, n, perMinute, perDay);
    }
  }

  lemma UnderRulesLast(actions: seq<Timed>, outs: seq<Outcome>, action: Action, now: u64, out: Outcome,
                       engine: Option<Engine>, n: string, perMinute: nat, perDay: nat)
    requires |actions| == |outs| && RulesInForce(actions, engine)
    requires UnderRules(actions + [(action, now)], outs + [out], n, perMinute, perDay)
    ensures UnderRules(actions, outs, n, perMinute, perDay)
    ensures n in out.called ==> Rates.Restricts(Found(engine, now).policy, n, perMinute, perDay)
  {
    assert (actions + [(action, now)])[..|actions|] == actions && (outs + [out])[..|outs|] == outs;
  }

  lemma RuledGoesOn(actions: seq<Timed>, outs: seq<Outcome>, lives: seq<Life>, action: Action, now: u64, out: Outcome,
                    engine: Option<Engine>, ev: Option<Runs.Event>, after: Option<Engine>,
                    n: string, perMinute: nat, perDay: nat)
    requires |actions| == |outs| && lives != [] && LivesRuled(actions, outs, lives, n, perMinute, perDay)
    requires Follows(engine, lives[|lives| - 1]) && RulesInForce(actions, engine)
    requires Acts(engine, action, now, out, ev, after)
    ensures LivesRuled(actions + [(action, now)], outs + [out], GoOn(lives, action, now, engine, ev),
                       n, perMinute, perDay)
  {
    if UnderRules(actions + [(action, now)], outs + [out], n, perMinute, perDay) {
      UnderRulesLast(actions, outs, action, now, out, engine, n, perMinute, perDay);
      LivesGoOnRuled(lives, action, now, out, engine, ev, after, n, perMinute, perDay);
    }
  }

  // ---------- the books of a whole lifetime ----------

  /** Spending limits, and the limits on the calls of one secret. */
  datatype Bounds = Bounds(perTx: nat, daily: nat, name: string, perMinute: nat, perDay: nat)

  /** Only transactions pay, and what they pay is the amount that was asked for; only requests send
      secrets, and those are the ones the template mentions. */
  ghost predicate OfActions(actions: seq<Timed>, outs: seq<Outcome>)
    requires |actions| == |outs|
  {
    && (forall i :: 0 <= i < |outs| && outs[i].paid.Some? ==>
          actions[i].0.Transact? && Usdc.ParseUsdcAmount(actions[i].0.order.amount) == Some(outs[i].paid.value))
    && (forall i :: 0 <= i < |outs| && outs[i].called != [] ==>
          actions[i].0.Inject? && Placeholders(actions[i].0.template, outs[i].called))
  }

  ghost predicate Recounts(actions: seq<Timed>, outs: seq<Outcome>, lives: seq<Life>, engine: Option<Engine>,
                           b: Bounds) {
    && |actions| == |outs| && lives != [] && Follows(engine, lives[|lives| - 1])
    && OfActions(actions, outs)
    && AllSumsAgree(actions, outs, lives, b.name)
    && RestartsAgree(actions, lives)
    && LivesInOrder(actions, lives)
    && LivesModest(actions, lives, b.perTx, b.daily)
    && RulesInForce(actions, engine)
    && LivesRuled(actions, outs, lives, b.name, b.perMinute, b.perDay)
  }

  ghost predicate AllSumsAgree(actions: seq<Timed>, outs: seq<Outcome>, lives: seq<Life>, n: string)
    requires |actions| == |outs| && lives != []
  {
    && SumsAgree(actions, outs, lives, Payments)
    && SumsAgree(actions, outs, lives, CallsPerMinute(n))
    && SumsAgree(actions, outs, lives, CallsPerDay(n))
  }

  lemma FirstSums(tally: Tally)
    ensures SumsAgree([], [], [Life(0, 0, [])], tally)
  {
    var life := Life(0, 0, []);
    AllLast([], life, tally);
    assert [] + [life] == [life];
  }

  lemma RecountStart(b: Bounds)
    ensures Recounts([], [], [Life(0, 0, [])], None, b)
  {
    FirstSums(Payments);
    FirstSums(CallsPerMinute(b.name));
    FirstSums(CallsPerDay(b.name));
    OrderAppend([], Life(0, 0, []), 0);
    assert [] + [Life(0, 0, [])] == [Life(0, 0, [])];
  }

  lemma AllSumsGoOn(actions: seq<Timed>, outs: seq<Outcome>, lives: seq<Life>, engine: Option<Engine>,
                    action: Action, now: u64, out: Outcome, ev: Option<Runs.Event>, after: Option<Engine>, n: string)
    requires |actions| == |outs| && lives != [] && Follows(engine, lives[|lives| - 1])
    requires AllSumsAgree(actions, outs, lives, n) && Acts(engine, action, now, out, ev, after)
    ensures var grown := GoOn(lives, action, now, engine, ev);
            AllSumsAgree(actions + [(action, now)], outs + [out], grown, n) && Follows(after, grown[|grown| - 1])
  {
    SumsGoOn(actions, outs, lives, engine, action, now, out, ev, after, Payments);
    SumsGoOn(actions, outs, lives, engine, action, now, out, ev, after, CallsPerMinute(n));
    SumsGoOn(actions, outs, lives, engine, action, now, out, ev, after, CallsPerDay(n));
  }

  lemma RecountStep(actions: seq<Timed>, outs: seq<Outcome>, lives: seq<Life>, engine: Option<Engine>,
                    action: Action, now: u64, out: Outcome, ev: Option<Runs.Event>, after: Option<Engine>, b: Bounds)
    requires Recounts(actions, outs, lives, engine, b) && Acts(engine, action, now, out, ev, after)
    ensures Recounts(actions + [(action, now)], outs + [out], GoOn(lives, action, now, engine, ev), after, b)
  {
    AllSumsGoOn(actions, outs, lives, engine, action, now, out, ev, after, b.name);
    RestartsGoOn(actions, lives, action, now, engine, ev);
    OrderGoesOn(actions, lives, action, now, out, engine, ev);
    ModestGoesOn(actions, lives, action, now, out, engine, ev, b.perTx, b.daily);
    RulesGoOn(actions, engine, action, now, out, ev, after);
    RuledGoesOn(actions, outs, lives, action, now, out, engine, ev, after, b.name, b.perMinute, b.perDay);
  }

  // ---------- what follows ----------

  /** The engine's counters are sums of what was paid since it was started: in all, and since its
      last reset. */
  ghost predicate CountersAreSums(actions: seq<Timed>, outs: seq<Outcome>, engine: Option<Engine>)
    requires |actions| == |outs|
  {
    engine.Some? ==>
      var e := engine.value;
      && e.totalAllTime == SumSinceBoot(actions, outs, Payment, 0, TWO_TO_THE_64) % TWO_TO_THE_64
      && e.spendingToday == SumSinceBoot(actions, outs, Payment, e.lastDayReset, 86_400)
  }

  /** The 24 hours from `from` on pay at most two daily limits, and one more for every restart in
      them. */
  ghost predicate DayIsBounded(actions: seq<Timed>, outs: seq<Outcome>, perTx: nat, daily: nat, from: nat)
    requires |actions| == |outs|
  {
    SumIn(actions, outs, Payment, from, 86_400)
    <= 2 * Spending.Cap(perTx, daily) + Reboots(actions, from, 86_400) * Spending.Cap(perTx, daily)
  }

  /** The minute and the day from `from` on send the secret at most twice as often as the limits
      say, and once more for every restart in them; with a limit of zero, once and once more for
      every restart. */
  ghost predicate CallsAreBounded(actions: seq<Timed>, outs: seq<Outcome>, n: string, perMinute: nat, perDay: nat,
                                  from: nat)
    requires |actions| == |outs|
  {
    var minute, day := SumIn(actions, outs, CallsOf(n), from, 60),
                       SumIn(actions, outs, CallsOf(n), from, 86_400);
    var r, s := Reboots(actions, from, 60), Reboots(actions, from, 86_400);
    && minute <= 2 * MinuteCap(perMinute, perDay) + r * MinuteCap(perMinute, perDay)
    && day <= 2 * Rates.Most(perDay) + s * Rates.Most(perDay)
    && (perMinute == 0 || perDay == 0 ==> minute <= 1 + r && day <= 1 + s)
  }

  lemma LifeCounters(life: Life, perTx: nat, daily: nat)
    requires Runs.Clocked(life.born, life.events) && Spending.PoliciesWithin(life.events, perTx, daily)
    requires Spending.NoOverflow(life.born, life.events, perTx, daily)
    requires Runs.Clock(life.born, life.events) < TWO_TO_THE_64
    ensures var e, h := EngineAt(Machine, life), Tallied(Machine, life, Payments);
            && e.totalAllTime == InInterval(h, 0, TWO_TO_THE_64) % TWO_TO_THE_64
            && e.spendingToday == InInterval(h, e.lastDayReset, SECONDS_PER_DAY)
            && e.spendingToday <= Spending.Cap(perTx, daily)
  {
    var s := StateOf(Machine, life);
    PaymentsAreCapped(Machine, life, perTx, daily);
    Spending.RunIsOfEngine(Machine, Spending.Start(NO_POLICY, life.born), life.events);
    Spending.MachineSlidingDayBound(NO_POLICY, life.born, life.events, perTx, daily, 0);
    Spending.MachineAgrees(NO_POLICY, life.born, life.events, perTx, daily);
    Spending.RunKeepsBooks(NO_POLICY, life.born, life.events);
    AllInside(s.ledger, TWO_TO_THE_64);
    WindowIsInterval(s.ledger, s.engine.lastDayReset, SECONDS_PER_DAY);
  }

  lemma RecountedIsProper(actions: seq<Timed>, lives: seq<Life>, perTx: nat, daily: nat)
    requires LivesInOrder(actions, lives) && LivesModest(actions, lives, perTx, daily)
    requires Orderly(actions) && Modest(actions, perTx, daily)
    ensures Proper(Machine, lives, perTx, daily)
  {
    forall i | 0 <= i < |lives|
      ensures Spending.NoOverflow(lives[i].born, lives[i].events, perTx, daily)
    {
      assert InTime(lives[i]);
    }
  }

  lemma LifetimeCounters(actions: seq<Timed>, outs: seq<Outcome>, lives: seq<Life>, engine: Option<Engine>, b: Bounds)
    requires Recounts(actions, outs, lives, engine, b) && Orderly(actions) && Modest(actions, b.perTx, b.daily)
    ensures CountersAreSums(actions, outs, engine)
    ensures engine.Some? ==> engine.value.spendingToday <= Spending.Cap(b.perTx, b.daily)
  {
    RecountedIsProper(actions, lives, b.perTx, b.daily);
    OrderedIsClocked(lives, |lives| - 1);
    LifeCounters(lives[|lives| - 1], b.perTx, b.daily);
    if engine.Some? {
      var start := engine.value.lastDayReset;
      SumsAt(actions, outs, lives, Payments, 0, TWO_TO_THE_64);
      SumsAt(actions, outs, lives, Payments, start, SECONDS_PER_DAY);
    }
  }

  lemma LifetimePayments(actions: seq<Timed>, outs: seq<Outcome>, lives: seq<Life>, engine: Option<Engine>, b: Bounds,
                         from: nat)
    requires Recounts(actions, outs, lives, engine, b) && Orderly(actions) && Modest(actions, b.perTx, b.daily)
    ensures DayIsBounded(actions, outs, b.perTx, b.daily, from)
  {
    RecountedIsProper(actions, lives, b.perTx, b.daily);
    PaymentsBound(Machine, lives, b.perTx, b.daily, from);
    assert Restarts(lives, from, SECONDS_PER_DAY) == Reboots(actions, from, SECONDS_PER_DAY);
    assert InInterval(All(Machine, lives, Payments), from, SECONDS_PER_DAY) ==
           SumIn(actions, outs, Payment, from, SECONDS_PER_DAY);
  }

  lemma RecountedIsRuled(actions: seq<Timed>, outs: seq<Outcome>, lives: seq<Life>,
                         n: string, perMinute: nat, perDay: nat)
    requires |actions| == |outs| && LivesInOrder(actions, lives)
    requires LivesRuled(actions, outs, lives, n, perMinute, perDay)
    requires Orderly(actions) && UnderRules(actions, outs, n, perMinute, perDay)
    ensures Ruled(Machine, lives, n, perMinute, perDay)
  {
    forall i | 0 <= i < |lives|
      ensures RuledLife(Machine, lives[i], n, perMinute, perDay)
    {
      OrderedIsClocked(lives, i);
      assert InTime(lives[i]) && RuledBy(lives[i], n, perMinute, perDay);
    }
  }

  lemma LifetimeCalls(actions: seq<Timed>, outs: seq<Outcome>, lives: seq<Life>, engine: Option<Engine>, b: Bounds,
                      from: nat)
    requires Recounts(actions, outs, lives, engine, b)
    requires Orderly(actions) && UnderRules(actions, outs, b.name, b.perMinute, b.perDay)
    ensures CallsAreBounded(actions, outs, b.name, b.perMinute, b.perDay, from)
  {
    var n := b.name;
    RecountedIsRuled(actions, outs, lives, n, b.perMinute, b.perDay);
    MinuteCallsBound(Machine, lives, n, b.perMinute, b.perDay, from);
    DayCallsBound(Machine, lives, n, b.perMinute, b.perDay, from);
    if b.perMinute == 0 || b.perDay == 0 {
      ZeroCallsBound(Machine, lives, n, b.perMinute, b.perDay, CallsPerMinute(n), from);
      ZeroCallsBound(Machine, lives, n, b.perMinute, b.perDay, CallsPerDay(n), from);
    }
    assert Restarts(lives, from, SECONDS_PER_MINUTE) == Reboots(actions, from, SECONDS_PER_MINUTE);
    assert Restarts(lives, from, SECONDS_PER_DAY) == Reboots(actions, from, SECONDS_PER_DAY);
    assert InInterval(All(Machine, lives, CallsPerMinute(n)), from, SECONDS_PER_MINUTE) ==
           SumIn(actions, outs, CallsOf(n), from, SECONDS_PER_MINUTE);
    assert InInterval(All(Machine, lives, CallsPerDay(n)), from, SECONDS_PER_DAY) ==
           SumIn(actions, outs, CallsOf(n), from, SECONDS_PER_DAY);
  }

  // ---------- living ----------

  /** What is kept in the store, as long as the host has not failed. */
  ghost predicate Keeps(host: HostStore, codec: Codec, failures: nat, k: Kept, actions: seq<Timed>)
    reads host
  {
    && host.failures >= failures
    && (host.failures == failures ==> KeptIn(host, codec) == KeptAfter(codec, k, actions))
  }

  lemma KeepsOneMore(codec: Codec, k: Kept, actions: seq<Timed>, action: Action, now: u64)
    ensures KeptAfter(codec, k, actions + [(action, now)]) ==
            After(codec, KeptAfter(codec, k, actions), OpOf(action), Works(KeptAfter(codec, k, actions), OpOf(action)))
  {
    assert (actions + [(action, now)])[..|actions|] == actions;
  }

  method LiveOn(m: Module, ghost before: seq<Timed>, ghost outs: seq<Outcome>, ghost lives: seq<Life>,
                action: Action, now: u64, ghost b: Bounds, ghost failures: nat, ghost k: Kept)
    returns (next: Module, out: Outcome, ghost grown: seq<Life>)
    requires m.Valid() && Recounts(before, outs, lives, EngineOf(m), b)
    requires Keeps(m.host, m.lib.codec, failures, k, before)
    modifies m, m.wallet, m.vault, m.host, m.engine
    ensures next.Valid() && next.host == m.host && next.lib == m.lib
    ensures next == m || (fresh(next) && fresh(next.wallet) && fresh(next.vault))
    ensures next.engine == null || next.engine == old(m.engine) || fresh(next.engine)
    ensures Recounts(before + [(action, now)], outs + [out], grown, EngineOf(next), b)
    ensures Keeps(m.host, m.lib.codec, failures, k, before + [(action, now)])
  {
    ghost var engine := EngineOf(m);
    var calls; ghost var ev;
    next, calls, out, ev := Act(m, action, now);
    RecountStep(before, outs, lives, engine, action, now, out, ev, EngineOf(next), b);
    KeepsOneMore(m.lib.codec, k, before, action, now);
    grown := GoOn(lives, action, now, engine, ev);
  }

  /** The actions one after the other, and the lives behind them. */
  method Live(host: HostStore, lib: Library, actions: seq<Timed>, ghost b: Bounds)
    returns (m: Module, outs: seq<Outcome>, ghost lives: seq<Life>)
    requires lib.cipher.Sound() && lib.codec.Sound()
    requires KeysKept(host, lib.cipher) && SecretsKept(host, lib.cipher, lib.codec)
    modifies host
    ensures fresh(m) && fresh(m.wallet) && fresh(m.vault) && (m.engine == null || fresh(m.engine))
    ensures m.Valid() && m.host == host && m.lib == lib
    ensures Recounts(actions, outs, lives, EngineOf(m), b)
    ensures Keeps(host, lib.codec, old(host.failures), old(KeptIn(host, lib.codec)), actions)
  {
    ghost var failures, k := host.failures, KeptIn(host, lib.codec);
    m := new Module(host, lib);
    outs, lives := [], [Life(0, 0, [])];
    RecountStart(b);
    for i := 0 to |actions|
      invariant fresh(m) && fresh(m.wallet) && fresh(m.vault) && (m.engine == null || fresh(m.engine))
      invariant m.Valid() && m.host == host && m.lib == lib
      invariant Recounts(actions[..i], outs, lives, EngineOf(m), b)
      invariant Keeps(host, lib.codec, failures, k, actions[..i])
    {
      assert actions[..i + 1] == actions[..i] + [(actions[i].0, actions[i].1)];
      var out;
      m, out, lives := LiveOn(m, actions[..i], outs, lives, actions[i].0, actions[i].1, b, failures, k);
      outs := outs + [out];
    }
    assert actions[..|actions|] == actions;
  }

  /** Over any sequence of actions, restarts and failures included:
      keys that are held have 32 bytes, a configuration means both keys are held, each master key is
      written at most once, and loading a persisted key gives back the key last persisted under that
      id. If the host never fails, the vault keeps what the deposits and removals say.
      The engine knows the rules for secrets set since the last start, and none before. As long as
      the clock does not run backwards: if the limits adopted stay within `b`, the engine's counters
      are the sums of what was paid since the last start, and no 24 hours pay more than two daily
      limits and one more for every restart in them; and if a secret was only sent under rules
      within `b`, the same bounds hold of its calls in every minute and every day. */
  method Lifetime(host: HostStore, lib: Library, actions: seq<Timed>, id: string, ghost b: Bounds)
    returns (m: Module, loaded: Option<Bytes>, outs: seq<Outcome>)
    requires lib.cipher.Sound() && lib.codec.Sound()
    requires KeysKept(host, lib.cipher) && SecretsKept(host, lib.cipher, lib.codec)
    modifies host
    ensures m.Valid() && m.host == host && m.lib == lib
    ensures m.workerKey.Some? ==> |m.workerKey.value| == KEY_LENGTH
    ensures m.sessionKey.Some? ==> |m.sessionKey.value| == KEY_LENGTH
    ensures m.backendConfig.Some? ==> m.workerKey.Some? && m.sessionKey.Some?
    ensures Count(host.writes, MASTER) <= 1 && Count(host.writes, SECRETS_MASTER) <= 1
    ensures HoldsKey(host.persisted, id) ==> loaded == Some(host.persisted[id])
    ensures host.failures == old(host.failures) ==>
              KeptIn(host, lib.codec) == KeptAfter(lib.codec, old(KeptIn(host, lib.codec)), actions)
    ensures |outs| == |actions| && OfActions(actions, outs) && RulesInForce(actions, EngineOf(m))
    ensures Orderly(actions) && Modest(actions, b.perTx, b.daily) ==>
              && CountersAreSums(actions, outs, EngineOf(m))
              && (m.engine != null ==> m.engine.spendingToday <= Spending.Cap(b.perTx, b.daily))
              && forall from: nat :: DayIsBounded(actions, outs, b.perTx, b.daily, from)
    ensures Orderly(actions) && UnderRules(actions, outs, b.name, b.perMinute, b.perDay) ==>
              forall from: nat :: CallsAreBounded(actions, outs, b.name, b.perMinute, b.perDay, from)
  {
    ghost var lives;
    m, outs, lives := Live(host, lib, actions, b);
    Accounts(actions, outs, lives, EngineOf(m), b);
    loaded := None;
    if IsKeyEntry(id) {
      loaded := m.LoadPersisted(id);
    }
  }

  lemma Accounts(actions: seq<Timed>, outs: seq<Outcome>, lives: seq<Life>, engine: Option<Engine>, b: Bounds)
    requires Recounts(actions, outs, lives, engine, b)
    ensures Orderly(actions) && Modest(actions, b.perTx, b.daily) ==>
              && CountersAreSums(actions, outs, engine)
              && (engine.Some? ==> engine.value.spendingToday <= Spending.Cap(b.perTx, b.daily))
              && forall from: nat :: DayIsBounded(actions, outs, b.perTx, b.daily, from)
    ensures Orderly(actions) && UnderRules(actions, outs, b.name, b.perMinute, b.perDay) ==>
              forall from: nat :: CallsAreBounded(actions, outs, b.name, b.perMinute, b.perDay, from)
  {
    if Orderly(actions) {
      if Modest(actions, b.perTx, b.daily) {
        LifetimeCounters(actions, outs, lives, engine, b);
        forall from: nat
          ensures DayIsBounded(actions, outs, b.perTx, b.daily, from)
        {
          LifetimePayments(actions, outs, lives, engine, b, from);
        }
      }
      if UnderRules(actions, outs, b.name, b.perMinute, b.perDay) {
        forall from: nat
          ensures CallsAreBounded(actions, outs, b.name, b.perMinute, b.perDay, from)
        {
          LifetimeCalls(actions, outs, lives, engine, b, from);
        }
      }
    }
  }
}
