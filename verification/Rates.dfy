/** Per-secret call counters over whole runs of the engine. */
module Rates {
  import opened Wrappers
  import opened Policies
  import opened Runs
  import opened Text
  import opened Windows

  /** The engine and, for one secret, when it was called, in which minute and day windows, and in
      requests to which URLs. */
  datatype Meter = Meter(engine: Engine, minute: seq<Rec>, day: seq<Rec>, urls: seq<string>)

  /** Metering begins; the engine may have counted calls before. */
  function Begin(e: Engine): Meter {
    Meter(e, [], [], [])
  }

  predicate Calls(w: Width, e: Engine, n: string, ev: Event) {
    ev.Request? && n in ev.names && Admits(w, e, ev.names, ev.url, ev.now) && ev.ready
  }

  /** The counters of a secret, new ones if it was never used. */
  function Counters(e: Engine, n: string, now: nat): SecretUsage {
    if n in e.usage then e.usage[n] else SecretUsage(0, 0, now, now)
  }

  /** The meter after one more call into these windows. */
  function Counted(m: Meter, e: Engine, u: SecretUsage, url: string, now: nat): Meter {
    Meter(e, m.minute + [Rec(now, u.lastMinuteReset, 1)], m.day + [Rec(now, u.lastDayReset, 1)], m.urls + [url])
  }

  function Step(w: Width, n: string, m: Meter, ev: Event): Meter {
    var e := AfterEvent(w, m.engine, ev);
    if Calls(w, m.engine, n, ev) then Counted(m, e, Counters(e, n, ev.now), ev.url, ev.now) else m.(engine := e)
  }

  function Run(w: Width, n: string, m: Meter, evs: seq<Event>): Meter {
    if evs == [] then m else Step(w, n, Run(w, n, m, evs[..|evs| - 1]), evs[|evs| - 1])
  }

  /** The engine runs as it does for spending. */
  lemma {:induction false} RunIsOfEngine(w: Width, n: string, m: Meter, evs: seq<Event>)
    ensures Run(w, n, m, evs).engine == AfterEvents(w, m.engine, evs)
  {
    if evs != [] {
      RunIsOfEngine(w, n, m, evs[..|evs| - 1]);
    }
  }

  predicate Timely(w: Width, now: nat) {
    w == Machine ==> now + SECONDS_PER_DAY < TWO_TO_THE_64
  }

  /** The time does not overflow the machine's clock, and no request names a secret twice, as
      collecting its placeholders ensures. */
  predicate Fits(w: Width, ev: Event) {
    (!ev.SetPolicy? ==> Timely(w, ev.now)) && (ev.Request? ==> NoDuplicates(ev.names))
  }

  predicate Proper(w: Width, t: nat, evs: seq<Event>) {
    Clocked(t, evs) && forall i :: 0 <= i < |evs| ==> Fits(w, evs[i])
  }

  /** The policy holds an entry for the secret, with limits of at most these. */
  predicate Restricts(p: Policy, n: string, perMinute: nat, perDay: nat) {
    n in p.secrets && p.secrets[n].rateLimit <= perMinute && p.secrets[n].dailyLimit <= perDay
  }

  /** Whenever the secret is called in the run, the policy in force restricts it to these limits. */
  predicate Ruled(w: Width, e: Engine, evs: seq<Event>, n: string, perMinute: nat, perDay: nat) {
    evs == [] ||
    (var before, ev := evs[..|evs| - 1], evs[|evs| - 1];
     && Ruled(w, e, before, n, perMinute, perDay)
     && (Calls(w, AfterEvents(w, e, before), n, ev) ==>
           Restricts(AfterEvents(w, e, before).policy, n, perMinute, perDay)))
  }

  lemma {:induction false} FixedIsRuled(w: Width, e: Engine, evs: seq<Event>, n: string)
    requires n in e.policy.secrets && PolicyFixed(evs)
    ensures Ruled(w, e, evs, n, e.policy.secrets[n].rateLimit, e.policy.secrets[n].dailyLimit)
  {
    if evs != [] {
      FixedIsRuled(w, e, evs[..|evs| - 1], n);
      PolicyStays(w, e, evs[..|evs| - 1]);
    }
  }

  // ---------- one counter ----------

  /** One lazily restarted counter and the calls counted since metering began, `carried` at most
      being counted before. */
  ghost predicate Counts(h: seq<Rec>, calls: nat, start: nat, clock: nat, span: nat, cap: nat, carried: nat) {
    && Tumbling(h, span, cap)
    && InWindow(h, start) <= calls <= InWindow(h, start) + carried
    && InWindow(h, start) <= cap
    && start <= clock
    && forall i :: 0 <= i < |h| ==> h[i].start == start || h[i].start + span <= start
  }

  lemma CountsReset(h: seq<Rec>, calls: nat, start: nat, clock: nat, now: nat, span: nat, cap: nat, carried: nat)
    requires Counts(h, calls, start, clock, span, cap, carried) && clock <= now && span > 0
    ensures if now >= start + span then Counts(h, 0, now, now, span, cap, carried)
            else Counts(h, calls, start, now, span, cap, carried)
  {
    if now >= start + span {
      EmptyWindow(h, now);
    }
  }

  function Most(limit: nat): nat {
    if limit == 0 then 1 else limit
  }

  /** A call counted while the counter is below its limit, or into a new counter. */
  lemma CountsCall(h: seq<Rec>, calls: nat, start: nat, now: nat, span: nat, limit: nat, carried: nat)
    requires Counts(h, calls, start, now, span, Most(limit), carried) && now < start + span
    requires calls < limit || calls == 0
    ensures Counts(h + [Rec(now, start, 1)], calls + 1, start, now, span, Most(limit), carried)
  {
    TumblingExtend(h, Rec(now, start, 1), span, Most(limit));
  }

  // ---------- both counters of one secret ----------

  /** The limits that hold during a run and the number of calls counted before it. */
  datatype Terms = Terms(perMinute: nat, perDay: nat, carried: nat)

  ghost predicate BothCount(m: Meter, u: SecretUsage, c: Terms, clock: nat) {
    && Counts(m.minute, u.callsThisMinute, u.lastMinuteReset, clock, SECONDS_PER_MINUTE, Most(c.perMinute), c.carried)
    && Counts(m.day, u.callsToday, u.lastDayReset, clock, SECONDS_PER_DAY, Most(c.perDay), c.carried)
  }

  ghost predicate Metered(m: Meter, n: string, c: Terms, clock: nat) {
    if n in m.engine.usage then
      && BothCount(m, m.engine.usage[n], c, clock)
      && (c.perMinute == 0 || c.perDay == 0 ==> |m.minute| <= 1)
    else m.minute == [] && m.day == []
  }

  predicate InWindows(u: SecretUsage, now: nat) {
    now < u.lastMinuteReset + SECONDS_PER_MINUTE && now < u.lastDayReset + SECONDS_PER_DAY
  }

  lemma ResetKeepsMeter(w: Width, m: Meter, n: string, c: Terms, clock: nat, now: nat)
    requires Metered(m, n, c, clock) && clock <= now && Timely(w, now)
    ensures var r := m.(engine := Reset(w, m.engine, now));
            Metered(r, n, c, now) && (n in r.engine.usage ==> InWindows(r.engine.usage[n], now))
  {
    if n in m.engine.usage {
      ResetKeepsBoth(w, m, m.engine.usage[n], c, clock, now);
    }
  }

  lemma ResetKeepsBoth(w: Width, m: Meter, u: SecretUsage, c: Terms, clock: nat, now: nat)
    requires BothCount(m, u, c, clock) && clock <= now && Timely(w, now)
    ensures var r := ResetUsage(w, u, now); BothCount(m, r, c, now) && InWindows(r, now)
  {
    CountsReset(m.minute, u.callsThisMinute, u.lastMinuteReset, clock, now, SECONDS_PER_MINUTE,
                Most(c.perMinute), c.carried);
    CountsReset(m.day, u.callsToday, u.lastDayReset, clock, now, SECONDS_PER_DAY, Most(c.perDay), c.carried);
    assert Plus64(w, u.lastMinuteReset, SECONDS_PER_MINUTE) == u.lastMinuteReset + SECONDS_PER_MINUTE;
    assert Plus64(w, u.lastDayReset, SECONDS_PER_DAY) == u.lastDayReset + SECONDS_PER_DAY;
  }

  function OneMore(u: SecretUsage): SecretUsage {
    u.(callsThisMinute := u.callsThisMinute + 1, callsToday := u.callsToday + 1)
  }

  predicate BelowLimits(u: SecretUsage, c: Terms) {
    && (u.callsThisMinute < c.perMinute || u.callsThisMinute == 0)
    && (u.callsToday < c.perDay || u.callsToday == 0)
  }

  /** A call that passes its check finds both counters below the limits, or finds none. */
  lemma AllowedIsBelow(w: Width, e: Engine, n: string, c: Terms, url: string, now: nat)
    requires Restricts(e.policy, n, c.perMinute, c.perDay) && SecretVerdict(e, n, url).Allowed?
    ensures var u := Counters(e, n, now);
            BelowLimits(u, c) && RecordUse(w, e, n, now).usage[n] == OneMore(u)
    ensures n in e.usage ==> c.perMinute > 0 && c.perDay > 0
  {
  }

  /** A call that passed its check is counted without passing the limits. */
  lemma CallKeepsBoth(m: Meter, e: Engine, u: SecretUsage, c: Terms, url: string, now: nat)
    requires BothCount(m, u, c, now) && InWindows(u, now) && BelowLimits(u, c)
    ensures BothCount(Counted(m, e, u, url, now), OneMore(u), c, now)
  {
    CountsCall(m.minute, u.callsThisMinute, u.lastMinuteReset, now, SECONDS_PER_MINUTE, c.perMinute, c.carried);
    CountsCall(m.day, u.callsToday, u.lastDayReset, now, SECONDS_PER_DAY, c.perDay, c.carried);
  }

  lemma CountersBoth(m: Meter, n: string, c: Terms, now: nat)
    requires Metered(m, n, c, now)
    ensures BothCount(m, Counters(m.engine, n, now), c, now)
  {
  }

  /** The meter after an engine `e` has counted one admitted call of the secret. */
  lemma CountedCall(w: Width, m: Meter, n: string, c: Terms, url: string, now: nat, e: Engine)
    requires Metered(m, n, c, now) && (n in m.engine.usage ==> InWindows(m.engine.usage[n], now))
    requires Restricts(m.engine.policy, n, c.perMinute, c.perDay) && SecretVerdict(m.engine, n, url).Allowed?
    requires n in e.usage && e.usage[n] == RecordUse(w, m.engine, n, now).usage[n]
    ensures Metered(Counted(m, e, e.usage[n], url, now), n, c, now)
  {
    var u := Counters(m.engine, n, now);
    AllowedIsBelow(w, m.engine, n, c, url, now);
    CountersBoth(m, n, c, now);
    CallKeepsBoth(m, e, u, c, url, now);
    assert Counted(m, e, e.usage[n], url, now) == Counted(m, e, u, url, now);
  }

  /** What a request does to the meter of a secret: a counted call, or a reset. */
  lemma CallStep(w: Width, n: string, m: Meter, ev: Event)
    requires ev.Request? && ev.names != [] && NoDuplicates(ev.names)
    ensures var r, s := m.(engine := Reset(w, m.engine, ev.now)), Step(w, n, m, ev);
            && s.engine.policy == m.engine.policy
            && if Calls(w, m.engine, n, ev) then
                 && n in s.engine.usage && s.engine.usage[n] == RecordUse(w, r.engine, n, ev.now).usage[n]
                 && s == Counted(r, s.engine, s.engine.usage[n], ev.url, ev.now)
               else
                 && s == r.(engine := s.engine)
                 && (n in s.engine.usage <==> n in r.engine.usage)
                 && (n in r.engine.usage ==> s.engine.usage[n] == r.engine.usage[n])
  {
    RecordAllCountsOnce(w, Reset(w, m.engine, ev.now), ev.names, ev.now, n);
  }

  lemma CallStepKeepsMeter(w: Width, m: Meter, n: string, c: Terms, clock: nat, ev: Event)
    requires ev.Request? && ev.names != [] && NoDuplicates(ev.names)
    requires Metered(m, n, c, clock) && clock <= ev.now && Timely(w, ev.now)
    requires Calls(w, m.engine, n, ev) ==> Restricts(m.engine.policy, n, c.perMinute, c.perDay)
    ensures Metered(Step(w, n, m, ev), n, c, ev.now)
  {
    var r := m.(engine := Reset(w, m.engine, ev.now));
    ResetKeepsMeter(w, m, n, c, clock, ev.now);
    CallStep(w, n, m, ev);
    if Calls(w, m.engine, n, ev) {
      CountedCall(w, r, n, c, ev.url, ev.now, Step(w, n, m, ev).engine);
    }
  }

  /** A transaction is to the meter what a reset is. */
  lemma SpendStep(w: Width, n: string, m: Meter, ev: Event)
    requires ev.Spend?
    ensures var r, s := m.(engine := Reset(w, m.engine, ev.now)), Step(w, n, m, ev);
            s == r.(engine := s.engine) && s.engine.usage == r.engine.usage
  {
  }

  lemma StepKeepsMeter(w: Width, m: Meter, n: string, c: Terms, clock: nat, ev: Event)
    requires Metered(m, n, c, clock) && Fits(w, ev) && (!ev.SetPolicy? ==> clock <= ev.now)
    requires Calls(w, m.engine, n, ev) ==> Restricts(m.engine.policy, n, c.perMinute, c.perDay)
    ensures Metered(Step(w, n, m, ev), n, c, if ev.SetPolicy? then clock else ev.now)
  {
    if ev.Tick? {
      ResetKeepsMeter(w, m, n, c, clock, ev.now);
    } else if ev.Spend? {
      ResetKeepsMeter(w, m, n, c, clock, ev.now);
      SpendStep(w, n, m, ev);
    } else if ev.Request? && ev.names != [] {
      CallStepKeepsMeter(w, m, n, c, clock, ev);
    }
  }

  /** The secret's counters were not restarted in the future. */
  predicate Past(e: Engine, n: string, t: nat) {
    n in e.usage ==> e.usage[n].lastMinuteReset <= t && e.usage[n].lastDayReset <= t
  }

  /** How many calls the engine counts for a secret already. */
  function Carried(e: Engine, n: string): nat {
    if n !in e.usage then 0
    else if e.usage[n].callsThisMinute <= e.usage[n].callsToday then e.usage[n].callsToday
    else e.usage[n].callsThisMinute
  }

  lemma {:induction false} RunIsMetered(w: Width, e: Engine, t: u64, evs: seq<Event>, n: string,
                                        perMinute: nat, perDay: nat)
    requires Past(e, n, t) && Proper(w, t, evs) && Ruled(w, e, evs, n, perMinute, perDay)
    ensures Metered(Run(w, n, Begin(e), evs), n, Terms(perMinute, perDay, Carried(e, n)), Clock(t, evs))
  {
    if evs != [] {
      var before := evs[..|evs| - 1];
      RunIsMetered(w, e, t, before, n, perMinute, perDay);
      RunIsOfEngine(w, n, Begin(e), before);
      StepKeepsMeter(w, Run(w, n, Begin(e), before), n, Terms(perMinute, perDay, Carried(e, n)), Clock(t, before),
                     evs[|evs| - 1]);
    }
  }

  // ---------- when calls were made ----------

  /** Calls were made between `t` and `clock`, each counts once, and the first opened its window. */
  predicate Dated(h: seq<Rec>, t: nat, clock: nat) {
    && (forall i :: 0 <= i < |h| ==> t <= h[i].time <= clock && h[i].amount == 1)
    && (h != [] ==> h[0].start == h[0].time)
  }

  /** A secret not used before has counters exactly since its first call. */
  ghost predicate Opened(m: Meter, n: string, t: nat, clock: nat) {
    && Dated(m.minute, t, clock) && Dated(m.day, t, clock)
    && |m.minute| == |m.day|
    && (n in m.engine.usage <==> m.minute != [])
  }

  lemma StepOpens(w: Width, n: string, m: Meter, t: nat, clock: nat, ev: Event)
    requires Opened(m, n, t, clock) && Fits(w, ev) && (!ev.SetPolicy? ==> t <= clock <= ev.now)
    ensures Opened(Step(w, n, m, ev), n, t, if ev.SetPolicy? then clock else ev.now)
  {
    if ev.Spend? {
      SpendStep(w, n, m, ev);
    } else if ev.Request? && ev.names != [] {
      CallStep(w, n, m, ev);
    }
  }

  lemma {:induction false} RunOpens(w: Width, e: Engine, t: u64, evs: seq<Event>, n: string)
    requires n !in e.usage && Proper(w, t, evs)
    ensures Opened(Run(w, n, Begin(e), evs), n, t, Clock(t, evs)) && t <= Clock(t, evs)
  {
    if evs != [] {
      var before := evs[..|evs| - 1];
      RunOpens(w, e, t, before, n);
      StepOpens(w, n, Run(w, n, Begin(e), before), t, Clock(t, before), evs[|evs| - 1]);
    }
  }

  lemma FirstWindowBound(h: seq<Rec>, span: nat, cap: nat, t: nat, clock: nat, from: nat)
    requires Tumbling(h, span, cap) && Dated(h, t, clock) && from <= t
    ensures InInterval(h, from, span) <= cap
  {
    if h == [] {
    } else {
      OneWindowBound(h, span, cap, h[0].start, from);
    }
  }

  /** A counted call falls into a minute only if it falls into the day that begins with it. */
  lemma CountedInDay(m: Meter, e: Engine, u: SecretUsage, url: string, now: nat, from: nat)
    requires InInterval(m.minute, from, SECONDS_PER_MINUTE) <= InInterval(m.day, from, SECONDS_PER_DAY)
    ensures var r := Counted(m, e, u, url, now);
            InInterval(r.minute, from, SECONDS_PER_MINUTE) <= InInterval(r.day, from, SECONDS_PER_DAY)
  {
    SumsExtend(m.minute, Rec(now, u.lastMinuteReset, 1), 0);
    SumsExtend(m.day, Rec(now, u.lastDayReset, 1), 0);
  }

  lemma {:induction false} MinutesAreInDays(w: Width, m: Meter, evs: seq<Event>, n: string, from: nat)
    requires InInterval(m.minute, from, SECONDS_PER_MINUTE) <= InInterval(m.day, from, SECONDS_PER_DAY)
    ensures var r := Run(w, n, m, evs);
            InInterval(r.minute, from, SECONDS_PER_MINUTE) <= InInterval(r.day, from, SECONDS_PER_DAY)
  {
    if evs != [] {
      MinutesAreInDays(w, m, evs[..|evs| - 1], n, from);
      var r, ev := Run(w, n, m, evs[..|evs| - 1]), evs[|evs| - 1];
      if Calls(w, r.engine, n, ev) {
        var e := AfterEvent(w, r.engine, ev);
        CountedInDay(r, e, Counters(e, n, ev.now), ev.url, ev.now, from);
      }
    }
  }

  function Less(a: nat, b: nat): nat {
    if a <= b then a else b
  }

  /** From any engine on, whatever it counted before, and through any changes of policy: as long as
      the policy in force restricts the secret to these limits whenever it is called, a sliding
      minute holds at most twice the smaller and a sliding day twice the daily one of them, a limit
      of zero counting as one and then allowing one call ever. For a secret never used before, the
      counters themselves stay within the limits. */
  lemma RateLimitsHold(w: Width, e: Engine, t: u64, evs: seq<Event>, n: string,
                       perMinute: nat, perDay: nat, from: nat)
    requires Past(e, n, t) && Proper(w, t, evs) && Ruled(w, e, evs, n, perMinute, perDay)
    ensures var m := Run(w, n, Begin(e), evs);
            && InInterval(m.minute, from, 60) <= 2 * Less(Most(perMinute), Most(perDay))
            && InInterval(m.day, from, 86_400) <= 2 * Most(perDay)
            && (perMinute == 0 || perDay == 0 ==> |m.minute| <= 1)
            && (n !in e.usage && n in m.engine.usage ==>
                  && m.engine.usage[n].callsThisMinute <= Most(perMinute)
                  && m.engine.usage[n].callsToday <= Most(perDay))
  {
    var m := Run(w, n, Begin(e), evs);
    RunIsMetered(w, e, t, evs, n, perMinute, perDay);
    assert Tumbling(m.minute, SECONDS_PER_MINUTE, Most(perMinute)) && Tumbling(m.day, SECONDS_PER_DAY, Most(perDay));
    SlidingBound(m.minute, SECONDS_PER_MINUTE, Most(perMinute), from);
    SlidingBound(m.day, SECONDS_PER_DAY, Most(perDay), from);
    MinutesAreInDays(w, Begin(e), evs, n, from);
  }

  /** A secret not used before `t` is called at most once the limit in a minute or day that begins
      no later than that. */
  lemma FirstLimitsHold(w: Width, e: Engine, t: u64, evs: seq<Event>, n: string,
                        perMinute: nat, perDay: nat, from: nat)
    requires n !in e.usage && Proper(w, t, evs) && Ruled(w, e, evs, n, perMinute, perDay) && from <= t
    ensures var m := Run(w, n, Begin(e), evs);
            && InInterval(m.minute, from, 60) <= Less(Most(perMinute), Most(perDay))
            && InInterval(m.day, from, 86_400) <= Most(perDay)
  {
    var m := Run(w, n, Begin(e), evs);
    RunIsMetered(w, e, t, evs, n, perMinute, perDay);
    RunOpens(w, e, t, evs, n);
    assert Tumbling(m.minute, SECONDS_PER_MINUTE, Most(perMinute)) && Tumbling(m.day, SECONDS_PER_DAY, Most(perDay));
    FirstWindowBound(m.minute, SECONDS_PER_MINUTE, Most(perMinute), t, Clock(t, evs), from);
    FirstWindowBound(m.day, SECONDS_PER_DAY, Most(perDay), t, Clock(t, evs), from);
    MinutesAreInDays(w, Begin(e), evs, n, from);
  }

  // ---------- which limits are kept ----------

  predicate DomainAllowed(p: SecretPolicy, url: string) {
    p.allowedDomains != [] ==> exists d :: d in p.allowedDomains && UrlContains(url, d)
  }

  function SomeUrl(p: SecretPolicy): string {
    if p.allowedDomains == [] then "" else p.allowedDomains[0]
  }

  lemma SomeUrlIsAllowed(p: SecretPolicy)
    ensures DomainAllowed(p, SomeUrl(p))
  {
    if p.allowedDomains != [] {
      assert OccursAt(SomeUrl(p), p.allowedDomains[0], 0);
      assert p.allowedDomains[0] in p.allowedDomains;
    }
  }

  predicate Holds(m: Meter, policy: Policy, n: string, u: SecretUsage) {
    m.engine.policy == policy && n in m.engine.usage && m.engine.usage[n] == u
  }

  predicate Ended(w: Width, t: nat, evs: seq<Event>, now: nat) {
    Proper(w, t, evs) && EndsBy(t, evs, now)
  }

  /** Whatever its limits, the first call of a secret to an allowed URL is let through. */
  lemma FirstCallIsLetThrough(w: Width, policy: Policy, t: u64, n: string, url: string)
    requires n in policy.secrets && DomainAllowed(policy.secrets[n], url)
    ensures var m := Run(w, n, Begin(NewEngine(policy, t)), [Request(t, [n], url, true)]);
            && Holds(m, policy, n, SecretUsage(1, 1, t, t))
            && m.minute == m.day == [Rec(t, t, 1)]
  {
    var evs := [Request(t, [n], url, true)];
    var start := NewEngine(policy, t);
    assert evs[..0] == [] && Run(w, n, Begin(start), evs[..0]).engine == start;
    assert Admits(w, start, [n], url, t);
    assert [n][..0] == [];
    RecordAllCountsOnce(w, Reset(w, start, t), [n], t, n);
    assert n in [n];
  }

  /** Under this policy, no run from a new engine ever counts more calls of the secret than the
      limit per minute. */
  ghost predicate KeepsMinuteLimit(w: Width, policy: Policy, t: u64, n: string)
    requires n in policy.secrets
  {
    forall evs :: Proper(w, t, evs) && PolicyFixed(evs) ==>
      var e := Run(w, n, Begin(NewEngine(policy, t)), evs).engine;
      n in e.usage ==> e.usage[n].callsThisMinute <= policy.secrets[n].rateLimit
  }

  /** The same for the limit per day. */
  ghost predicate KeepsDailyLimit(w: Width, policy: Policy, t: u64, n: string)
    requires n in policy.secrets
  {
    forall evs :: Proper(w, t, evs) && PolicyFixed(evs) ==>
      var e := Run(w, n, Begin(NewEngine(policy, t)), evs).engine;
      n in e.usage ==> e.usage[n].callsToday <= policy.secrets[n].dailyLimit
  }

  lemma CountersWithin(w: Width, policy: Policy, t: u64, n: string, evs: seq<Event>)
    requires n in policy.secrets && Proper(w, t, evs) && PolicyFixed(evs)
    ensures var u, p := Run(w, n, Begin(NewEngine(policy, t)), evs).engine.usage, policy.secrets[n];
            n in u ==> u[n].callsThisMinute <= Most(p.rateLimit) && u[n].callsToday <= Most(p.dailyLimit)
  {
    var p := policy.secrets[n];
    FixedIsRuled(w, NewEngine(policy, t), evs, n);
    RateLimitsHold(w, NewEngine(policy, t), t, evs, n, p.rateLimit, p.dailyLimit, 0);
  }

  lemma FirstCallExample(w: Width, policy: Policy, t: u64, n: string) returns (evs: seq<Event>)
    requires n in policy.secrets && Timely(w, t)
    ensures Ended(w, t, evs, t)
    ensures var m := Run(w, n, Begin(NewEngine(policy, t)), evs);
            Holds(m, policy, n, SecretUsage(1, 1, t, t)) && m.minute == m.day == [Rec(t, t, 1)]
  {
    var url := SomeUrl(policy.secrets[n]);
    SomeUrlIsAllowed(policy.secrets[n]);
    FirstCallIsLetThrough(w, policy, t, n, url);
    evs := [Request(t, [n], url, true)];
    assert evs[..0] == [] && Proper(w, t, evs[..0]) && Clock(t, evs[..0]) == t;
  }

  /** The limits are kept exactly when they are positive. */
  lemma LimitsKeptExactly(w: Width, policy: Policy, t: u64, n: string)
    requires n in policy.secrets && Timely(w, t)
    ensures KeepsMinuteLimit(w, policy, t, n) <==> policy.secrets[n].rateLimit > 0
    ensures KeepsDailyLimit(w, policy, t, n) <==> policy.secrets[n].dailyLimit > 0
  {
    forall evs | Proper(w, t, evs) && PolicyFixed(evs)
      ensures var u, p := Run(w, n, Begin(NewEngine(policy, t)), evs).engine.usage, policy.secrets[n];
              n in u ==> u[n].callsThisMinute <= Most(p.rateLimit) && u[n].callsToday <= Most(p.dailyLimit)
    {
      CountersWithin(w, policy, t, n, evs);
    }
    var evs := FirstCallExample(w, policy, t, n);
  }

  // ---------- sliding minutes ----------

  /** A run from a new engine that ends by `clock` with these counters, and how many of its calls
      fall into the minute and the day from `from` on. */
  ghost predicate Tells(w: Width, policy: Policy, t: u64, n: string, evs: seq<Event>,
                        clock: nat, u: SecretUsage, from: nat, calls: nat) {
    var m := Run(w, n, Begin(NewEngine(policy, t)), evs);
    && Ended(w, t, evs, clock)
    && Holds(m, policy, n, u)
    && InInterval(m.minute, from, SECONDS_PER_MINUTE) == InInterval(m.day, from, SECONDS_PER_DAY) == calls
  }

  lemma TellsTick(w: Width, policy: Policy, t: u64, n: string, evs: seq<Event>, clock: nat, u: SecretUsage,
                  from: nat, calls: nat, now: u64)
    requires Tells(w, policy, t, n, evs, clock, u, from, calls) && clock <= now && Timely(w, now)
    ensures Tells(w, policy, t, n, evs + [Tick(now)], now, ResetUsage(w, u, now), from, calls)
  {
    assert (evs + [Tick(now)])[..|evs|] == evs;
  }

  lemma EngineCall(w: Width, e: Engine, n: string, u: SecretUsage, url: string, now: u64)
    requires n in e.usage && e.usage[n] == u && Timely(w, now)
    requires u.lastMinuteReset <= now && u.lastDayReset <= now && InWindows(u, now)
    requires n in e.policy.secrets && DomainAllowed(e.policy.secrets[n], url)
    requires u.callsThisMinute < e.policy.secrets[n].rateLimit && u.callsToday < e.policy.secrets[n].dailyLimit
    ensures Calls(w, e, n, Request(now, [n], url, true))
    ensures var r := AfterEvent(w, e, Request(now, [n], url, true));
            r.policy == e.policy && n in r.usage && r.usage[n] == OneMore(u)
  {
    assert ResetUsage(w, u, now) == u;
    var r := Reset(w, e, now);
    assert r.usage[n] == u;
    RecordAllCountsOnce(w, r, [n], now, n);
    assert n in [n];
  }

  lemma CountedSums(m: Meter, e: Engine, u: SecretUsage, url: string, now: nat, from: nat)
    requires from <= now < from + SECONDS_PER_MINUTE
    ensures var r := Counted(m, e, u, url, now);
            && InInterval(r.minute, from, SECONDS_PER_MINUTE) == InInterval(m.minute, from, SECONDS_PER_MINUTE) + 1
            && InInterval(r.day, from, SECONDS_PER_DAY) == InInterval(m.day, from, SECONDS_PER_DAY) + 1
  {
    SumsExtend(m.minute, Rec(now, u.lastMinuteReset, 1), 0);
    SumsExtend(m.day, Rec(now, u.lastDayReset, 1), 0);
  }

  lemma StepCall(w: Width, policy: Policy, n: string, m: Meter, u: SecretUsage, url: string, now: u64, from: nat)
    requires Holds(m, policy, n, u) && Timely(w, now)
    requires u.lastMinuteReset <= now && u.lastDayReset <= now && InWindows(u, now)
    requires n in policy.secrets && DomainAllowed(policy.secrets[n], url)
    requires u.callsThisMinute < policy.secrets[n].rateLimit && u.callsToday < policy.secrets[n].dailyLimit
    requires from <= now < from + SECONDS_PER_MINUTE
    ensures var r := Step(w, n, m, Request(now, [n], url, true));
            && Holds(r, policy, n, OneMore(u))
            && InInterval(r.minute, from, SECONDS_PER_MINUTE) == InInterval(m.minute, from, SECONDS_PER_MINUTE) + 1
            && InInterval(r.day, from, SECONDS_PER_DAY) == InInterval(m.day, from, SECONDS_PER_DAY) + 1
  {
    var ev := Request(now, [n], url, true);
    EngineCall(w, m.engine, n, u, url, now);
    CountedSums(m, AfterEvent(w, m.engine, ev), OneMore(u), url, now, from);
  }

  function Plus(u: SecretUsage, k: nat): SecretUsage {
    u.(callsThisMinute := u.callsThisMinute + k, callsToday := u.callsToday + k)
  }

  /** One call more, let through. */
  lemma TellsCall(w: Width, policy: Policy, t: u64, n: string, evs: seq<Event>, clock: nat, u: SecretUsage,
                  from: nat, calls: nat, now: u64) returns (all: seq<Event>)
    requires Tells(w, policy, t, n, evs, clock, u, from, calls) && clock <= now && Timely(w, now)
    requires u.lastMinuteReset <= now && u.lastDayReset <= now && InWindows(u, now)
    requires from <= now < from + SECONDS_PER_MINUTE
    requires n in policy.secrets
    requires u.callsThisMinute < policy.secrets[n].rateLimit && u.callsToday < policy.secrets[n].dailyLimit
    ensures Tells(w, policy, t, n, all, now, OneMore(u), from, calls + 1)
  {
    var url := SomeUrl(policy.secrets[n]);
    SomeUrlIsAllowed(policy.secrets[n]);
    StepCall(w, policy, n, Run(w, n, Begin(NewEngine(policy, t)), evs), u, url, now, from);
    EndedOneMore(w, t, evs, clock, Request(now, [n], url, true));
    all := evs + [Request(now, [n], url, true)];
    assert all[..|evs|] == evs;
  }

  lemma EndedOneMore(w: Width, t: nat, evs: seq<Event>, clock: nat, ev: Event)
    requires Ended(w, t, evs, clock) && !ev.SetPolicy? && clock <= ev.now && Fits(w, ev)
    ensures Ended(w, t, evs + [ev], ev.now)
  {
    assert (evs + [ev])[..|evs|] == evs;
  }

  /** `k` calls at one moment, all let through. */
  lemma {:induction false} Burst(w: Width, policy: Policy, t: u64, n: string, evs: seq<Event>, clock: nat,
                                 u: SecretUsage, from: nat, calls: nat, now: u64, k: nat)
    returns (all: seq<Event>)
    requires Tells(w, policy, t, n, evs, clock, u, from, calls) && clock <= now && Timely(w, now)
    requires u.lastMinuteReset <= now && u.lastDayReset <= now && InWindows(u, now)
    requires from <= now < from + SECONDS_PER_MINUTE
    requires n in policy.secrets
    requires u.callsThisMinute + k <= policy.secrets[n].rateLimit && u.callsToday + k <= policy.secrets[n].dailyLimit
    ensures Tells(w, policy, t, n, all, now, Plus(u, k), from, calls + k)
  {
    if k == 0 {
      all := evs;
    } else {
      all := Burst(w, policy, t, n, evs, clock, u, from, calls, now, k - 1);
      all := TellsCall(w, policy, t, n, all, now, Plus(u, k - 1), from, calls + k - 1, now);
      assert OneMore(Plus(u, k - 1)) == Plus(u, k);
    }
  }

  lemma OneCallInside(r: Rec, from: nat)
    requires r.amount == 1 && from <= r.time < from + SECONDS_PER_MINUTE
    ensures InInterval([r], from, SECONDS_PER_MINUTE) == InInterval([r], from, SECONDS_PER_DAY) == 1
  {
    assert [r][..0] == [];
  }

  /** A new engine lets through as many calls at once as the smaller limit. */
  lemma FirstCalls(w: Width, policy: Policy, t: u64, n: string, k: nat, from: nat) returns (evs: seq<Event>)
    requires n in policy.secrets && Timely(w, t) && from <= t < from + SECONDS_PER_MINUTE
    requires k == 1 || 1 <= k <= Less(policy.secrets[n].rateLimit, policy.secrets[n].dailyLimit)
    ensures Tells(w, policy, t, n, evs, t, SecretUsage(k, k, t, t), from, k)
  {
    evs := FirstCallExample(w, policy, t, n);
    OneCallInside(Rec(t, t, 1), from);
    if k > 1 {
      evs := Burst(w, policy, t, n, evs, t, SecretUsage(1, 1, t, t), from, 1, t, k - 1);
    }
  }

  lemma BothRestart(w: Width, u: SecretUsage, now: u64)
    requires Timely(w, now) && u.lastMinuteReset + SECONDS_PER_MINUTE <= now && u.lastDayReset + SECONDS_PER_DAY <= now
    ensures ResetUsage(w, u, now) == SecretUsage(0, 0, now, now)
  {
  }

  lemma MinuteRestarts(w: Width, start: nat, now: u64)
    requires Timely(w, now) && start + SECONDS_PER_MINUTE <= now < start + SECONDS_PER_DAY
    ensures ResetUsage(w, SecretUsage(0, 0, start, start), now) == SecretUsage(0, 0, now, start)
  {
  }

  /** A day begins, and its last minute window with it a minute before the end. */
  lemma LastMinuteOfDay(w: Width, policy: Policy, t: u64, n: string, late: u64, from: nat) returns (evs: seq<Event>)
    requires n in policy.secrets && Timely(w, late)
    requires t + 2 * SECONDS_PER_DAY - SECONDS_PER_MINUTE == late < from
    ensures Tells(w, policy, t, n, evs, late, SecretUsage(0, 0, late, t + SECONDS_PER_DAY), from, 0)
  {
    var day1 := t + SECONDS_PER_DAY;
    evs := FirstCallExample(w, policy, t, n);
    CallsOutside(Rec(t, t, 1), from);
    TellsTick(w, policy, t, n, evs, t, SecretUsage(1, 1, t, t), from, 0, day1);
    BothRestart(w, SecretUsage(1, 1, t, t), day1);
    evs := evs + [Tick(day1)];
    TellsTick(w, policy, t, n, evs, day1, SecretUsage(0, 0, day1, day1), from, 0, late);
    MinuteRestarts(w, day1, late);
    evs := evs + [Tick(late)];
  }

  /** The bounds cannot be improved: twice as many calls as the smaller limit fall into one minute,
      half of them at the end of a day and half at the start of the next. */
  lemma TwiceTheCallsAreReached(w: Width, policy: Policy, t: u64, n: string) returns (evs: seq<Event>)
    requires n in policy.secrets && t + 3 * 86_400 < TWO_TO_THE_64
    ensures var p, m := policy.secrets[n], Run(w, n, Begin(NewEngine(policy, t)), evs);
            var from, calls := t + 2 * 86_400 - 1, 2 * Less(p.rateLimit, p.dailyLimit);
            && Ended(w, t, evs, t + 2 * 86_400)
            && InInterval(m.minute, from, 60) == InInterval(m.day, from, 86_400) == calls
  {
    var k := Less(policy.secrets[n].rateLimit, policy.secrets[n].dailyLimit);
    var late, day2 := t + 2 * SECONDS_PER_DAY - SECONDS_PER_MINUTE, t + 2 * SECONDS_PER_DAY;
    var from, u := day2 - 1, SecretUsage(0, 0, late, t + SECONDS_PER_DAY);
    evs := LastMinuteOfDay(w, policy, t, n, late, from);
    evs := Burst(w, policy, t, n, evs, late, u, from, 0, from, k);
    TellsTick(w, policy, t, n, evs, from, Plus(u, k), from, k, day2);
    BothRestart(w, Plus(u, k), day2);
    evs := Burst(w, policy, t, n, evs + [Tick(day2)], day2, SecretUsage(0, 0, day2, day2), from, k, day2, k);
  }

  lemma CallsOutside(r: Rec, from: nat)
    requires r.time < from
    ensures InInterval([r], from, SECONDS_PER_MINUTE) == InInterval([r], from, SECONDS_PER_DAY) == 0
  {
    NothingInside([r], from, SECONDS_PER_MINUTE);
    NothingInside([r], from, SECONDS_PER_DAY);
  }

  /** The documented promise: no minute, wherever it starts, holds more calls than the limit. */
  ghost predicate KeepsEveryMinute(w: Width, policy: Policy, t: u64, n: string)
    requires n in policy.secrets
  {
    forall evs, from: nat :: Proper(w, t, evs) && PolicyFixed(evs) ==>
      InInterval(Run(w, n, Begin(NewEngine(policy, t)), evs).minute, from, 60)
      <= policy.secrets[n].rateLimit
  }

  lemma MinuteWithin(w: Width, policy: Policy, t: u64, n: string, evs: seq<Event>, from: nat)
    requires n in policy.secrets && Proper(w, t, evs) && PolicyFixed(evs)
    requires var p := policy.secrets[n]; p.rateLimit > 0 && 2 * p.dailyLimit <= p.rateLimit
    ensures InInterval(Run(w, n, Begin(NewEngine(policy, t)), evs).minute, from, SECONDS_PER_MINUTE)
            <= policy.secrets[n].rateLimit
  {
    var p, m := policy.secrets[n], Run(w, n, Begin(NewEngine(policy, t)), evs);
    FixedIsRuled(w, NewEngine(policy, t), evs, n);
    RateLimitsHold(w, NewEngine(policy, t), t, evs, n, p.rateLimit, p.dailyLimit, from);
    if p.dailyLimit == 0 && m.minute != [] {
      RunIsMetered(w, NewEngine(policy, t), t, evs, n, p.rateLimit, p.dailyLimit);
      OneWindowBound(m.minute, SECONDS_PER_MINUTE, Most(p.rateLimit), m.minute[0].start, from);
    }
  }

  /** The windows tumble, so the promise holds exactly when the daily limit is at most half the
      limit per minute, and the latter is not zero. */
  lemma EveryMinuteKeptExactly(w: Width, policy: Policy, t: u64, n: string)
    requires n in policy.secrets && t + 3 * SECONDS_PER_DAY < TWO_TO_THE_64
    ensures KeepsEveryMinute(w, policy, t, n) <==>
            policy.secrets[n].rateLimit > 0 && 2 * policy.secrets[n].dailyLimit <= policy.secrets[n].rateLimit
  {
    var p, start := policy.secrets[n], Begin(NewEngine(policy, t));
    if p.rateLimit == 0 {
      var evs := FirstCallExample(w, policy, t, n);
      assert [Rec(t, t, 1)][..0] == [];
      assert InInterval(Run(w, n, start, evs).minute, t, SECONDS_PER_MINUTE) == 1;
    } else if 2 * p.dailyLimit <= p.rateLimit {
      forall evs, from: nat | Proper(w, t, evs) && PolicyFixed(evs)
        ensures InInterval(Run(w, n, start, evs).minute, from, SECONDS_PER_MINUTE) <= p.rateLimit
      {
        MinuteWithin(w, policy, t, n, evs, from);
      }
    } else {
      var evs := TwiceTheCallsAreReached(w, policy, t, n);
      assert InInterval(Run(w, n, start, evs).minute, t + 2 * SECONDS_PER_DAY - 1, SECONDS_PER_MINUTE) > p.rateLimit;
    }
  }

  /** Over any run, whatever policies come, a secret is only ever counted for requests to URLs
      that the policy in force at that moment allows. */
  lemma {:induction false} CallsOnlyToAllowedDomains(w: Width, e: Engine, evs: seq<Event>, n: string, i: nat)
    returns (k: nat)
    requires i < |Run(w, n, Begin(e), evs).urls|
    ensures k < |evs| && evs[k].Request? && n in evs[k].names && evs[k].url == Run(w, n, Begin(e), evs).urls[i]
    ensures var secrets := Run(w, n, Begin(e), evs[..k]).engine.policy.secrets;
            n in secrets ==> DomainAllowed(secrets[n], evs[k].url)
  {
    var before := evs[..|evs| - 1];
    if i < |Run(w, n, Begin(e), before).urls| {
      k := CallsOnlyToAllowedDomains(w, e, before, n, i);
      assert evs[..k] == before[..k];
    } else {
      k := |evs| - 1;
    }
  }
}
