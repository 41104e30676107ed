/** The policy engine: limits, lazily restarted counting windows, and checks kept apart from the
    recording they guard. The engine's meaning is given by functions on values; the class
    updates its fields in place and is proved against them. */
module Policies {
  import opened Wrappers
  import opened Text

  const SECONDS_PER_MINUTE := 60
  const SECONDS_PER_DAY := 86_400
  datatype SpendingPolicy = SpendingPolicy(maxPerTx: u64, maxDaily: u64, expiresAt: Option<u64>)
  datatype SecretPolicy = SecretPolicy(rateLimit: u32, dailyLimit: u32, allowedDomains: seq<string>)
  datatype Policy = Policy(spending: SpendingPolicy, secrets: map<string, SecretPolicy>)

  /** The policy of an engine nobody has set up yet. */
  const NO_POLICY := Policy.Policy(SpendingPolicy(0, 0, None), map[])

  datatype SecretUsage = SecretUsage(
    callsThisMinute: nat, callsToday: nat, lastMinuteReset: nat, lastDayReset: nat)

  datatype Engine = Engine(
    policy: Policy, spendingToday: nat, totalAllTime: nat, lastDayReset: nat,
    usage: map<string, SecretUsage>)

  datatype Denial = Expired | OverPerTx | OverDaily | DomainNotAllowed | RateExceeded | DailyExceeded
  datatype Verdict = Allowed | Denied(reason: Denial)

  /** Sums either wrap around, as the release build's machine integers do, or are exact. */
  datatype Width = Machine | Unbounded

  function Plus64(w: Width, a: nat, b: nat): nat {
    if w == Machine then (a + b) % TWO_TO_THE_64 else a + b
  }

  function Plus32(w: Width, a: nat, b: nat): nat {
    if w == Machine then (a + b) % TWO_TO_THE_32 else a + b
  }

  function NewEngine(policy: Policy, now: nat): Engine {
    Engine(policy, 0, 0, now, map[])
  }

  function ResetUsage(w: Width, u: SecretUsage, now: nat): SecretUsage {
    var minute := now >= Plus64(w, u.lastMinuteReset, SECONDS_PER_MINUTE);
    var day := now >= Plus64(w, u.lastDayReset, SECONDS_PER_DAY);
    SecretUsage(
      if minute then 0 else u.callsThisMinute,
      if day then 0 else u.callsToday,
      if minute then now else u.lastMinuteReset,
      if day then now else u.lastDayReset)
  }

  function Reset(w: Width, e: Engine, now: nat): Engine {
    var usage := map n | n in e.usage :: ResetUsage(w, e.usage[n], now);
    if now >= Plus64(w, e.lastDayReset, SECONDS_PER_DAY)
    then e.(spendingToday := 0, lastDayReset := now, usage := usage)
    else e.(usage := usage)
  }

  function SpendingVerdict(w: Width, e: Engine, amount: nat, now: nat): Verdict {
    var p := e.policy.spending;
    if p.expiresAt.Some? && now > p.expiresAt.value then Denied(Expired)
    else if amount > p.maxPerTx then Denied(OverPerTx)
    else if Plus64(w, e.spendingToday, amount) > p.maxDaily then Denied(OverDaily)
    else Allowed
  }

  function Record(w: Width, e: Engine, amount: nat): Engine {
    e.(spendingToday := Plus64(w, e.spendingToday, amount),
       totalAllTime := Plus64(w, e.totalAllTime, amount))
  }

  predicate UrlContains(url: string, domain: string) {
    exists i :: 0 <= i <= |url| && OccursAt(url, domain, i)
  }

  /** A secret without policy is unrestricted; one never used is not rate-checked. */
  function SecretVerdict(e: Engine, name: string, url: string): Verdict {
    if name !in e.policy.secrets then Allowed
    else
      var p := e.policy.secrets[name];
      if p.allowedDomains != [] && !(exists d :: d in p.allowedDomains && UrlContains(url, d))
      then Denied(DomainNotAllowed)
      else if name !in e.usage then Allowed
      else if e.usage[name].callsThisMinute >= p.rateLimit then Denied(RateExceeded)
      else if e.usage[name].callsToday >= p.dailyLimit then Denied(DailyExceeded)
      else Allowed
  }

  function RecordUse(w: Width, e: Engine, name: string, now: nat): Engine {
    var u := if name in e.usage then e.usage[name] else SecretUsage(0, 0, now, now);
    e.(usage := e.usage[name := u.(callsThisMinute := Plus32(w, u.callsThisMinute, 1),
                                   callsToday := Plus32(w, u.callsToday, 1))])
  }

  /** Resetting twice at the same time is resetting once. */
  lemma ResetTwice(w: Width, e: Engine, now: nat)
    ensures Reset(w, Reset(w, e, now), now) == Reset(w, e, now)
  {
    var once, twice := Reset(w, e, now), Reset(w, Reset(w, e, now), now);
    assert forall n :: n in e.usage ==> twice.usage[n] == once.usage[n];
    assert twice.usage == once.usage;
  }

  class PolicyEngine {
    var policy: Policy
    var spendingToday: u64
    var totalAllTime: u64
    var lastDayReset: u64
    var secretUsage: map<string, SecretUsage>

    ghost function View(): Engine
      reads this
    {
      Engine(policy, spendingToday, totalAllTime, lastDayReset, secretUsage)
    }

    constructor (policy: Policy, now: u64)
      ensures View() == NewEngine(policy, now)
    {
      this.policy := policy;
      spendingToday, totalAllTime, lastDayReset := 0, 0, now;
      secretUsage := map[];
    }

    method SetPolicy(policy: Policy)
      modifies this
      ensures View() == old(View()).(policy := policy)
      ensures this.policy == policy && spendingToday == old(spendingToday) && totalAllTime == old(totalAllTime) &&
              lastDayReset == old(lastDayReset) && secretUsage == old(secretUsage)
    {
      this.policy := policy;
    }

    /** A day that began at least 86400 seconds ago starts over, and so does a minute that began at
        least 60 seconds ago. */
    method ResetIfNeeded(now: u64)
      modifies this
      ensures View() == Reset(Machine, old(View()), now)
      ensures policy == old(policy) && totalAllTime == old(totalAllTime)
      ensures var over := now >= (old(lastDayReset) + 86_400) % TWO_TO_THE_64;
              && spendingToday == (if over then 0 else old(spendingToday))
              && lastDayReset == if over then now else old(lastDayReset)
      ensures secretUsage.Keys == old(secretUsage).Keys
      ensures forall n :: n in secretUsage ==>
                var u, v := old(secretUsage)[n], secretUsage[n];
                var minute, day := now >= (u.lastMinuteReset + 60) % TWO_TO_THE_64,
                                   now >= (u.lastDayReset + 86_400) % TWO_TO_THE_64;
                && v.callsThisMinute == (if minute then 0 else u.callsThisMinute)
                && v.lastMinuteReset == (if minute then now else u.lastMinuteReset)
                && v.callsToday == (if day then 0 else u.callsToday)
                && v.lastDayReset == if day then now else u.lastDayReset
    {
      if now >= (lastDayReset + SECONDS_PER_DAY) % TWO_TO_THE_64 {
        spendingToday := 0;
        lastDayReset := now;
      }
      var rest := secretUsage.Keys;
      while rest != {}
        modifies `secretUsage
        invariant rest <= secretUsage.Keys == old(secretUsage).Keys
        invariant forall n :: n in rest ==> secretUsage[n] == old(secretUsage)[n]
        invariant forall n :: n in secretUsage && n !in rest ==>
                                secretUsage[n] == ResetUsage(Machine, old(secretUsage)[n], now)
        decreases rest
      {
        var name :| name in rest;
        var usage := secretUsage[name];
        if now >= (usage.lastMinuteReset + SECONDS_PER_MINUTE) % TWO_TO_THE_64 {
          usage := usage.(callsThisMinute := 0, lastMinuteReset := now);
        }
        if now >= (usage.lastDayReset + SECONDS_PER_DAY) % TWO_TO_THE_64 {
          usage := usage.(callsToday := 0, lastDayReset := now);
        }
        assert usage == ResetUsage(Machine, old(secretUsage)[name], now);
        secretUsage := secretUsage[name := usage];
        rest := rest - {name};
      }
      assert secretUsage == map n | n in old(secretUsage) :: ResetUsage(Machine, old(secretUsage)[n], now);
    }

    /** Expiry is looked at first, then the limit per transaction, then the sum of the day. */
    method CheckSpending(amount: u64, now: u64) returns (v: Verdict)
      ensures v == SpendingVerdict(Machine, View(), amount, now)
      ensures v == Denied(Expired) <==> policy.spending.expiresAt.Some? && policy.spending.expiresAt.value < now
      ensures v == Denied(OverPerTx) <==> v != Denied(Expired) && amount > policy.spending.maxPerTx
      ensures v == Denied(OverDaily) <==>
                v != Denied(Expired) && v != Denied(OverPerTx) &&
                (spendingToday + amount) % TWO_TO_THE_64 > policy.spending.maxDaily
      ensures v.Denied? ==> v.reason == Expired || v.reason == OverPerTx || v.reason == OverDaily
    {
      if policy.spending.expiresAt.Some? {
        if now > policy.spending.expiresAt.value {
          return Denied(Expired);
        }
      }
      if amount > policy.spending.maxPerTx {
        return Denied(OverPerTx);
      }
      if (spendingToday + amount) % TWO_TO_THE_64 > policy.spending.maxDaily {
        return Denied(OverDaily);
      }
      v := Allowed;
    }

    method RecordSpending(amount: u64)
      modifies this
      ensures View() == Record(Machine, old(View()), amount)
      ensures policy == old(policy) && lastDayReset == old(lastDayReset) && secretUsage == old(secretUsage)
      ensures spendingToday == (old(spendingToday) + amount) % 0x1_0000_0000_0000_0000
      ensures totalAllTime == (old(totalAllTime) + amount) % 0x1_0000_0000_0000_0000
    {
      spendingToday := (spendingToday + amount) % TWO_TO_THE_64;
      totalAllTime := (totalAllTime + amount) % TWO_TO_THE_64;
    }

    /** A secret without policy may go anywhere at any time. Domains are looked at first, then the
        calls of the minute, then those of the day. */
    method CheckSecretUsage(name: string, url: string) returns (v: Verdict)
      ensures v == SecretVerdict(View(), name, url)
      ensures name !in policy.secrets ==> v == Allowed
      ensures v == Denied(DomainNotAllowed) <==>
                name in policy.secrets && policy.secrets[name].allowedDomains != [] &&
                forall d :: d in policy.secrets[name].allowedDomains ==> !Contains(url, d)
      ensures v == Denied(RateExceeded) <==>
                v != Denied(DomainNotAllowed) && name in policy.secrets && name in secretUsage &&
                secretUsage[name].callsThisMinute >= policy.secrets[name].rateLimit
      ensures v == Denied(DailyExceeded) <==>
                v != Denied(DomainNotAllowed) && v != Denied(RateExceeded) &&
                name in policy.secrets && name in secretUsage &&
                secretUsage[name].callsToday >= policy.secrets[name].dailyLimit
      ensures v.Denied? ==> v.reason == DomainNotAllowed || v.reason == RateExceeded || v.reason == DailyExceeded
    {
      if name !in policy.secrets {
        return Allowed;
      }
      var p := policy.secrets[name];
      if p.allowedDomains != [] {
        var allowed := false;
        for i := 0 to |p.allowedDomains|
          invariant allowed <==> exists d :: d in p.allowedDomains[..i] && UrlContains(url, d)
        {
          assert p.allowedDomains[..i + 1] == p.allowedDomains[..i] + [p.allowedDomains[i]];
          if UrlContains(url, p.allowedDomains[i]) {
            allowed := true;
          }
        }
        assert p.allowedDomains[..|p.allowedDomains|] == p.allowedDomains;
        if !allowed {
          return Denied(DomainNotAllowed);
        }
      }
      if name in secretUsage {
        if secretUsage[name].callsThisMinute >= p.rateLimit {
          return Denied(RateExceeded);
        }
        if secretUsage[name].callsToday >= p.dailyLimit {
          return Denied(DailyExceeded);
        }
      }
      v := Allowed;
    }

    method RecordSecretUsage(name: string, now: u64)
      modifies this
      ensures View() == RecordUse(Machine, old(View()), name, now)
      ensures policy == old(policy) && spendingToday == old(spendingToday) &&
              totalAllTime == old(totalAllTime) && lastDayReset == old(lastDayReset)
      ensures secretUsage.Keys == old(secretUsage).Keys + {name}
      ensures forall n :: n in old(secretUsage) && n != name ==> secretUsage[n] == old(secretUsage)[n]
      ensures name !in old(secretUsage) ==> secretUsage[name] == SecretUsage(1, 1, now, now)
      ensures name in old(secretUsage) ==>
                var u, v := old(secretUsage)[name], secretUsage[name];
                && v.callsThisMinute == (u.callsThisMinute + 1) % 0x1_0000_0000
                && v.callsToday == (u.callsToday + 1) % 0x1_0000_0000
                && v.lastMinuteReset == u.lastMinuteReset && v.lastDayReset == u.lastDayReset
    {
      if name !in secretUsage {
        secretUsage := secretUsage[name := SecretUsage(0, 0, now, now)];
      }
      var usage := secretUsage[name];
      secretUsage := secretUsage[name := usage.(
        callsThisMinute := (usage.callsThisMinute + 1) % TWO_TO_THE_32,
        callsToday := (usage.callsToday + 1) % TWO_TO_THE_32)];
    }
  }
}
