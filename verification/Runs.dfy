/** What runs of the policy engine are made of. Transactions and requests with injected credentials
    act on one engine; a request makes all its checks before any of its recordings. */
module Runs {
  import opened Wrappers
  import opened Policies

  // ---------- requests ----------

  /** Every placeholder of the request passes its check at `now`. */
  predicate Admits(w: Width, e: Engine, names: seq<string>, url: string, now: nat) {
    forall n :: n in names ==> SecretVerdict(Reset(w, e, now), n, url).Allowed?
  }

  function RecordAll(w: Width, e: Engine, names: seq<string>, now: nat): Engine {
    if names == [] then e
    else RecordUse(w, RecordAll(w, e, names[..|names| - 1], now), names[|names| - 1], now)
  }

  /** The engine after a request; `ready` says that every secret could be retrieved. A request
      without placeholders does not touch it. */
  function AfterCall(w: Width, e: Engine, names: seq<string>, url: string, now: nat, ready: bool): Engine {
    if names == [] then e
    else if Admits(w, e, names, url, now) && ready then RecordAll(w, Reset(w, e, now), names, now)
    else Reset(w, e, now)
  }

  /** Recording a request counts each of its secrets once and no other. */
  lemma {:induction false} RecordAllCountsOnce(w: Width, e: Engine, names: seq<string>, now: nat, n: string)
    requires NoDuplicates(names)
    ensures var r := RecordAll(w, e, names, now);
            && r.policy == e.policy
            && (n in r.usage <==> n in e.usage || n in names)
            && (n in names ==> r.usage[n] == RecordUse(w, e, n, now).usage[n])
            && (n !in names && n in e.usage ==> r.usage[n] == e.usage[n])
  {
    if names != [] {
      RecordAllCountsOnce(w, e, names[..|names| - 1], now, n);
      assert names == names[..|names| - 1] + [names[|names| - 1]];
    }
  }

  /** To the spending side of the engine, a request is a reset or nothing at all. */
  lemma {:induction false} RequestOnlyResetsSpending(w: Width, e: Engine, names: seq<string>, url: string,
                                                     now: nat, ready: bool)
    ensures var r := AfterCall(w, e, names, url, now, ready);
            r == (if names == [] then e else Reset(w, e, now)).(usage := r.usage)
  {
    RecordAllKeepsSpending(w, Reset(w, e, now), names, now);
  }

  lemma {:induction false} RecordAllKeepsSpending(w: Width, e: Engine, names: seq<string>, now: nat)
    ensures RecordAll(w, e, names, now) == e.(usage := RecordAll(w, e, names, now).usage)
  {
    if names != [] {
      RecordAllKeepsSpending(w, e, names[..|names| - 1], now);
    }
  }

  // ---------- events ----------

  /** One step of a run: a reset by some other call, a transaction flow that is checked at `now`
      and recorded when the backend settled it, a request with injected credentials, or a change
      of policy. */
  datatype Event =
    | Tick(now: u64)
    | Spend(now: u64, amount: u64, settled: bool)
    | Request(now: u64, names: seq<string>, url: string, ready: bool)
    | SetPolicy(policy: Policy)

  predicate Settles(w: Width, e: Engine, ev: Event)
    requires ev.Spend?
  {
    ev.settled && SpendingVerdict(w, Reset(w, e, ev.now), ev.amount, ev.now).Allowed?
  }

  function AfterEvent(w: Width, e: Engine, ev: Event): Engine {
    match ev
    case Tick(now) => Reset(w, e, now)
    case Spend(now, amount, _) =>
      if Settles(w, e, ev) then Record(w, Reset(w, e, now), amount) else Reset(w, e, now)
    case Request(now, names, url, ready) => AfterCall(w, e, names, url, now, ready)
    case SetPolicy(policy) => e.(policy := policy)
  }

  function AfterEvents(w: Width, e: Engine, evs: seq<Event>): Engine {
    if evs == [] then e else AfterEvent(w, AfterEvents(w, e, evs[..|evs| - 1]), evs[|evs| - 1])
  }

  /** The clock after a run that began at `t`. */
  function Clock(t: nat, evs: seq<Event>): nat {
    if evs == [] then t
    else if evs[|evs| - 1].SetPolicy? then Clock(t, evs[..|evs| - 1])
    else evs[|evs| - 1].now
  }

  /** The clock never runs backwards. */
  predicate Clocked(t: nat, evs: seq<Event>) {
    evs == [] || (Clocked(t, evs[..|evs| - 1]) && Clock(t, evs[..|evs| - 1]) <= Clock(t, evs))
  }

  predicate PolicyFixed(evs: seq<Event>) {
    forall i :: 0 <= i < |evs| ==> !evs[i].SetPolicy?
  }

  /** A clocked run under one policy that is over by `now`. */
  predicate EndsBy(t: nat, evs: seq<Event>, now: nat) {
    Clocked(t, evs) && PolicyFixed(evs) && Clock(t, evs) <= now
  }

  lemma {:induction false} PolicyStays(w: Width, e: Engine, evs: seq<Event>)
    requires PolicyFixed(evs)
    ensures AfterEvents(w, e, evs).policy == e.policy
  {
    if evs != [] {
      var before, ev := evs[..|evs| - 1], evs[|evs| - 1];
      PolicyStays(w, e, before);
      EventKeepsPolicy(w, AfterEvents(w, e, before), ev);
    }
  }

  lemma EventKeepsPolicy(w: Width, e: Engine, ev: Event)
    requires !ev.SetPolicy?
    ensures AfterEvent(w, e, ev).policy == e.policy
  {
    if ev.Request? {
      RequestOnlyResetsSpending(w, e, ev.names, ev.url, ev.now, ev.ready);
    }
  }
}
