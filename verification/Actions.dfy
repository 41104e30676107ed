/** Everything that can happen to the module and its store: every operation, with any host failure
    and any backend reply, and restarts. */
module Actions {
  import opened Wrappers
  import opened Policies
  import opened Host
  import opened Wallet
  import opened Vault
  import opened Backend
  import opened Template
  import opened Mandate
  import Rates
  import Runs
  import Spending
  import Usdc

  /** On a store nobody has written to, a module starts valid. */
  method FirstBoot(lib: Library) returns (m: Module)
    requires lib.cipher.Sound() && lib.codec.Sound()
    ensures fresh(m) && fresh(m.host) && m.Valid() && m.lib == lib
    ensures m.host.persisted == map[] && KeptIn(m.host, lib.codec) == Kept([], map[], true)
    ensures Usable(m.host.store, MASTER)
  {
    var host := new HostStore();
    m := new Module(host, lib);
    assert Listed(host.store, lib.codec) == [];
  }

  /** Generating keys, restarting the module over the same store and initializing with the ids
      that generation returned restores exactly the generated keys, even if the backend refuses.
      If no host call fails and the wallet's master key is usable, nothing prevents that. */
  method GenerateRestartInit(m: Module, baseUrl: string, agentId: string,
                             mine: Option<MandateInfo>, clock: u64)
    returns (r: Option<Module>)
    requires m.Valid()
    modifies m, m.wallet, m.host
    ensures r.Some? ==> r.value.Valid() && m.workerKey.Some? && m.sessionKey.Some? &&
                        r.value.workerKey == m.workerKey && r.value.sessionKey == m.sessionKey
    ensures r.Some? ==> r.value.backendConfig.Some?
    ensures Usable(old(m.host.store), MASTER) && m.host.failures == old(m.host.failures) ==> r.Some?
  {
    var ids := m.GenerateKeys();
    if ids.Err? {
      return None;
    }
    ghost var worker, session := m.workerKey, m.sessionKey;
    var restarted := new Module(m.host, m.lib);
    var cfg := InitConfig(BackendConfig(baseUrl, agentId, ids.value.worker, ids.value.session), "", "");
    var _ := restarted.Init(cfg, mine, clock);
    r := Some(restarted);
  }

  /** Whatever limits and expiry a mandate writes out, initialization makes them those of the engine;
      no expiry and `null` mean none. */
  method InitAdopts(m: Module, cfg: InitConfig, info: MandateInfo, clock: u64,
                    ghost perTx: u64, ghost daily: u64, ghost expiresAt: Option<u64>)
    returns (ok: bool)
    requires m.Valid() && info.maxPerTx == Usdc.Render(perTx) && info.maxDaily == Usdc.Render(daily)
    requires expiresAt.Some? ==> info.expiresAt == Usdc.Digits(expiresAt.value, 1)
    requires expiresAt.None? ==> info.expiresAt == "" || info.expiresAt == "null"
    modifies m, m.wallet, m.host, m.engine
    ensures m.Valid() && (ok <==> m.workerKey.Some? && m.sessionKey.Some?)
    ensures ok ==> m.engine != null && m.engine.policy.spending == SpendingPolicy(perTx, daily, expiresAt)
  {
    Usdc.ParseInvertsRender(perTx);
    Usdc.ParseInvertsRender(daily);
    if expiresAt.Some? {
      Usdc.ParseInvertsDigits(expiresAt.value);
    }
    var r := m.Init(cfg, Some(info), clock);
    ok := r.Ok?;
  }

  // ---------- one action ----------

  datatype Action =
    | Generate
    | Initialize(cfg: InitConfig, mine: Option<MandateInfo>)
    | NewPolicy(policy: Policy)
    | CheckPolicy
    | Summarize
    | Deposit(name: string, value: Bytes)
    | Remove(name: string)
    | Transact(order: Order, checkSpend: Reply, prepare: Reply, submit: Reply)
    | Inject(template: RequestTemplate, respond: RequestTemplate -> HttpResponse)
    | RestartModule

  /** What an action brought about: an amount paid, or secrets sent with a request. */
  datatype Outcome = Outcome(paid: Option<u64>, called: seq<string>)

  const NOTHING := Outcome(None, [])

  /** What the engine sees of an action at `now`: nothing, or one event of the runs. A spend is
      settled exactly when the transaction paid, and a request is ready exactly when it was sent. */
  ghost predicate Explains(action: Action, now: u64, out: Outcome, ev: Option<Runs.Event>) {
    match ev
    case None => out == NOTHING && !action.NewPolicy? && !action.Summarize?
    case Some(Tick(at)) => at == now && out == NOTHING && (action.Summarize? || action.CheckPolicy?)
    case Some(SetPolicy(policy)) =>
      && out == NOTHING
      && (action == NewPolicy(policy) ||
          (action.Initialize? && action.mine.Some? && Limits(action.mine.value) == Some(policy.spending)))
    case Some(Spend(at, amount, settled)) =>
      && at == now && action.Transact? && Usdc.ParseUsdcAmount(action.order.amount) == Some(amount)
      && out == Outcome(if settled then Some(amount) else None, [])
    case Some(Request(at, names, url, ready)) =>
      && at == now && action.Inject? && url == action.template.url && Placeholders(action.template, names)
      && out == Outcome(None, if ready then names else [])
  }

  /** What the engine, as the action found it, allowed: a payment passed the spending check and a
      sent request the checks of all its secrets. Initialization keeps the rules for secrets. */
  ghost predicate Allows(e: Engine, action: Action, now: u64, out: Outcome, ev: Option<Runs.Event>) {
    && (out.paid.Some? ==> SpendingVerdict(Machine, Reset(Machine, e, now), out.paid.value, now).Allowed?)
    && (out.called != [] ==> action.Inject? && Runs.Admits(Machine, e, out.called, action.template.url, now))
    && (action.Initialize? && ev.Some? ==> ev.value.SetPolicy? && ev.value.policy.secrets == e.policy.secrets)
  }

  ghost function Advanced(e: Engine, ev: Option<Runs.Event>): Engine {
    if ev.None? then e else Runs.AfterEvent(Machine, e, ev.value)
  }

  method ActInitialize(m: Module, action: Action, now: u64) returns (ghost ev: Option<Runs.Event>)
    requires m.Valid() && action.Initialize?
    modifies m, m.wallet, m.host, m.engine
    ensures m.Valid() && (m.engine == old(m.engine) || fresh(m.engine))
    ensures m.host.persisted == old(m.host.persisted) && m.host.failures >= old(m.host.failures)
    ensures m.engine == null <==> old(m.engine) == null && ev == None
    ensures Explains(action, now, NOTHING, ev) && Allows(old(m.CurrentEngine(now)), action, now, NOTHING, ev)
    ensures m.CurrentEngine(now) == Advanced(old(m.CurrentEngine(now)), ev)
    ensures ev.Some? <==> m.workerKey.Some? && m.sessionKey.Some? && action.mine.Some? &&
                          Limits(action.mine.value).Some?
    ensures KeptIn(m.host, m.lib.codec) == old(KeptIn(m.host, m.lib.codec))
  {
    var r := m.Init(action.cfg, action.mine, now);
    if action.mine.Some? {
      LimitsExactly(action.mine.value, if r.Ok? then m.engine.policy.spending else NO_POLICY.spending);
    }
    ev := if r.Ok? then Some(Runs.SetPolicy(m.CurrentEngine(now).policy)) else None;
  }

  /** The amount is a number that the engine, as the action found it, lets pass. */
  predicate Passes(e: Engine, amount: string, now: u64) {
    && Usdc.ParseUsdcAmount(amount).Some?
    && SpendingVerdict(Machine, Reset(Machine, e, now), Usdc.ParseUsdcAmount(amount).value, now).Allowed?
  }

  /** The flow goes on as long as the replies allow. */
  ghost predicate GoesAsFar(calls: seq<Call>, action: Action)
    requires action.Transact?
  {
    && |calls| <= 4
    && (|calls| >= 2 <==> calls != [] && action.checkSpend.status < 400)
    && (|calls| >= 3 <==> |calls| >= 2 && Acceptable(action.prepare, action.order.to))
    && (|calls| == 4 <==> |calls| >= 3 && action.submit.status < 400 && action.submit.body.Envelope? &&
                          action.submit.body.success && action.submit.body.data.Some? &&
                          "tx_hash" in action.submit.body.data.value)
  }

  /** The transaction flow of an action. */
  method Flow(m: Module, action: Action, now: u64) returns (paid: bool, calls: seq<Call>)
    requires m.Valid() && action.Transact?
    modifies m`engine, m.engine
    ensures m.Valid() && (m.engine == old(m.engine) || fresh(m.engine))
    ensures paid <==> |calls| == 4
    ensures calls != [] <==> old(m.backendConfig).Some? && Passes(old(m.CurrentEngine(now)), action.order.amount, now)
    ensures GoesAsFar(calls, action)
    ensures old(m.backendConfig).None? || Usdc.ParseUsdcAmount(action.order.amount).None? ==>
              m.engine == old(m.engine) && m.CurrentEngine(now) == old(m.CurrentEngine(now))
    ensures old(m.backendConfig).Some? && Usdc.ParseUsdcAmount(action.order.amount).Some? ==>
              && m.engine != null
              && m.engine.View() == AfterFlow(old(m.CurrentEngine(now)), now,
                                              Usdc.ParseUsdcAmount(action.order.amount).value, paid)
  {
    var r;
    r, calls := m.TxFlow(action.order, action.checkSpend, action.prepare, action.submit, now, now);
    paid := r.Ok?;
  }

  method ActTransact(m: Module, action: Action, now: u64)
    returns (calls: seq<Call>, out: Outcome, ghost ev: Option<Runs.Event>)
    requires m.Valid() && action.Transact?
    modifies m`engine, m.engine
    ensures m.Valid() && (m.engine == old(m.engine) || fresh(m.engine))
    ensures m.engine == null <==> old(m.engine) == null && ev == None
    ensures Explains(action, now, out, ev) && Allows(old(m.CurrentEngine(now)), action, now, out, ev)
    ensures m.CurrentEngine(now) == Advanced(old(m.CurrentEngine(now)), ev)
    ensures out.paid.Some? <==> |calls| == 4
    ensures calls != [] <==> old(m.backendConfig).Some? && Passes(old(m.CurrentEngine(now)), action.order.amount, now)
    ensures GoesAsFar(calls, action)
    ensures ev.Some? <==> old(m.backendConfig).Some? && Usdc.ParseUsdcAmount(action.order.amount).Some?
  {
    var paid;
    paid, calls := Flow(m, action, now);
    var amount := Usdc.ParseUsdcAmount(action.order.amount);
    out, ev := NOTHING, None;
    if m.backendConfig.Some? && amount.Some? {
      ev := Some(Runs.Spend(now, amount.value, paid));
      if paid {
        out := Outcome(Some(amount.value), []);
      }
    }
  }

  method ActInject(m: Module, action: Action, now: u64) returns (out: Outcome, ghost ev: Option<Runs.Event>)
    requires m.Valid() && action.Inject?
    modifies m`engine, m.engine, m.vault, m.host
    ensures m.Valid() && (m.engine == old(m.engine) || fresh(m.engine))
    ensures m.host.persisted == old(m.host.persisted) && m.host.failures == old(m.host.failures)
    ensures m.engine == null <==> old(m.engine) == null && ev == None
    ensures Explains(action, now, out, ev) && Allows(old(m.CurrentEngine(now)), action, now, out, ev)
    ensures m.CurrentEngine(now) == Advanced(old(m.CurrentEngine(now)), ev)
    ensures KeptIn(m.host, m.lib.codec) == old(KeptIn(m.host, m.lib.codec))
  {
    var r, sent, names, _ := m.ExecuteRequest(action.template, action.respond, now, now);
    out, ev := NOTHING, None;
    if m.engine != null {
      ev := Some(Runs.Request(now, names, action.template.url, r.Ok?));
      if r.Ok? {
        out := Outcome(None, names);
      }
    }
  }

  /** A call that only makes sure there is an engine: a new one is as good as reset at its birth. */
  method ActCheckPolicy(m: Module, now: u64) returns (ghost ev: Option<Runs.Event>)
    requires m.Valid()
    modifies m`engine
    ensures m.Valid() && (m.engine == old(m.engine) || fresh(m.engine))
    ensures m.engine != null && (ev == None <==> old(m.engine) != null)
    ensures Explains(CheckPolicy, now, NOTHING, ev) && m.CurrentEngine(now) == Advanced(old(m.CurrentEngine(now)), ev)
  {
    NewEngineIsReset(now);
    ev := if m.engine == null then Some(Runs.Tick(now)) else None;
    var _ := m.WithPolicyEngine(now);
  }

  lemma NewEngineIsReset(now: u64)
    ensures Reset(Machine, NewEngine(NO_POLICY, now), now) == NewEngine(NO_POLICY, now)
  {
    assert Reset(Machine, NewEngine(NO_POLICY, now), now).usage == map[];
  }

  /** The operations that go through the engine. */
  method ActOnEngine(m: Module, action: Action, now: u64)
    returns (calls: seq<Call>, out: Outcome, ghost ev: Option<Runs.Event>)
    requires m.Valid() && (action.Initialize? || action.NewPolicy? || action.CheckPolicy? || action.Summarize? ||
                           action.Transact? || action.Inject?)
    modifies m, m.wallet, m.vault, m.host, m.engine
    ensures m.Valid() && (m.engine == old(m.engine) || fresh(m.engine))
    ensures m.host.persisted == old(m.host.persisted) && m.host.failures >= old(m.host.failures)
    ensures KeptIn(m.host, m.lib.codec) == old(KeptIn(m.host, m.lib.codec))
    ensures m.engine == null <==> old(m.engine) == null && ev == None
    ensures Explains(action, now, out, ev) && Allows(old(m.CurrentEngine(now)), action, now, out, ev)
    ensures m.CurrentEngine(now) == Advanced(old(m.CurrentEngine(now)), ev)
    ensures out.paid.Some? <==> |calls| == 4
    ensures action.Initialize? ==>
              (ev.Some? <==> m.workerKey.Some? && m.sessionKey.Some? && action.mine.Some? &&
                             Limits(action.mine.value).Some?)
    ensures action.Transact? ==>
              (ev.Some? <==> old(m.backendConfig).Some? && Usdc.ParseUsdcAmount(action.order.amount).Some?) &&
              (calls != [] <==> old(m.backendConfig).Some? && Passes(old(m.CurrentEngine(now)), action.order.amount, now)) &&
              GoesAsFar(calls, action)
  {
    calls, out, ev := [], NOTHING, None;
    if action.Initialize? {
      ev := ActInitialize(m, action, now);
    } else if action.NewPolicy? {
      m.SetPolicy(action.policy, now);
      ev := Some(Runs.SetPolicy(action.policy));
    } else if action.CheckPolicy? {
      ev := ActCheckPolicy(m, now);
    } else if action.Summarize? {
      var _, _ := m.SpendingSummary(now, now);
      ev := Some(Runs.Tick(now));
    } else if action.Transact? {
      calls, out, ev := ActTransact(m, action, now);
    } else {
      out, ev := ActInject(m, action, now);
    }
  }

  /** What an action is to the vault. */
  function OpOf(action: Action): Op {
    match action
    case Deposit(name, value) => Put(name, value)
    case Remove(name) => Delete(name)
    case _ => Restart
  }

  /** Fresh keys are held and persisted under their ids. */
  ghost predicate Generated(m: Module)
    reads m, m.host
  {
    && m.workerKey.Some? && m.sessionKey.Some?
    && var worker, session := WorkerEntry(m.lib.workerId(m.workerKey.value)),
                              SessionEntry(m.lib.sessionId(m.sessionKey.value));
    && worker in m.host.persisted && m.host.persisted[worker] == m.workerKey.value
    && session in m.host.persisted && m.host.persisted[session] == m.sessionKey.value
  }

  /** The operations on keys and secrets. They succeed unless the host fails. */
  method ActOnStore(m: Module, action: Action)
    requires m.Valid() && (action.Generate? || action.Deposit? || action.Remove?)
    modifies m`workerKey, m`sessionKey, m.wallet, m.vault, m.host
    ensures m.Valid() && m.host.failures >= old(m.host.failures)
    ensures !action.Generate? ==> m.host.persisted == old(m.host.persisted)
    ensures KeptIn(m.host, m.lib.codec) ==
            After(m.lib.codec, old(KeptIn(m.host, m.lib.codec)), OpOf(action),
                  Works(old(KeptIn(m.host, m.lib.codec)), OpOf(action)) && m.host.failures == old(m.host.failures))
    ensures action.Generate? && Usable(old(m.host.store), MASTER) && m.host.failures == old(m.host.failures) ==>
              Generated(m)
  {
    match action {
      case Generate => var _ := m.GenerateKeys();
      case Deposit(name, value) => var _ := m.DepositSecret(name, value);
      case Remove(name) => var _ := m.RemoveSecret(name);
    }
  }

  /** One action at a given time. The engine takes the step of the event that explains it, and pays
      exactly when the transaction made all four backend calls. A restart leaves no engine. Only key
      generation changes what is persisted, and only deposit and removal change the secrets; they do
      what they are asked to unless the host fails. */
  method Act(m: Module, action: Action, now: u64)
    returns (next: Module, calls: seq<Call>, out: Outcome, ghost ev: Option<Runs.Event>)
    requires m.Valid()
    modifies m, m.wallet, m.vault, m.host, m.engine
    ensures next.Valid() && next.host == m.host && next.lib == m.lib
    ensures next == m || (fresh(next) && fresh(next.wallet) && fresh(next.vault))
    ensures next.engine == null || next.engine == old(m.engine) || fresh(next.engine)
    ensures m.host.failures >= old(m.host.failures)
    ensures !action.Generate? ==> m.host.persisted == old(m.host.persisted)
    ensures KeptIn(m.host, m.lib.codec) ==
            After(m.lib.codec, old(KeptIn(m.host, m.lib.codec)), OpOf(action),
                  Works(old(KeptIn(m.host, m.lib.codec)), OpOf(action)) && m.host.failures == old(m.host.failures))
    ensures action.Generate? && Usable(old(m.host.store), MASTER) && m.host.failures == old(m.host.failures) ==>
              && next.workerKey.Some? && next.sessionKey.Some?
              && var worker, session := WorkerEntry(next.lib.workerId(next.workerKey.value)),
                                        SessionEntry(next.lib.sessionId(next.sessionKey.value));
              && worker in next.host.persisted && next.host.persisted[worker] == next.workerKey.value
              && session in next.host.persisted && next.host.persisted[session] == next.sessionKey.value
    ensures Explains(action, now, out, ev) && Allows(old(m.CurrentEngine(now)), action, now, out, ev)
    ensures out.paid.Some? <==> |calls| == 4
    ensures action.Initialize? ==>
              (ev.Some? <==> next.workerKey.Some? && next.sessionKey.Some? && action.mine.Some? &&
                             Limits(action.mine.value).Some?)
    ensures action.Transact? ==>
              && (ev.Some? <==> old(m.backendConfig).Some? && Usdc.ParseUsdcAmount(action.order.amount).Some?)
              && (calls != [] <==>
                    old(m.backendConfig).Some? && Passes(old(m.CurrentEngine(now)), action.order.amount, now))
              && GoesAsFar(calls, action)
    ensures action.Transact? ==>
              (out.paid.Some? <==>
                && old(m.backendConfig).Some? && Passes(old(m.CurrentEngine(now)), action.order.amount, now)
                && action.checkSpend.status < 400 && Acceptable(action.prepare, action.order.to)
                && action.submit.status < 400 && action.submit.body.Envelope? && action.submit.body.success
                && action.submit.body.data.Some? && "tx_hash" in action.submit.body.data.value)
    ensures action.Transact? && |calls| >= 3 ==>
              action.checkSpend.status < 400 &&
              action.prepare.status < 400 && action.prepare.body.Envelope? && action.prepare.body.success
    ensures action.Transact? && action.checkSpend.status >= 400 ==> |calls| <= 1
    ensures action.RestartModule? ==> next.engine == null && ev == None
    ensures !action.RestartModule? ==>
              (next.engine == null <==> old(m.engine) == null && ev == None) &&
              next.CurrentEngine(now) == Advanced(old(m.CurrentEngine(now)), ev)
  {
    next, calls, out, ev := m, [], NOTHING, None;
    if action.RestartModule? {
      next := new Module(m.host, m.lib);
    } else if action.Generate? || action.Deposit? || action.Remove? {
      ActOnStore(m, action);
    } else {
      calls, out, ev := ActOnEngine(m, action, now);
    }
  }

  // ---------- what a restart forgets ----------

  /** A flow whose backend replies and amount leave nothing to refuse it. */
  ghost predicate Unopposed(o: Order, checkSpend: Reply, prepare: Reply, submit: Reply, limits: SpendingPolicy,
                            amount: nat, now: nat) {
    && Fetched(checkSpend) && Acceptable(prepare, o.to) && Submitted(submit)
    && Usdc.ParseUsdcAmount(o.amount) == Some(amount)
    && amount <= limits.maxPerTx && amount <= limits.maxDaily && Spending.Unexpired(limits, now)
  }

  /** There are such flows for every recipient and every amount within the limits. */
  lemma SomeUnopposedFlow(to: string, limits: SpendingPolicy, amount: u64, now: nat)
    returns (o: Order, checkSpend: Reply, prepare: Reply, submit: Reply)
    requires amount <= limits.maxPerTx && amount <= limits.maxDaily && Spending.Unexpired(limits, now)
    ensures o.to == to && Unopposed(o, checkSpend, prepare, submit, limits, amount, now)
  {
    o := Order(to, Usdc.Render(amount), "transfer", None);
    Usdc.ParseInvertsRender(amount);
    checkSpend := Reply(200, NotJson);
    prepare := SomePreparation(to);
    submit := Reply(200, Envelope(true, Some(map["tx_hash" := ""])));
  }

  /** A configuration that holds both keys itself. */
  predicate HoldsBothKeys(cfg: InitConfig) {
    HexKey(cfg.workerPrivateKeyHex).Some? && HexKey(cfg.sessionPrivateKeyHex).Some?
  }

  lemma NewEngineAllows(limits: SpendingPolicy, secrets: map<string, SecretPolicy>, amount: u64, now: u64)
    requires amount <= limits.maxPerTx && amount <= limits.maxDaily && Spending.Unexpired(limits, now)
    ensures var e := NewEngine(NO_POLICY, now).(policy := Policy.Policy(limits, secrets));
            SpendingVerdict(Machine, Reset(Machine, e, now), amount, now).Allowed?
  {
  }

  method BootAndPay(host: HostStore, lib: Library, cfg: InitConfig, mine: MandateInfo, ghost limits: SpendingPolicy,
                    o: Order, checkSpend: Reply, prepare: Reply, submit: Reply, ghost amount: u64, now: u64)
    returns (initialized: bool, paid: bool)
    requires lib.cipher.Sound() && lib.codec.Sound()
    requires KeysKept(host, lib.cipher) && SecretsKept(host, lib.cipher, lib.codec)
    requires Limits(mine) == Some(limits) && Unopposed(o, checkSpend, prepare, submit, limits, amount, now)
    modifies host
    ensures KeysKept(host, lib.cipher) && SecretsKept(host, lib.cipher, lib.codec)
    ensures paid == initialized && (HoldsBothKeys(cfg) ==> initialized)
  {
    var m := new Module(host, lib);
    LimitsExactly(mine, limits);
    var ready := m.Init(cfg, Some(mine), now);
    initialized, paid := ready.Ok?, false;
    if initialized {
      NewEngineAllows(limits, map[], amount, now);
      var r, _ := m.TxFlow(o, checkSpend, prepare, submit, now, now);
      paid := r.Ok?;
    }
  }

  /** What was spent does not survive a restart: of any number of boots at one and the same time,
      each one that initializes pays an amount up to the full daily limit again, and every one
      initializes from a configuration that holds the keys. */
  method PayEveryBoot(host: HostStore, lib: Library, cfg: InitConfig, mine: MandateInfo, ghost limits: SpendingPolicy,
                      o: Order, checkSpend: Reply, prepare: Reply, submit: Reply, ghost amount: u64, now: u64, k: nat)
    returns (initialized: seq<bool>, paid: seq<bool>)
    requires lib.cipher.Sound() && lib.codec.Sound()
    requires KeysKept(host, lib.cipher) && SecretsKept(host, lib.cipher, lib.codec)
    requires Limits(mine) == Some(limits) && Unopposed(o, checkSpend, prepare, submit, limits, amount, now)
    modifies host
    ensures |paid| == k && paid == initialized
    ensures HoldsBothKeys(cfg) ==> forall i :: 0 <= i < k ==> paid[i]
  {
    initialized, paid := [], [];
    for i := 0 to k
      invariant KeysKept(host, lib.cipher) && SecretsKept(host, lib.cipher, lib.codec)
      invariant |paid| == i && paid == initialized
      invariant HoldsBothKeys(cfg) ==> forall j :: 0 <= j < i ==> paid[j]
    {
      var started, pays := BootAndPay(host, lib, cfg, mine, limits, o, checkSpend, prepare, submit, amount, now);
      initialized, paid := initialized + [started], paid + [pays];
    }
  }

  lemma NoRulesAdmitAll(names: seq<string>, url: string, now: u64)
    ensures Runs.Admits(Machine, NewEngine(NO_POLICY, now), names, url, now)
  {
  }

  /** A restart forgets the rules for secrets: until a policy is set again, a request to any URL
      succeeds exactly when its secrets can be retrieved. */
  method CallAfterRestart(host: HostStore, lib: Library, t: RequestTemplate,
                          respond: RequestTemplate -> HttpResponse, now: u64)
    returns (r: Result<HttpResponse, Failure>, names: seq<string>)
    requires lib.cipher.Sound() && lib.codec.Sound()
    requires KeysKept(host, lib.cipher) && SecretsKept(host, lib.cipher, lib.codec)
    modifies host
    ensures Placeholders(t, names)
    ensures r.Ok? <==> AllReady(old(SecretMap(host, lib.codec)), lib.decodeText, names)
  {
    var m := new Module(host, lib);
    var sent; ghost var values;
    r, sent, names, values := m.ExecuteRequest(t, respond, now, now);
    NoRulesAdmitAll(names, t.url, now);
  }

  /** Every secret of the template can be retrieved and, by these rules, sent to its URL. */
  ghost predicate Sendable(t: RequestTemplate, secrets: map<string, Bytes>, decode: Bytes -> Option<string>,
                           policy: Policy) {
    forall n :: Mentions(t, n) ==>
      Ready(secrets, decode, n) && (n in policy.secrets ==> Rates.DomainAllowed(policy.secrets[n], t.url))
  }

  lemma NewEngineAdmits(t: RequestTemplate, names: seq<string>, secrets: map<string, Bytes>,
                        decode: Bytes -> Option<string>, policy: Policy, now: u64)
    requires Placeholders(t, names) && Sendable(t, secrets, decode, policy)
    ensures AllReady(secrets, decode, names)
    ensures Runs.Admits(Machine, NewEngine(NO_POLICY, now).(policy := policy), names, t.url, now)
  {
    assert forall n :: n in names ==> Mentions(t, n);
  }

  method BootAndCall(host: HostStore, lib: Library, policy: Policy, t: RequestTemplate,
                     respond: RequestTemplate -> HttpResponse, now: u64)
    returns (sent: bool)
    requires lib.cipher.Sound() && lib.codec.Sound()
    requires KeysKept(host, lib.cipher) && SecretsKept(host, lib.cipher, lib.codec)
    requires Sendable(t, SecretMap(host, lib.codec), lib.decodeText, policy)
    modifies host
    ensures KeysKept(host, lib.cipher) && SecretsKept(host, lib.cipher, lib.codec)
    ensures SecretMap(host, lib.codec) == old(SecretMap(host, lib.codec)) && sent
  {
    ghost var secrets := SecretMap(host, lib.codec);
    var m := new Module(host, lib);
    m.SetPolicy(policy, now);
    var r, request, names, _ := m.ExecuteRequest(t, respond, now, now);
    NewEngineAdmits(t, names, secrets, lib.decodeText, policy, now);
    sent := r.Ok?;
  }

  /** Nor do the calls counted survive: any number of boots at one and the same time that each set
      the policy again all send their request, whatever its limits on calls. */
  method CallEveryBoot(host: HostStore, lib: Library, policy: Policy, t: RequestTemplate,
                       respond: RequestTemplate -> HttpResponse, now: u64, k: nat)
    returns (sent: seq<bool>)
    requires lib.cipher.Sound() && lib.codec.Sound()
    requires KeysKept(host, lib.cipher) && SecretsKept(host, lib.cipher, lib.codec)
    requires Sendable(t, SecretMap(host, lib.codec), lib.decodeText, policy)
    modifies host
    ensures |sent| == k && forall i :: 0 <= i < k ==> sent[i]
  {
    sent := [];
    for i := 0 to k
      invariant KeysKept(host, lib.cipher) && SecretsKept(host, lib.cipher, lib.codec)
      invariant SecretMap(host, lib.codec) == old(SecretMap(host, lib.codec))
      invariant |sent| == i && forall j :: 0 <= j < i ==> sent[j]
    {
      var ok := BootAndCall(host, lib, policy, t, respond, now);
      sent := sent + [ok];
    }
  }
}
