/** The module's state and the operations that run over all of it: key generation,
    initialization, transactions and credential-injecting requests. */
module Mandate {
  import opened Wrappers
  import opened Host
  import opened Wallet
  import opened Vault
  import opened Backend
  import opened Hex
  import opened Policies
  import opened Scanner
  import opened Substitution
  import opened Template
  import Runs
  import Scrub
  import Text
  import Usdc

  datatype BackendConfig = BackendConfig(
    baseUrl: string, agentId: string, workerKeyId: string, sessionKeyId: string)

  datatype InitConfig = InitConfig(
    backend: BackendConfig, workerPrivateKeyHex: string, sessionPrivateKeyHex: string)

  datatype MandateInfo = MandateInfo(mandateId: string, maxPerTx: string, maxDaily: string, expiresAt: string)

  datatype HttpResponse = HttpResponse(status: nat, headers: map<string, string>, body: string)

  datatype Failure =
    | NotInitialized | BadAmount | NotAllowed(reason: Denial) | BackendRefused | BadPreparation
    | NoMasterKey | NotPersisted | BadKey | BadMandate
    | PolicyDenied(secret: string) | SecretMissing(secret: string) | SubstitutionFailed(name: string)

  /** What a deal order adds to a transaction. */
  datatype Deal = Deal(taskCid: string, deadline: u64)

  /** Calls the transaction flow makes to the backend. */
  datatype Call =
    | CheckSpend(amount: string)
    | Prepare(to: string, amount: string, kind: string, deal: Option<Deal>)
    | Submit(txId: string, signature: Bytes)
    | RecordSpend(amount: string)

  datatype KeyIds = KeyIds(worker: string, session: string)

  /** What the module takes from outside: cipher, index codec, text decoding, signing, and the key
      ids derived from private keys. */
  datatype Library = Library(
    cipher: Cipher, codec: Codec, decodeText: Bytes -> Option<string>,
    sign: (Bytes, Bytes) -> Bytes, workerId: Bytes -> string, sessionId: Bytes -> string)

  function ParseExpiresAt(s: string): Option<u64> {
    if s == "" || s == "null" then None else Usdc.ParseU64(s)
  }

  /** The engine after a flow checked at `now`, which succeeded or not. */
  function AfterFlow(e: Engine, now: u64, amount: u64, succeeded: bool): Engine {
    Runs.AfterEvent(Machine, e, Runs.Spend(now, amount, succeeded))
  }

  /** A flow that did not succeed only resets; one that did, after its check let it pass, adds the
      amount to both counters. */
  lemma AfterFlowExactly(e: Engine, now: u64, amount: u64)
    ensures AfterFlow(e, now, amount, false) == Reset(Machine, e, now)
    ensures SpendingVerdict(Machine, Reset(Machine, e, now), amount, now).Allowed? ==>
              var r := Reset(Machine, e, now);
              AfterFlow(e, now, amount, true) == r.(spendingToday := (r.spendingToday + amount) % 0x1_0000_0000_0000_0000,
                                                    totalAllTime := (r.totalAllTime + amount) % 0x1_0000_0000_0000_0000)
  {
  }

  /** The spending policy the backend's mandate asks for. */
  function Limits(info: MandateInfo): Option<SpendingPolicy> {
    var perTx, daily := Usdc.ParseUsdcAmount(info.maxPerTx), Usdc.ParseUsdcAmount(info.maxDaily);
    if perTx.Some? && daily.Some? then Some(SpendingPolicy(perTx.value, daily.value, ParseExpiresAt(info.expiresAt)))
    else None
  }

  /** Every limit comes from the field of its name; an expiry that is no number is none. */
  lemma LimitsExactly(info: MandateInfo, p: SpendingPolicy)
    ensures Limits(info) == Some(p) <==>
              && Usdc.ParseUsdcAmount(info.maxPerTx) == Some(p.maxPerTx)
              && Usdc.ParseUsdcAmount(info.maxDaily) == Some(p.maxDaily)
              && p.expiresAt == if info.expiresAt == "" || info.expiresAt == "null" then None
                                else Usdc.ParseU64(info.expiresAt)
    ensures Limits(info).Some? <==>
              Usdc.ParseUsdcAmount(info.maxPerTx).Some? && Usdc.ParseUsdcAmount(info.maxDaily).Some?
  {
  }

  lemma AfterCallExactly(e: Engine, names: seq<string>, url: string, now: u64)
    ensures names == [] ==> Runs.AfterCall(Machine, e, names, url, now, true) == e &&
                            Runs.AfterCall(Machine, e, names, url, now, false) == e &&
                            Runs.RecordAll(Machine, e, names, now) == e
    ensures names != [] ==> Runs.AfterCall(Machine, e, names, url, now, false) == Reset(Machine, e, now)
    ensures names != [] && Runs.Admits(Machine, e, names, url, now) ==>
              Runs.AfterCall(Machine, e, names, url, now, true) ==
              Runs.RecordAll(Machine, Reset(Machine, e, now), names, now)
  {
  }

  /** The names a template mentions, each once. */
  ghost predicate Placeholders(t: RequestTemplate, names: seq<string>) {
    NoDuplicates(names) && forall n :: n in names <==> Mentions(t, n)
  }

  predicate HoldsKey(persisted: map<string, Bytes>, id: string) {
    id in persisted && |persisted[id]| == KEY_LENGTH
  }

  ghost predicate OnlyMasterWritten(s0: Store, s1: Store) {
    forall k :: k != MASTER ==> SameAt(s0, s1, k)
  }

  /** The key written in a configuration. */
  function HexKey(hex: string): Option<Bytes> {
    var decoded := HexDecode(hex);
    if decoded.Some? && |decoded.value| == KEY_LENGTH then decoded else None
  }

  lemma HexKeyExactly(hex: string, key: Bytes)
    ensures HexKey(hex) == Some(key) <==> |key| == 32 && Lowered(hex) == HexEncode(key)
  {
    HexDecodeExactly(hex, key);
  }

  /** A key that was held is held still. One that was not is the persisted one if there is any, the
      configured one if nothing is stored under the entry, and held in any case if one is
      configured. */
  ghost predicate Restored(before: Option<Bytes>, after: Option<Bytes>, persisted: map<string, Bytes>,
                           stored: bool, entry: string, hex: string) {
    if before.Some? then after == before
    else
      && (HoldsKey(persisted, entry) ==> after == Some(persisted[entry]))
      && (!stored ==> after == HexKey(hex))
      && (HexKey(hex).Some? ==> after.Some?)
  }

  lemma SameStored(s0: Store, s1: Store, id: string)
    requires OnlyMasterWritten(s0, s1) && id != MASTER
    ensures id in s0 <==> id in s1
  {
    assert SameAt(s0, s1, id);
  }

  function Chosen(loaded: Option<Bytes>, hex: string): Option<Bytes> {
    if loaded.Some? && |loaded.value| == KEY_LENGTH then loaded else HexKey(hex)
  }

  lemma ChosenRestores(loaded: Option<Bytes>, persisted: map<string, Bytes>, stored: bool, entry: string, hex: string)
    requires HoldsKey(persisted, entry) ==> loaded == Some(persisted[entry])
    requires !stored ==> loaded == None
    ensures Restored(None, Chosen(loaded, hex), persisted, stored, entry, hex)
    ensures Chosen(loaded, hex).Some? ==> |Chosen(loaded, hex).value| == KEY_LENGTH
  {
  }

  /** What is asked for: a transfer to an address, or an escrow for a deal with another agent. */
  datatype Order = Order(to: string, amount: string, kind: string, deal: Option<Deal>)

  /** What the calls carry, as far as they go: the order's own fields, the transaction id of the
      preparation, and the signature of the hash that the preparation spells in hex. */
  ghost predicate Carries(calls: seq<Call>, o: Order, prepare: Reply, sign: (Bytes, Bytes) -> Bytes, key: Bytes) {
    && |calls| <= 4
    && (|calls| >= 1 ==> calls[0] == CheckSpend(o.amount))
    && (|calls| >= 2 ==> calls[1] == Prepare(o.to, o.amount, o.kind, o.deal))
    && (|calls| >= 3 ==> Submits(calls[2], prepare, sign, key))
    && (|calls| >= 4 ==> calls[3] == RecordSpend(o.amount))
  }

  /** So a flow that makes all four calls asks for the order's amount to be checked, prepares a
      payment to its recipient, submits the signed hash and has the amount recorded. */
  lemma AllCallsCarry(calls: seq<Call>, o: Order, prepare: Reply, sign: (Bytes, Bytes) -> Bytes, key: Bytes)
    returns (hash: Bytes)
    requires |calls| == 4 && Carries(calls, o, prepare, sign, key)
    ensures prepare.body.Envelope? && prepare.body.data.Some?
    ensures var data := prepare.body.data.value;
            && "tx_id" in data && "user_op_hash" in data
            && |hash| == 32 && HexEncode(hash) == Lowered(Bare(data["user_op_hash"]))
            && calls == [CheckSpend(o.amount), Prepare(o.to, o.amount, o.kind, o.deal),
                         Submit(data["tx_id"], sign(hash, key)), RecordSpend(o.amount)]
  {
    var data := prepare.body.data.value;
    hash :| |hash| == 32 && HexEncode(hash) == Lowered(Bare(data["user_op_hash"])) &&
            calls[2].signature == sign(hash, key);
  }

  ghost predicate Submits(call: Call, prepare: Reply, sign: (Bytes, Bytes) -> Bytes, key: Bytes) {
    && call.Submit? && prepare.body.Envelope? && prepare.body.data.Some?
    && var data := prepare.body.data.value;
    && "tx_id" in data && "user_op_hash" in data && call.txId == data["tx_id"]
    && exists hash :: |hash| == 32 && HexEncode(hash) == Lowered(Bare(data["user_op_hash"])) &&
                      call.signature == sign(hash, key)
  }

  predicate Ready(secrets: map<string, Bytes>, decode: Bytes -> Option<string>, n: string) {
    n in secrets && decode(secrets[n]).Some?
  }

  predicate AllReady(secrets: map<string, Bytes>, decode: Bytes -> Option<string>, names: seq<string>) {
    forall n :: n in names ==> Ready(secrets, decode, n)
  }

  function Texts(secrets: map<string, Bytes>, decode: Bytes -> Option<string>, names: seq<string>): map<string, string>
    requires AllReady(secrets, decode, names)
  {
    map n | n in names :: decode(secrets[n]).value
  }

  lemma TextsOneMore(secrets: map<string, Bytes>, decode: Bytes -> Option<string>, names: seq<string>, i: nat)
    requires i < |names| && AllReady(secrets, decode, names[..i]) && Ready(secrets, decode, names[i])
    ensures AllReady(secrets, decode, names[..i + 1])
    ensures Texts(secrets, decode, names[..i + 1]) ==
            Texts(secrets, decode, names[..i])[names[i] := decode(secrets[names[i]]).value]
  {
    assert names[..i + 1] == names[..i] + [names[i]];
  }

  class Module {
    const host: HostStore
    const lib: Library
    const wallet: KeyWallet
    const vault: SecretVault
    var engine: PolicyEngine?
    var backendConfig: Option<BackendConfig>
    var mandateInfo: Option<MandateInfo>
    var workerKey: Option<Bytes>
    var sessionKey: Option<Bytes>

    /** Held keys have 32 bytes, a stored configuration means both are held, and the store keeps
        every persisted key and every secret readable. */
    ghost predicate Valid()
      reads `workerKey, `sessionKey, `backendConfig, host, wallet, vault
    {
      && wallet.host == host && wallet.cipher == lib.cipher && wallet.Valid()
      && vault.host == host && vault.cipher == lib.cipher && vault.codec == lib.codec && vault.Valid()
      && KeysKept(host, lib.cipher)
      && (workerKey.Some? ==> |workerKey.value| == KEY_LENGTH)
      && (sessionKey.Some? ==> |sessionKey.value| == KEY_LENGTH)
      && (backendConfig.Some? ==> workerKey.Some? && sessionKey.Some?)
    }

    /** A fresh instance over a store that earlier instances may have filled. */
    constructor (host: HostStore, lib: Library)
      requires lib.cipher.Sound() && lib.codec.Sound()
      requires KeysKept(host, lib.cipher) && SecretsKept(host, lib.cipher, lib.codec)
      ensures Valid() && this.host == host && this.lib == lib
      ensures fresh(wallet) && fresh(vault)
      ensures engine == null && backendConfig == None && workerKey == None && sessionKey == None
    {
      this.host, this.lib := host, lib;
      wallet := new KeyWallet(host, lib.cipher);
      vault := new SecretVault(host, lib.cipher, lib.codec);
      engine, backendConfig, mandateInfo, workerKey, sessionKey := null, None, None, None, None;
    }

    /** The policy engine as the next caller finds it; one that does not exist yet starts without
        any allowance at the caller's clock. */
    ghost function CurrentEngine(clock: u64): Engine
      reads `engine, engine
    {
      if engine == null then NewEngine(NO_POLICY, clock) else engine.View()
    }

    method WithPolicyEngine(clock: u64) returns (e: PolicyEngine)
      modifies this`engine
      ensures engine == e && (old(engine) != null ==> e == old(engine))
      ensures old(engine) == null ==> fresh(e)
      ensures e.View() == old(CurrentEngine(clock))
    {
      if engine == null {
        engine := new PolicyEngine(NO_POLICY, clock);
      }
      e := engine;
    }

    // ---------- keys ----------

    /** Both fresh private keys are persisted under their ids before they are held. Succeeds exactly
        when the wallet's master key is usable and no host call fails. */
    method GenerateKeys() returns (r: Result<KeyIds, Failure>)
      requires Valid()
      modifies this`workerKey, this`sessionKey, wallet, host
      ensures Valid() && host.failures >= old(host.failures)
      ensures r.Ok? <==> Usable(old(host.store), MASTER) && host.failures == old(host.failures)
      ensures r.Ok? ==> workerKey.Some? && sessionKey.Some?
      ensures r.Ok? ==> r.value == KeyIds(lib.workerId(workerKey.value), lib.sessionId(sessionKey.value))
      ensures r.Ok? ==> var worker, session := "arysen_worker:" + r.value.worker, "arysen_session:" + r.value.session;
                        && |workerKey.value| == 32 && |sessionKey.value| == 32
                        && worker in host.persisted && host.persisted[worker] == workerKey.value
                        && session in host.persisted && host.persisted[session] == sessionKey.value
      ensures r.Err? ==> workerKey == old(workerKey) && sessionKey == old(sessionKey)
      ensures KeptIn(host, lib.codec) == old(KeptIn(host, lib.codec))
    {
      var ok := InitWallet();
      if !ok {
        return Err(NoMasterKey);
      }
      var worker := RandomKey();
      var session := RandomKey();
      var ids := KeyIds(lib.workerId(worker), lib.sessionId(session));
      ok := PersistBoth(ids, worker, session);
      if !ok {
        return Err(NotPersisted);
      }
      workerKey := Some(worker);
      sessionKey := Some(session);
      r := Ok(ids);
    }

    /** The worker's key may stay persisted when the session's cannot be. */
    method PersistBoth(ids: KeyIds, worker: Bytes, session: Bytes) returns (ok: bool)
      requires Valid()
      modifies host
      ensures Valid() && KeptIn(host, lib.codec) == old(KeptIn(host, lib.codec))
      ensures ok <==> wallet.masterKey.Some? && host.failures == old(host.failures)
      ensures host.failures >= old(host.failures)
      ensures ok ==> host.persisted == old(host.persisted)[WorkerEntry(ids.worker) := worker]
                                                         [SessionEntry(ids.session) := session]
      ensures WorkerEntry(ids.worker) != SessionEntry(ids.session)
    {
      EntriesAreInjective(ids.worker, ids.session);
      EntriesAreInjective(ids.session, ids.worker);
      ok := Persist(WorkerEntry(ids.worker), worker);
      if ok {
        ok := Persist(SessionEntry(ids.session), session);
      }
    }

    static method RandomKey() returns (key: Bytes)
      ensures |key| == KEY_LENGTH
    {
      assert |seq(KEY_LENGTH, _ => 0 as byte)| == KEY_LENGTH;
      key :| |key| == KEY_LENGTH;
    }

    /** The wallet's initialization and persistence, which leave the vault as it is. */
    method InitWallet() returns (ok: bool)
      requires Valid()
      modifies wallet, host
      ensures Valid() && (ok <==> wallet.masterKey.Some?)
      ensures host.persisted == old(host.persisted) && KeptIn(host, lib.codec) == old(KeptIn(host, lib.codec))
      ensures ok <==> Usable(old(host.store), MASTER) && host.failures == old(host.failures)
      ensures host.failures >= old(host.failures)
      ensures Readable(old(host.store), MASTER).Some? ==> host.failures == old(host.failures)
      ensures OnlyMasterWritten(old(host.store), host.store)
    {
      ghost var s0, w0 := host.store, host.writes;
      ok := wallet.InitMasterKey();
      EntriesAreDistinct(MASTER);
      OtherEntriesChanged(s0, w0, host.store, host.writes, host.deposited, lib.cipher, lib.codec);
    }

    method Persist(id: string, key: Bytes) returns (ok: bool)
      requires Valid() && IsKeyEntry(id)
      modifies host
      ensures Valid()
      ensures ok <==> wallet.masterKey.Some? && host.failures == old(host.failures)
      ensures host.failures >= old(host.failures)
      ensures host.persisted == if ok then old(host.persisted)[id := key] else old(host.persisted)
      ensures KeptIn(host, lib.codec) == old(KeptIn(host, lib.codec))
    {
      ghost var s0, w0 := host.store, host.writes;
      ok := wallet.PersistKey(id, key);
      EntriesAreDistinct(id);
      OtherEntriesChanged(s0, w0, host.store, host.writes, host.deposited, lib.cipher, lib.codec);
    }

    /** Initializes the wallet and loads a persisted key. */
    method LoadPersisted(id: string) returns (key: Option<Bytes>)
      requires Valid() && IsKeyEntry(id)
      modifies wallet, host
      ensures Valid() && host.persisted == old(host.persisted) && host.failures >= old(host.failures)
      ensures OnlyMasterWritten(old(host.store), host.store) && id != MASTER
      ensures id !in host.store ==> key == None
      ensures KeptIn(host, lib.codec) == old(KeptIn(host, lib.codec))
      ensures HoldsKey(host.persisted, id) ==> key == Some(host.persisted[id])
    {
      EntriesAreDistinct(id);
      key := None;
      var ok := InitWallet();
      if ok {
        key := wallet.LoadKey(id);
      }
    }

    /** A key under an entry, unless one is held: the persisted one if it can be loaded, else the one
        written in the configuration, as long as it has 32 bytes. */
    method FindKey(held: Option<Bytes>, id: string, hex: string) returns (key: Option<Bytes>)
      requires Valid() && IsKeyEntry(id)
      modifies wallet, host
      ensures Valid() && host.persisted == old(host.persisted) && host.failures >= old(host.failures)
      ensures KeptIn(host, lib.codec) == old(KeptIn(host, lib.codec))
      ensures OnlyMasterWritten(old(host.store), host.store) && id != MASTER
      ensures held.None? && key.Some? ==> |key.value| == KEY_LENGTH
      ensures held.Some? ==> key == held
      ensures held.None? && id in host.persisted && |host.persisted[id]| == 32 ==> key == Some(host.persisted[id])
      ensures held.None? && id !in old(host.store) ==> key == HexKey(hex)
      ensures held.None? && HexKey(hex).Some? ==> key.Some?
      ensures Restored(held, key, host.persisted, id in old(host.store), id, hex)
    {
      EntriesAreDistinct(id);
      if held.Some? {
        return held;
      }
      ghost var s0 := host.store;
      var loaded := LoadPersisted(id);
      SameStored(s0, host.store, id);
      ChosenRestores(loaded, host.persisted, id in s0, id, hex);
      key := Chosen(loaded, hex);
    }

    // ---------- initialization ----------

    /** Makes sure both keys are held. A held key stays; a persisted key is preferred to the one in
        the configuration. Without a worker key the session key is not looked for. */
    method LoadKeys(cfg: InitConfig) returns (ok: bool)
      requires Valid()
      modifies this`workerKey, this`sessionKey, wallet, host
      ensures Valid() && (ok <==> workerKey.Some? && sessionKey.Some?) && host.failures >= old(host.failures)
      ensures host.persisted == old(host.persisted) && KeptIn(host, lib.codec) == old(KeptIn(host, lib.codec))
      ensures var id := WorkerEntry(cfg.backend.workerKeyId);
              Restored(old(workerKey), workerKey, host.persisted, id in old(host.store), id, cfg.workerPrivateKeyHex)
      ensures var id := SessionEntry(cfg.backend.sessionKeyId);
              if workerKey.None? then sessionKey == old(sessionKey)
              else Restored(old(sessionKey), sessionKey, host.persisted, id in old(host.store), id,
                            cfg.sessionPrivateKeyHex)
    {
      EntriesAreInjective(cfg.backend.workerKeyId, cfg.backend.sessionKeyId);
      EntriesAreInjective(cfg.backend.sessionKeyId, cfg.backend.workerKeyId);
      EntriesAreDistinct(SessionEntry(cfg.backend.sessionKeyId));
      ghost var s0 := host.store;
      workerKey := FindKey(workerKey, WorkerEntry(cfg.backend.workerKeyId), cfg.workerPrivateKeyHex);
      if workerKey.None? {
        return false;
      }
      SameStored(s0, host.store, SessionEntry(cfg.backend.sessionKeyId));
      sessionKey := FindKey(sessionKey, SessionEntry(cfg.backend.sessionKeyId), cfg.sessionPrivateKeyHex);
      ok := sessionKey.Some?;
    }

    /** The part of initialization that precedes the backend's answer. */
    method Configure(cfg: InitConfig) returns (ok: bool)
      requires Valid()
      modifies this`workerKey, this`sessionKey, this`backendConfig, wallet, host
      ensures Valid() && (ok <==> workerKey.Some? && sessionKey.Some?) && host.failures >= old(host.failures)
      ensures host.persisted == old(host.persisted) && KeptIn(host, lib.codec) == old(KeptIn(host, lib.codec))
      ensures var id := WorkerEntry(cfg.backend.workerKeyId);
              Restored(old(workerKey), workerKey, host.persisted, id in old(host.store), id, cfg.workerPrivateKeyHex)
      ensures var id := SessionEntry(cfg.backend.sessionKeyId);
              if workerKey.None? then sessionKey == old(sessionKey)
              else Restored(old(sessionKey), sessionKey, host.persisted, id in old(host.store), id,
                            cfg.sessionPrivateKeyHex)
      ensures backendConfig == if workerKey.Some? && sessionKey.Some? then Some(cfg.backend) else old(backendConfig)
    {
      ok := LoadKeys(cfg);
      if ok {
        backendConfig := Some(cfg.backend);
      }
    }

    /** Initialization from a configuration and the backend's answer, if it gave a readable one.
        Whatever fails, keys that are held stay, and what is spent is untouched. */
    method Init(cfg: InitConfig, mine: Option<MandateInfo>, clock: u64) returns (r: Result<MandateInfo, Failure>)
      requires Valid()
      modifies this, wallet, host, engine
      ensures Valid() && (engine == old(engine) || fresh(engine)) && host.failures >= old(host.failures)
      ensures host.persisted == old(host.persisted) && KeptIn(host, lib.codec) == old(KeptIn(host, lib.codec))
      ensures var id := WorkerEntry(cfg.backend.workerKeyId);
              Restored(old(workerKey), workerKey, host.persisted, id in old(host.store), id, cfg.workerPrivateKeyHex)
      ensures var id := SessionEntry(cfg.backend.sessionKeyId);
              if workerKey.None? then sessionKey == old(sessionKey)
              else Restored(old(sessionKey), sessionKey, host.persisted, id in old(host.store), id,
                            cfg.sessionPrivateKeyHex)
      ensures backendConfig == if workerKey.Some? && sessionKey.Some? then Some(cfg.backend) else old(backendConfig)
      ensures r.Ok? <==> workerKey.Some? && sessionKey.Some? && mine.Some? &&
                         Usdc.ParseUsdcAmount(mine.value.maxPerTx).Some? && Usdc.ParseUsdcAmount(mine.value.maxDaily).Some?
      ensures r.Err? ==> engine == old(engine) && CurrentEngine(clock) == old(CurrentEngine(clock)) &&
                         mandateInfo == old(mandateInfo)
      ensures r.Ok? ==> engine != null && mandateInfo == mine == Some(r.value) &&
                        engine.View() == old(CurrentEngine(clock)).(policy := engine.policy) &&
                        engine.policy.secrets == old(CurrentEngine(clock)).policy.secrets
      ensures r.Ok? ==> Some(engine.policy.spending.maxPerTx) == Usdc.ParseUsdcAmount(r.value.maxPerTx)
      ensures r.Ok? ==> Some(engine.policy.spending.maxDaily) == Usdc.ParseUsdcAmount(r.value.maxDaily)
      ensures r.Ok? ==> engine.policy.spending.expiresAt ==
                        if r.value.expiresAt == "" || r.value.expiresAt == "null" then None
                        else Usdc.ParseU64(r.value.expiresAt)
    {
      var ok := Configure(cfg);
      if ok {
        r := AdoptMandate(mine, clock);
      } else {
        r := Err(BadKey);
      }
    }

    /** The part of initialization that follows the backend's answer. */
    method AdoptMandate(mine: Option<MandateInfo>, clock: u64) returns (r: Result<MandateInfo, Failure>)
      requires Valid()
      modifies this`engine, engine, this`mandateInfo
      ensures Valid() && KeptIn(host, lib.codec) == old(KeptIn(host, lib.codec))
      ensures engine == old(engine) || fresh(engine)
      ensures r.Ok? <==> mine.Some? && Usdc.ParseUsdcAmount(mine.value.maxPerTx).Some? &&
                         Usdc.ParseUsdcAmount(mine.value.maxDaily).Some?
      ensures r.Err? ==> engine == old(engine) && CurrentEngine(clock) == old(CurrentEngine(clock)) &&
                         mandateInfo == old(mandateInfo)
      ensures r.Ok? ==> engine != null && mandateInfo == mine == Some(r.value) &&
                        engine.View() == old(CurrentEngine(clock)).(policy := engine.policy) &&
                        engine.policy.secrets == old(CurrentEngine(clock)).policy.secrets
      ensures r.Ok? ==> Some(engine.policy.spending.maxPerTx) == Usdc.ParseUsdcAmount(r.value.maxPerTx)
      ensures r.Ok? ==> Some(engine.policy.spending.maxDaily) == Usdc.ParseUsdcAmount(r.value.maxDaily)
      ensures r.Ok? ==> engine.policy.spending.expiresAt ==
                        if r.value.expiresAt == "" || r.value.expiresAt == "null" then None
                        else Usdc.ParseU64(r.value.expiresAt)
    {
      if mine.None? {
        return Err(BackendRefused);
      }
      var maxPerTx := Usdc.ParseUsdcAmount(mine.value.maxPerTx);
      if maxPerTx.None? {
        return Err(BadAmount);
      }
      var maxDaily := Usdc.ParseUsdcAmount(mine.value.maxDaily);
      if maxDaily.None? {
        return Err(BadAmount);
      }
      var expiresAt := ParseExpiresAt(mine.value.expiresAt);
      AdoptLimits(SpendingPolicy(maxPerTx.value, maxDaily.value, expiresAt), clock);
      mandateInfo := mine;
      r := Ok(mine.value);
    }

    /** The spending limits change, the rules for secrets and everything counted stay. */
    method AdoptLimits(limits: SpendingPolicy, clock: u64)
      requires Valid()
      modifies this`engine, engine
      ensures Valid() && KeptIn(host, lib.codec) == old(KeptIn(host, lib.codec))
      ensures engine != null && (engine == old(engine) || fresh(engine))
      ensures engine.View() == old(CurrentEngine(clock)).(
                policy := Policy.Policy(limits, old(CurrentEngine(clock)).policy.secrets))
    {
      var e := WithPolicyEngine(clock);
      e.SetPolicy(Policy.Policy(limits, e.policy.secrets));
    }

    /** What is spent, after the windows that elapsed were restarted. */
    method SpendingSummary(now: u64, clock: u64) returns (today: u64, allTime: u64)
      requires Valid()
      modifies this`engine, engine
      ensures Valid() && engine != null && (engine == old(engine) || fresh(engine))
      ensures engine.View() == Reset(Machine, old(CurrentEngine(clock)), now)
      ensures today == engine.View().spendingToday && allTime == engine.View().totalAllTime
    {
      var e := WithPolicyEngine(clock);
      e.ResetIfNeeded(now);
      today, allTime := e.spendingToday, e.totalAllTime;
    }

    /** A policy from outside replaces the whole policy and nothing else. */
    method SetPolicy(policy: Policy, clock: u64)
      requires Valid()
      modifies this`engine, engine
      ensures Valid() && engine != null && (engine == old(engine) || fresh(engine))
      ensures engine.View() == old(CurrentEngine(clock)).(policy := policy)
    {
      var e := WithPolicyEngine(clock);
      e.SetPolicy(policy);
    }

    // ---------- secrets ----------

    /** Depositing leaves keys, policy and configuration alone. */
    method DepositSecret(name: string, value: Bytes) returns (ok: bool)
      requires Valid()
      modifies vault, host
      ensures Valid() && host.persisted == old(host.persisted) && host.failures >= old(host.failures)
      ensures ok <==> Works(old(KeptIn(host, lib.codec)), Put(name, value)) && host.failures == old(host.failures)
      ensures KeptIn(host, lib.codec) == After(lib.codec, old(KeptIn(host, lib.codec)), Put(name, value), ok)
    {
      ghost var s0, w0 := host.store, host.writes;
      ok := vault.Deposit(name, value);
      NoKeyEntryChanged(s0, w0, host.store, host.writes, host.persisted, lib.cipher);
    }

    /** So does removing. */
    method RemoveSecret(name: string) returns (removed: bool)
      requires Valid()
      modifies host
      ensures Valid() && host.persisted == old(host.persisted) && host.failures >= old(host.failures)
      ensures removed <==> Works(old(KeptIn(host, lib.codec)), Delete(name)) && host.failures == old(host.failures)
      ensures KeptIn(host, lib.codec) == After(lib.codec, old(KeptIn(host, lib.codec)), Delete(name), removed)
    {
      ghost var s0, w0 := host.store, host.writes;
      removed := vault.Remove(name);
      NoKeyEntryChanged(s0, w0, host.store, host.writes, host.persisted, lib.cipher);
    }

    // ---------- transactions ----------

    /** The transaction id and the hash to sign, if the preparation is acceptable. */
    method ReadPreparation(prepare: Reply, to: string) returns (r: Option<(string, Bytes)>)
      ensures r.Some? <==> Acceptable(prepare, to)
      ensures r.Some? ==> r.value == Preparation(prepare, to)
      ensures r.Some? ==> prepare.body.Envelope? && prepare.body.data.Some? && r.value.0 == prepare.body.data.value["tx_id"]
      ensures r.Some? ==> |r.value.1| == 32 && HexEncode(r.value.1) == Lowered(Bare(prepare.body.data.value["user_op_hash"]))
    {
      var data := ResponseData(prepare);
      if !Fetched(prepare) || data.None? || "tx_id" !in data.value || "user_op_hash" !in data.value {
        return None;
      }
      if IsAddress(to) {
        if "calldata" !in data.value || !PaysTo(data.value["calldata"], to) {
          return None;
        }
      }
      var hash := HexDecode(Bare(data.value["user_op_hash"]));
      if hash.None? || |hash.value| != HASH_LENGTH {
        return None;
      }
      HexDecodeExactly(Bare(data.value["user_op_hash"]), hash.value);
      r := Some((data.value["tx_id"], hash.value));
    }

    /** The flow's conversation with the backend: a prefix of check, prepare, submit, record. It goes
        on after the check if that was no error, after the preparation if that was acceptable, and
        after the submission if that was answered with a transaction hash. */
    method Converse(o: Order, checkSpend: Reply, prepare: Reply, submit: Reply, key: Bytes)
      returns (r: Result<string, Failure>, calls: seq<Call>)
      ensures calls != []
      ensures |calls| >= 2 <==> checkSpend.status < 400
      ensures |calls| >= 3 <==> checkSpend.status < 400 && Acceptable(prepare, o.to)
      ensures |calls| == 4 <==> checkSpend.status < 400 && Acceptable(prepare, o.to) &&
                                submit.status < 400 && submit.body.Envelope? && submit.body.success &&
                                submit.body.data.Some? && "tx_hash" in submit.body.data.value
      ensures Carries(calls, o, prepare, lib.sign, key)
      ensures r.Ok? <==> |calls| == 4
      ensures r.Ok? ==> r.value == submit.body.data.value["tx_hash"]
    {
      calls := [CheckSpend(o.amount)];
      if !Fetched(checkSpend) {
        return Err(BackendRefused), calls;
      }
      calls := calls + [Prepare(o.to, o.amount, o.kind, o.deal)];
      var ready := ReadPreparation(prepare, o.to);
      if ready.None? {
        return Err(BadPreparation), calls;
      }
      calls := calls + [Submit(ready.value.0, lib.sign(ready.value.1, key))];
      if !Submitted(submit) {
        return Err(BackendRefused), calls;
      }
      calls := calls + [RecordSpend(o.amount)];
      r := Ok(ResponseData(submit).value["tx_hash"]);
    }

    /** The local checks that come before any call: the module is initialized, the amount is a number
        and within the limits of the engine, whose windows that elapsed are restarted. */
    method PreFlight(amount: string, now: u64, clock: u64) returns (r: Result<u64, Failure>)
      requires Valid()
      modifies this`engine, engine
      ensures Valid() && (engine == old(engine) || fresh(engine))
      ensures backendConfig.None? || Usdc.ParseUsdcAmount(amount).None? ==>
                r.Err? && engine == old(engine) && CurrentEngine(clock) == old(CurrentEngine(clock))
      ensures backendConfig.Some? && Usdc.ParseUsdcAmount(amount).Some? ==>
                && engine != null && engine.View() == Reset(Machine, old(CurrentEngine(clock)), now)
                && var micro := Usdc.ParseUsdcAmount(amount).value;
                && (r.Ok? <==> SpendingVerdict(Machine, engine.View(), micro, now).Allowed?)
                && (r.Ok? ==> r.value == micro)
    {
      if backendConfig.None? || workerKey.None? || sessionKey.None? {
        return Err(NotInitialized);
      }
      var micro := Usdc.ParseUsdcAmount(amount);
      if micro.None? {
        return Err(BadAmount);
      }
      var e := WithPolicyEngine(clock);
      e.ResetIfNeeded(now);
      var verdict := e.CheckSpending(micro.value, now);
      r := if verdict.Denied? then Err(NotAllowed(verdict.reason)) else Ok(micro.value);
    }

    /** The amount of a settled flow is recorded. */
    method RecordLocally(amount: u64, now: u64, ghost found: Engine)
      requires Valid() && engine != null && engine.View() == Reset(Machine, found, now)
      requires SpendingVerdict(Machine, engine.View(), amount, now).Allowed?
      modifies engine
      ensures Valid() && engine.View() == AfterFlow(found, now, amount, true)
    {
      AfterFlowExactly(found, now, amount);
      engine.RecordSpending(amount);
    }

    /** The local checks and the conversation: everything but the recording. */
    method Negotiate(o: Order, checkSpend: Reply, prepare: Reply, submit: Reply, now: u64, clock: u64)
      returns (r: Result<string, Failure>, calls: seq<Call>, micro: u64)
      requires Valid()
      modifies this`engine, engine
      ensures Valid() && (engine == old(engine) || fresh(engine))
      ensures calls != [] <==>
                && old(backendConfig).Some? && Usdc.ParseUsdcAmount(o.amount).Some?
                && SpendingVerdict(Machine, Reset(Machine, old(CurrentEngine(clock)), now),
                                   Usdc.ParseUsdcAmount(o.amount).value, now).Allowed?
      ensures |calls| <= 4
      ensures |calls| >= 2 <==> calls != [] && checkSpend.status < 400
      ensures |calls| >= 3 <==> calls != [] && checkSpend.status < 400 && Acceptable(prepare, o.to)
      ensures |calls| == 4 <==> calls != [] && checkSpend.status < 400 && Acceptable(prepare, o.to) &&
                                submit.status < 400 && submit.body.Envelope? && submit.body.success &&
                                submit.body.data.Some? && "tx_hash" in submit.body.data.value
      ensures calls == [] || (sessionKey.Some? && Carries(calls, o, prepare, lib.sign, sessionKey.value))
      ensures r.Ok? <==> |calls| == 4
      ensures r.Ok? ==> r.value == submit.body.data.value["tx_hash"]
      ensures backendConfig.None? || Usdc.ParseUsdcAmount(o.amount).None? ==>
                engine == old(engine) && CurrentEngine(clock) == old(CurrentEngine(clock))
      ensures backendConfig.Some? && Usdc.ParseUsdcAmount(o.amount).Some? ==>
                && engine != null && engine.View() == Reset(Machine, old(CurrentEngine(clock)), now)
                && engine.View() == AfterFlow(old(CurrentEngine(clock)), now, Usdc.ParseUsdcAmount(o.amount).value, false)
      ensures r.Ok? ==> Usdc.ParseUsdcAmount(o.amount) == Some(micro) &&
                        engine != null && SpendingVerdict(Machine, engine.View(), micro, now).Allowed?
    {
      calls, micro := [], 0;
      var checked := PreFlight(o.amount, now, clock);
      if checked.Err? {
        return Err(checked.error), calls, micro;
      }
      micro := checked.value;
      r, calls := Converse(o, checkSpend, prepare, submit, sessionKey.value);
    }

    /** One transaction against arbitrary backend replies. All four backend calls mean success, and
        only success is recorded: the engine takes the step of a settled or unsettled spend. */
    method TxFlow(o: Order, checkSpend: Reply, prepare: Reply, submit: Reply, now: u64, clock: u64)
      returns (r: Result<string, Failure>, calls: seq<Call>)
      requires Valid()
      modifies this`engine, engine
      ensures Valid() && (engine == old(engine) || fresh(engine))
      ensures calls != [] <==>
                && old(backendConfig).Some? && Usdc.ParseUsdcAmount(o.amount).Some?
                && SpendingVerdict(Machine, Reset(Machine, old(CurrentEngine(clock)), now),
                                   Usdc.ParseUsdcAmount(o.amount).value, now).Allowed?
      ensures |calls| <= 4
      ensures |calls| >= 2 <==> calls != [] && checkSpend.status < 400
      ensures |calls| >= 3 <==> calls != [] && checkSpend.status < 400 && Acceptable(prepare, o.to)
      ensures |calls| == 4 <==> calls != [] && checkSpend.status < 400 && Acceptable(prepare, o.to) &&
                                submit.status < 400 && submit.body.Envelope? && submit.body.success &&
                                submit.body.data.Some? && "tx_hash" in submit.body.data.value
      ensures calls == [] || (old(sessionKey).Some? && Carries(calls, o, prepare, lib.sign, old(sessionKey).value))
      ensures r.Ok? <==> |calls| == 4
      ensures r.Ok? ==> r.value == submit.body.data.value["tx_hash"]
      ensures old(backendConfig).None? || Usdc.ParseUsdcAmount(o.amount).None? ==>
                engine == old(engine) && CurrentEngine(clock) == old(CurrentEngine(clock))
      ensures old(backendConfig).Some? && Usdc.ParseUsdcAmount(o.amount).Some? ==>
                && engine != null
                && engine.View() == AfterFlow(old(CurrentEngine(clock)), now, Usdc.ParseUsdcAmount(o.amount).value, r.Ok?)
                && (r.Err? ==> engine.View() == Reset(Machine, old(CurrentEngine(clock)), now))
    {
      ghost var found := CurrentEngine(clock);
      var micro;
      r, calls, micro := Negotiate(o, checkSpend, prepare, submit, now, clock);
      if r.Ok? {
        RecordLocally(micro, now, found);
      }
    }

    // ---------- requests with injected credentials ----------

    /** The first locked step of a request, once per placeholder: reset, then check. */
    method CheckEach(names: seq<string>, url: string, now: u64, clock: u64)
      returns (denied: Option<string>)
      modifies this`engine, engine
      ensures denied.None? <==> Runs.Admits(Machine, old(CurrentEngine(clock)), names, url, now)
      ensures denied.None? <==>
                forall n :: n in names ==> SecretVerdict(Reset(Machine, old(CurrentEngine(clock)), now), n, url).Allowed?
      ensures names == [] ==> CurrentEngine(clock) == old(CurrentEngine(clock))
      ensures names != [] ==> CurrentEngine(clock) == Reset(Machine, old(CurrentEngine(clock)), now)
      ensures CurrentEngine(clock) == Runs.AfterCall(Machine, old(CurrentEngine(clock)), names, url, now, false)
      ensures engine == old(engine) || (old(engine) == null && fresh(engine))
    {
      ghost var found := CurrentEngine(clock);
      AfterCallExactly(found, names, url, now);
      denied := None;
      for i := 0 to |names|
        invariant denied == None
        invariant engine == old(engine) || (old(engine) == null && fresh(engine))
        invariant CurrentEngine(clock) == if i == 0 then found else Reset(Machine, found, now)
        invariant Runs.Admits(Machine, found, names[..i], url, now)
      {
        ResetTwice(Machine, found, now);
        var e := WithPolicyEngine(clock);
        e.ResetIfNeeded(now);
        var verdict := e.CheckSecretUsage(names[i], url);
        if verdict.Denied? {
          denied := Some(names[i]);
          break;
        }
        assert names[..i + 1] == names[..i] + [names[i]];
      }
      assert denied.None? ==> names[..|names|] == names;
    }

    method CheckSecrets(names: seq<string>, url: string, now: u64, clock: u64) returns (denied: Option<string>)
      requires Valid()
      modifies this`engine, engine
      ensures Valid() && KeptIn(host, lib.codec) == old(KeptIn(host, lib.codec))
      ensures denied.None? <==> Runs.Admits(Machine, old(CurrentEngine(clock)), names, url, now)
      ensures CurrentEngine(clock) == Runs.AfterCall(Machine, old(CurrentEngine(clock)), names, url, now, false)
      ensures engine == old(engine) || (old(engine) == null && fresh(engine))
    {
      denied := CheckEach(names, url, now, clock);
    }

    /** One secret as text, if it can be retrieved and decoded. */
    method RetrieveText(name: string) returns (text: Option<string>)
      requires Valid()
      modifies vault, host
      ensures Valid() && KeptIn(host, lib.codec) == old(KeptIn(host, lib.codec))
      ensures host.persisted == old(host.persisted) && host.failures == old(host.failures)
      ensures text.Some? <==> Ready(KeptIn(host, lib.codec).secrets, lib.decodeText, name)
      ensures text.Some? ==> text == lib.decodeText(KeptIn(host, lib.codec).secrets[name])
    {
      var secret := vault.Retrieve(name);
      text := if secret.Some? then lib.decodeText(secret.value) else None;
    }

    /** The values of these secrets as text, if all can be retrieved and decoded. */
    method RetrieveSecrets(names: seq<string>) returns (r: Result<map<string, string>, string>)
      requires Valid()
      modifies vault, host
      ensures Valid() && KeptIn(host, lib.codec) == old(KeptIn(host, lib.codec))
      ensures host.persisted == old(host.persisted) && host.failures == old(host.failures)
      ensures r.Ok? <==> AllReady(old(KeptIn(host, lib.codec)).secrets, lib.decodeText, names)
      ensures r.Ok? ==> r.value == Texts(old(KeptIn(host, lib.codec)).secrets, lib.decodeText, names)
      ensures var secrets := old(KeptIn(host, lib.codec)).secrets;
              && (r.Ok? <==> forall n :: n in names ==> n in secrets && lib.decodeText(secrets[n]).Some?)
              && (r.Ok? ==> forall n :: n in r.value <==> n in names)
              && (r.Ok? ==> forall n :: n in names ==> Some(r.value[n]) == lib.decodeText(secrets[n]))
    {
      ghost var kept := KeptIn(host, lib.codec);
      var values: map<string, string> := map[];
      for i := 0 to |names|
        invariant Valid() && KeptIn(host, lib.codec) == kept
        invariant host.persisted == old(host.persisted) && host.failures == old(host.failures)
        invariant AllReady(kept.secrets, lib.decodeText, names[..i])
        invariant values == Texts(kept.secrets, lib.decodeText, names[..i])
      {
        var text := RetrieveText(names[i]);
        if text.None? {
          return Err(names[i]);
        }
        TextsOneMore(kept.secrets, lib.decodeText, names, i);
        values := values[names[i] := text.value];
      }
      assert names[..|names|] == names;
      r := Ok(values);
    }

    /** The second locked step: every placeholder of an admitted request is counted. */
    method RecordSecrets(names: seq<string>, url: string, now: u64, clock: u64, ghost found: Engine)
      requires Runs.Admits(Machine, found, names, url, now)
      requires CurrentEngine(clock) == Runs.AfterCall(Machine, found, names, url, now, false)
      modifies this`engine, engine
      ensures CurrentEngine(clock) == Runs.AfterCall(Machine, found, names, url, now, true)
      ensures engine == old(engine) || (old(engine) == null && fresh(engine))
    {
      ghost var checked := CurrentEngine(clock);
      AfterCallExactly(found, names, url, now);
      var e := WithPolicyEngine(clock);
      for i := 0 to |names|
        invariant engine == e && (e == old(engine) || (old(engine) == null && fresh(e)))
        invariant e.View() == Runs.RecordAll(Machine, checked, names[..i], now)
      {
        assert names[..i + 1][..i] == names[..i];
        e.RecordSecretUsage(names[i], now);
      }
      assert names[..|names|] == names;
    }

    /** Retrieves the secrets of all placeholders and fills them in. Once every secret is retrieved,
        substitution cannot fail. */
    method Hydrate(t: RequestTemplate, names: seq<string>)
      returns (r: Result<RequestTemplate, Failure>, values: map<string, string>)
      requires Valid() && Placeholders(t, names)
      modifies vault, host
      ensures Valid() && KeptIn(host, lib.codec) == old(KeptIn(host, lib.codec))
      ensures host.persisted == old(host.persisted) && host.failures == old(host.failures)
      ensures r.Ok? <==> AllReady(old(KeptIn(host, lib.codec)).secrets, lib.decodeText, names)
      ensures r.Ok? ==> values == Texts(old(KeptIn(host, lib.codec)).secrets, lib.decodeText, names)
      ensures r.Ok? ==> CoversTemplate(values, t) && Hydrates(t, values, r.value)
      ensures r.Err? ==> !r.error.SubstitutionFailed?
    {
      values := map[];
      var retrieved := RetrieveSecrets(names);
      if retrieved.Err? {
        r := Err(SecretMissing(retrieved.error));
        return;
      }
      values := retrieved.value;
      var hydrated := SubstituteTemplate(t, values);
      if hydrated.Err? {
        assert false;
        r := Err(SubstitutionFailed(""));
        return;
      }
      r := Ok(hydrated.value);
    }

    /** Sends a hydrated request, scrubs the response and counts the secrets. */
    method Deliver(request: RequestTemplate, respond: RequestTemplate -> HttpResponse,
                   values: map<string, string>, names: seq<string>, url: string, now: u64, clock: u64,
                   ghost found: Engine)
      returns (clean: HttpResponse)
      requires Valid() && Runs.Admits(Machine, found, names, url, now)
      requires CurrentEngine(clock) == Runs.AfterCall(Machine, found, names, url, now, false)
      modifies this`engine, engine
      ensures Valid() && KeptIn(host, lib.codec) == old(KeptIn(host, lib.codec))
      ensures CurrentEngine(clock) == Runs.AfterCall(Machine, found, names, url, now, true)
      ensures engine == old(engine) || (old(engine) == null && fresh(engine))
      ensures Scrubbed(respond(request), values, clean)
    {
      var response := respond(request);
      var injected;
      clean, injected := ScrubAll(response, values);
      RecordSecrets(names, url, now, clock, found);
    }

    /** A request template is checked, hydrated, sent, scrubbed and counted. A request that is
        refused sends and counts nothing. */
    method ExecuteRequest(t: RequestTemplate, respond: RequestTemplate -> HttpResponse, now: u64, clock: u64)
      returns (r: Result<HttpResponse, Failure>, sent: Option<RequestTemplate>,
               names: seq<string>, ghost values: map<string, string>)
      requires Valid()
      modifies this`engine, engine, vault, host
      ensures Valid() && KeptIn(host, lib.codec) == old(KeptIn(host, lib.codec))
      ensures host.persisted == old(host.persisted) && host.failures == old(host.failures)
      ensures engine == old(engine) || fresh(engine)
      ensures Placeholders(t, names)
      ensures r.Ok? <==> Runs.Admits(Machine, old(CurrentEngine(clock)), names, t.url, now) &&
                         AllReady(old(KeptIn(host, lib.codec)).secrets, lib.decodeText, names)
      ensures r.Err? ==> !r.error.SubstitutionFailed? && sent == None
      ensures CurrentEngine(clock) ==
              Runs.AfterCall(Machine, old(CurrentEngine(clock)), names, t.url, now, r.Ok?)
      ensures r.Ok? ==> values == Texts(old(KeptIn(host, lib.codec)).secrets, lib.decodeText, names)
      ensures r.Ok? ==> sent.Some? && CoversTemplate(values, t) && Hydrates(t, values, sent.value)
      ensures r.Ok? ==> Scrubbed(respond(sent.value), values, r.value)
      ensures r.Ok? && AllGuarded(values) ==> Spotless(r.value, values)
    {
      sent, values := None, map[];
      var placeholders := CollectAllPlaceholders(t);
      names := placeholders;
      ghost var found := CurrentEngine(clock);
      var denied := CheckSecrets(placeholders, t.url, now, clock);
      if denied.Some? {
        r := Err(PolicyDenied(denied.value));
      } else {
        ghost var checked := CurrentEngine(clock);
        var hydrated, texts := Hydrate(t, placeholders);
        values := texts;
        assert CurrentEngine(clock) == checked;
        if hydrated.Err? {
          r := Err(hydrated.error);
        } else {
          sent := Some(hydrated.value);
          var clean := Deliver(hydrated.value, respond, texts, placeholders, t.url, now, clock, found);
          ScrubbedIsSpotless(respond(hydrated.value), values, clean);
          r := Ok(clean);
        }
      }
    }
  }

  // ---------- scrubbing a response ----------

  /** Each secret has patterns that cannot share characters with the scrubber's marker, or that
      contain such a one. */
  ghost predicate AllGuarded(values: map<string, string>) {
    forall n :: n in values ==> Scrub.Guarded(Scrub.PatternsOf(values[n]))
  }

  /** No secret is left in the text, and of one with sixteen or more characters neither the first
      eight nor the last eight. */
  ghost predicate Clean(s: string, values: map<string, string>) {
    forall n :: n in values ==>
      var v := values[n];
      && !Text.Contains(s, v)
      && (|v| >= 16 ==> !Text.Contains(s, v[..8]) && !Text.Contains(s, v[|v| - 8..]))
  }

  /** Neither the body nor any header name or value holds a secret, or an end of a long one. */
  ghost predicate Spotless(r: HttpResponse, values: map<string, string>) {
    Clean(r.body, values) && forall h :: h in r.headers ==> Clean(h, values) && Clean(r.headers[h], values)
  }

  /** The values of these secrets, one for each name, in some order. */
  ghost predicate Lists(injected: seq<string>, values: map<string, string>) {
    |injected| == |values| && forall v :: v in injected <==> v in values.Values
  }

  /** `clean` holds these headers with the patterns scrubbed from names and values, and nothing
      else. Header names that become equal share one entry. */
  ghost predicate ScrubsHeaders(headers: map<string, string>, keys: set<string>, patterns: seq<string>,
                                clean: map<string, string>)
    requires keys <= headers.Keys
  {
    && (forall k :: k in keys ==> Scrub.Redact(k, patterns) in clean)
    && (forall h :: h in clean ==>
          exists k :: k in keys && h == Scrub.Redact(k, patterns) && clean[h] == Scrub.Redact(headers[k], patterns))
  }

  ghost predicate ScrubbedInOrder(response: HttpResponse, injected: seq<string>, clean: HttpResponse) {
    && clean.status == response.status
    && clean.body == Scrub.Redact(response.body, Scrub.Patterns(injected))
    && ScrubsHeaders(response.headers, response.headers.Keys, Scrub.Patterns(injected), clean.headers)
  }

  /** The response with every secret scrubbed from all its fields, the secrets in some order. */
  ghost predicate Scrubbed(response: HttpResponse, values: map<string, string>, clean: HttpResponse) {
    exists injected :: Lists(injected, values) && ScrubbedInOrder(response, injected, clean)
  }

  lemma RedactedIsClean(s: string, injected: seq<string>, values: map<string, string>)
    requires AllGuarded(values) && Lists(injected, values)
    ensures Clean(Scrub.Redact(s, Scrub.Patterns(injected)), values)
  {
    forall v | v in injected
      ensures Scrub.Guarded(Scrub.PatternsOf(v))
    {
      var n :| n in values && values[n] == v;
    }
    Scrub.GuardedTogether(injected);
    Scrub.ScrubIsComplete(s, Scrub.Patterns(injected));
    forall n | n in values
      ensures ValueIsGone(Scrub.Redact(s, Scrub.Patterns(injected)), values[n])
    {
      assert values[n] in values.Values;
      FreeOfValue(Scrub.Redact(s, Scrub.Patterns(injected)), injected, values[n]);
    }
  }

  ghost predicate ValueIsGone(s: string, v: string) {
    && !Text.Contains(s, v)
    && (|v| >= 16 ==> !Text.Contains(s, v[..8]) && !Text.Contains(s, v[|v| - 8..]))
  }

  lemma FreeOfValue(s: string, injected: seq<string>, v: string)
    requires v in injected && Scrub.FreeOf(s, Scrub.Patterns(injected))
    ensures ValueIsGone(s, v)
  {
    Scrub.PatternsExactly(v);
    forall p | p in Scrub.PatternsOf(v)
      ensures !Text.Contains(s, p)
    {
      Scrub.PatternsOfAll(injected, p);
    }
    assert v in Scrub.PatternsOf(v);
    assert |v| >= 16 ==> v[..8] in Scrub.PatternsOf(v) && v[|v| - 8..] in Scrub.PatternsOf(v);
  }

  lemma HeadersAreClean(headers: map<string, string>, injected: seq<string>, values: map<string, string>,
                        clean: map<string, string>, h: string)
    requires AllGuarded(values) && Lists(injected, values) && h in clean
    requires ScrubsHeaders(headers, headers.Keys, Scrub.Patterns(injected), clean)
    ensures Clean(h, values) && Clean(clean[h], values)
  {
    var k :| k in headers.Keys && h == Scrub.Redact(k, Scrub.Patterns(injected)) &&
             clean[h] == Scrub.Redact(headers[k], Scrub.Patterns(injected));
    RedactedIsClean(k, injected, values);
    RedactedIsClean(headers[k], injected, values);
  }

  lemma OrderIsSpotless(response: HttpResponse, injected: seq<string>, values: map<string, string>,
                        clean: HttpResponse)
    requires AllGuarded(values) && Lists(injected, values) && ScrubbedInOrder(response, injected, clean)
    ensures Spotless(clean, values)
  {
    RedactedIsClean(response.body, injected, values);
    forall h | h in clean.headers
      ensures Clean(h, values) && Clean(clean.headers[h], values)
    {
      HeadersAreClean(response.headers, injected, values, clean.headers, h);
    }
  }

  /** Guarded secrets leave no trace in a scrubbed response. */
  lemma ScrubbedIsSpotless(response: HttpResponse, values: map<string, string>, clean: HttpResponse)
    requires Scrubbed(response, values, clean)
    ensures AllGuarded(values) ==> Spotless(clean, values)
  {
    var injected :| Lists(injected, values) && ScrubbedInOrder(response, injected, clean);
    if AllGuarded(values) {
      OrderIsSpotless(response, injected, values, clean);
    }
  }

  /** Secrets without brackets, none of which is part of the word REDACTED or, if it is long, begins or
      ends with it, leave no trace in any scrubbed response. */
  lemma BracketFreeIsSpotless(response: HttpResponse, values: map<string, string>, clean: HttpResponse)
    requires Scrubbed(response, values, clean)
    requires forall n :: n in values ==>
               var v := values[n];
               && '[' !in v && ']' !in v && !Text.Contains("REDACTED", v)
               && (|v| >= 16 ==> v[..8] != "REDACTED" && v[|v| - 8..] != "REDACTED")
    ensures Spotless(clean, values)
  {
    forall n | n in values
      ensures Scrub.Guarded(Scrub.PatternsOf(values[n]))
    {
      var v := values[n];
      assert '[' !in v && ']' !in v && !Text.Contains("REDACTED", v);
      Scrub.BracketFreeIsGuarded(v);
    }
    ScrubbedIsSpotless(response, values, clean);
  }

  /** The values in the arbitrary order of a hash map. */
  method ListValues(values: map<string, string>) returns (injected: seq<string>)
    ensures Lists(injected, values)
  {
    injected := [];
    var left := values.Keys;
    while left != {}
      invariant left <= values.Keys && |injected| + |left| == |values.Keys|
      invariant forall v :: v in injected <==> exists n :: n in values.Keys - left && values[n] == v
      decreases left
    {
      var name :| name in left;
      injected := injected + [values[name]];
      left := left - {name};
    }
  }

  /** The headers with the patterns scrubbed from names and values, and no others. */
  method ScrubHeaders(headers: map<string, string>, injected: seq<string>) returns (clean: map<string, string>)
    ensures ScrubsHeaders(headers, headers.Keys, Scrub.Patterns(injected), clean)
    ensures forall k :: k in headers ==> Scrub.Redact(k, Scrub.Patterns(injected)) in clean
    ensures forall h :: h in clean ==>
              exists k :: k in headers && h == Scrub.Redact(k, Scrub.Patterns(injected)) &&
                          clean[h] == Scrub.Redact(headers[k], Scrub.Patterns(injected))
  {
    clean := map[];
    var left := headers.Keys;
    while left != {}
      invariant left <= headers.Keys
      invariant ScrubsHeaders(headers, headers.Keys - left, Scrub.Patterns(injected), clean)
      decreases left
    {
      var key :| key in left;
      var newKey := Scrub.ScrubResponse(key, injected);
      var newValue := Scrub.ScrubResponse(headers[key], injected);
      clean := clean[newKey := newValue];
      left := left - {key};
    }
  }

  /** The response with every secret scrubbed from its body and headers. */
  method ScrubAll(response: HttpResponse, values: map<string, string>)
    returns (clean: HttpResponse, injected: seq<string>)
    ensures Scrubbed(response, values, clean)
    ensures |injected| == |values| && forall v :: v in injected <==> v in values.Values
    ensures clean.status == response.status
    ensures clean.body == Scrub.Redact(response.body, Scrub.Patterns(injected))
    ensures ScrubsHeaders(response.headers, response.headers.Keys, Scrub.Patterns(injected), clean.headers)
  {
    injected := ListValues(values);
    var body := Scrub.ScrubResponse(response.body, injected);
    var headers := ScrubHeaders(response.headers, injected);
    clean := HttpResponse(response.status, headers, body);
    assert ScrubbedInOrder(response, injected, clean);
  }
}
