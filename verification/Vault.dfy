/** The secret vault: encrypted entries, a name index and a cached master key, all over the
    host's flat store. It behaves as a map from names to values. */
module Vault {
  import opened Wrappers
  import opened Host

  /** The listed names. An index that is missing, too large or corrupt counts as empty. */
  function Listed(store: Store, codec: Codec): seq<string> {
    match Readable(store, SECRETS_INDEX)
    case None => []
    case Some(data) => match codec.decode(data) case Some(names) => names case None => []
  }

  /** The entry of `n` is encrypted under the stored master key. */
  ghost predicate EntryKept(store: Store, deposited: map<string, Bytes>, c: Cipher, n: string) {
    && n in deposited && SecretEntry(n) in store
    && SECRETS_MASTER in store && |store[SECRETS_MASTER]| == KEY_LENGTH
    && Seals(c, store[SECRETS_MASTER], store[SecretEntry(n)], deposited[n])
  }

  ghost predicate EntriesKept(store: Store, deposited: map<string, Bytes>, c: Cipher, codec: Codec) {
    && NoDuplicates(Listed(store, codec))
    && forall n :: n in Listed(store, codec) ==> EntryKept(store, deposited, c, n)
  }

  /** What every run keeps: names are listed once, every listed name has a readable master key's
      encryption, and the master key was written at most once. */
  ghost predicate SecretsKeptIn(store: Store, writes: seq<string>, deposited: map<string, Bytes>,
                                c: Cipher, codec: Codec) {
    && EntriesKept(store, deposited, c, codec)
    && Count(writes, SECRETS_MASTER) <= 1
    && (Count(writes, SECRETS_MASTER) == 1 ==> SECRETS_MASTER in store && |store[SECRETS_MASTER]| == KEY_LENGTH)
  }

  ghost predicate SecretsKept(h: HostStore, c: Cipher, codec: Codec)
    reads h
  {
    SecretsKeptIn(h.store, h.writes, h.deposited, c, codec)
  }

  /** The encrypted value fits the host's read buffer. */
  predicate Small(value: Bytes) {
    |value| + OVERHEAD <= READ_LIMIT
  }

  function ReadableSecrets(names: seq<string>, deposited: map<string, Bytes>): map<string, Bytes> {
    map n | n in deposited && n in names && Small(deposited[n]) :: deposited[n]
  }

  /** The map the vault stands for: listed names whose entries fit the host's read buffer. */
  ghost function SecretMap(h: HostStore, codec: Codec): map<string, Bytes>
    reads h
  {
    ReadableSecrets(Listed(h.store, codec), h.deposited)
  }

  /** The listing after a name was added. */
  function Grown(codec: Codec, names: seq<string>, name: string): seq<string> {
    if name in names then names else if codec.Fits(names + [name]) then names + [name] else []
  }

  predicate StaysListed(codec: Codec, names: seq<string>, name: string) {
    name in names || codec.Fits(names + [name])
  }

  /** The secrets after a deposit that reported success: a value that is too large is listed but
      cannot be read, and an index that is too large hides every name. */
  function AfterDeposit(codec: Codec, names: seq<string>, secrets: map<string, Bytes>, name: string, value: Bytes)
    : map<string, Bytes>
  {
    if !StaysListed(codec, names, name) then map[]
    else if Small(value) then secrets[name := value]
    else secrets - {name}
  }

  /** A successful deposit updates the map exactly when value and index fit. */
  lemma DepositIsUpdateExactly(codec: Codec, names: seq<string>, secrets: map<string, Bytes>,
                               name: string, value: Bytes)
    ensures AfterDeposit(codec, names, secrets, name, value) == secrets[name := value] <==>
            |value| <= 4068 && (name in names || |codec.encode(names + [name])| <= 4096)
    ensures name !in names && |codec.encode(names + [name])| > 4096 ==>
              Grown(codec, names, name) == [] && AfterDeposit(codec, names, secrets, name, value) == map[]
    ensures name in names || |codec.encode(names + [name])| <= 4096 ==>
              Grown(codec, names, name) == if name in names then names else names + [name]
    ensures |value| > 4068 ==> name !in AfterDeposit(codec, names, secrets, name, value)
  {
    assert name in secrets[name := value];
  }

  lemma SecretsAfterDeposit(codec: Codec, names: seq<string>, d: map<string, Bytes>, name: string, value: Bytes)
    ensures ReadableSecrets(Grown(codec, names, name), d[name := value]) ==
            AfterDeposit(codec, names, ReadableSecrets(names, d), name, value)
    ensures name !in names ==> ReadableSecrets(names, d[name := value]) == ReadableSecrets(names, d)
  {
  }

  /** Dropping a name takes every occurrence of it and nothing else, and keeps the order. */
  lemma {:induction false} DroppedExactly(names: seq<string>, n: string)
    ensures forall m :: m in Dropped(names, n) <==> m in names && m != n
    ensures n !in names ==> Dropped(names, n) == names
    ensures NoDuplicates(names) ==>
              NoDuplicates(Dropped(names, n)) && |Dropped(names, n)| == |names| - if n in names then 1 else 0
  {
    if names != [] {
      DroppedExactly(names[1..], n);
      assert names == [names[0]] + names[1..];
      assert NoDuplicates(names) ==> NoDuplicates(names[1..]) && names[0] !in names[1..];
    }
  }

  lemma Regrouped(a: seq<string>, b: seq<string>, c: seq<string>)
    ensures a + (b + c) == (a + b) + c
  {
  }

  lemma {:induction false} DroppedFromParts(a: seq<string>, b: seq<string>, n: string)
    ensures Dropped(a + b, n) == Dropped(a, n) + Dropped(b, n)
  {
    if a == [] {
      assert a + b == b;
    } else {
      DroppedFromParts(a[1..], b, n);
      assert (a + b)[0] == a[0] && (a + b)[1..] == a[1..] + b;
      Regrouped([a[0]], Dropped(a[1..], n), Dropped(b, n));
    }
  }

  lemma ListedNeedsMaster(store: Store, deposited: map<string, Bytes>, c: Cipher, codec: Codec)
    requires EntriesKept(store, deposited, c, codec) && Listed(store, codec) != []
    ensures Readable(store, SECRETS_MASTER).Some?
  {
    assert Listed(store, codec)[0] in Listed(store, codec);
  }

  /** A master key is only ever generated while no name is listed. */
  lemma NewMasterKey(store: Store, deposited: map<string, Bytes>, c: Cipher, codec: Codec, key: Bytes)
    requires EntriesKept(store, deposited, c, codec) && Readable(store, SECRETS_MASTER) == None
    ensures Listed(store, codec) == [] == Listed(store[SECRETS_MASTER := key], codec)
    ensures EntriesKept(store[SECRETS_MASTER := key], deposited, c, codec)
  {
    if Listed(store, codec) != [] {
      ListedNeedsMaster(store, deposited, c, codec);
    }
    assert SECRETS_MASTER != SECRETS_INDEX;
  }

  /** Writing the entry of one name leaves the index and all other entries alone. */
  lemma EntryWritten(store: Store, deposited: map<string, Bytes>, c: Cipher, codec: Codec,
                     name: string, blob: Bytes, value: Bytes)
    requires EntriesKept(store, deposited, c, codec)
    requires SECRETS_MASTER in store && |store[SECRETS_MASTER]| == KEY_LENGTH
    requires Seals(c, store[SECRETS_MASTER], blob, value)
    ensures var s, d := store[SecretEntry(name) := blob], deposited[name := value];
            && Listed(s, codec) == Listed(store, codec)
            && EntriesKept(s, d, c, codec) && EntryKept(s, d, c, name)
  {
    var s, d := store[SecretEntry(name) := blob], deposited[name := value];
    EntriesAreDistinct(SecretEntry(name));
    forall n | n in Listed(store, codec)
      ensures EntryKept(s, d, c, n)
    {
      EntriesAreInjective(n, name);
    }
  }

  /** Writing the index lists exactly these names, or none when they do not fit. */
  lemma IndexWritten(store: Store, deposited: map<string, Bytes>, c: Cipher, codec: Codec, names: seq<string>)
    requires codec.Sound() && NoDuplicates(names)
    requires forall n :: n in names ==> EntryKept(store, deposited, c, n)
    ensures var s := store[SECRETS_INDEX := codec.encode(names)];
            && Listed(s, codec) == (if codec.Fits(names) then names else [])
            && EntriesKept(s, deposited, c, codec)
  {
    var s := store[SECRETS_INDEX := codec.encode(names)];
    assert SECRETS_INDEX != SECRETS_MASTER;
    forall n | n in names
      ensures EntryKept(s, deposited, c, n)
    {
      EntriesAreDistinct(SecretEntry(n));
    }
  }

  /** Nothing outside the vault's own entries changed. */
  twostate predicate OnlyVaultEntries(h: HostStore)
    reads h
  {
    SameEntries(old(h.store), old(h.writes), h.store, h.writes, IsOtherEntry)
  }

  lemma OneEntryChanged(s0: Store, w0: seq<string>, s1: Store, w1: seq<string>, key: string)
    requires IsVaultEntry(key)
    requires forall k :: k != key ==> SameAt(s0, s1, k) && Count(w0, k) == Count(w1, k)
    ensures SameEntries(s0, w0, s1, w1, IsOtherEntry)
  {
  }

  /** What happens to other entries does not concern the vault. */
  lemma OtherEntriesChanged(s0: Store, w0: seq<string>, s1: Store, w1: seq<string>, d: map<string, Bytes>,
                            c: Cipher, codec: Codec)
    requires SecretsKeptIn(s0, w0, d, c, codec)
    requires SameEntries(s0, w0, s1, w1, IsVaultEntry)
    ensures SecretsKeptIn(s1, w1, d, c, codec)
    ensures Listed(s1, codec) == Listed(s0, codec)
    ensures Readable(s1, SECRETS_MASTER) == Readable(s0, SECRETS_MASTER)
  {
    assert IsVaultEntry(SECRETS_INDEX) && IsVaultEntry(SECRETS_MASTER);
    forall n | n in Listed(s1, codec)
      ensures EntryKept(s1, d, c, n)
    {
      EntriesAreInjective(n, n);
      assert EntryKept(s0, d, c, n);
    }
  }

  class SecretVault {
    const host: HostStore
    const cipher: Cipher
    const codec: Codec
    var masterKey: Option<Bytes>

    ghost predicate Valid()
      reads this, host
    {
      && cipher.Sound() && codec.Sound()
      && SecretsKept(host, cipher, codec)
      && (masterKey.Some? ==> |masterKey.value| == KEY_LENGTH && Readable(host.store, SECRETS_MASTER) == masterKey)
    }

    /** A fresh vault, as after a restart, over a store that earlier vaults may have filled. */
    constructor (host: HostStore, cipher: Cipher, codec: Codec)
      requires cipher.Sound() && codec.Sound() && SecretsKept(host, cipher, codec)
      ensures this.host == host && this.cipher == cipher && this.codec == codec && masterKey == None && Valid()
    {
      this.host, this.cipher, this.codec, masterKey := host, cipher, codec, None;
    }

    method EnsureMasterKey() returns (ok: bool)
      requires Valid()
      modifies this`masterKey, host`store, host`writes, host`failures
      ensures Valid() && (ok <==> masterKey.Some?)
      ensures ok <==> Usable(old(host.store), SECRETS_MASTER) && host.failures == old(host.failures)
      ensures ok <==> host.failures == old(host.failures) &&
                      (SECRETS_MASTER in old(host.store) && |old(host.store)[SECRETS_MASTER]| <= 4096 ==>
                         |old(host.store)[SECRETS_MASTER]| == 32)
      ensures host.failures >= old(host.failures)
      ensures Usable(host.store, SECRETS_MASTER) <==> Usable(old(host.store), SECRETS_MASTER)
      ensures OnlyVaultEntries(host) && Listed(host.store, codec) == Listed(old(host.store), codec)
      ensures forall k :: k != SECRETS_MASTER ==> SameAt(old(host.store), host.store, k)
      ensures Readable(old(host.store), SECRETS_MASTER).Some? ==>
                host.store == old(host.store) && host.writes == old(host.writes) &&
                host.failures == old(host.failures) &&
                (ok <==> |Readable(old(host.store), SECRETS_MASTER).value| == KEY_LENGTH)
      ensures !ok ==> host.store == old(host.store)
    {
      if masterKey.Some? {
        return true;
      }
      var stored := host.Read(SECRETS_MASTER);
      if stored.Some? {
        if |stored.value| != KEY_LENGTH {
          return false;
        }
        masterKey := stored;
        return true;
      }
      ok := NewKey();
    }

    /** A first master key, which hides no listed secret since there is none. */
    method NewKey() returns (ok: bool)
      requires Valid() && masterKey.None? && Readable(host.store, SECRETS_MASTER) == None
      modifies this`masterKey, host`store, host`writes, host`failures
      ensures Valid() && (ok <==> masterKey.Some?)
      ensures host.failures == old(host.failures) + if ok then 0 else 1
      ensures Usable(host.store, SECRETS_MASTER)
      ensures OnlyVaultEntries(host) && Listed(host.store, codec) == Listed(old(host.store), codec)
      ensures forall k :: k != SECRETS_MASTER ==> SameAt(old(host.store), host.store, k)
      ensures !ok ==> host.store == old(host.store)
    {
      ok := false;
      var key := host.RandomBytes(KEY_LENGTH);
      if key.Some? {
        ghost var s0, w0 := host.store, host.writes;
        NewMasterKey(host.store, host.deposited, cipher, codec, key.value);
        ok := host.Write(SECRETS_MASTER, key.value);
        OneEntryChanged(s0, w0, host.store, host.writes, SECRETS_MASTER);
        if ok {
          masterKey := key;
        }
      }
    }

    method LoadIndex() returns (names: seq<string>)
      ensures names == Listed(host.store, codec)
    {
      var data := host.Read(SECRETS_INDEX);
      if data.None? {
        return [];
      }
      var decoded := codec.decode(data.value);
      names := if decoded.Some? then decoded.value else [];
    }

    method SaveIndex(names: seq<string>) returns (ok: bool)
      requires Valid() && NoDuplicates(names)
      requires forall n :: n in names ==> EntryKept(host.store, host.deposited, cipher, n)
      modifies host`store, host`writes, host`failures
      ensures Valid() && OnlyVaultEntries(host)
      ensures host.failures == old(host.failures) + if ok then 0 else 1
      ensures Readable(host.store, SECRETS_MASTER) == Readable(old(host.store), SECRETS_MASTER)
      ensures ok ==> Listed(host.store, codec) == if codec.Fits(names) then names else []
      ensures !ok ==> host.store == old(host.store)
    {
      IndexWritten(host.store, host.deposited, cipher, codec, names);
      assert SECRETS_INDEX != SECRETS_MASTER;
      ok := host.Write(SECRETS_INDEX, codec.encode(names));
    }

    /** Adds a name whose entry is already written. */
    method AddToIndex(name: string) returns (ok: bool)
      requires Valid() && EntryKept(host.store, host.deposited, cipher, name)
      modifies host`store, host`writes, host`failures
      ensures Valid() && OnlyVaultEntries(host)
      ensures host.failures == old(host.failures) + if ok then 0 else 1
      ensures Readable(host.store, SECRETS_MASTER) == Readable(old(host.store), SECRETS_MASTER)
      ensures ok ==> Listed(host.store, codec) == Grown(codec, Listed(old(host.store), codec), name)
      ensures !ok ==> host.store == old(host.store) && name !in Listed(host.store, codec)
    {
      var names := LoadIndex();
      ok := true;
      if name !in names {
        ok := SaveIndex(names + [name]);
      }
    }

    /** Stores a secret. Succeeds exactly when the master key is usable and no host call fails; on
        failure, at whichever call, the map is unchanged. */
    method Deposit(name: string, value: Bytes) returns (ok: bool)
      requires Valid()
      modifies this`masterKey, host`store, host`writes, host`deposited, host`failures
      ensures Valid() && OnlyVaultEntries(host)
      ensures ok <==> Usable(old(host.store), SECRETS_MASTER) && host.failures == old(host.failures)
      ensures host.failures >= old(host.failures)
      ensures Usable(host.store, SECRETS_MASTER) <==> Usable(old(host.store), SECRETS_MASTER)
      ensures !ok ==> Listed(host.store, codec) == Listed(old(host.store), codec) &&
                      SecretMap(host, codec) == old(SecretMap(host, codec))
      ensures ok ==> Listed(host.store, codec) == Grown(codec, Listed(old(host.store), codec), name)
      ensures ok ==> SecretMap(host, codec) ==
                     AfterDeposit(codec, Listed(old(host.store), codec), old(SecretMap(host, codec)), name, value)
    {
      SecretsAfterDeposit(codec, Listed(host.store, codec), host.deposited, name, value);
      ok := SealEntry(name, value);
      if ok {
        ok := AddToIndex(name);
      }
    }

    /** Encrypts a value under the master key and writes its entry. */
    method SealEntry(name: string, value: Bytes) returns (ok: bool)
      requires Valid()
      modifies this`masterKey, host`store, host`writes, host`deposited, host`failures
      ensures Valid() && OnlyVaultEntries(host)
      ensures ok <==> Usable(old(host.store), SECRETS_MASTER) && host.failures == old(host.failures)
      ensures host.failures >= old(host.failures)
      ensures Usable(host.store, SECRETS_MASTER) <==> Usable(old(host.store), SECRETS_MASTER)
      ensures Listed(host.store, codec) == Listed(old(host.store), codec)
      ensures ok ==> host.deposited == old(host.deposited)[name := value] &&
                     EntryKept(host.store, host.deposited, cipher, name)
      ensures !ok ==> host.deposited == old(host.deposited)
    {
      var ready := EnsureMasterKey();
      if !ready {
        return false;
      }
      var nonce := host.RandomBytes(NONCE_LENGTH);
      if nonce.None? {
        return false;
      }
      var encrypted := cipher.Encrypt(masterKey.value, nonce.value, value);
      cipher.DecryptInvertsEncrypt(masterKey.value, nonce.value, value);
      ok := WriteEntry(name, value, encrypted);
    }

    method WriteEntry(name: string, value: Bytes, encrypted: Bytes) returns (ok: bool)
      requires Valid() && masterKey.Some? && Seals(cipher, masterKey.value, encrypted, value)
      modifies host`store, host`writes, host`deposited, host`failures
      ensures Valid() && OnlyVaultEntries(host)
      ensures host.failures == old(host.failures) + if ok then 0 else 1
      ensures Readable(host.store, SECRETS_MASTER) == Readable(old(host.store), SECRETS_MASTER)
      ensures Listed(host.store, codec) == Listed(old(host.store), codec)
      ensures ok ==> host.deposited == old(host.deposited)[name := value] &&
                     EntryKept(host.store, host.deposited, cipher, name)
      ensures !ok ==> host.store == old(host.store) && host.deposited == old(host.deposited)
    {
      EntryWritten(host.store, host.deposited, cipher, codec, name, encrypted, value);
      EntriesAreDistinct(SecretEntry(name));
      ok := host.Write(SecretEntry(name), encrypted);
      if ok {
        host.deposited := host.deposited[name := value];
      }
    }

    /** Looks a secret up in the map; the store does not change. */
    method Retrieve(name: string) returns (r: Option<Bytes>)
      requires Valid()
      modifies this`masterKey, host`store, host`writes, host`failures
      ensures Valid() && host.store == old(host.store) && host.writes == old(host.writes) &&
              host.failures == old(host.failures)
      ensures r == if name in SecretMap(host, codec) then Some(SecretMap(host, codec)[name]) else None
    {
      var names := LoadIndex();
      if name !in names {
        return None;
      }
      ListedNeedsMaster(host.store, host.deposited, cipher, codec);
      assert EntryKept(host.store, host.deposited, cipher, name);
      var ready := EnsureMasterKey();
      if !ready {
        return None;
      }
      var encrypted := host.Read(SecretEntry(name));
      if encrypted.None? {
        return None;
      }
      r := cipher.Decrypt(masterKey.value, encrypted.value);
    }

    /** True exactly when the name was listed and the host does not fail; then it is deleted, while
        the entry itself stays in the store. */
    method Remove(name: string) returns (removed: bool)
      requires Valid()
      modifies host`store, host`writes, host`failures
      ensures Valid() && OnlyVaultEntries(host)
      ensures removed <==> name in Listed(old(host.store), codec) && host.failures == old(host.failures)
      ensures host.failures >= old(host.failures)
      ensures Usable(host.store, SECRETS_MASTER) <==> Usable(old(host.store), SECRETS_MASTER)
      ensures removed ==> Listed(host.store, codec) == Dropped(Listed(old(host.store), codec), name)
      ensures removed ==> SecretMap(host, codec) == old(SecretMap(host, codec)) - {name}
      ensures !removed ==> Listed(host.store, codec) == Listed(old(host.store), codec) &&
                           SecretMap(host, codec) == old(SecretMap(host, codec))
      ensures removed <==> name in Listed(old(host.store), codec) && name !in Listed(host.store, codec)
    {
      var names := LoadIndex();
      var kept := Dropped(names, name);
      NameDropped(host.store, host.deposited, cipher, codec, name);
      var ok := SaveIndex(kept);
      removed := ok && |kept| != |names|;
    }

    method ListNames() returns (names: seq<string>)
      requires Valid()
      ensures names == Listed(host.store, codec) && NoDuplicates(names)
      ensures forall n :: n in SecretMap(host, codec) ==> n in names
    {
      names := LoadIndex();
    }
  }

  /** Dropping a name from the listing removes one secret, if it was listed, and fits the index. */
  lemma NameDropped(store: Store, d: map<string, Bytes>, c: Cipher, codec: Codec, name: string)
    requires codec.Sound() && EntriesKept(store, d, c, codec)
    ensures var names := Listed(store, codec);
            var kept := Dropped(names, name);
            && codec.Fits(kept) && NoDuplicates(kept) && name !in kept
            && (forall n :: n in kept ==> EntryKept(store, d, c, n))
            && (|kept| != |names| <==> name in names)
            && (name !in names ==> kept == names)
            && ReadableSecrets(kept, d) == ReadableSecrets(names, d) - {name}
  {
    DroppedExactly(Listed(store, codec), name);
  }

  // ---------- whole sessions ----------

  datatype Op = Put(name: string, value: Bytes) | Delete(name: string) | Restart

  /** What a vault keeps: the listing, the secrets that can be read, and whether there is a master
      key, or can be one, to encrypt more of them. */
  datatype Kept = Kept(names: seq<string>, secrets: map<string, Bytes>, usable: bool)

  ghost function KeptIn(h: HostStore, codec: Codec): Kept
    reads h
  {
    Kept(Listed(h.store, codec), SecretMap(h, codec), Usable(h.store, SECRETS_MASTER))
  }

  /** Whether an operation succeeds when the host does not fail. */
  predicate Works(k: Kept, op: Op) {
    match op
    case Put(_, _) => k.usable
    case Delete(name) => name in k.names
    case Restart => true
  }

  function After(codec: Codec, k: Kept, op: Op, ok: bool): Kept {
    if !ok then k
    else
      match op
      case Put(name, value) =>
        Kept(Grown(codec, k.names, name), AfterDeposit(codec, k.names, k.secrets, name, value), k.usable)
      case Delete(name) => Kept(Dropped(k.names, name), k.secrets - {name}, k.usable)
      case Restart => k
  }

  /** What is kept after a session with these outcomes. */
  function AfterAll(codec: Codec, k: Kept, ops: seq<Op>, oks: seq<bool>): Kept
    requires |ops| == |oks|
  {
    if ops == [] then k
    else After(codec, AfterAll(codec, k, ops[..|ops| - 1], oks[..|oks| - 1]), ops[|ops| - 1], oks[|oks| - 1])
  }

  method Perform(vault: SecretVault, op: Op) returns (next: SecretVault, ok: bool)
    requires vault.Valid()
    modifies vault, vault.host
    ensures next == vault || fresh(next)
    ensures next.host == vault.host && next.cipher == vault.cipher && next.codec == vault.codec && next.Valid()
    ensures ok <==> Works(old(KeptIn(vault.host, vault.codec)), op) &&
                    vault.host.failures == old(vault.host.failures)
    ensures vault.host.failures >= old(vault.host.failures)
    ensures KeptIn(vault.host, vault.codec) == After(vault.codec, old(KeptIn(vault.host, vault.codec)), op, ok)
  {
    next := vault;
    match op {
      case Put(name, value) => ok := vault.Deposit(name, value);
      case Delete(name) => ok := vault.Remove(name);
      case Restart =>
        next := new SecretVault(vault.host, vault.cipher, vault.codec);
        ok := true;
    }
  }

  /** The outcomes of a session: an operation succeeds exactly when it works on what is kept by then
      and the host does not fail during it. */
  ghost predicate Outcomes(codec: Codec, k: Kept, ops: seq<Op>, oks: seq<bool>, failed: seq<bool>)
    requires |ops| == |oks| == |failed|
  {
    ops == [] ||
    (var n := |ops| - 1;
     && Outcomes(codec, k, ops[..n], oks[..n], failed[..n])
     && (oks[n] <==> Works(AfterAll(codec, k, ops[..n], oks[..n]), ops[n]) && !failed[n]))
  }

  lemma AfterOneMore(codec: Codec, k: Kept, ops: seq<Op>, oks: seq<bool>, op: Op, ok: bool)
    requires |ops| == |oks|
    ensures AfterAll(codec, k, ops + [op], oks + [ok]) == After(codec, AfterAll(codec, k, ops, oks), op, ok)
  {
    assert (ops + [op])[..|ops|] == ops && (oks + [ok])[..|oks|] == oks;
  }

  lemma OutcomesGoOn(codec: Codec, k: Kept, ops: seq<Op>, oks: seq<bool>, failed: seq<bool>,
                     op: Op, ok: bool, fails: bool)
    requires |ops| == |oks| == |failed| && Outcomes(codec, k, ops, oks, failed)
    requires ok <==> Works(AfterAll(codec, k, ops, oks), op) && !fails
    ensures Outcomes(codec, k, ops + [op], oks + [ok], failed + [fails])
  {
    assert (ops + [op])[..|ops|] == ops;
    assert (oks + [ok])[..|oks|] == oks;
    assert (failed + [fails])[..|failed|] == failed;
  }

  /** One more operation of a session that began with `k`. */
  method GoOn(vault: SecretVault, op: Op, ghost k: Kept,
              ghost ops: seq<Op>, ghost oks: seq<bool>, ghost failed: seq<bool>)
    returns (next: SecretVault, ok: bool, ghost fails: bool)
    requires vault.Valid()
    requires |ops| == |oks| == |failed| && Outcomes(vault.codec, k, ops, oks, failed)
    requires KeptIn(vault.host, vault.codec) == AfterAll(vault.codec, k, ops, oks)
    modifies vault, vault.host
    ensures next == vault || fresh(next)
    ensures next.host == vault.host && next.cipher == vault.cipher && next.codec == vault.codec && next.Valid()
    ensures vault.host.failures >= old(vault.host.failures)
    ensures fails <==> vault.host.failures != old(vault.host.failures)
    ensures Outcomes(vault.codec, k, ops + [op], oks + [ok], failed + [fails])
    ensures KeptIn(vault.host, vault.codec) == AfterAll(vault.codec, k, ops + [op], oks + [ok])
  {
    ghost var failures := vault.host.failures;
    next, ok := Perform(vault, op);
    fails := vault.host.failures != failures;
    AfterOneMore(vault.codec, k, ops, oks, op, ok);
    OutcomesGoOn(vault.codec, k, ops, oks, failed, op, ok, fails);
  }

  /** Any session of deposits, removals and restarts over one store, with any host call failing:
      which operations succeed, and what is kept then. */
  method Session(host: HostStore, cipher: Cipher, codec: Codec, ops: seq<Op>)
    returns (oks: seq<bool>, ghost failed: seq<bool>)
    requires cipher.Sound() && codec.Sound() && SecretsKept(host, cipher, codec)
    modifies host
    ensures SecretsKept(host, cipher, codec) && |oks| == |failed| == |ops|
    ensures Outcomes(codec, old(KeptIn(host, codec)), ops, oks, failed)
    ensures host.failures == old(host.failures) <==> true !in failed
    ensures KeptIn(host, codec) == AfterAll(codec, old(KeptIn(host, codec)), ops, oks)
  {
    oks, failed := [], [];
    ghost var k := KeptIn(host, codec);
    var vault := new SecretVault(host, cipher, codec);
    for i := 0 to |ops|
      invariant |oks| == |failed| == i
      invariant fresh(vault) && vault.host == host && vault.cipher == cipher && vault.codec == codec && vault.Valid()
      invariant host.failures >= old(host.failures)
      invariant host.failures == old(host.failures) <==> true !in failed
      invariant Outcomes(codec, k, ops[..i], oks, failed)
      invariant KeptIn(host, codec) == AfterAll(codec, k, ops[..i], oks)
    {
      var ok; ghost var fails;
      vault, ok, fails := GoOn(vault, ops[i], k, ops[..i], oks, failed);
      assert ops[..i + 1] == ops[..i] + [ops[i]];
      oks, failed := oks + [ok], failed + [fails];
    }
    assert ops[..|ops|] == ops;
  }

  // ---------- a plain map ----------

  /** What one reported outcome means for a plain map. */
  function Applied(m: map<string, Bytes>, op: Op, ok: bool): map<string, Bytes> {
    if !ok then m
    else
      match op
      case Put(name, value) => m[name := value]
      case Delete(name) => m - {name}
      case Restart => m
  }

  /** What the reported outcomes of a session mean for a plain map. */
  function Replay(m: map<string, Bytes>, ops: seq<Op>, oks: seq<bool>): map<string, Bytes>
    requires |ops| == |oks|
  {
    if ops == [] then m
    else Applied(Replay(m, ops[..|ops| - 1], oks[..|oks| - 1]), ops[|ops| - 1], oks[|oks| - 1])
  }

  /** Every list of these names fits the index. */
  ghost predicate AllFit(codec: Codec, allowed: set<string>) {
    forall names :: NoDuplicates(names) && (forall n :: n in names ==> n in allowed) ==> codec.Fits(names)
  }

  ghost predicate Within(names: seq<string>, allowed: set<string>) {
    NoDuplicates(names) && forall n :: n in names ==> n in allowed
  }

  predicate Permitted(op: Op, allowed: set<string>) {
    op.Put? ==> op.name in allowed && Small(op.value)
  }

  lemma OpOnPlainMap(codec: Codec, k: Kept, op: Op, ok: bool, allowed: set<string>)
    requires AllFit(codec, allowed) && Within(k.names, allowed) && Permitted(op, allowed)
    ensures After(codec, k, op, ok).secrets == Applied(k.secrets, op, ok)
    ensures Within(After(codec, k, op, ok).names, allowed)
  {
    match op
    case Put(name, _) =>
      assert name !in k.names ==> Within(k.names + [name], allowed);
    case Delete(name) => DroppedExactly(k.names, name);
    case Restart =>
  }

  /** As long as values and lists of these names fit, any session is that session on a plain map. */
  lemma {:induction false} SessionOnPlainMap(codec: Codec, k: Kept, ops: seq<Op>, oks: seq<bool>, allowed: set<string>)
    requires |ops| == |oks| && AllFit(codec, allowed) && Within(k.names, allowed)
    requires forall op :: op in ops ==> Permitted(op, allowed)
    ensures AfterAll(codec, k, ops, oks).secrets == Replay(k.secrets, ops, oks)
    ensures Within(AfterAll(codec, k, ops, oks).names, allowed)
  {
    if ops != [] {
      var before, last := |ops| - 1, ops[|ops| - 1];
      assert forall op :: op in ops[..before] ==> op in ops;
      assert last in ops;
      SessionOnPlainMap(codec, k, ops[..before], oks[..before], allowed);
      OpOnPlainMap(codec, AfterAll(codec, k, ops[..before], oks[..before]), last, oks[before], allowed);
    }
  }
}
