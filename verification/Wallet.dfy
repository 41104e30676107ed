/** The wallet's persistence of private keys: a cached master key and encrypted entries. */
module Wallet {
  import opened Wrappers
  import opened Host

  predicate MasterStored(store: Store) {
    MASTER in store && |store[MASTER]| == KEY_LENGTH
  }

  /** What every run keeps of the wallet's entries: the master key was written at most once and
      is then readable, and every persisted key is encrypted under it. */
  ghost predicate KeysKeptIn(store: Store, writes: seq<string>, persisted: map<string, Bytes>, c: Cipher) {
    && Count(writes, MASTER) <= 1
    && (Count(writes, MASTER) == 1 ==> MasterStored(store))
    && (forall id :: id in persisted ==>
          && IsKeyEntry(id) && id in store
          && MasterStored(store) && Seals(c, store[MASTER], store[id], persisted[id]))
  }

  ghost predicate KeysKept(h: HostStore, c: Cipher)
    reads h
  {
    KeysKeptIn(h.store, h.writes, h.persisted, c)
  }

  /** What happens to entries that are not the wallet's does not concern it. */
  lemma NoKeyEntryChanged(s0: Store, w0: seq<string>, s1: Store, w1: seq<string>, persisted: map<string, Bytes>,
                          c: Cipher)
    requires KeysKeptIn(s0, w0, persisted, c)
    requires SameEntries(s0, w0, s1, w1, IsOtherEntry)
    ensures KeysKeptIn(s1, w1, persisted, c) && Readable(s1, MASTER) == Readable(s0, MASTER)
  {
    EntriesAreDistinct(MASTER);
    forall id | id in persisted
      ensures SameAt(s0, s1, id)
    {
      EntriesAreDistinct(id);
    }
  }

  class KeyWallet {
    const host: HostStore
    const cipher: Cipher
    var masterKey: Option<Bytes>

    /** The cached master key is the stored one. */
    ghost predicate Valid()
      reads this, host
    {
      && cipher.Sound()
      && (masterKey.Some? ==> |masterKey.value| == KEY_LENGTH && Readable(host.store, MASTER) == masterKey)
    }

    constructor (host: HostStore, cipher: Cipher)
      requires cipher.Sound()
      ensures this.host == host && this.cipher == cipher && masterKey == None && Valid()
    {
      this.host, this.cipher, masterKey := host, cipher, None;
    }

    /** Succeeds exactly when no readable entry has the wrong length and no host call fails, and a
        master key is cached then. A stored key of the right length is taken; only an unreadable
        entry is written. */
    method InitMasterKey() returns (ok: bool)
      requires Valid()
      modifies this`masterKey, host`store, host`writes, host`failures
      ensures Valid() && (ok <==> masterKey.Some?)
      ensures ok ==> |masterKey.value| == 32 && "arysen_master" in host.store && host.store["arysen_master"] == masterKey.value
      ensures ok <==> Usable(old(host.store), MASTER) && host.failures == old(host.failures)
      ensures ok <==> (MASTER in old(host.store) && |old(host.store)[MASTER]| <= 4096 ==> |old(host.store)[MASTER]| == 32) &&
                      host.failures == old(host.failures)
      ensures host.failures >= old(host.failures)
      ensures old(masterKey).Some? ==> masterKey == old(masterKey)
      ensures Readable(old(host.store), MASTER).Some? ==>
                (ok <==> MasterStored(old(host.store))) && host.store == old(host.store) &&
                host.failures == old(host.failures)
      ensures old(masterKey).Some? ==> host.store == old(host.store)
      ensures forall k :: k != MASTER ==>
                            SameAt(old(host.store), host.store, k) &&
                            Count(host.writes, k) == Count(old(host.writes), k)
      ensures old(KeysKept(host, cipher)) ==> KeysKept(host, cipher)
    {
      if masterKey.Some? {
        return true;
      }
      var stored := host.Read(MASTER);
      if stored.Some? {
        if |stored.value| != KEY_LENGTH {
          return false;
        }
        masterKey := stored;
        return true;
      }
      ok := NewKey();
    }

    /** A first master key; while none could be read, no key was persisted. */
    method NewKey() returns (ok: bool)
      requires Valid() && masterKey.None? && Readable(host.store, MASTER) == None
      modifies this`masterKey, host`store, host`writes, host`failures
      ensures Valid() && (ok <==> masterKey.Some?)
      ensures host.failures == old(host.failures) + if ok then 0 else 1
      ensures forall k :: k != MASTER ==>
                            SameAt(old(host.store), host.store, k) &&
                            Count(host.writes, k) == Count(old(host.writes), k)
      ensures old(KeysKept(host, cipher)) ==> KeysKept(host, cipher)
    {
      ok := false;
      var key := host.RandomBytes(KEY_LENGTH);
      if key.Some? {
        ok := host.Write(MASTER, key.value);
        if ok {
          masterKey := key;
        }
      }
    }

    /** Succeeds exactly when a master key is cached and no host call fails; otherwise nothing
        changes. */
    method PersistKey(id: string, privateKey: Bytes) returns (ok: bool)
      requires Valid()
      modifies host`store, host`writes, host`persisted, host`failures
      ensures ok <==> masterKey.Some? && host.failures == old(host.failures)
      ensures host.failures >= old(host.failures)
      ensures !ok ==> host.store == old(host.store) && host.writes == old(host.writes) &&
                      host.persisted == old(host.persisted)
      ensures ok ==> masterKey.Some? && id in host.store && Seals(cipher, masterKey.value, host.store[id], privateKey)
      ensures ok ==> host.persisted == old(host.persisted)[id := privateKey]
      ensures forall k :: k != id ==>
                            SameAt(old(host.store), host.store, k) &&
                            Count(host.writes, k) == Count(old(host.writes), k)
      ensures old(KeysKept(host, cipher)) && IsKeyEntry(id) ==> Valid() && KeysKept(host, cipher)
    {
      EntriesAreDistinct(id);
      if masterKey.None? {
        return false;
      }
      var nonce := host.RandomBytes(NONCE_LENGTH);
      if nonce.None? {
        return false;
      }
      var encrypted := cipher.Encrypt(masterKey.value, nonce.value, privateKey);
      cipher.DecryptInvertsEncrypt(masterKey.value, nonce.value, privateKey);
      ok := host.Write(id, encrypted);
      if ok {
        host.persisted := host.persisted[id := privateKey];
      }
    }

    /** With a master key cached, loading gives back the key last persisted under the id, unless
        its entry is too large to be read. */
    method LoadKey(id: string) returns (r: Option<Bytes>)
      requires Valid()
      ensures masterKey.None? || Readable(host.store, id).None? ==> r == None
      ensures KeysKept(host, cipher) && masterKey.Some? && id in host.persisted ==>
                r == if |host.persisted[id]| <= 4068 then Some(host.persisted[id]) else None
    {
      var data := host.Read(id);
      if data.None? || masterKey.None? {
        return None;
      }
      r := cipher.Decrypt(masterKey.value, data.value);
    }
  }
}
