/** The host's key/value store, the ciphers and codecs its entries pass through, and the key
    names the two crates use in it. */
module Host {
  import opened Wrappers

  type byte = x: int | 0 <= x < 256
  type Bytes = seq<byte>

  const READ_LIMIT := 4096
  const KEY_LENGTH := 32
  const NONCE_LENGTH := 12
  const TAG_LENGTH := 16
  const OVERHEAD := NONCE_LENGTH + TAG_LENGTH

  // ---------- authenticated encryption ----------

  /** `seal(key, nonce, plaintext)` is ciphertext and tag; `open(key, nonce, sealed)` undoes it. */
  datatype Cipher = Cipher(
    seal: (Bytes, Bytes, Bytes) -> Bytes,
    open: (Bytes, Bytes, Bytes) -> Option<Bytes>)
  {
    ghost predicate Sound() {
      forall k, n, p :: |k| == KEY_LENGTH && |n| == NONCE_LENGTH ==>
                          |seal(k, n, p)| == |p| + TAG_LENGTH && open(k, n, seal(k, n, p)) == Some(p)
    }

    function Encrypt(key: Bytes, nonce: Bytes, plaintext: Bytes): Bytes {
      nonce + seal(key, nonce, plaintext)
    }

    function Decrypt(key: Bytes, blob: Bytes): Option<Bytes> {
      if |blob| < OVERHEAD then None else open(key, blob[..NONCE_LENGTH], blob[NONCE_LENGTH..])
    }

    lemma DecryptInvertsEncrypt(key: Bytes, nonce: Bytes, plaintext: Bytes)
      requires Sound() && |key| == 32 && |nonce| == 12
      ensures Decrypt(key, Encrypt(key, nonce, plaintext)) == Some(plaintext)
      ensures |Encrypt(key, nonce, plaintext)| == |plaintext| + 28 && Encrypt(key, nonce, plaintext)[..12] == nonce
    {
      var blob := Encrypt(key, nonce, plaintext);
      assert blob[..NONCE_LENGTH] == nonce && blob[NONCE_LENGTH..] == seal(key, nonce, plaintext);
    }
  }

  /** `blob` is an encryption of `value` under `key`. */
  ghost predicate Seals(c: Cipher, key: Bytes, blob: Bytes, value: Bytes) {
    c.Decrypt(key, blob) == Some(value) && |blob| == |value| + OVERHEAD
  }

  // ---------- the index codec ----------

  function Dropped(names: seq<string>, n: string): seq<string> {
    if names == [] then []
    else if names[0] == n then Dropped(names[1..], n)
    else [names[0]] + Dropped(names[1..], n)
  }

  /** A list of names as bytes: decoding inverts encoding, no other form of a list is shorter than
      its encoding, dropping a name does not make it longer, and the empty list can be read back. */
  datatype Codec = Codec(encode: seq<string> -> Bytes, decode: Bytes -> Option<seq<string>>)
  {
    ghost predicate Sound() {
      && (forall names :: decode(encode(names)) == Some(names))
      && (forall data :: decode(data).Some? ==> |encode(decode(data).value)| <= |data|)
      && (forall names, n :: |encode(Dropped(names, n))| <= |encode(names)|)
      && |encode([])| <= READ_LIMIT
    }

    predicate Fits(names: seq<string>) {
      |encode(names)| <= READ_LIMIT
    }
  }

  // ---------- key names ----------

  const MASTER := "arysen_master"
  const SECRETS_MASTER := "arysen_secrets_master"
  const SECRETS_INDEX := "arysen_secrets_index"

  function WorkerEntry(id: string): string { "arysen_worker:" + id }
  function SessionEntry(id: string): string { "arysen_session:" + id }
  function SecretEntry(name: string): string { "arysen_secrets:" + name }

  predicate IsKeyEntry(k: string) {
    "arysen_worker:" <= k || "arysen_session:" <= k
  }

  predicate IsVaultEntry(k: string) {
    k == SECRETS_MASTER || k == SECRETS_INDEX || "arysen_secrets:" <= k
  }

  predicate IsOtherEntry(k: string) {
    !IsVaultEntry(k)
  }

  /** Whatever follows the prefixes, no two kinds of entry share a key. */
  lemma EntriesAreDistinct(k: string)
    ensures !(IsKeyEntry(k) && IsVaultEntry(k)) && !IsKeyEntry(MASTER) && !IsVaultEntry(MASTER)
    ensures !("arysen_worker:" <= k && "arysen_session:" <= k)
    ensures "arysen_secrets:" <= k ==> k != "arysen_secrets_master" && k != "arysen_secrets_index"
    ensures MASTER == "arysen_master" && SECRETS_MASTER == "arysen_secrets_master" && SECRETS_INDEX == "arysen_secrets_index"
  {
    var secrets, worker, session := "arysen_secrets:", "arysen_worker:", "arysen_session:";
    assert secrets[8] == 'e' && worker[7] == 'w' && session[9] == 's' && secrets[9] == 'c';
    assert secrets[7] == 's' && session[7] == 's' && MASTER[7] == 'm';
    assert secrets[14] == ':' && SECRETS_MASTER[14] == '_' && SECRETS_INDEX[14] == '_';
    assert SECRETS_MASTER[7] == 's' && SECRETS_MASTER[9] == 'c' && SECRETS_INDEX[7] == 's' && SECRETS_INDEX[9] == 'c';
  }

  lemma EntriesAreInjective(a: string, b: string)
    ensures SecretEntry(a) == SecretEntry(b) ==> a == b
    ensures WorkerEntry(a) != SessionEntry(b)
    ensures IsKeyEntry(WorkerEntry(a)) && IsKeyEntry(SessionEntry(a)) && IsVaultEntry(SecretEntry(a))
    ensures WorkerEntry(a) == "arysen_worker:" + a && SessionEntry(a) == "arysen_session:" + a
    ensures SecretEntry(a) == "arysen_secrets:" + a
  {
    EntriesAreDistinct(WorkerEntry(a));
    assert SecretEntry(a)[|"arysen_secrets:"|..] == a;
    assert SecretEntry(b)[|"arysen_secrets:"|..] == b;
  }

  // ---------- the store ----------

  type Store = map<string, Bytes>

  /** A read fills a buffer of 4096 bytes; a larger entry reads as absent. */
  function Readable(store: Store, key: string): Option<Bytes> {
    if key in store && |store[key]| <= READ_LIMIT then Some(store[key]) else None
  }

  /** A master key can be read back or does not exist yet. */
  predicate Usable(store: Store, master: string) {
    Readable(store, master).Some? ==> |Readable(store, master).value| == KEY_LENGTH
  }

  predicate SameAt(a: Store, b: Store, key: string) {
    (key in a <==> key in b) && (key in a ==> a[key] == b[key])
  }

  function Count(keys: seq<string>, k: string): nat {
    if keys == [] then 0 else Count(keys[..|keys| - 1], k) + if keys[|keys| - 1] == k then 1 else 0
  }

  /** The entries that `among` names and the number of times they were written are the same. */
  ghost predicate SameEntries(s0: Store, w0: seq<string>, s1: Store, w1: seq<string>, among: string -> bool) {
    forall k :: among(k) ==> SameAt(s0, s1, k) && Count(w0, k) == Count(w1, k)
  }

  /** The store outlives every module instance. A write may fail and then changes nothing, and so may
      the random source. Ghost fields remember every key written, how many host calls failed, and
      the latest key and secret stored under each entry. */
  class HostStore {
    var store: Store
    ghost var failures: nat
    ghost var writes: seq<string>
    ghost var persisted: map<string, Bytes>
    ghost var deposited: map<string, Bytes>

    constructor ()
      ensures store == map[] && failures == 0 && writes == [] && persisted == map[] && deposited == map[]
    {
      failures := 0;
      store, writes, persisted, deposited := map[], [], map[], map[];
    }

    method Read(key: string) returns (r: Option<Bytes>)
      ensures r == Readable(store, key)
      ensures r == if key in store && |store[key]| <= 4096 then Some(store[key]) else None
    {
      r := if key in store && |store[key]| <= READ_LIMIT then Some(store[key]) else None;
    }

    method Write(key: string, data: Bytes) returns (ok: bool)
      modifies this`store, this`writes, this`failures
      ensures failures == old(failures) + if ok then 0 else 1
      ensures ok ==> store == old(store)[key := data] && writes == old(writes) + [key]
      ensures !ok ==> store == old(store) && writes == old(writes)
      ensures forall k :: Count(writes, k) == Count(old(writes), k) + if ok && k == key then 1 else 0
    {
      ok := *;
      if ok {
        store := store[key := data];
        writes := writes + [key];
        assert writes[..|old(writes)|] == old(writes);
      } else {
        failures := failures + 1;
      }
    }

    /** Bytes from the host's random source. */
    method RandomBytes(n: nat) returns (r: Option<Bytes>)
      modifies this`failures
      ensures failures == old(failures) + if r.Some? then 0 else 1
      ensures r.Some? ==> |r.value| == n
    {
      var fails := *;
      if fails {
        failures := failures + 1;
        return None;
      }
      assert |seq(n, _ => 0 as byte)| == n;
      var bytes: Bytes :| |bytes| == n;
      r := Some(bytes);
    }
  }
}
