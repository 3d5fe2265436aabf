/** The secret store as it runs: an in-memory map, a lazily built cipher that is
    kept until the key changes, and a file rewritten after each change. */
module SecretsManager {
  import opened Common
  import opened Secrets

  class Manager {
    const aead: Aead
    var encryptionKey: Bytes
    var secrets: map<string, Entry>
    var plaintextCache: map<string, Bytes>
    var dirty: bool
    var gcmBuilt: bool
    var cachedGcm: Option<Bytes>   // the key the cached cipher was built from
    var file: File<seq<Entry>>     // the store on disk

    /** The cached cipher is always the one of the current key. */
    ghost predicate CipherReady()
      reads this`encryptionKey, this`gcmBuilt, this`cachedGcm
    {
      && |encryptionKey| == KEY_LENGTH
      && (gcmBuilt ==> cachedGcm == Some(encryptionKey))
    }

    ghost predicate Valid()
      reads this
    {
      CipherReady() && WellNamed(secrets)
    }

    ghost function Model(): Store
      reads this
    {
      Store(encryptionKey, secrets)
    }

    ghost predicate Persisted()
      reads this
    {
      file.Holding? && LoadAll(file.value) == secrets
    }

    /** The file after a save that went as `disk` says: it is rewritten in place, so
        a write that fails half way destroys what it held. */
    ghost predicate SavedAs(before: File<seq<Entry>>, disk: DiskOutcome)
      reads this
    {
      match disk
      case NotOpened => file == before
      case Interrupted => file == Torn
      case _ => Persisted()
    }

    /** Opening a store loads what the file holds. */
    constructor (aead: Aead, key: Bytes, file: File<seq<Entry>>)
      requires |key| == KEY_LENGTH && !file.Torn?
      ensures Valid() && this.aead == aead && this.file == file
      ensures Model() == Store(key, Reopened(file).value)
    {
      this.aead := aead;
      encryptionKey := key;
      this.file := file;
      dirty, gcmBuilt, cachedGcm := false, false, None;
      secrets, plaintextCache := map[], map[];
      new;
      if file.Holding? {
        var data := file.value;
        for i := 0 to |data|
          invariant secrets == LoadAll(data[..i])
          invariant encryptionKey == key && this.file == file && !gcmBuilt
        {
          assert data[..i + 1][..i] == data[..i];
          secrets := secrets[data[i].name := data[i]];
        }
        assert data[..|data|] == data;
        LoadAllEntries(data);
      }
    }

    method GetGcm() returns (gcm: Option<Bytes>)
      requires CipherReady()
      modifies this`gcmBuilt, this`cachedGcm
      ensures CipherReady() && gcm == Some(encryptionKey)
    {
      if !gcmBuilt {
        gcmBuilt := true;
        cachedGcm := if |encryptionKey| in {16, 24, 32} then Some(encryptionKey) else None;
      }
      gcm := cachedGcm;
    }

    /** Fails only when no nonce can be generated. */
    method EncryptValue(plaintext: Bytes, nonce: Option<Nonce>) returns (r: Option<Bytes>)
      requires CipherReady()
      modifies this`gcmBuilt, this`cachedGcm
      ensures CipherReady()
      ensures r == if nonce.Some? then Some(Encrypt(aead, encryptionKey, nonce.value, plaintext)) else None
    {
      var gcm := GetGcm();
      if gcm.None? || nonce.None? {
        return None;
      }
      return Some(nonce.value + aead.seal(gcm.value, nonce.value, plaintext));
    }

    method DecryptValue(ciphertext: Bytes) returns (r: Option<Bytes>)
      requires CipherReady()
      modifies this`gcmBuilt, this`cachedGcm
      ensures CipherReady() && r == Decrypt(aead, encryptionKey, ciphertext)
    {
      var gcm := GetGcm();
      if gcm.None? || |ciphertext| < NONCE_SIZE {
        return None;
      }
      r := aead.open(gcm.value, ciphertext[..NONCE_SIZE], ciphertext[NONCE_SIZE..]);
    }

    method Set(name: string, value: Bytes, nonce: Option<Nonce>, now: int, disk: DiskOutcome) returns (ok: bool)
      requires Valid()
      modifies this
      ensures Valid()
      ensures Model() == Exec(aead, old(Model()), Secrets.Set(name, value, nonce, now))
      ensures ok <==> name != "" && nonce.Some? && disk.Completed?
      ensures if name == "" || nonce.None? then file == old(file) else SavedAs(old(file), disk)
    {
      if name == "" {
        return false;
      }
      var ct := EncryptValue(value, nonce);
      if ct.None? {
        return false;
      }
      var entry := Entry(name, ct.value, now, now, 1);
      if name in secrets {
        entry := entry.(createdAt := secrets[name].createdAt, version := secrets[name].version + 1);
      }
      secrets := secrets[name := entry];
      dirty := true;
      ok := Save(disk);
    }

    method GetValue(name: string) returns (r: Option<Bytes>)
      requires Valid()
      modifies this`gcmBuilt, this`cachedGcm
      ensures Valid()
      ensures r == Get(aead, Model(), name)
    {
      if name !in secrets {
        return None;
      }
      r := DecryptValue(secrets[name].ciphertext);
    }

    method Delete(name: string, disk: DiskOutcome) returns (ok: bool)
      requires Valid()
      modifies this
      ensures Valid()
      ensures Model() == Exec(aead, old(Model()), Secrets.Delete(name))
      ensures ok <==> name in old(secrets) && disk.Completed?
      ensures if name !in old(secrets) then file == old(file) else SavedAs(old(file), disk)
    {
      if name !in secrets {
        return false;
      }
      secrets := secrets - {name};
      dirty := true;
      ok := Save(disk);
    }

    /** The file is touched only once every secret is under the new key. It then
        opens as the store of before or of after the rotation exactly if the write did
        not fail after truncating it. */
    method RotateKey(newKey: Bytes, nonces: map<string, Nonce>, now: int, disk: DiskOutcome)
      returns (ok: bool, ghost done: set<string>)
      requires Valid()
      modifies this
      ensures Valid()
      ensures Enabled(old(Model()), Rotate(newKey, nonces, done, now))
      ensures Model() == Exec(aead, old(Model()), Rotate(newKey, nonces, done, now))
      ensures ok <==> |newKey| == KEY_LENGTH && AllReadable(aead, old(Model())) && old(secrets).Keys <= nonces.Keys && disk.Completed?
      ensures ok ==> plaintextCache == map[]
      ensures var resealed := |newKey| == KEY_LENGTH && AllReadable(aead, old(Model())) && old(secrets).Keys <= nonces.Keys;
              && (if resealed then SavedAs(old(file), disk) else file == old(file))
              && (resealed && !old(file).Torn? ==>
                    (Reopened(file) in {Reopened(old(file)), Some(secrets)} <==> !disk.Interrupted?))
    {
      ok, done := Reseal(newKey, nonces, now);
      if !ok {
        return;
      }
      dirty := true;
      ok := Save(disk);
    }

    /** Two passes over the map: decrypt everything under the old key, then
        encrypt everything under the new one. */
    method Reseal(newKey: Bytes, nonces: map<string, Nonce>, now: int) returns (ok: bool, ghost done: set<string>)
      requires Valid()
      modifies this`encryptionKey, this`secrets, this`plaintextCache, this`gcmBuilt, this`cachedGcm
      ensures Valid()
      ensures Enabled(old(Model()), Rotate(newKey, nonces, done, now))
      ensures Model() == Exec(aead, old(Model()), Rotate(newKey, nonces, done, now))
      ensures ok <==> |newKey| == KEY_LENGTH && AllReadable(aead, old(Model())) && old(secrets).Keys <= nonces.Keys
      ensures ok ==> plaintextCache == map[]
    {
      hide Enabled, Exec, Rotated, HalfDone, Plaintexts, AllReadable, WellNamed;
      ghost var before := Model();
      done := secrets.Keys * nonces.Keys;
      RotationRefused(aead, before, newKey, nonces, now);
      if |newKey| != KEY_LENGTH {
        return false, done;
      }
      var readable := DecryptAll();
      if !readable {
        return false, done;
      }
      encryptionKey := newKey;
      gcmBuilt, cachedGcm := false, None;
      ok, done := ReencryptAll(before, nonces, now);
      RotationDone(aead, before, secrets, plaintextCache, newKey, nonces, done, now);
    }

    /** First pass: stops at the first secret that does not decrypt. */
    method DecryptAll() returns (ok: bool)
      requires Valid()
      modifies this`plaintextCache, this`gcmBuilt, this`cachedGcm
      ensures Valid()
      ensures ok <==> AllReadable(aead, Model())
      ensures ok ==> Plaintexts(aead, Model(), plaintextCache, {})
    {
      plaintextCache := map[];
      var todo := secrets.Keys;
      while todo != {}
        invariant Valid() && todo <= secrets.Keys
        invariant Plaintexts(aead, Model(), plaintextCache, todo)
        decreases todo
      {
        var name :| name in todo;
        var pt := DecryptValue(secrets[name].ciphertext);
        assert pt == Get(aead, Model(), name);
        if pt.None? {
          return false;
        }
        plaintextCache := plaintextCache[name := pt.value];
        todo := todo - {name};
      }
      return true;
    }

    method ReencryptOne(name: string, nonce: Option<Nonce>, now: int) returns (ok: bool)
      requires CipherReady() && name in secrets && name in plaintextCache
      modifies this`secrets, this`plaintextCache, this`gcmBuilt, this`cachedGcm
      ensures CipherReady() && ok == nonce.Some?
      ensures !ok ==> secrets == old(secrets) && plaintextCache == old(plaintextCache)
      ensures ok ==> plaintextCache == old(plaintextCache) - {name}
      ensures ok ==> secrets == old(secrets)[name := ReencryptedEntry(aead, old(secrets)[name], old(plaintextCache)[name],
                                                                      encryptionKey, nonce.value, now)]
    {
      var ct := EncryptValue(plaintextCache[name], nonce);
      if ct.None? {
        return false;
      }
      var entry := secrets[name];
      secrets := secrets[name := entry.(ciphertext := ct.value, updatedAt := now, version := entry.version + 1)];
      plaintextCache := plaintextCache - {name};
      return true;
    }

    /** Second pass: stops at the first secret for which there is no nonce. */
    method ReencryptAll(ghost before: Store, nonces: map<string, Nonce>, now: int) returns (ok: bool, ghost done: set<string>)
      requires Valid() && AllReadable(aead, before) && secrets == before.secrets
      requires Plaintexts(aead, before, plaintextCache, {})
      modifies this`secrets, this`plaintextCache, this`gcmBuilt, this`cachedGcm
      ensures CipherReady()
      ensures HalfDone(aead, before, secrets, plaintextCache, encryptionKey, nonces, done, now)
      ensures if ok then done == before.secrets.Keys else !(before.secrets.Keys <= nonces.Keys)
    {
      hide HalfDone, Plaintexts, AllReadable, ReencryptedEntry, Rotated;
      var todo := secrets.Keys;
      done := {};
      HalfDoneStart(aead, before, plaintextCache, encryptionKey, nonces, now);
      while todo != {}
        invariant CipherReady() && done <= before.secrets.Keys && todo == before.secrets.Keys - done
        invariant HalfDone(aead, before, secrets, plaintextCache, encryptionKey, nonces, done, now)
        decreases todo
      {
        var name :| name in todo;
        HalfDoneStep(aead, before, secrets, plaintextCache, encryptionKey, nonces, done, name, now);
        var moved := ReencryptOne(name, if name in nonces then Some(nonces[name]) else None, now);
        if !moved {
          return false, done;
        }
        todo, done := todo - {name}, done + {name};
      }
      return true, done;
    }

    /** Writes the entries in some order, over the file itself; the dirty flag is
        cleared only on success. */
    method Save(disk: DiskOutcome) returns (ok: bool)
      requires Valid()
      modifies this`file, this`dirty
      ensures ok == disk.Completed? && dirty == (!ok && old(dirty))
      ensures SavedAs(old(file), disk)
    {
      var data: seq<Entry> := [];
      var todo := secrets.Keys;
      while todo != {}
        invariant todo <= secrets.Keys
        invariant forall e :: e in data ==> e.name in secrets && e == secrets[e.name]
        invariant forall n :: n in secrets && n !in todo ==> exists e :: e in data && e.name == n
        decreases todo
      {
        var name :| name in todo;
        ghost var was := data;
        data := data + [secrets[name]];
        assert data[|was|].name == name;
        forall n | n in secrets && n !in todo ensures exists e :: e in data && e.name == n {
          var e :| e in was && e.name == n;
          assert e in data;
        }
        todo := todo - {name};
      }
      LoadRestoresStore(data, secrets);
      file := AfterWrite(file, data, disk);
      if !disk.Completed? {
        return false;
      }
      dirty := false;
      return true;
    }
  }

  /** A file that does not parse is an error; a missing one is a fresh start. */
  method OpenStore(aead: Aead, key: Bytes, file: File<seq<Entry>>) returns (m: Manager?)
    requires |key| == KEY_LENGTH
    ensures m == null <==> Reopened(file).None?
    ensures m != null ==> fresh(m) && m.Valid() && m.file == file && m.Model() == Store(key, Reopened(file).value)
  {
    if file.Torn? {
      return null;
    }
    m := new Manager(aead, key, file);
  }

  /** The cache holds the plaintext of every secret of `s` not in `except`, and nothing else. */
  ghost predicate Plaintexts(a: Aead, s: Store, cache: map<string, Bytes>, except: set<string>) {
    && cache.Keys == s.secrets.Keys - except
    && forall n :: n in cache ==> Get(a, s, n) == Some(cache[n])
  }

  /** Half way through the second pass. */
  ghost predicate HalfDone(a: Aead, before: Store, secrets: map<string, Entry>, cache: map<string, Bytes>, newKey: Bytes,
                           nonces: map<string, Nonce>, done: set<string>, now: int)
  {
    && AllReadable(a, before) && WellNamed(before.secrets)
    && done <= before.secrets.Keys && done <= nonces.Keys
    && secrets == Rotated(a, before, newKey, nonces, done, now)
    && Plaintexts(a, before, cache, done)
  }

  /** Where the second pass ended is a rotation of the store it began with. */
  lemma RotationDone(a: Aead, before: Store, secrets: map<string, Entry>, cache: map<string, Bytes>, newKey: Bytes,
                     nonces: map<string, Nonce>, done: set<string>, now: int)
    requires |newKey| == KEY_LENGTH && HalfDone(a, before, secrets, cache, newKey, nonces, done, now)
    requires before.secrets.Keys <= nonces.Keys ==> done == before.secrets.Keys
    ensures Enabled(before, Rotate(newKey, nonces, done, now))
    ensures Exec(a, before, Rotate(newKey, nonces, done, now)) == Store(newKey, secrets)
    ensures WellNamed(secrets) && done <= nonces.Keys
    ensures done == before.secrets.Keys ==> cache == map[]
  {
    assert done == before.secrets.Keys ==> cache.Keys == {};
  }

  lemma RotationRefused(a: Aead, s: Store, newKey: Bytes, nonces: map<string, Nonce>, now: int)
    ensures var op := Rotate(newKey, nonces, s.secrets.Keys * nonces.Keys, now);
            && Enabled(s, op)
            && (|newKey| != KEY_LENGTH || !AllReadable(a, s) ==> Exec(a, s, op) == s)
  {
    assert s.secrets.Keys <= nonces.Keys ==> s.secrets.Keys * nonces.Keys == s.secrets.Keys;
  }

  lemma HalfDoneStart(a: Aead, before: Store, cache: map<string, Bytes>, newKey: Bytes, nonces: map<string, Nonce>, now: int)
    requires AllReadable(a, before) && WellNamed(before.secrets) && Plaintexts(a, before, cache, {})
    ensures HalfDone(a, before, before.secrets, cache, newKey, nonces, {}, now)
  {
  }

  lemma HalfDoneStep(a: Aead, before: Store, secrets: map<string, Entry>, cache: map<string, Bytes>, newKey: Bytes,
                     nonces: map<string, Nonce>, done: set<string>, name: string, now: int)
    requires HalfDone(a, before, secrets, cache, newKey, nonces, done, now)
    requires name in before.secrets && name !in done
    ensures name in secrets && name in cache
    ensures name in nonces ==>
      HalfDone(a, before,
               secrets[name := ReencryptedEntry(a, secrets[name], cache[name], newKey, nonces[name], now)],
               cache - {name}, newKey, nonces, done + {name}, now)
  {
    if name in nonces {
      RotatedStep(a, before, newKey, nonces, done, name, now);
    }
  }
}
