/**
 The encrypted secret store: what a run of operations does to it, and the
 manager that does it in place with a cached cipher and two-pass key rotation.

 The AEAD, the nonces, the clock and the outcome of disk writes are parameters;
 JSON is a faithful copy of the entries.
 */
module Secrets {
  import opened Common

  const KEY_LENGTH := 32
  const NONCE_SIZE := 12

  type Nonce = b: Bytes | |b| == 12 witness [0, 0, 0, 0, 0, 0, 0, 0, 0, 0, 0, 0]

  datatype Aead = Aead(seal: (Bytes, Bytes, Bytes) -> Bytes, open: (Bytes, Bytes, Bytes) -> Option<Bytes>) {
    /** Opening with the key and nonce of the sealing gives the plaintext back. */
    ghost predicate Lawful() {
      forall k, n, p :: open(k, n, seal(k, n, p)) == Some(p)
    }

    /** Nothing sealed under one key opens under another. */
    ghost predicate Authentic() {
      forall k, k', n, p :: k != k' ==> open(k', n, seal(k, n, p)) == None
    }
  }

  /** The plaintext cache that an entry carries during a rotation is never
      written out; the manager keeps it in a map of its own. */
  datatype Entry = Entry(name: string, ciphertext: Bytes, createdAt: int, updatedAt: int, version: nat)

  datatype Store = Store(key: Bytes, secrets: map<string, Entry>)

  /** The nonce travels in front of the sealed bytes. */
  function Encrypt(a: Aead, key: Bytes, nonce: Nonce, plaintext: Bytes): Bytes {
    nonce + a.seal(key, nonce, plaintext)
  }

  function Decrypt(a: Aead, key: Bytes, ciphertext: Bytes): Option<Bytes> {
    if |ciphertext| < NONCE_SIZE then None
    else a.open(key, ciphertext[..NONCE_SIZE], ciphertext[NONCE_SIZE..])
  }

  lemma DecryptEncrypt(a: Aead, key: Bytes, nonce: Nonce, plaintext: Bytes)
    requires a.Lawful()
    ensures Decrypt(a, key, Encrypt(a, key, nonce, plaintext)) == Some(plaintext)
  {
    var ct := Encrypt(a, key, nonce, plaintext);
    assert ct[..NONCE_SIZE] == nonce && ct[NONCE_SIZE..] == a.seal(key, nonce, plaintext);
  }

  lemma DecryptWrongKey(a: Aead, key: Bytes, other: Bytes, nonce: Nonce, plaintext: Bytes)
    requires a.Authentic() && key != other
    ensures Decrypt(a, other, Encrypt(a, key, nonce, plaintext)) == None
  {
    var ct := Encrypt(a, key, nonce, plaintext);
    assert ct[..NONCE_SIZE] == nonce && ct[NONCE_SIZE..] == a.seal(key, nonce, plaintext);
  }

  // ---- Operations on the store ----

  /** `nonce` is None when no randomness could be read. `reencrypted` is the set
      of secrets a rotation got through before it ran out of randomness, which
      depends on the order in which the map is visited. */
  datatype Op =
    | Set(name: string, value: Bytes, nonce: Option<Nonce>, now: int)
    | Delete(name: string)
    | Rotate(newKey: Bytes, nonces: map<string, Nonce>, reencrypted: set<string>, now: int)

  /** The value of a secret; None if there is none or it cannot be decrypted. */
  function Get(a: Aead, s: Store, name: string): Option<Bytes> {
    if name in s.secrets then Decrypt(a, s.key, s.secrets[name].ciphertext) else None
  }

  ghost predicate AllReadable(a: Aead, s: Store) {
    forall n :: n in s.secrets ==> Get(a, s, n).Some?
  }

  function StoredEntry(a: Aead, s: Store, name: string, value: Bytes, nonce: Nonce, now: int): Entry {
    var prior := if name in s.secrets then Some(s.secrets[name]) else None;
    Entry(name, Encrypt(a, s.key, nonce, value),
          if prior.Some? then prior.value.createdAt else now, now,
          if prior.Some? then prior.value.version + 1 else 1)
  }

  function ReencryptedEntry(a: Aead, e: Entry, plaintext: Bytes, newKey: Bytes, nonce: Nonce, now: int): Entry {
    e.(ciphertext := Encrypt(a, newKey, nonce, plaintext), updatedAt := now, version := e.version + 1)
  }

  /** The entries of `s` after those in `done` have moved to `newKey`. */
  ghost function Rotated(a: Aead, s: Store, newKey: Bytes, nonces: map<string, Nonce>, done: set<string>, now: int)
    : map<string, Entry>
    requires AllReadable(a, s) && done <= nonces.Keys
  {
    map n | n in s.secrets ::
      if n in done then ReencryptedEntry(a, s.secrets[n], Get(a, s, n).value, newKey, nonces[n], now)
      else s.secrets[n]
  }

  lemma RotatedStep(a: Aead, s: Store, newKey: Bytes, nonces: map<string, Nonce>, done: set<string>, name: string, now: int)
    requires AllReadable(a, s) && done <= nonces.Keys && name in s.secrets && name !in done && name in nonces
    ensures name in Rotated(a, s, newKey, nonces, done, now)
    ensures Rotated(a, s, newKey, nonces, done, now)[name] == s.secrets[name]
    ensures Rotated(a, s, newKey, nonces, done + {name}, now)
         == Rotated(a, s, newKey, nonces, done, now)[name :=
              ReencryptedEntry(a, s.secrets[name], Get(a, s, name).value, newKey, nonces[name], now)]
  {
  }

  /** A rotation gets through some of the secrets it has nonces for, and through
      all of them if it has one for each. */
  predicate Possible(names: set<string>, op: Op) {
    op.Rotate? ==>
      && op.reencrypted <= names * op.nonces.Keys
      && (names <= op.nonces.Keys ==> op.reencrypted == names)
  }

  ghost predicate Enabled(s: Store, op: Op) {
    Possible(s.secrets.Keys, op)
  }

  ghost function Exec(a: Aead, s: Store, op: Op): Store
    requires Enabled(s, op)
  {
    match op
    case Set(name, value, nonce, now) =>
      if name == "" || nonce.None? then s
      else s.(secrets := s.secrets[name := StoredEntry(a, s, name, value, nonce.value, now)])
    case Delete(name) => s.(secrets := s.secrets - {name})
    case Rotate(newKey, nonces, done, now) =>
      if |newKey| != KEY_LENGTH || !AllReadable(a, s) then s
      else Store(newKey, Rotated(a, s, newKey, nonces, done, now))
  }

  // ---- Rotation: exactly when it keeps every secret ----

  ghost predicate Sealed(a: Aead, s: Store) {
    forall n :: n in s.secrets ==> exists nonce: Nonce, p :: s.secrets[n].ciphertext == Encrypt(a, s.key, nonce, p)
  }

  /** A rotation keeps every value readable exactly if there was a nonce for every
      secret, or the new key is the old one, or it was refused. When randomness runs out half way
      under a new key, the secrets not yet reached are unreadable afterwards. */
  lemma RotationKeepsSecretsIff(a: Aead, s: Store, op: Op)
    requires a.Lawful() && a.Authentic() && Sealed(a, s)
    requires op.Rotate? && Enabled(s, op)
    ensures (forall n :: Get(a, Exec(a, s, op), n) == Get(a, s, n))
       <==> (|op.newKey| != KEY_LENGTH || s.secrets.Keys <= op.nonces.Keys || op.newKey == s.key)
  {
    forall n | n in s.secrets ensures Get(a, s, n).Some? { SealedIsReadable(a, s, n); }
    var t := Exec(a, s, op);
    if |op.newKey| == KEY_LENGTH {
      forall n ensures n in op.reencrypted ==> Get(a, t, n) == Get(a, s, n) {
        if n in op.reencrypted { DecryptEncrypt(a, op.newKey, op.nonces[n], Get(a, s, n).value); }
      }
      if !(s.secrets.Keys <= op.nonces.Keys) {
        var lost :| lost in s.secrets && lost !in op.nonces;
        var nonce: Nonce, p :| s.secrets[lost].ciphertext == Encrypt(a, s.key, nonce, p);
        if op.newKey != s.key { DecryptWrongKey(a, s.key, op.newKey, nonce, p); }
        assert Get(a, t, lost) == Decrypt(a, op.newKey, s.secrets[lost].ciphertext);
      }
    }
  }

  lemma SealedIsReadable(a: Aead, s: Store, n: string)
    requires a.Lawful() && Sealed(a, s) && n in s.secrets
    ensures Get(a, s, n).Some?
  {
    var nonce: Nonce, p :| s.secrets[n].ciphertext == Encrypt(a, s.key, nonce, p);
    DecryptEncrypt(a, s.key, nonce, p);
  }

  // ---- Whole runs ----

  /** Randomness never runs out in the middle of a rotation. */
  ghost predicate Undisturbed(a: Aead, s: Store, ops: seq<Op>) {
    ops != [] ==>
      var s' := ExecAll(a, s, ops[..|ops| - 1]);
      var op := ops[|ops| - 1];
      && Undisturbed(a, s, ops[..|ops| - 1])
      && Enabled(s', op)
      && (op.Rotate? ==> s'.secrets.Keys <= op.nonces.Keys)
  }

  ghost function ExecAll(a: Aead, s: Store, ops: seq<Op>): Store {
    if ops == [] then s
    else
      var s' := ExecAll(a, s, ops[..|ops| - 1]);
      if Enabled(s', ops[|ops| - 1]) then Exec(a, s', ops[|ops| - 1]) else s'
  }

  datatype Fact = Fact(value: Bytes, version: nat)

  /** What a run says about one name, without any store: the last value set
      since the last deletion, and one version for each set and each rotation since. */
  function History(ops: seq<Op>, name: string): Option<Fact> {
    if ops == [] then None
    else
      var before := History(ops[..|ops| - 1], name);
      match ops[|ops| - 1]
      case Set(n, v, nonce, _) =>
        if n != name || name == "" || nonce.None? then before
        else Some(Fact(v, if before.Some? then before.value.version + 1 else 1))
      case Delete(n) => if n == name then None else before
      case Rotate(k, _, _, _) =>
        if before.Some? && |k| == KEY_LENGTH then Some(before.value.(version := before.value.version + 1)) else before
  }

  function Observe(a: Aead, s: Store, name: string): Option<Fact> {
    var v := Get(a, s, name);
    if v.Some? then Some(Fact(v.value, s.secrets[name].version)) else None
  }

  /** The store is a faithful dictionary: after any run, across any number of
      rotations, each name holds exactly the last value set for it and has been
      counted up once per set and rotation. */
  lemma {:induction false} StoreAgreesWithHistory(a: Aead, key: Bytes, ops: seq<Op>, name: string)
    requires a.Lawful() && Undisturbed(a, Store(key, map[]), ops)
    ensures var s := ExecAll(a, Store(key, map[]), ops);
            && AllReadable(a, s)
            && Observe(a, s, name) == History(ops, name)
  {
    if ops != [] {
      var before, op := ops[..|ops| - 1], ops[|ops| - 1];
      var s := ExecAll(a, Store(key, map[]), before);
      var t := Exec(a, s, op);
      StoreAgreesWithHistory(a, key, before, name);
      match op
      case Set(n, v, nonce, _) =>
        if n != "" && nonce.Some? {
          DecryptEncrypt(a, s.key, nonce.value, v);
          forall m | m in t.secrets && m != n ensures Get(a, t, m) == Get(a, s, m) {}
        }
      case Delete(n) =>
        forall m | m in t.secrets ensures Get(a, t, m) == Get(a, s, m) {}
      case Rotate(k, nonces, done, _) =>
        if |k| == KEY_LENGTH {
          forall m | m in t.secrets ensures Get(a, t, m) == Get(a, s, m) {
            DecryptEncrypt(a, k, nonces[m], Get(a, s, m).value);
          }
        }
    }
  }

  // ---- The reference: a plain map ----

  /** A value, its version, when it was first set and last set or rotated, and
      whether a rotation that broke off has cut it off. */
  datatype Plain = Plain(value: Bytes, version: nat, born: int, touched: int, lost: bool)

  /** A store without encryption; the key only decides what a broken-off rotation loses. */
  datatype Reference = Reference(key: Bytes, facts: map<string, Plain>)

  predicate Intact(r: Reference) {
    forall n :: n in r.facts ==> !r.facts[n].lost
  }

  /** A broken-off rotation to another key loses what it did not reach, and while
      anything is lost every rotation is refused. */
  function RefStep(r: Reference, op: Op): Reference {
    match op
    case Set(name, value, nonce, now) =>
      if name == "" || nonce.None? then r
      else if name in r.facts then
        r.(facts := r.facts[name := r.facts[name].(value := value, version := r.facts[name].version + 1, touched := now, lost := false)])
      else r.(facts := r.facts[name := Plain(value, 1, now, now, false)])
    case Delete(name) => r.(facts := r.facts - {name})
    case Rotate(newKey, _, done, now) =>
      if |newKey| != KEY_LENGTH || !Intact(r) then r
      else Reference(newKey, map n | n in r.facts ::
             if n in done then r.facts[n].(version := r.facts[n].version + 1, touched := now)
             else r.facts[n].(lost := newKey != r.key))
  }

  function RefAll(r: Reference, ops: seq<Op>): Reference {
    if ops == [] then r
    else
      var before := RefAll(r, ops[..|ops| - 1]);
      if Possible(before.facts.Keys, ops[|ops| - 1]) then RefStep(before, ops[|ops| - 1]) else before
  }

  ghost predicate SealedUnder(a: Aead, key: Bytes, e: Entry, value: Bytes) {
    exists nonce: Nonce :: e.ciphertext == Encrypt(a, key, nonce, value)
  }

  /** An entry holds its value under the current key or, if lost, under another one. */
  ghost predicate Holds(a: Aead, key: Bytes, e: Entry, p: Plain) {
    && e.version == p.version && e.createdAt == p.born && e.updatedAt == p.touched
    && if p.lost then exists k :: k != key && SealedUnder(a, k, e, p.value) else SealedUnder(a, key, e, p.value)
  }

  ghost predicate Refines(a: Aead, s: Store, r: Reference) {
    && s.key == r.key && s.secrets.Keys == r.facts.Keys
    && forall n :: n in s.secrets ==> Holds(a, s.key, s.secrets[n], r.facts[n])
  }

  /** What Get returns for an entry that holds a value. */
  lemma HeldIsRead(a: Aead, s: Store, r: Reference, n: string)
    requires a.Lawful() && a.Authentic() && Refines(a, s, r) && n in s.secrets
    ensures Get(a, s, n) == if r.facts[n].lost then None else Some(r.facts[n].value)
  {
    var e, p := s.secrets[n], r.facts[n];
    assert Holds(a, s.key, e, p);
    if p.lost {
      var k :| k != s.key && SealedUnder(a, k, e, p.value);
      var nonce: Nonce :| e.ciphertext == Encrypt(a, k, nonce, p.value);
      DecryptWrongKey(a, k, s.key, nonce, p.value);
    } else {
      var nonce: Nonce :| e.ciphertext == Encrypt(a, s.key, nonce, p.value);
      DecryptEncrypt(a, s.key, nonce, p.value);
    }
  }

  lemma ReadableIsIntact(a: Aead, s: Store, r: Reference)
    requires a.Lawful() && a.Authentic() && Refines(a, s, r)
    ensures AllReadable(a, s) <==> Intact(r)
  {
    forall n | n in s.secrets ensures Get(a, s, n).Some? <==> !r.facts[n].lost { HeldIsRead(a, s, r, n); }
  }

  lemma RotationRefines(a: Aead, s: Store, r: Reference, op: Op)
    requires a.Lawful() && a.Authentic() && Refines(a, s, r) && op.Rotate? && Enabled(s, op)
    ensures Refines(a, Exec(a, s, op), RefStep(r, op))
  {
    hide Encrypt, Decrypt, Get;
    ReadableIsIntact(a, s, r);
    if |op.newKey| == KEY_LENGTH && Intact(r) {
      var t, q := Exec(a, s, op), RefStep(r, op);
      forall n | n in t.secrets ensures Holds(a, t.key, t.secrets[n], q.facts[n]) {
        HeldIsRead(a, s, r, n);
        assert Holds(a, s.key, s.secrets[n], r.facts[n]);
        if n in op.reencrypted {
          assert t.secrets[n].ciphertext == Encrypt(a, t.key, op.nonces[n], q.facts[n].value);
          assert SealedUnder(a, t.key, t.secrets[n], q.facts[n].value);
        } else {
          assert t.secrets[n] == s.secrets[n] && SealedUnder(a, s.key, t.secrets[n], q.facts[n].value);
        }
      }
    }
  }

  lemma StepRefines(a: Aead, s: Store, r: Reference, op: Op)
    requires a.Lawful() && a.Authentic() && Refines(a, s, r) && Enabled(s, op)
    ensures Refines(a, Exec(a, s, op), RefStep(r, op))
  {
    match op
    case Set(name, value, nonce, now) =>
      if name != "" && nonce.Some? {
        var t := Exec(a, s, op);
        assert t.secrets[name].ciphertext == Encrypt(a, s.key, nonce.value, value);
        assert SealedUnder(a, s.key, t.secrets[name], value);
        assert name in s.secrets ==> Holds(a, s.key, s.secrets[name], r.facts[name]);
      }
    case Delete(_) =>
    case Rotate(_, _, _, _) => RotationRefines(a, s, r, op);
  }

  lemma {:induction false} RunRefines(a: Aead, key: Bytes, ops: seq<Op>)
    requires a.Lawful() && a.Authentic()
    ensures Refines(a, ExecAll(a, Store(key, map[]), ops), RefAll(Reference(key, map[]), ops))
  {
    if ops != [] {
      var init, op := ops[..|ops| - 1], ops[|ops| - 1];
      RunRefines(a, key, init);
      var s, r := ExecAll(a, Store(key, map[]), init), RefAll(Reference(key, map[]), init);
      if Enabled(s, op) { StepRefines(a, s, r, op); }
    }
  }

  /** The store refines a plain map over every run whatever, including rotations
      that break off: it holds the same names with the same versions and times, and Get returns
      the plain value, or fails exactly for a secret that a broken-off rotation cut off. */
  lemma StoreRefinesPlainMap(a: Aead, key: Bytes, ops: seq<Op>, name: string)
    requires a.Lawful() && a.Authentic()
    ensures var s, r := ExecAll(a, Store(key, map[]), ops), RefAll(Reference(key, map[]), ops);
            && (name in s.secrets <==> name in r.facts)
            && (name in s.secrets ==>
                  var e, p := s.secrets[name], r.facts[name];
                  e.version == p.version && e.createdAt == p.born && e.updatedAt == p.touched)
            && Get(a, s, name) == if name in r.facts && !r.facts[name].lost then Some(r.facts[name].value) else None
  {
    var s, r := ExecAll(a, Store(key, map[]), ops), RefAll(Reference(key, map[]), ops);
    RunRefines(a, key, ops);
    if name in s.secrets {
      HeldIsRead(a, s, r, name);
      assert Holds(a, s.key, s.secrets[name], r.facts[name]);
    }
  }

  // ---- Persistence ----

  ghost predicate WellNamed(secrets: map<string, Entry>) {
    forall n :: n in secrets ==> secrets[n].name == n
  }

  /** Later entries of the file override earlier ones of the same name. */
  function LoadAll(file: seq<Entry>): map<string, Entry> {
    if file == [] then map[]
    else LoadAll(file[..|file| - 1])[file[|file| - 1].name := file[|file| - 1]]
  }

  /** `file` lists the entries of the map, in any order. */
  ghost predicate Lists(file: seq<Entry>, secrets: map<string, Entry>) {
    && (forall e :: e in file ==> e.name in secrets && e == secrets[e.name])
    && (forall n :: n in secrets ==> exists e :: e in file && e.name == n)
  }

  /** Saving and loading restores the same store, whatever order the entries were written in. */
  lemma LoadRestoresStore(file: seq<Entry>, secrets: map<string, Entry>)
    requires WellNamed(secrets) && Lists(file, secrets)
    ensures LoadAll(file) == secrets
  {
    LoadAllEntries(file);
    forall n | n in secrets ensures n in LoadAll(file) {
      var e :| e in file && e.name == n;
    }
  }

  /** What opening the store finds: nothing stored, the entries, or an error. */
  function Reopened(f: File<seq<Entry>>): Option<map<string, Entry>> {
    match f
    case Absent => Some(map[])
    case Holding(entries) => Some(LoadAll(entries))
    case Torn => None
  }

  /** The file is rewritten in place: it opens as the old or the new store exactly
      if the write did not fail after truncating it, and after such a failure it
      does not open at all. */
  lemma SaveSurvivesIff(f: File<seq<Entry>>, entries: seq<Entry>, secrets: map<string, Entry>, disk: DiskOutcome)
    requires WellNamed(secrets) && Lists(entries, secrets) && !f.Torn?
    ensures var after := Reopened(AfterWrite(f, entries, disk));
            && (after == Reopened(f) || after == Some(secrets) <==> !disk.Interrupted?)
            && (disk.Interrupted? ==> after == None)
            && (disk.NotClosed? || disk.Completed? ==> after == Some(secrets))
  {
    LoadRestoresStore(entries, secrets);
  }

  lemma {:induction false} LoadAllEntries(file: seq<Entry>)
    ensures forall e :: e in file ==> e.name in LoadAll(file)
    ensures forall n :: n in LoadAll(file) ==> LoadAll(file)[n] in file && LoadAll(file)[n].name == n
  {
    if file != [] {
      LoadAllEntries(file[..|file| - 1]);
      assert file == file[..|file| - 1] + [file[|file| - 1]];
    }
  }
}
