/** A concrete AEAD that meets the two laws, and a rotation that loses a secret under it. */
module SecretsExample {
  import opened Common
  import opened Secrets

  /** A prefix-free tag for each key: its length in unary, then the key. */
  function Tag(k: Bytes): Bytes {
    seq(|k|, _ => 1) + [0] + k
  }

  function TaggedSeal(k: Bytes, n: Bytes, p: Bytes): Bytes {
    Tag(k) + p
  }

  function TaggedOpen(k: Bytes, n: Bytes, c: Bytes): Option<Bytes> {
    if Tag(k) <= c then Some(c[|Tag(k)|..]) else None
  }

  const TAGGED := Aead(TaggedSeal, TaggedOpen)

  lemma TagIsPrefixFree(k: Bytes, k': Bytes, p: Bytes)
    requires k != k'
    ensures !(Tag(k') <= Tag(k) + p)
  {
    var t, c := Tag(k'), Tag(k) + p;
    if |t| <= |c| {
      var i := if |k| < |k'| then |k| else |k'|;
      if |k| == |k'| {
        var j :| 0 <= j < |k| && k[j] != k'[j];
        i := |k| + 1 + j;
      }
      assert t[i] != c[i];
    }
  }

  lemma TaggedMeetsTheLaws()
    ensures TAGGED.Lawful() && TAGGED.Authentic()
  {
    forall k, n, p ensures TAGGED.open(k, n, TAGGED.seal(k, n, p)) == Some(p) {
      assert (Tag(k) + p)[|Tag(k)|..] == p;
    }
    forall k, k', n, p | k != k' ensures TAGGED.open(k', n, TAGGED.seal(k, n, p)) == None {
      TagIsPrefixFree(k, k', p);
    }
  }

  /** One secret, a genuinely new key and no randomness: the rotation fails with
      the key already swapped, and the secret can no longer be read. */
  lemma RotationCanLoseASecret(oldKey: Bytes, newKey: Bytes, value: Bytes, nonce: Nonce)
    requires |newKey| == KEY_LENGTH && oldKey != newKey
    ensures var s := ExecAll(TAGGED, Store(oldKey, map[]), [Set("db", value, Some(nonce), 0)]);
            var t := Exec(TAGGED, s, Rotate(newKey, map[], {}, 1));
            Get(TAGGED, s, "db") == Some(value) && Get(TAGGED, t, "db") == None
  {
    TaggedMeetsTheLaws();
    var ops := [Set("db", value, Some(nonce), 0)];
    assert ops[..0] == [];
    DecryptEncrypt(TAGGED, oldKey, nonce, value);
    DecryptWrongKey(TAGGED, oldKey, newKey, nonce, value);
  }

  lemma SingleEntryFile(e: Entry)
    ensures Reopened(Holding([e])) == Some(map[e.name := e])
  {
    var entries := [e];
    assert entries[..0] == [];
    assert LoadAll(entries) == LoadAll([])[e.name := e];
  }

  /** One stored secret and a rotation that succeeds in memory: if the write breaks
      off, the file opens neither as the old store nor as the new one. */
  lemma RotationCanLoseTheFile(oldKey: Bytes, newKey: Bytes, value: Bytes, nonce: Nonce)
    requires |newKey| == KEY_LENGTH
    ensures var s := Exec(TAGGED, Store(oldKey, map[]), Set("db", value, Some(nonce), 0));
            var e := s.secrets["db"];
            var e' := ReencryptedEntry(TAGGED, e, value, newKey, nonce, 1);
            && Exec(TAGGED, s, Rotate(newKey, map["db" := nonce], {"db"}, 1)) == Store(newKey, map["db" := e'])
            && Reopened(Holding([e])) == Some(s.secrets)
            && Reopened(AfterWrite(Holding([e]), [e'], Completed)) == Some(map["db" := e'])
            && Reopened(AfterWrite(Holding([e]), [e'], Interrupted)) == None
  {
    hide Decrypt, LoadAll;
    TaggedMeetsTheLaws();
    var s := Exec(TAGGED, Store(oldKey, map[]), Set("db", value, Some(nonce), 0));
    var e := s.secrets["db"];
    DecryptEncrypt(TAGGED, oldKey, nonce, value);
    assert Get(TAGGED, s, "db") == Some(value);
    SingleEntryFile(e);
    SingleEntryFile(ReencryptedEntry(TAGGED, e, value, newKey, nonce, 1));
  }
}
