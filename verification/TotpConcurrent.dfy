/**
 Interleaved use of the TOTP store. A verification reads the secret under one
 lock and, at some later time, checks and updates the counter under another;
 anything may happen in between.
 */
module TotpConcurrent {
  import opened Common
  import opened Totp

  datatype Call = Call(key: string, secret: Bytes, code: int)

  datatype State = State(secrets: map<string, Bytes>, last: map<string, int>, calls: map<nat, Call>)

  datatype Step =
    | Enroll(key: string, raw: Bytes)
    | Remove(key: string)
    | Begin(id: nat, key: string, code: int)
    | Finish(id: nat, now: int)

  /** The key and counter that a step accepts, if any. */
  function Accepted(mac: Mac, s: State, step: Step): Option<(string, int)> {
    if step.Finish? && step.id in s.calls then
      var call := s.calls[step.id];
      var m := Accepts(mac, s.last, call.key, call.secret, call.code, step.now);
      if m.Some? then Some((call.key, m.value)) else None
    else None
  }

  function Apply(mac: Mac, s: State, step: Step): State {
    match step
    case Enroll(key, raw) => s.(secrets := s.secrets[key := raw])
    case Remove(key) => s.(secrets := s.secrets - {key}, last := s.last - {key})
    case Begin(id, key, code) =>
      if key in s.secrets && 0 <= code < MODULUS then s.(calls := s.calls[id := Call(key, s.secrets[key], code)]) else s
    case Finish(id, now) =>
      var a := Accepted(mac, s, step);
      var done := s.(calls := s.calls - {id});
      if a.Some? then done.(last := s.last[a.value.0 := a.value.1]) else done
  }

  ghost predicate IsRun(mac: Mac, run: seq<State>, steps: seq<Step>) {
    |run| == |steps| + 1 && forall i :: 0 <= i < |steps| ==> run[i + 1] == Apply(mac, run[i], steps[i])
  }

  ghost predicate NoRemove(steps: seq<Step>, key: string, i: int, j: int) {
    forall k :: i <= k < j && 0 <= k < |steps| ==> steps[k] != Remove(key)
  }

  /** Without a removal, a key's last counter never goes back. */
  lemma {:induction false} LastOnlyGrows(mac: Mac, run: seq<State>, steps: seq<Step>, key: string, i: nat, j: nat)
    requires IsRun(mac, run, steps) && i <= j < |run| && NoRemove(steps, key, i, j)
    ensures Last(run[i].last, key) <= Last(run[j].last, key)
    decreases j
  {
    if i < j {
      LastOnlyGrows(mac, run, steps, key, i, j - 1);
      assert run[j] == Apply(mac, run[j - 1], steps[j - 1]) && steps[j - 1] != Remove(key);
    }
  }

  /** No replay: the counters accepted for a key strictly increase, whatever is
      interleaved, as long as the key is not removed in between. */
  lemma AcceptedCountersIncrease(mac: Mac, run: seq<State>, steps: seq<Step>, key: string, i: nat, j: nat)
    requires IsRun(mac, run, steps) && i < j < |steps| && NoRemove(steps, key, i, j)
    requires Accepted(mac, run[i], steps[i]).Some? && Accepted(mac, run[i], steps[i]).value.0 == key
    requires Accepted(mac, run[j], steps[j]).Some? && Accepted(mac, run[j], steps[j]).value.0 == key
    ensures Accepted(mac, run[i], steps[i]).value.1 < Accepted(mac, run[j], steps[j]).value.1
  {
    assert run[i + 1] == Apply(mac, run[i], steps[i]);
    LastOnlyGrows(mac, run, steps, key, i + 1, j);
  }

  /** How many codes are accepted for a key in steps `i` to `j`. */
  ghost function Count(mac: Mac, run: seq<State>, steps: seq<Step>, key: string, i: nat, j: nat): nat
    requires |run| == |steps| + 1 && i <= j <= |steps|
  {
    if i == j then 0
    else
      var a := Accepted(mac, run[j - 1], steps[j - 1]);
      Count(mac, run, steps, key, i, j - 1) + if a.Some? && a.value.0 == key then 1 else 0
  }

  /** All clock readings of the steps lie between two times. */
  ghost predicate Within(steps: seq<Step>, i: nat, j: nat, t1: int, t2: int) {
    forall k :: i <= k < j && k < |steps| && steps[k].Finish? ==> t1 <= steps[k].now <= t2
  }

  lemma {:induction false} CountIsCovered(mac: Mac, run: seq<State>, steps: seq<Step>, key: string, i: nat, j: nat, t1: int, t2: int)
    requires IsRun(mac, run, steps) && i <= j <= |steps| && NoRemove(steps, key, i, j) && Within(steps, i, j, t1, t2)
    ensures Count(mac, run, steps, key, i, j) == 0 ||
            (Count(mac, run, steps, key, i, j) <= Last(run[j].last, key) - (GoDiv(t1, PERIOD) - 2)
             && Last(run[j].last, key) <= GoDiv(t2, PERIOD) + 1)
    decreases j
  {
    hide Truncate, Generate, FirstMatch, GoDiv;
    if i < j {
      CountIsCovered(mac, run, steps, key, i, j - 1, t1, t2);
      assert run[j] == Apply(mac, run[j - 1], steps[j - 1]) && steps[j - 1] != Remove(key);
      if steps[j - 1].Finish? && steps[j - 1].id in run[j - 1].calls {
        var call := run[j - 1].calls[steps[j - 1].id];
        FirstMatchIsEarliest(mac, call.secret, call.code, steps[j - 1].now);
        GoDivIsMonotone(t1, steps[j - 1].now);
        GoDivIsMonotone(steps[j - 1].now, t2);
      }
    }
  }

  /** Between two times, at most one code per period of the interval, and one more
      on each side for skew, is accepted for a key that is not removed. */
  lemma AcceptedCodesAreBounded(mac: Mac, run: seq<State>, steps: seq<Step>, key: string, i: nat, j: nat, t1: int, t2: int)
    requires IsRun(mac, run, steps) && i <= j <= |steps| && NoRemove(steps, key, i, j)
    requires t1 <= t2 && Within(steps, i, j, t1, t2)
    ensures Count(mac, run, steps, key, i, j) <= GoDiv(t2, PERIOD) - GoDiv(t1, PERIOD) + 3
  {
    CountIsCovered(mac, run, steps, key, i, j, t1, t2);
    GoDivIsMonotone(t1, t2);
  }

  // ---- A call that outlives its secret ----

  /** The call under way was begun by this step, with the secret of that moment. */
  ghost predicate BegunAt(run: seq<State>, steps: seq<Step>, i: nat, id: nat, call: Call)
    requires |run| == |steps| + 1
  {
    && i < |steps| && steps[i] == Begin(id, call.key, call.code)
    && call.key in run[i].secrets && call.secret == run[i].secrets[call.key]
  }

  lemma {:induction false} CallWasBegun(mac: Mac, run: seq<State>, steps: seq<Step>, k: nat, id: nat) returns (i: nat)
    requires IsRun(mac, run, steps) && run[0].calls == map[] && k < |run| && id in run[k].calls
    ensures i < k && BegunAt(run, steps, i, id, run[k].calls[id])
  {
    hide Accepts;
    assert run[k] == Apply(mac, run[k - 1], steps[k - 1]);
    if steps[k - 1].Begin? && steps[k - 1].id == id && BegunAt(run, steps, k - 1, id, run[k].calls[id]) {
      i := k - 1;
    } else {
      i := CallWasBegun(mac, run, steps, k - 1, id);
    }
  }

  /** The key is removed at step `j` and not enrolled again before `k`. */
  ghost predicate GoneSince(steps: seq<Step>, j: nat, k: nat, key: string)
    requires k <= |steps|
  {
    j < k && steps[j] == Remove(key) && forall l :: j < l < k ==> !(steps[l].Enroll? && steps[l].key == key)
  }

  ghost predicate Gone(steps: seq<Step>, i: nat, k: nat, key: string)
    requires k <= |steps|
  {
    exists j: nat :: i <= j && GoneSince(steps, j, k, key)
  }

  lemma {:induction false} SecretIsGoneIff(mac: Mac, run: seq<State>, steps: seq<Step>, i: nat, k: nat, key: string)
    requires IsRun(mac, run, steps) && i <= k < |run| && key in run[i].secrets
    ensures key !in run[k].secrets <==> Gone(steps, i, k, key)
    decreases k
  {
    hide Accepts;
    if i < k {
      var p := k - 1;
      SecretIsGoneIff(mac, run, steps, i, p, key);
      assert run[k] == Apply(mac, run[p], steps[p]);
      if steps[p] == Remove(key) {
        assert GoneSince(steps, p, k, key);
      } else if Gone(steps, i, p, key) && !(steps[p].Enroll? && steps[p].key == key) {
        var j: nat :| i <= j && GoneSince(steps, j, p, key);
        assert GoneSince(steps, j, k, key);
      }
      if steps[p] != Remove(key) && Gone(steps, i, k, key) {
        var j: nat :| i <= j && GoneSince(steps, j, k, key);
        assert j != p;
        assert GoneSince(steps, j, p, key);
      }
    }
  }

  /** A code is accepted for a key that has no secret any more exactly if the key was
      removed, and not enrolled again, while the call was under way. */
  lemma AcceptedWithoutSecretIff(mac: Mac, run: seq<State>, steps: seq<Step>, k: nat, key: string) returns (i: nat)
    requires IsRun(mac, run, steps) && run[0].calls == map[] && k < |steps|
    requires Accepted(mac, run[k], steps[k]).Some? && Accepted(mac, run[k], steps[k]).value.0 == key
    ensures i < k && BegunAt(run, steps, i, steps[k].id, run[k].calls[steps[k].id])
    ensures key !in run[k].secrets <==> Gone(steps, i, k, key)
  {
    hide Accepts;
    i := CallWasBegun(mac, run, steps, k, steps[k].id);
    SecretIsGoneIff(mac, run, steps, i, k, key);
  }

  /** Begun before a removal and finished after it: accepted, and the counter of the
      removed key is back. */
  lemma RemovedKeyCanBeAccepted(digest: Digest, key: string, secret: Bytes, now: int) returns (run: seq<State>, steps: seq<Step>)
    requires now >= 2 * PERIOD
    ensures var mac: Mac := (_, _) => digest;
            && IsRun(mac, run, steps) && |run| == 4 && run[0] == State(map[key := secret], map[], map[])
            && steps[1] == Remove(key) && key !in run[2].secrets && key !in run[2].last
            && Accepted(mac, run[2], steps[2]).Some? && key !in run[3].secrets && key in run[3].last
  {
    hide Truncate;
    var mac: Mac := (_, _) => digest;
    var code := Truncate(digest);
    steps := [Begin(0, key, code), Remove(key), Finish(0, now)];
    var s0 := State(map[key := secret], map[], map[]);
    var s1 := Apply(mac, s0, steps[0]);
    var s2 := Apply(mac, s1, steps[1]);
    var c := GoDiv(now, PERIOD);
    assert Generate(mac, secret, c - 1) == code;
    assert Accepts(mac, s2.last, key, secret, code, now) == Some(c - 1);
    assert s2.calls[0] == Call(key, secret, code);
    run := [s0, s1, s2, Apply(mac, s2, steps[2])];
  }
}
