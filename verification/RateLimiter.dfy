/**
 The sliding-window rate limiter: per-key lists that are filtered on use and
 swept periodically, against a limiter that forgets nothing.

 Instants are nanoseconds on a clock that does not go back.
 */
module RateLimiter {
  import opened Common

  const CLEANUP_INTERVAL := 300_000_000_000

  /** The instants after `cutoff`. */
  function Recent(ts: seq<int>, cutoff: int): seq<int> {
    if ts == [] then []
    else
      var earlier := Recent(ts[..|ts| - 1], cutoff);
      if ts[|ts| - 1] > cutoff then earlier + [ts[|ts| - 1]] else earlier
  }

  /** How many instants lie in the half-open interval from `a` to `b`. */
  function CountBetween(ts: seq<int>, a: int, b: int): nat {
    if ts == [] then 0
    else CountBetween(ts[..|ts| - 1], a, b) + if a <= ts[|ts| - 1] < b then 1 else 0
  }

  /** The reference limiter: it keeps every grant, and grants a request exactly
      if fewer than `limit` grants lie within the window before it. */
  predicate Admits(history: seq<int>, limit: int, window: int, now: int) {
    |Recent(history, now - window)| < limit
  }

  /** The grant histories the reference limiter can produce. */
  ghost predicate Legitimate(history: seq<int>, limit: int, window: int) {
    forall i :: 0 <= i < |history| ==> Admits(history[..i], limit, window, history[i])
  }

  lemma {:induction false} CountedAreRecent(ts: seq<int>, a: int, b: int, cutoff: int)
    requires cutoff < a
    ensures CountBetween(ts, a, b) <= |Recent(ts, cutoff)|
  {
    if ts != [] {
      CountedAreRecent(ts[..|ts| - 1], a, b, cutoff);
    }
  }

  /** At most `limit` grants fall in any half-open interval as long as the window. */
  lemma {:induction false} WindowIsBounded(history: seq<int>, limit: int, window: int, a: int)
    requires Legitimate(history, limit, window)
    ensures CountBetween(history, a, a + window) <= if limit > 0 then limit else 0
  {
    if history != [] {
      var n := |history| - 1;
      var before := history[..n];
      forall i | 0 <= i < n ensures Admits(before[..i], limit, window, before[i]) {
        assert before[..i] == history[..i];
      }
      WindowIsBounded(before, limit, window, a);
      assert Admits(history[..n], limit, window, history[n]);
      if a <= history[n] < a + window {
        CountedAreRecent(before, a, a + window, history[n] - window);
      }
    }
  }

  // ---- Filtering twice is filtering once ----

  lemma {:induction false} RecentOfRecent(ts: seq<int>, c: int, d: int)
    requires c <= d
    ensures Recent(Recent(ts, c), d) == Recent(ts, d)
  {
    if ts != [] {
      var init, t := ts[..|ts| - 1], ts[|ts| - 1];
      RecentOfRecent(init, c, d);
      if t > c {
        RecentAppend(Recent(init, c), t, d);
      }
    }
  }

  lemma RecentAppend(ts: seq<int>, t: int, c: int)
    ensures Recent(ts + [t], c) == if t > c then Recent(ts, c) + [t] else Recent(ts, c)
  {
    assert (ts + [t])[..|ts|] == ts;
  }

  lemma {:induction false} RecentIsShorter(ts: seq<int>, c: int)
    ensures |Recent(ts, c)| <= |ts|
  {
    if ts != [] {
      RecentIsShorter(ts[..|ts| - 1], c);
    }
  }

  /** No instant lies in the future. */
  ghost predicate Past(ts: seq<int>, now: int) {
    forall i :: 0 <= i < |ts| ==> ts[i] <= now
  }

  lemma {:induction false} RecentIsCounted(ts: seq<int>, cutoff: int, now: int)
    requires Past(ts, now)
    ensures |Recent(ts, cutoff)| == CountBetween(ts, cutoff + 1, now + 1)
  {
    if ts != [] {
      RecentIsCounted(ts[..|ts| - 1], cutoff, now);
    }
  }

  /** A request is granted exactly if fewer than `limit` grants lie in the window that
      ends with it. */
  lemma AdmitsIff(history: seq<int>, limit: int, window: int, now: int)
    requires Past(history, now)
    ensures Admits(history, limit, window, now) <==> CountBetween(history, now - window + 1, now + 1) < limit
  {
    RecentIsCounted(history, now - window, now);
  }

  ghost predicate AllPast(grants: map<string, seq<int>>, now: int) {
    forall k :: Past(Lookup(grants, k), now)
  }

  lemma AllPastLater(grants: map<string, seq<int>>, now: int, later: int)
    requires AllPast(grants, now) && now <= later
    ensures AllPast(grants, later)
  {
    forall k ensures Past(Lookup(grants, k), later) { assert Past(Lookup(grants, k), now); }
  }

  lemma AllPastGrant(grants: map<string, seq<int>>, now: int, key: string)
    requires AllPast(grants, now)
    ensures AllPast(grants[key := Lookup(grants, key) + [now]], now)
  {
    var more := grants[key := Lookup(grants, key) + [now]];
    forall k ensures Past(Lookup(more, k), now) { assert Past(Lookup(grants, k), now); }
  }

  // ---- The limiter ----

  function Lookup(m: map<string, seq<int>>, key: string): seq<int> {
    if key in m then m[key] else []
  }

  /** The stored list and the full history agree on everything after the cutoff. */
  ghost predicate Faithful(stored: map<string, seq<int>>, grants: map<string, seq<int>>, cutoff: int) {
    forall k :: Recent(Lookup(stored, k), cutoff) == Recent(Lookup(grants, k), cutoff)
  }

  ghost predicate Bounded(stored: map<string, seq<int>>, limit: int) {
    forall k :: |Lookup(stored, k)| <= if limit > 0 then limit else 0
  }

  class Limiter {
    const limit: int
    const window: int
    var requests: map<string, seq<int>>
    var lastCleanup: Option<int>
    ghost var grants: map<string, seq<int>>  // every grant ever made
    ghost var clock: int                     // the latest instant seen

    ghost predicate Valid()
      reads this
    {
      && Faithful(requests, grants, clock - window)
      && Bounded(requests, limit)
      && (forall k :: k in grants ==> Legitimate(grants[k], limit, window))
      && AllPast(grants, clock)
    }

    constructor (limit: int, window: int)
      ensures Valid() && this.limit == limit && this.window == window && grants == map[]
    {
      this.limit, this.window := limit, window;
      requests, lastCleanup, grants, clock := map[], None, map[], 0;
    }

    /** Decides as the limiter that keeps the full history would, for every key and
        call: it refuses exactly if `limit` grants lie in the window. */
    method Allow(key: string, now: int, later: int) returns (ok: bool)
      requires Valid() && clock <= now <= later
      modifies this
      ensures Valid() && clock == now
      ensures ok <==> Admits(Lookup(old(grants), key), limit, window, now)
      ensures ok <==> CountBetween(Lookup(old(grants), key), now - window + 1, now + 1) < limit
      ensures grants == if ok then old(grants)[key := Lookup(old(grants), key) + [now]] else old(grants)
    {
      hide Faithful, Bounded, Legitimate, Recent, AllPast, CountBetween;
      var cutoff := now - window;
      AllPastLater(grants, clock, now);
      AdmitsNow(grants, key, limit, window, now);
      AllPastGrant(grants, now, key);
      FaithfulLater(requests, grants, clock - window, cutoff);
      clock := now;
      var due := CleanupDue(now);
      if due {
        Cleanup(cutoff, later);
      }
      var recent := FilterRecent(Lookup(requests, key), cutoff);
      RefilterKeeps(requests, grants, limit, cutoff, key);
      ok := |recent| < limit;
      if ok {
        GrantKeeps(requests, grants, limit, cutoff, key, now);
        GrantIsLegitimate(Lookup(grants, key), limit, window, now);
        recent := recent + [now];
        grants := grants[key := Lookup(grants, key) + [now]];
      }
      requests := requests[key := recent];
    }

    /** The first call only starts the timer. */
    method CleanupDue(now: int) returns (due: bool)
      modifies this`lastCleanup
      ensures due <==> old(lastCleanup).Some? && now - old(lastCleanup).value >= CLEANUP_INTERVAL
      ensures lastCleanup == if old(lastCleanup).None? then Some(now) else old(lastCleanup)
    {
      if lastCleanup.None? {
        lastCleanup := Some(now);
        return false;
      }
      return now - lastCleanup.value >= CLEANUP_INTERVAL;
    }

    /** Filters every list and drops the keys left without any. */
    method Cleanup(cutoff: int, later: int)
      requires Faithful(requests, grants, cutoff) && Bounded(requests, limit)
      modifies this`requests, this`lastCleanup
      ensures Faithful(requests, grants, cutoff) && Bounded(requests, limit)
      ensures forall k :: k in requests ==> k in old(requests) && requests[k] == Recent(old(requests)[k], cutoff) != []
      ensures lastCleanup == Some(later)
    {
      hide Faithful, Bounded, Recent;
      var todo := requests.Keys;
      while todo != {}
        invariant Faithful(requests, grants, cutoff) && Bounded(requests, limit) && todo <= requests.Keys <= old(requests).Keys
        invariant forall k :: k in requests ==>
          requests[k] == if k in todo then old(requests)[k] else Recent(old(requests)[k], cutoff)
        invariant forall k :: k in requests && k !in todo ==> requests[k] != []
        decreases todo
      {
        var key :| key in todo;
        var recent := FilterRecent(requests[key], cutoff);
        RefilterKeeps(requests, grants, limit, cutoff, key);
        if recent == [] { DropKeeps(requests, grants, limit, cutoff, key); }
        requests := if recent == [] then requests - {key} else requests[key := recent];
        todo := todo - {key};
      }
      lastCleanup := Some(later);
    }
  }

  lemma AdmitsNow(grants: map<string, seq<int>>, key: string, limit: int, window: int, now: int)
    requires AllPast(grants, now)
    ensures Admits(Lookup(grants, key), limit, window, now)
       <==> CountBetween(Lookup(grants, key), now - window + 1, now + 1) < limit
  {
    assert Past(Lookup(grants, key), now);
    AdmitsIff(Lookup(grants, key), limit, window, now);
  }

  method FilterRecent(ts: seq<int>, cutoff: int) returns (recent: seq<int>)
    ensures recent == Recent(ts, cutoff)
  {
    recent := [];
    for i := 0 to |ts|
      invariant recent == Recent(ts[..i], cutoff)
    {
      RecentAppend(ts[..i], ts[i], cutoff);
      assert ts[..i + 1] == ts[..i] + [ts[i]];
      if ts[i] > cutoff {
        recent := recent + [ts[i]];
      }
    }
    assert ts[..|ts|] == ts;
  }

  lemma FaithfulLater(stored: map<string, seq<int>>, grants: map<string, seq<int>>, c: int, d: int)
    requires Faithful(stored, grants, c) && c <= d
    ensures Faithful(stored, grants, d)
  {
    forall k ensures Recent(Lookup(stored, k), d) == Recent(Lookup(grants, k), d) {
      RecentOfRecent(Lookup(stored, k), c, d);
      RecentOfRecent(Lookup(grants, k), c, d);
    }
  }

  /** The stored list, once filtered, decides as the full history does, and can replace itself. */
  lemma RefilterKeeps(stored: map<string, seq<int>>, grants: map<string, seq<int>>, limit: int, cutoff: int, key: string)
    requires Faithful(stored, grants, cutoff) && Bounded(stored, limit)
    ensures var recent := Recent(Lookup(stored, key), cutoff);
            && recent == Recent(Lookup(grants, key), cutoff)
            && Faithful(stored[key := recent], grants, cutoff) && Bounded(stored[key := recent], limit)
  {
    RecentOfRecent(Lookup(stored, key), cutoff, cutoff);
    RecentIsShorter(Lookup(stored, key), cutoff);
    assert |Lookup(stored, key)| <= if limit > 0 then limit else 0;
    var recent := Recent(Lookup(stored, key), cutoff);
    forall k | k != key ensures Lookup(stored[key := recent], k) == Lookup(stored, k) {}
  }

  lemma DropKeeps(stored: map<string, seq<int>>, grants: map<string, seq<int>>, limit: int, cutoff: int, key: string)
    requires Faithful(stored, grants, cutoff) && Bounded(stored, limit)
    requires Recent(Lookup(stored, key), cutoff) == []
    ensures Faithful(stored - {key}, grants, cutoff) && Bounded(stored - {key}, limit)
  {
    forall k | k != key ensures Lookup(stored - {key}, k) == Lookup(stored, k) {}
    assert Recent(Lookup(stored - {key}, key), cutoff) == [];
  }

  lemma GrantKeeps(stored: map<string, seq<int>>, grants: map<string, seq<int>>, limit: int, cutoff: int, key: string, now: int)
    requires Faithful(stored, grants, cutoff) && Bounded(stored, limit)
    requires |Recent(Lookup(stored, key), cutoff)| < limit
    ensures var recent := Recent(Lookup(stored, key), cutoff) + [now];
            && Faithful(stored[key := recent], grants[key := Lookup(grants, key) + [now]], cutoff)
            && Bounded(stored[key := recent], limit)
  {
    var recent := Recent(Lookup(stored, key), cutoff) + [now];
    var grants' := grants[key := Lookup(grants, key) + [now]];
    RecentAppend(Recent(Lookup(stored, key), cutoff), now, cutoff);
    RecentOfRecent(Lookup(stored, key), cutoff, cutoff);
    RecentAppend(Lookup(grants, key), now, cutoff);
    assert Recent(Lookup(stored, key), cutoff) == Recent(Lookup(grants, key), cutoff);
    forall k | k != key ensures Lookup(stored[key := recent], k) == Lookup(stored, k) && Lookup(grants', k) == Lookup(grants, k) {}
  }

  lemma GrantIsLegitimate(history: seq<int>, limit: int, window: int, now: int)
    requires Legitimate(history, limit, window) && Admits(history, limit, window, now)
    ensures Legitimate(history + [now], limit, window)
  {
    var h := history + [now];
    forall i | 0 <= i < |h| ensures Admits(h[..i], limit, window, h[i]) {
      assert h[..i] == history[..i];
      assert history[..|history|] == history;
    }
  }
}
