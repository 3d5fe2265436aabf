/**
 The container backend as its callers see it, and the replica list they keep.

 Whether a request succeeds is up to the backend; every operation records the
 state it leaves behind, so that a property of all recorded states is a property
 of every intermediate point. Containers do not stop on their own.
 */
module Backend {
  import opened Common

  type ContainerId = nat

  ghost function Elems(s: seq<ContainerId>): set<ContainerId> {
    set x | x in s
  }

  /** The containers running and, of those ever waited for, the ones found healthy. */
  datatype Snapshot = Snapshot(live: set<ContainerId>, passed: set<ContainerId>)

  /** From one recorded state to the next, at most one container starts or stops
      or passes its check. */
  ghost predicate OneEvent(s: Snapshot, t: Snapshot) {
    || (s.passed == t.passed && exists id :: t.live == s.live + {id} || t.live == s.live - {id})
    || (s.live == t.live && exists id :: t.passed == s.passed + {id})
    || s == t
  }

  /** The record skips nothing. */
  ghost predicate Gradual(trace: seq<Snapshot>) {
    forall i :: 0 < i < |trace| ==> OneEvent(trace[i - 1], trace[i])
  }

  /** A complete record up to the state `now`. */
  ghost predicate Records(trace: seq<Snapshot>, now: Snapshot) {
    trace != [] && trace[|trace| - 1] == now && Gradual(trace)
  }

  lemma RecordsMore(trace: seq<Snapshot>, was: Snapshot, now: Snapshot)
    requires Records(trace, was) && OneEvent(was, now)
    ensures Records(trace + [now], now)
  {
  }

  lemma LiveEvent(s: Snapshot, id: ContainerId, t: Snapshot)
    requires t.passed == s.passed && (t.live == s.live + {id} || t.live == s.live - {id} || t.live == s.live)
    ensures OneEvent(s, t)
  {
  }

  lemma HealthEvent(s: Snapshot, id: ContainerId, t: Snapshot)
    requires t.live == s.live && (t.passed == s.passed + {id} || t.passed == s.passed)
    ensures OneEvent(s, t)
  {
  }

  /** A creation is refused, or accepted with a reply that may fail to name the container. */
  datatype Creation = Refused | Accepted(id: Option<ContainerId>)

  /** The container a reply names, if any. */
  function Named(r: Creation): Option<ContainerId> {
    if r.Accepted? then r.id else None
  }

  /** What the backend was asked and answered. */
  datatype Event =
    | Created(reply: Creation)
    | Checked(id: ContainerId, healthy: bool)
    | Killed(id: ContainerId, ok: bool)

  /** A creation without a usable container, or a failed health check. */
  predicate Bad(e: Event) {
    match e
    case Created(reply) => Named(reply).None?
    case Checked(_, healthy) => !healthy
    case Killed(_, _) => false
  }

  ghost predicate AllGood(events: seq<Event>) {
    forall e :: e in events ==> !Bad(e)
  }

  /** Of a log in three parts. */
  lemma AllGoodParts(past: seq<Event>, mid: seq<Event>, log: seq<Event>)
    requires past <= mid <= log
    ensures past <= log
    ensures AllGood(log[|past|..]) <==> AllGood(mid[|past|..]) && AllGood(log[|mid|..])
  {
    assert log[|past|..] == mid[|past|..] + log[|mid|..];
  }

  class ContainerBackend {
    var live: set<ContainerId>
    var known: set<ContainerId>      // every ID handed out so far
    ghost var passed: set<ContainerId>
    ghost var unnamed: set<ContainerId>       // created, but never named to the caller
    ghost var failedKills: seq<ContainerId>   // the kills that failed, in order
    ghost var trace: seq<Snapshot>
    ghost var log: seq<Event>                 // every request and its answer

    ghost predicate Valid()
      reads this
    {
      live <= known && passed <= known && unnamed <= known && Records(trace, Snapshot(live, passed))
    }

    /** A new container has an ID never seen before. One that the reply does not
        name runs all the same: it is returned in `extra`. */
    method CreateSandbox() returns (r: Creation, ghost extra: set<ContainerId>)
      requires Valid()
      modifies this
      ensures Valid() && passed == old(passed) && failedKills == old(failedKills)
      ensures r.Refused? ==> extra == {} && live == old(live) && known == old(known)
      ensures r == Accepted(None) ==>
        && |extra| == 1 && extra !! old(known)
        && live == old(live) + extra && known == old(known) + extra
      ensures r.Accepted? && r.id.Some? ==>
        && extra == {} && r.id.value !in old(known)
        && live == old(live) + {r.id.value} && known == old(known) + {r.id.value}
      ensures unnamed == old(unnamed) + extra
      ensures trace == old(trace) + [Snapshot(live, passed)] && log == old(log) + [Created(r)]
    {
      hide Records, OneEvent;
      ghost var was := Snapshot(live, passed);
      extra := {};
      var id := FreshId(known);
      if * {
        r := Refused;
      } else {
        live, known := live + {id}, known + {id};
        if * {
          r := Accepted(Some(id));
        } else {
          r, extra := Accepted(None), {id};
        }
      }
      unnamed := unnamed + extra;
      LiveEvent(was, id, Snapshot(live, passed));
      RecordsMore(trace, was, Snapshot(live, passed));
      trace, log := trace + [Snapshot(live, passed)], log + [Created(r)];
    }

    method WaitForHealth(id: ContainerId) returns (healthy: bool)
      requires Valid() && id in known
      modifies this`passed, this`trace, this`log
      ensures Valid() && passed == if healthy then old(passed) + {id} else old(passed)
      ensures trace == old(trace) + [Snapshot(live, passed)] && log == old(log) + [Checked(id, healthy)]
    {
      hide Records, OneEvent;
      ghost var was := Snapshot(live, passed);
      healthy := *;
      passed := if healthy then passed + {id} else passed;
      HealthEvent(was, id, Snapshot(live, passed));
      RecordsMore(trace, was, Snapshot(live, passed));
      trace, log := trace + [Snapshot(live, passed)], log + [Checked(id, healthy)];
    }

    /** A failed kill leaves the container as it is. */
    method KillSandbox(id: ContainerId) returns (ok: bool)
      requires Valid()
      modifies this`live, this`failedKills, this`trace, this`log
      ensures Valid()
      ensures live == if ok then old(live) - {id} else old(live)
      ensures failedKills == if ok then old(failedKills) else old(failedKills) + [id]
      ensures trace == old(trace) + [Snapshot(live, passed)] && log == old(log) + [Killed(id, ok)]
    {
      hide Records, OneEvent;
      ghost var was := Snapshot(live, passed);
      ok := *;
      live := if ok then live - {id} else live;
      failedKills := if ok then failedKills else failedKills + [id];
      LiveEvent(was, id, Snapshot(live, passed));
      RecordsMore(trace, was, Snapshot(live, passed));
      trace, log := trace + [Snapshot(live, passed)], log + [Killed(id, ok)];
    }
  }

  /** The containers in `undead` each survived a kill made after the first `from` failures. */
  ghost predicate Survived(undead: set<ContainerId>, failedKills: seq<ContainerId>, from: nat) {
    from <= |failedKills| && undead <= Elems(failedKills[from..])
  }

  lemma SurvivedNone(fails: seq<ContainerId>)
    ensures Survived({}, fails, |fails|)
  {
  }

  lemma SurvivedMore(undead: set<ContainerId>, before: seq<ContainerId>, from: nat, still: set<ContainerId>, after: seq<ContainerId>)
    requires Survived(undead, before, from) && before <= after && Survived(still, after, |before|)
    ensures Survived(undead + still, after, from)
  {
    assert after[from..] == before[from..] + after[|before|..];
  }

  method FreshId(used: set<ContainerId>) returns (id: ContainerId)
    ensures id !in used
  {
    id := 0;
    var rest := used;
    while rest != {}
      invariant rest <= used && forall x :: x in used && x !in rest ==> x < id
      decreases rest
    {
      var x :| x in rest;
      if x >= id { id := x + 1; }
      rest := rest - {x};
    }
  }

  /** A service's replica list is a slice: a length and a backing array that an
      append reuses while there is room. `saved` is the service file. */
  class Service {
    var backing: array<ContainerId>
    var len: nat
    var replicas: nat
    var saved: File<seq<ContainerId>>

    ghost var ids: seq<ContainerId>  // the list as a value

    ghost predicate Valid()
      reads this`len, this`ids, this`backing, backing
    {
      len <= backing.Length && ids == backing[..len]
    }

    constructor (ids: seq<ContainerId>)
      ensures Valid() && fresh(backing) && this.ids == ids && saved == Holding(ids) && replicas == |ids|
    {
      backing := new ContainerId[|ids|](i requires 0 <= i < |ids| => ids[i]);
      len, replicas, saved, this.ids := |ids|, |ids|, Holding(ids), ids;
    }

    method Append(id: ContainerId)
      requires Valid()
      modifies this`backing, this`len, this`ids, backing
      ensures Valid() && ids == old(ids) + [id]
      ensures backing == old(backing) || fresh(backing)
    {
      if len == backing.Length {
        var was := backing;
        var n := len;
        backing := new ContainerId[2 * n + 1](i requires 0 <= i reads was => if i < was.Length then was[i] else 0);
      }
      backing[len] := id;
      len, ids := len + 1, ids + [id];
    }

    /** Installs a new list with a backing array of its own. */
    method Replace(list: seq<ContainerId>)
      modifies this`backing, this`len, this`ids
      ensures Valid() && ids == list && fresh(backing)
    {
      backing := new ContainerId[|list|](i requires 0 <= i < |list| => list[i]);
      len, ids := |list|, list;
    }

    method DropLast()
      requires Valid() && len > 0
      modifies this`len, this`ids
      ensures Valid() && ids == old(ids)[..|old(ids)| - 1]
    {
      len, ids := len - 1, ids[..|ids| - 1];
    }

    /** Rewrites the service file; callers ignore how that goes. */
    method Save(disk: DiskOutcome)
      requires Valid()
      modifies this`saved
      ensures saved == AfterWrite(old(saved), ids, disk)
    {
      saved := AfterWrite(saved, backing[..len], disk);
    }
  }
}
