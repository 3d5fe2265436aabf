/**
 Rolling and blue-green replacement of a service's replicas.

 The promise is zero downtime: at every intermediate point, whatever fails, at
 least as many containers serve as originals were running at the start.
 */
module Rollout {
  import opened Common
  import opened Backend

  datatype Status = Healthy | Failed

  datatype RolloutStep = RolloutStep(replica: nat, oldId: ContainerId, newId: Option<ContainerId>, status: Status)

  datatype Report = Report(succeeded: nat, failed: nat, aborted: bool, history: seq<RolloutStep>)

  /** The situation a rollout starts from: the registered originals, the
      containers running, all the IDs in use, the containers never named so far
      and how many kills have failed so far. */
  datatype Start = Start(originals: set<ContainerId>, live: set<ContainerId>, known: set<ContainerId>,
                         unnamed: set<ContainerId>, failures: nat)

  ghost function StartOf(b: ContainerBackend, svc: Service): Start
    reads b, svc
  {
    Start(Elems(svc.ids), b.live, b.known, b.unnamed, |b.failedKills|)
  }

  ghost predicate WellFormed(z: Start) {
    z.originals <= z.known && z.live <= z.known
  }

  /** Containers that serve: originals still running, and replacements that run and passed their health check. */
  ghost function Serving(z: Start, s: Snapshot): set<ContainerId> {
    s.live * z.originals + (s.live * s.passed - z.known)
  }

  ghost predicate Safe(z: Start, s: Snapshot) {
    |Serving(z, s)| >= |z.live * z.originals|
  }

  /** Every state recorded from position `from` on is safe. */
  ghost predicate AllSafe(z: Start, trace: seq<Snapshot>, from: nat) {
    forall i :: from <= i < |trace| ==> Safe(z, trace[i])
  }

  ghost function Stopped(z: Start, live: set<ContainerId>): set<ContainerId> {
    z.live * z.originals - live
  }

  ghost function Replacements(z: Start, s: Snapshot): set<ContainerId> {
    s.live * s.passed - z.known
  }

  /** Stopping one original uses up at most one replacement. */
  lemma StopOne(z: Start, live: set<ContainerId>, id: ContainerId)
    ensures |Stopped(z, live - {id})| <= |Stopped(z, live)| + 1
  {
    assert Stopped(z, live - {id}) <= Stopped(z, live) + {id};
    SubsetSize(Stopped(z, live - {id}), Stopped(z, live) + {id});
  }

  lemma {:induction false} SubsetSize<T>(a: set<T>, b: set<T>)
    requires a <= b
    ensures |a| <= |b|
  {
    DisjointUnionSize(a, b - a);
    assert b == a + (b - a);
  }

  /** A state with at least `spare` more healthy replacements than originals stopped. */
  ghost predicate Covered(z: Start, s: Snapshot, spare: int) {
    && WellFormed(z) && s.live * z.known <= z.live
    && |Stopped(z, s.live)| + spare <= |Replacements(z, s)|
  }

  /** Safety is a matter of bookkeeping: no more originals stopped than healthy replacements running. */
  lemma SafeIfCovered(z: Start, s: Snapshot, spare: nat)
    requires Covered(z, s, spare)
    ensures Safe(z, s)
  {
    var kept := s.live * z.originals;
    assert z.live * z.originals == kept + Stopped(z, s.live);
    DisjointUnionSize(kept, Stopped(z, s.live));
    DisjointUnionSize(kept, Replacements(z, s));
  }

  lemma CreationKeepsCover(z: Start, s: Snapshot, extra: set<ContainerId>, spare: int)
    requires Covered(z, s, spare) && extra !! z.known && extra !! s.passed
    ensures Covered(z, s.(live := s.live + extra), spare)
  {
    assert Stopped(z, s.live + extra) == Stopped(z, s.live);
    assert Replacements(z, s.(live := s.live + extra)) == Replacements(z, s);
  }

  lemma HealthAddsCover(z: Start, s: Snapshot, id: ContainerId, spare: int)
    requires Covered(z, s, spare) && id in s.live && id !in z.known && id !in s.passed
    ensures Covered(z, s.(passed := s.passed + {id}), spare + 1)
  {
    assert Replacements(z, s.(passed := s.passed + {id})) == Replacements(z, s) + {id};
  }

  /** A kill uses up at most one unit of cover, and none if the container did not serve. */
  lemma KillCostsCover(z: Start, s: Snapshot, id: ContainerId, spare: int)
    requires Covered(z, s, spare)
    ensures Covered(z, s, spare - 1) && Covered(z, s.(live := s.live - {id}), spare - 1)
    ensures id !in z.known && id !in s.passed ==> Covered(z, s.(live := s.live - {id}), spare)
  {
    var t := s.(live := s.live - {id});
    if id in z.known {
      assert Replacements(z, t) == Replacements(z, s);
      StopOne(z, s.live, id);
    } else {
      assert Stopped(z, t.live) == Stopped(z, s.live);
      assert id !in s.passed ==> Replacements(z, t) == Replacements(z, s);
      SubsetSize(Replacements(z, s), Replacements(z, t) + {id});
    }
  }

  // ---- One backend call at a time ----

  ghost function Now(b: ContainerBackend): Snapshot
    reads b
  {
    Snapshot(b.live, b.passed)
  }

  /** The rollout so far: every state recorded was safe, and there is cover to spare. */
  ghost predicate OnTrack(b: ContainerBackend, z: Start, from: nat, spare: nat)
    reads b
  {
    b.Valid() && z.known <= b.known && Covered(z, Now(b), spare) && AllSafe(z, b.trace, from)
  }

  /** One creation was asked for, and `r` is what it named. */
  ghost predicate Tried(past: seq<Event>, log: seq<Event>, r: Option<ContainerId>) {
    |log| == |past| + 1 && past <= log && log[|past|].Created? && Named(log[|past|].reply) == r
  }

  /** A new container, or nothing that the rollout can use. */
  method CreateReplacement(b: ContainerBackend, ghost z: Start, ghost from: nat, ghost spare: nat)
    returns (r: Option<ContainerId>, ghost unnamed: set<ContainerId>)
    requires OnTrack(b, z, from, spare)
    modifies b
    ensures old(b.trace) <= b.trace
    ensures OnTrack(b, z, from, spare) && b.passed == old(b.passed)
    ensures b.unnamed == old(b.unnamed) + unnamed && b.failedKills == old(b.failedKills)
    ensures r.None? ==> b.live == old(b.live) + unnamed && unnamed !! z.known + b.passed
    ensures r.Some? ==> unnamed == {} && b.live == old(b.live) + {r.value} && r.value !in old(b.live) + b.passed + z.known
    ensures Tried(old(b.log), b.log, r)
  {
    hide Covered, Safe, AllSafe;
    ghost var was, past := Now(b), b.trace;
    var reply;
    reply, unnamed := b.CreateSandbox();
    r := Named(reply);
    ghost var extra := if r.Some? then {r.value} else unnamed;
    assert b.live == was.live + extra;
    CreationKeepsCover(z, was, extra, spare);
    SafeIfCovered(z, Now(b), spare);
    AllSafeAppend(z, past, from, Now(b));
  }

  lemma AllSafeAppend(z: Start, trace: seq<Snapshot>, from: nat, s: Snapshot)
    requires AllSafe(z, trace, from) && Safe(z, s)
    ensures AllSafe(z, trace + [s], from)
  {
  }

  method WaitForHealth(b: ContainerBackend, id: ContainerId, ghost z: Start, ghost from: nat, ghost spare: nat)
    returns (healthy: bool)
    requires OnTrack(b, z, from, spare)
    requires id in b.live && id !in z.known && id !in b.passed
    modifies b`passed, b`trace, b`log
    ensures old(b.trace) <= b.trace
    ensures OnTrack(b, z, from, if healthy then spare + 1 else spare)
    ensures b.passed == if healthy then old(b.passed) + {id} else old(b.passed)
    ensures b.log == old(b.log) + [Checked(id, healthy)]
  {
    hide Covered, Safe;
    HealthAddsCover(z, Now(b), id, spare);
    SafeIfCovered(z, Now(b), spare);
    healthy := b.WaitForHealth(id);
    SafeIfCovered(z, Now(b), if healthy then spare + 1 else spare);
  }

  ghost predicate KilledOne(past: seq<Event>, log: seq<Event>, id: ContainerId) {
    |log| == |past| + 1 && past <= log && log[|past|].Killed? && log[|past|].id == id
  }

  /** Killing a container that serves needs cover to spare. `still` is the container if it survived. */
  method Kill(b: ContainerBackend, id: ContainerId, ghost z: Start, ghost from: nat, ghost spare: nat, ghost serves: bool)
    returns (ghost still: set<ContainerId>)
    requires OnTrack(b, z, from, spare)
    requires if serves then spare > 0 else id !in z.known && id !in b.passed
    modifies b`live, b`failedKills, b`trace, b`log
    ensures old(b.trace) <= b.trace
    ensures OnTrack(b, z, from, if serves then spare - 1 else spare)
    ensures old(b.failedKills) <= b.failedKills && (b.failedKills == old(b.failedKills) ==> still == {})
    ensures Survived(still, b.failedKills, |old(b.failedKills)|)
    ensures still <= {id} && b.live == old(b.live) - {id} + still
    ensures KilledOne(old(b.log), b.log, id)
  {
    hide Covered, Safe;
    ghost var was := Now(b);
    KillCostsCover(z, was, id, spare);
    SafeIfCovered(z, was, spare);
    if serves || spare > 0 { SafeIfCovered(z, was.(live := was.live - {id}), spare - 1); }
    if !serves { SafeIfCovered(z, was.(live := was.live - {id}), spare); }
    var ok := b.KillSandbox(id);
    still := if id in b.live && !ok then {id} else {};
  }

  // ---- Who is running, and why ----

  /** The originals that have been replaced in their slot, and what replaced them. */
  ghost function Outgoing(orig: seq<ContainerId>, cur: seq<ContainerId>): set<ContainerId>
    requires |orig| == |cur|
  {
    set i | 0 <= i < |orig| && cur[i] != orig[i] :: orig[i]
  }

  ghost function Incoming(orig: seq<ContainerId>, cur: seq<ContainerId>): set<ContainerId>
    requires |orig| == |cur|
  {
    set i | 0 <= i < |orig| && cur[i] != orig[i] :: cur[i]
  }

  /** The containers running are those of the start without the replaced originals,
      with their replacements, plus the ones created without a name and the ones
      that survived their kill. */
  ghost predicate Books(z: Start, orig: seq<ContainerId>, cur: seq<ContainerId>, live: set<ContainerId>,
                        unnamed: set<ContainerId>, undead: set<ContainerId>)
  {
    && |orig| == |cur| && Elems(orig) <= z.known
    && Incoming(orig, cur) !! z.known && unnamed !! z.known
    && live == z.live - Outgoing(orig, cur) + Incoming(orig, cur) + unnamed + undead
  }

  lemma BooksReplace(z: Start, orig: seq<ContainerId>, cur: seq<ContainerId>, live: set<ContainerId>,
                     unnamed: set<ContainerId>, undead: set<ContainerId>, i: nat, id: ContainerId, still: set<ContainerId>)
    requires Books(z, orig, cur, live, unnamed, undead)
    requires i < |orig| && cur[i] == orig[i] && id !in z.known && still <= {orig[i]}
    ensures Books(z, orig, cur[i := id], live + {id} - {orig[i]} + still, unnamed, undead - {orig[i]} + still)
  {
    var next := cur[i := id];
    assert orig[i] in Elems(orig);
    assert Outgoing(orig, next) == Outgoing(orig, cur) + {orig[i]} by {
      assert next[i] != orig[i];
      forall j | 0 <= j < |orig| && cur[j] != orig[j] ensures next[j] == cur[j] {}
    }
    assert Incoming(orig, next) == Incoming(orig, cur) + {id} by {
      assert next[i] == id;
      forall j | 0 <= j < |orig| && cur[j] != orig[j] ensures next[j] == cur[j] {}
    }
  }

  /** What is running beyond the books was never named, or survived a kill of this very rollout. */
  ghost predicate Explained(b: ContainerBackend, z: Start, unnamed: set<ContainerId>, undead: set<ContainerId>)
    reads b
  {
    b.unnamed == z.unnamed + unnamed && Survived(undead, b.failedKills, z.failures)
  }

  /** What every rollout leaves behind, of either strategy and however it went: a
      complete record of its states, each of them safe, and every container accounted for. */
  ghost predicate Accountable(b: ContainerBackend, svc: Service, z: Start, from: nat, orig: seq<ContainerId>, r: Report,
                              unnamed: set<ContainerId>, undead: set<ContainerId>)
    reads b, svc`ids, svc`len, svc`backing, svc.backing
  {
    && svc.Valid() && |svc.ids| == |orig| && Tallied(r)
    && b.Valid() && AllSafe(z, b.trace, from) && Safe(z, Now(b))
    && Books(z, orig, svc.ids, b.live, unnamed, undead) && Explained(b, z, unnamed, undead)
  }

  // ---- One slot of a rolling update ----

  /** The requests for one slot and their answers: a creation that named nothing; or a
      named one, its health check, and the kill that the verdict calls for. */
  ghost predicate SlotEvents(seg: seq<Event>, oldId: ContainerId, newId: Option<ContainerId>, healthy: bool) {
    && seg != [] && seg[0].Created? && Named(seg[0].reply) == newId
    && if newId.None? then |seg| == 1 && !healthy
       else |seg| == 3 && seg[1] == Checked(newId.value, healthy)
            && seg[2].Killed? && seg[2].id == if healthy then oldId else newId.value
  }

  method ReplaceOne(b: ContainerBackend, oldId: ContainerId, ghost z: Start, ghost from: nat)
    returns (newId: Option<ContainerId>, healthy: bool, ghost unnamed: set<ContainerId>, ghost still: set<ContainerId>)
    requires OnTrack(b, z, from, 0) && oldId in z.known
    modifies b
    ensures old(b.trace) <= b.trace
    ensures OnTrack(b, z, from, 0)
    ensures newId.None? ==> !healthy && still == {} && unnamed !! z.known && b.live == old(b.live) + unnamed
    ensures newId.Some? ==> unnamed == {} && newId.value !in z.known
    ensures newId.Some? && !healthy ==> b.live == old(b.live) + still && still !! z.known
    ensures healthy ==> newId.Some? && still <= {oldId} && b.live == old(b.live) + {newId.value} - {oldId} + still
    ensures b.passed == if healthy then old(b.passed) + {newId.value} else old(b.passed)
    ensures b.unnamed == old(b.unnamed) + unnamed
    ensures old(b.failedKills) <= b.failedKills && Survived(still, b.failedKills, |old(b.failedKills)|)
    ensures old(b.log) <= b.log && SlotEvents(b.log[|old(b.log)|..], oldId, newId, healthy)
  {
    hide *;
    SurvivedNone(b.failedKills);
    ghost var past := b.log;
    newId, unnamed := CreateReplacement(b, z, from, 0);
    ghost var tried, checked := b.log, b.log;
    healthy, still := false, {};
    if newId.Some? {
      healthy := WaitForHealth(b, newId.value, z, from, 0);
      checked := b.log;
      if healthy {
        still := Kill(b, oldId, z, from, 1, true);
      } else {
        still := Kill(b, newId.value, z, from, 0, false);
      }
    }
    SlotLog(past, tried, checked, b.log, oldId, newId, healthy);
  }

  lemma SlotLog(past: seq<Event>, tried: seq<Event>, checked: seq<Event>, log: seq<Event>, oldId: ContainerId,
                newId: Option<ContainerId>, healthy: bool)
    requires Tried(past, tried, newId) && (newId.None? ==> log == tried && !healthy)
    requires newId.Some? ==> checked == tried + [Checked(newId.value, healthy)]
                             && KilledOne(checked, log, if healthy then oldId else newId.value)
    ensures past <= log && SlotEvents(log[|past|..], oldId, newId, healthy)
  {
    var seg := log[|past|..];
    assert past <= log;
    if newId.Some? {
      assert seg[0] == tried[|past|] && seg[1] == Checked(newId.value, healthy) && seg[2] == log[|checked|];
    }
  }

  // ---- Rolling ----

  function CountHealthy(history: seq<RolloutStep>): nat {
    if history == [] then 0
    else CountHealthy(history[..|history| - 1]) + if history[|history| - 1].status.Healthy? then 1 else 0
  }

  /** The history names the originals in order, one step each, and a slot holds
      its original or, where the step was healthy, the replacement that passed. */
  ghost predicate Chronicles(history: seq<RolloutStep>, orig: seq<ContainerId>, cur: seq<ContainerId>, passed: set<ContainerId>)
  {
    && |history| <= |orig| == |cur|
    && (forall j :: 0 <= j < |history| ==>
          && history[j].replica == j + 1 && history[j].oldId == orig[j]
          && (history[j].status.Failed? ==> cur[j] == orig[j])
          && (history[j].status.Healthy? ==> history[j].newId == Some(cur[j]) && cur[j] in passed))
    && (forall j :: |history| <= j < |orig| ==> cur[j] == orig[j])
  }

  ghost predicate Tallied(r: Report) {
    r.succeeded == CountHealthy(r.history) && r.succeeded + r.failed == |r.history|
  }

  function Record(r: Report, s: RolloutStep): Report {
    r.(history := r.history + [s],
       succeeded := if s.status.Healthy? then r.succeeded + 1 else r.succeeded,
       failed := if s.status.Healthy? then r.failed else r.failed + 1)
  }

  lemma RecordTallies(r: Report, s: RolloutStep)
    requires Tallied(r)
    ensures Tallied(Record(r, s))
  {
    assert (r.history + [s])[..|r.history|] == r.history;
  }

  /** One iteration: reads the slot through the shared array, and overwrites it there on success. */
  method RollSlot(b: ContainerBackend, svc: Service, i: nat, ghost z: Start, ghost from: nat, ghost orig: seq<ContainerId>,
                  ghost unnamed: set<ContainerId>, ghost undead: set<ContainerId>)
    returns (step: RolloutStep, ghost unnamed': set<ContainerId>, ghost undead': set<ContainerId>)
    requires svc.Valid() && i < svc.len && |orig| == |svc.ids| && svc.ids[i] == orig[i]
    requires OnTrack(b, z, from, 0) && Books(z, orig, svc.ids, b.live, unnamed, undead) && Explained(b, z, unnamed, undead)
    modifies b, svc`ids, svc.backing
    ensures old(b.trace) <= b.trace
    ensures svc.Valid() && OnTrack(b, z, from, 0)
    ensures Books(z, orig, svc.ids, b.live, unnamed', undead') && Explained(b, z, unnamed', undead')
    ensures old(b.passed) <= b.passed
    ensures step.replica == i + 1 && step.oldId == orig[i]
    ensures step.status.Failed? ==> svc.ids == old(svc.ids)
    ensures step.status.Healthy? ==> step.newId.Some? && svc.ids == old(svc.ids)[i := step.newId.value] && step.newId.value in b.passed
    ensures old(b.log) <= b.log && SlotEvents(b.log[|old(b.log)|..], step.oldId, step.newId, step.status.Healthy?)
  {
    hide Covered, Safe, Books, Survived;
    var oldId := svc.backing[i];
    assert oldId in z.known by { BooksKnown(z, orig, svc.ids, b.live, unnamed, undead, i); }
    ghost var was, fails := b.live, b.failedKills;
    var newId, healthy; ghost var extra, still;
    newId, healthy, extra, still := ReplaceOne(b, oldId, z, from);
    SurvivedMore(undead, fails, z.failures, still, b.failedKills);
    UnionAssociative(z.unnamed, unnamed, extra);
    step := RolloutStep(i + 1, oldId, newId, if healthy then Healthy else Failed);
    if healthy {
      BooksReplace(z, orig, svc.ids, was, unnamed, undead, i, newId.value, still);
      unnamed', undead' := unnamed + extra, undead - {oldId} + still;
      assert unnamed + extra == unnamed;
      SurvivedFewer(undead + still, undead', b.failedKills, z.failures);
      svc.backing[i] := newId.value;
      svc.ids := svc.ids[i := newId.value];
    } else {
      BooksExtra(z, orig, svc.ids, was, unnamed, undead, extra, still);
      unnamed', undead' := unnamed + extra, undead + still;
      assert b.live == was + extra + still;
    }
  }

  lemma SurvivedFewer(undead: set<ContainerId>, fewer: set<ContainerId>, fails: seq<ContainerId>, from: nat)
    requires Survived(undead, fails, from) && fewer <= undead
    ensures Survived(fewer, fails, from)
  {
  }

  lemma BooksKnown(z: Start, orig: seq<ContainerId>, cur: seq<ContainerId>, live: set<ContainerId>,
                   unnamed: set<ContainerId>, undead: set<ContainerId>, i: nat)
    requires Books(z, orig, cur, live, unnamed, undead) && i < |orig|
    ensures orig[i] in z.known
  {
    assert orig[i] in Elems(orig);
  }

  lemma BooksExtra(z: Start, orig: seq<ContainerId>, cur: seq<ContainerId>, live: set<ContainerId>,
                   unnamed: set<ContainerId>, undead: set<ContainerId>, extra: set<ContainerId>, still: set<ContainerId>)
    requires Books(z, orig, cur, live, unnamed, undead) && extra !! z.known
    ensures Books(z, orig, cur, live + extra + still, unnamed + extra, undead + still)
  {
  }

  /** Everything that holds between two iterations. */
  ghost predicate MidRolling(b: ContainerBackend, svc: Service, z: Start, from: nat, orig: seq<ContainerId>, r: Report,
                             unnamed: set<ContainerId>, undead: set<ContainerId>)
    reads b, svc`ids, svc`len, svc`backing, svc.backing
  {
    && svc.Valid() && |svc.ids| == |orig| && OnTrack(b, z, from, 0)
    && Books(z, orig, svc.ids, b.live, unnamed, undead) && Explained(b, z, unnamed, undead)
    && Chronicles(r.history, orig, svc.ids, b.passed) && Tallied(r)
  }

  method RollNext(b: ContainerBackend, svc: Service, r: Report, ghost z: Start, ghost from: nat, ghost orig: seq<ContainerId>,
                  ghost unnamed: set<ContainerId>, ghost undead: set<ContainerId>)
    returns (r': Report, ghost unnamed': set<ContainerId>, ghost undead': set<ContainerId>)
    requires MidRolling(b, svc, z, from, orig, r, unnamed, undead) && |r.history| < |orig|
    modifies b, svc`ids, svc.backing
    ensures old(b.trace) <= b.trace
    ensures MidRolling(b, svc, z, from, orig, r', unnamed', undead')
    ensures |r'.history| == |r.history| + 1 && r'.aborted == r.aborted
    ensures old(b.log) <= b.log && r.history <= r'.history
    ensures var s := r'.history[|r.history|]; SlotEvents(b.log[|old(b.log)|..], s.oldId, s.newId, s.status.Healthy?)
  {
    hide OnTrack, Books, Explained, Chronicles, SlotEvents;
    ghost var ids, passed := svc.ids, b.passed;
    ChroniclesAt(r.history, orig, ids, passed, |r.history|);
    var step;
    step, unnamed', undead' := RollSlot(b, svc, |r.history|, z, from, orig, unnamed, undead);
    ChroniclesStep(r.history, orig, ids, passed, step, svc.ids, b.passed);
    RecordTallies(r, step);
    r' := Record(r, step);
  }

  ghost function Flat(segs: seq<seq<Event>>): seq<Event> {
    if segs == [] then [] else Flat(segs[..|segs| - 1]) + segs[|segs| - 1]
  }

  /** The log since `past` is, slot by slot, the requests and answers that the history reports. */
  ghost predicate Tells(past: seq<Event>, log: seq<Event>, segs: seq<seq<Event>>, history: seq<RolloutStep>) {
    && log == past + Flat(segs) && |segs| == |history|
    && forall j :: 0 <= j < |segs| ==>
         SlotEvents(segs[j], history[j].oldId, history[j].newId, history[j].status.Healthy?)
  }

  lemma TellsNothing(past: seq<Event>)
    ensures Tells(past, past, [], [])
  {
  }

  lemma TellsMore(past: seq<Event>, log: seq<Event>, segs: seq<seq<Event>>, history: seq<RolloutStep>,
                  log': seq<Event>, history': seq<RolloutStep>)
    requires Tells(past, log, segs, history) && log <= log' && history <= history' && |history'| == |history| + 1
    requires var s := history'[|history|]; SlotEvents(log'[|log|..], s.oldId, s.newId, s.status.Healthy?)
    ensures Tells(past, log', segs + [log'[|log|..]], history')
  {
    hide SlotEvents;
    var seg := log'[|log|..];
    assert (segs + [seg])[..|segs|] == segs;
    assert log' == log + seg;
    ConcatAssociative(past, Flat(segs), seg);
  }

  /** Every slot succeeded exactly if every creation named a container and every
      container was healthy. */
  lemma {:induction false} SucceedsIff(past: seq<Event>, log: seq<Event>, segs: seq<seq<Event>>, history: seq<RolloutStep>)
    requires Tells(past, log, segs, history)
    ensures past <= log
    ensures AllGood(log[|past|..]) <==> forall j :: 0 <= j < |history| ==> history[j].status.Healthy?
    decreases |segs|
  {
    assert log[|past|..] == Flat(segs);
    if segs != [] {
      var n := |segs| - 1;
      var mid := past + Flat(segs[..n]);
      SucceedsIff(past, mid, segs[..n], history[..n]);
      assert mid[|past|..] == Flat(segs[..n]);
      SlotIsGoodIff(segs[n], history[n]);
      assert Flat(segs) == Flat(segs[..n]) + segs[n];
      assert forall j :: 0 <= j < n ==> history[..n][j] == history[j];
    }
  }

  lemma SlotIsGoodIff(seg: seq<Event>, s: RolloutStep)
    requires SlotEvents(seg, s.oldId, s.newId, s.status.Healthy?)
    ensures AllGood(seg) <==> s.status.Healthy?
  {
    if s.newId.None? {
      assert seg[0] in seg && Bad(seg[0]);
    } else {
      assert seg[1] in seg;
      assert seg == [seg[0], seg[1], seg[2]];
    }
  }

  lemma {:induction false} CountIsFullIff(history: seq<RolloutStep>)
    ensures CountHealthy(history) <= |history|
    ensures CountHealthy(history) == |history| <==> forall j :: 0 <= j < |history| ==> history[j].status.Healthy?
  {
    if history != [] {
      var n := |history| - 1;
      CountIsFullIff(history[..n]);
      assert forall j :: 0 <= j < n ==> history[..n][j] == history[j];
    }
  }

  /** A rolling update counts as many successes as it visited slots exactly if the
      backend named and passed every container: nothing fails without a cause. */
  lemma RollsAllIff(past: seq<Event>, log: seq<Event>, segs: seq<seq<Event>>, r: Report)
    requires Tells(past, log, segs, r.history) && Tallied(r)
    ensures past <= log
    ensures r.succeeded == |r.history| <==> AllGood(log[|past|..])
  {
    SucceedsIff(past, log, segs, r.history);
    CountIsFullIff(r.history);
  }

  /** A failure ends a rolling update that is to abort on failure. */
  ghost predicate StoppedByFailure(r: Report, abortOnFailure: bool) {
    abortOnFailure && r.history != [] && r.history[|r.history| - 1].status.Failed?
  }

  /** Replaces the originals one by one. The slice it walks over is the one it
      overwrites, yet every original is visited once, in order. The context is
      cancelled from slot `cancelAt` on. */
  method Rolling(b: ContainerBackend, svc: Service, abortOnFailure: bool, cancelAt: nat)
    returns (r: Report, cancelled: bool, ghost unnamed: set<ContainerId>, ghost undead: set<ContainerId>,
             ghost segs: seq<seq<Event>>)
    requires b.Valid() && svc.Valid() && Elems(svc.ids) <= b.known
    modifies b, svc`ids, svc.backing
    ensures old(b.trace) <= b.trace
    ensures svc.Valid() && Accountable(b, svc, old(StartOf(b, svc)), |old(b.trace)|, old(svc.ids), r, unnamed, undead)
    ensures Chronicles(r.history, old(svc.ids), svc.ids, b.passed)
    ensures Tells(old(b.log), b.log, segs, r.history)
    ensures cancelled <==> cancelAt == |r.history| < |old(svc.ids)| && !StoppedByFailure(r, abortOnFailure)
    ensures r.aborted <==> cancelled || StoppedByFailure(r, abortOnFailure)
    ensures !r.aborted ==> |r.history| == |old(svc.ids)|
    ensures abortOnFailure ==> forall j :: 0 <= j < |r.history| - 1 ==> r.history[j].status.Healthy?
  {
    hide *;
    var n := svc.len;
    ghost var z, from, orig := StartOf(b, svc), |b.trace|, svc.ids;
    StartMidRolling(b, svc);
    TellsNothing(b.log);
    r, cancelled, unnamed, undead, segs := Report(0, 0, false, []), false, {}, {}, [];
    var i, stopped := 0, false;
    while i < n && !r.aborted
      invariant 0 <= i <= n == |orig| && svc.backing == old(svc.backing) && i == |r.history| <= cancelAt + 1
      invariant MidRolling(b, svc, z, from, orig, r, unnamed, undead) && old(b.trace) <= b.trace
      invariant Tells(old(b.log), b.log, segs, r.history)
      invariant stopped <==> abortOnFailure && r.history != [] && r.history[|r.history| - 1].status.Failed?
      invariant cancelled <==> r.aborted && !stopped
      invariant r.aborted <==> cancelled || stopped
      invariant cancelled ==> i == cancelAt < n
      invariant !r.aborted ==> i <= cancelAt
      invariant abortOnFailure ==> forall j :: 0 <= j < |r.history| - 1 ==> r.history[j].status.Healthy?
      decreases n - i, !r.aborted
    {
      cancelled := i == cancelAt;
      if !cancelled {
        ghost var was, log := r.history, b.log;
        r, unnamed, undead := RollNext(b, svc, r, z, from, orig, unnamed, undead);
        TellsMore(old(b.log), log, segs, was, b.log, r.history);
        segs := segs + [b.log[|log|..]];
        i := i + 1;
        stopped := r.history[|r.history| - 1].status.Failed? && abortOnFailure;
      }
      if cancelled || stopped {
        AbortKeepsMidRolling(b, svc, z, from, orig, r, unnamed, undead);
        r := r.(aborted := true);
      }
    }
    StoppedMeans(r, abortOnFailure);
    MidRollingIsAccountable(b, svc, z, from, orig, r, unnamed, undead);
  }

  lemma StoppedMeans(r: Report, abortOnFailure: bool)
    ensures StoppedByFailure(r, abortOnFailure) <==>
            abortOnFailure && r.history != [] && r.history[|r.history| - 1].status.Failed?
  {
  }

  lemma MidRollingIsAccountable(b: ContainerBackend, svc: Service, z: Start, from: nat, orig: seq<ContainerId>, r: Report,
                                unnamed: set<ContainerId>, undead: set<ContainerId>)
    requires MidRolling(b, svc, z, from, orig, r, unnamed, undead)
    ensures Accountable(b, svc, z, from, orig, r, unnamed, undead)
    ensures svc.Valid() && Chronicles(r.history, orig, svc.ids, b.passed)
  {
    SafeIfCovered(z, Now(b), 0);
  }

  lemma StartMidRolling(b: ContainerBackend, svc: Service)
    requires b.Valid() && svc.Valid() && Elems(svc.ids) <= b.known
    ensures svc.len == |svc.ids| && MidRolling(b, svc, StartOf(b, svc), |b.trace|, svc.ids, Report(0, 0, false, []), {}, {})
  {
    StartOnTrack(b, svc);
  }

  lemma AbortKeepsMidRolling(b: ContainerBackend, svc: Service, z: Start, from: nat, orig: seq<ContainerId>, r: Report,
                             unnamed: set<ContainerId>, undead: set<ContainerId>)
    requires MidRolling(b, svc, z, from, orig, r, unnamed, undead)
    ensures MidRolling(b, svc, z, from, orig, r.(aborted := true), unnamed, undead)
  {
  }

  lemma ChroniclesAt(history: seq<RolloutStep>, orig: seq<ContainerId>, cur: seq<ContainerId>, passed: set<ContainerId>, i: nat)
    requires |orig| == |cur| && Chronicles(history, orig, cur, passed) && |history| <= i < |orig|
    ensures cur[i] == orig[i]
  {
  }

  lemma ChroniclesStep(history: seq<RolloutStep>, orig: seq<ContainerId>, cur: seq<ContainerId>, passed: set<ContainerId>,
                       step: RolloutStep, cur': seq<ContainerId>, passed': set<ContainerId>)
    requires |orig| == |cur| && Chronicles(history, orig, cur, passed) && |history| < |orig| && passed <= passed'
    requires step.replica == |history| + 1 && step.oldId == orig[|history|]
    requires if step.status.Failed? then cur' == cur
             else step.newId.Some? && cur' == cur[|history| := step.newId.value] && step.newId.value in passed'
    ensures Chronicles(history + [step], orig, cur', passed')
  {
  }

  /** At the start nothing is stopped, so nothing needs cover. */
  lemma StartOnTrack(b: ContainerBackend, svc: Service)
    requires b.Valid() && Elems(svc.ids) <= b.known
    ensures OnTrack(b, StartOf(b, svc), |b.trace|, 0)
    ensures Books(StartOf(b, svc), svc.ids, svc.ids, b.live, {}, {})
    ensures Explained(b, StartOf(b, svc), {}, {}) && GreenBooks(StartOf(b, svc), [], b.live, b.passed)
  {
    assert Stopped(StartOf(b, svc), b.live) == {};
    assert Outgoing(svc.ids, svc.ids) == {} && Incoming(svc.ids, svc.ids) == {};
  }

  // ---- Blue-green ----

  /** The history names the originals in order, each with the container created for its slot. */
  ghost predicate GreenLog(history: seq<RolloutStep>, orig: seq<ContainerId>, newIds: seq<ContainerId>) {
    && |history| == |newIds| <= |orig|
    && forall j :: 0 <= j < |history| ==>
         history[j].replica == j + 1 && history[j].oldId == orig[j] && history[j].newId == Some(newIds[j])
  }

  /** While everything goes well: what runs is what ran at the start and the new
      containers, all of which have passed. */
  ghost predicate GreenBooks(z: Start, newIds: seq<ContainerId>, live: set<ContainerId>, passed: set<ContainerId>) {
    Elems(newIds) !! z.known && Elems(newIds) <= passed && live == z.live + Elems(newIds)
  }

  /** On the way back: all that ran at the start runs, and what else runs is on the list or accounted for. */
  ghost predicate Unwinding(z: Start, newIds: seq<ContainerId>, live: set<ContainerId>, unnamed: set<ContainerId>, undead: set<ContainerId>) {
    && unnamed !! z.known && Elems(newIds) !! z.known + unnamed
    && z.live + unnamed <= live <= z.live + unnamed + Elems(newIds) + undead
  }

  ghost predicate Logged(r: Report, orig: seq<ContainerId>, newIds: seq<ContainerId>) {
    GreenLog(r.history, orig, newIds) && Tallied(r)
  }

  lemma LogStep(r: Report, orig: seq<ContainerId>, newIds: seq<ContainerId>, id: ContainerId, status: Status)
    requires Logged(r, orig, newIds) && |newIds| < |orig|
    ensures Logged(Record(r, RolloutStep(|newIds| + 1, orig[|newIds|], Some(id), status)), orig, newIds + [id])
  {
    RecordTallies(r, RolloutStep(|newIds| + 1, orig[|newIds|], Some(id), status));
  }

  lemma GreenBooksStep(z: Start, newIds: seq<ContainerId>, live: set<ContainerId>, passed: set<ContainerId>, id: ContainerId)
    requires GreenBooks(z, newIds, live, passed) && id !in z.known
    ensures GreenBooks(z, newIds + [id], live + {id}, passed + {id})
  {
    assert Elems(newIds + [id]) == Elems(newIds) + {id};
  }

  /** A new container that did not pass has been killed, or survived that. */
  lemma UnhealthyUnwinds(z: Start, newIds: seq<ContainerId>, live: set<ContainerId>, passed: set<ContainerId>, id: ContainerId,
                         still: set<ContainerId>)
    requires GreenBooks(z, newIds, live, passed) && id !in z.known && id !in live
    ensures Unwinding(z, newIds + [id], live + {id} - {id} + still, {}, still)
  {
    assert Elems(newIds + [id]) == Elems(newIds) + {id};
  }

  /** A creation that named no container leaves at most a stray one. */
  lemma UnnamedUnwinds(z: Start, newIds: seq<ContainerId>, live: set<ContainerId>, passed: set<ContainerId>, extra: set<ContainerId>)
    requires GreenBooks(z, newIds, live, passed) && extra !! z.known + passed
    ensures Unwinding(z, newIds, live + extra, extra, {})
  {
  }

  lemma OnTrackWeaken(b: ContainerBackend, z: Start, from: nat, spare: nat)
    requires OnTrack(b, z, from, spare)
    ensures OnTrack(b, z, from, 0)
  {
  }

  /** Creates one new container and waits for it; a failure ends the attempt. */
  method GreenNext(b: ContainerBackend, r: Report, newIds: seq<ContainerId>, oldId: ContainerId,
                   ghost z: Start, ghost from: nat, ghost orig: seq<ContainerId>)
    returns (healthy: bool, r': Report, newIds': seq<ContainerId>, ghost unnamed: set<ContainerId>, ghost undead: set<ContainerId>)
    requires OnTrack(b, z, from, |newIds|) && GreenBooks(z, newIds, b.live, b.passed) && Explained(b, z, {}, {})
    requires Logged(r, orig, newIds) && |newIds| < |orig| && oldId == orig[|newIds|]
    modifies b
    ensures old(b.trace) <= b.trace
    ensures OnTrack(b, z, from, if healthy then |newIds'| else 0) && Explained(b, z, unnamed, undead)
    ensures Logged(r', orig, newIds') && r'.aborted == r.aborted
    ensures |newIds| <= |newIds'|
    ensures healthy ==> |newIds'| == |newIds| + 1 && unnamed == undead == {} && GreenBooks(z, newIds', b.live, b.passed)
    ensures !healthy ==> Unwinding(z, newIds', b.live, unnamed, undead)
    ensures old(b.log) <= b.log && (healthy <==> AllGood(b.log[|old(b.log)|..]))
  {
    hide Covered, Safe, AllSafe, Survived, GreenBooks, Unwinding, Logged, AllGood, Tried, KilledOne, Bad;
    ghost var live, passed, fails, past := b.live, b.passed, b.failedKills, b.log;
    var id;
    id, unnamed := CreateReplacement(b, z, from, |newIds|);
    ghost var tried, checked := b.log, b.log;
    healthy, r', newIds', undead := false, r, newIds, {};
    if id.None? {
      UnnamedUnwinds(z, newIds, live, passed, unnamed);
    } else {
      newIds' := newIds + [id.value];
      healthy := WaitForHealth(b, id.value, z, from, |newIds|);
      checked := b.log;
      if healthy {
        GreenBooksStep(z, newIds, live, passed, id.value);
      } else {
        undead := Kill(b, id.value, z, from, |newIds|, false);
        UnhealthyUnwinds(z, newIds, live, passed, id.value, undead);
      }
      LogStep(r, orig, newIds, id.value, if healthy then Healthy else Failed);
      r' := Record(r, RolloutStep(|newIds| + 1, oldId, id, if healthy then Healthy else Failed));
    }
    GreenEvents(past, tried, checked, b.log, id, healthy);
    if undead == {} { SurvivedNone(b.failedKills); }
    SurvivedMore({}, fails, z.failures, undead, b.failedKills);
    assert {} + undead == undead;
    if !healthy { OnTrackWeaken(b, z, from, |newIds|); }
  }

  lemma GreenEvents(past: seq<Event>, tried: seq<Event>, checked: seq<Event>, log: seq<Event>,
                    id: Option<ContainerId>, healthy: bool)
    requires Tried(past, tried, id) && (id.None? ==> log == tried && !healthy)
    requires id.Some? ==> checked == tried + [Checked(id.value, healthy)]
    requires id.Some? ==> if healthy then log == checked else KilledOne(checked, log, id.value)
    ensures past <= log && (healthy <==> AllGood(log[|past|..]))
  {
    var seg := log[|past|..];
    assert seg[0] == tried[|past|] && seg[0] in seg;
    if id.Some? {
      assert seg[1] == Checked(id.value, healthy) && seg[1] in seg;
      assert healthy ==> seg == [seg[0], seg[1]];
    }
  }

  /** Creates all the new containers, stopping at the first failure. */
  method CreateAll(b: ContainerBackend, oldIds: seq<ContainerId>, ghost z: Start, ghost from: nat)
    returns (allHealthy: bool, r: Report, newIds: seq<ContainerId>, ghost unnamed: set<ContainerId>, ghost undead: set<ContainerId>)
    requires OnTrack(b, z, from, 0) && GreenBooks(z, [], b.live, b.passed) && Explained(b, z, {}, {})
    modifies b
    ensures old(b.trace) <= b.trace
    ensures OnTrack(b, z, from, if allHealthy then |newIds| else 0) && Explained(b, z, unnamed, undead)
    ensures Logged(r, oldIds, newIds) && !r.aborted
    ensures allHealthy ==> |newIds| == |oldIds| && unnamed == undead == {} && GreenBooks(z, newIds, b.live, b.passed)
    ensures !allHealthy ==> Unwinding(z, newIds, b.live, unnamed, undead)
    ensures old(b.log) <= b.log && (allHealthy <==> AllGood(b.log[|old(b.log)|..]))
  {
    hide *;
    NothingIsGood(b.log);
    allHealthy, r, newIds, unnamed, undead := true, Report(0, 0, false, []), [], {}, {};
    LogEmpty(oldIds);
    while |newIds| < |oldIds| && allHealthy
      invariant |newIds| <= |oldIds| && old(b.trace) <= b.trace
      invariant OnTrack(b, z, from, if allHealthy then |newIds| else 0) && Explained(b, z, unnamed, undead)
      invariant Logged(r, oldIds, newIds) && !r.aborted
      invariant allHealthy ==> unnamed == undead == {} && GreenBooks(z, newIds, b.live, b.passed)
      invariant !allHealthy ==> Unwinding(z, newIds, b.live, unnamed, undead)
      invariant old(b.log) <= b.log && (allHealthy <==> AllGood(b.log[|old(b.log)|..]))
      decreases |oldIds| - |newIds|, allHealthy
    {
      ghost var log := b.log;
      allHealthy, r, newIds, unnamed, undead := GreenNext(b, r, newIds, oldIds[|newIds|], z, from, oldIds);
      LoggedLength(r, oldIds, newIds);
      AllGoodParts(old(b.log), log, b.log);
    }
  }

  lemma NothingIsGood(log: seq<Event>)
    ensures AllGood(log[|log|..])
  {
  }

  lemma KillIsGood(past: seq<Event>, log: seq<Event>, id: ContainerId)
    requires KilledOne(past, log, id)
    ensures past <= log && AllGood(log[|past|..])
  {
    assert log[|past|..] == [log[|past|]];
  }

  lemma LogEmpty(orig: seq<ContainerId>)
    ensures Logged(Report(0, 0, false, []), orig, [])
  {
  }

  lemma LoggedLength(r: Report, orig: seq<ContainerId>, newIds: seq<ContainerId>)
    requires Logged(r, orig, newIds)
    ensures |newIds| <= |orig|
  {
  }

  /** Traffic switch under way: the first `k` originals have been killed, or survived that. */
  ghost predicate Switching(z: Start, oldIds: seq<ContainerId>, k: nat, newIds: seq<ContainerId>, live: set<ContainerId>, undead: set<ContainerId>) {
    && k <= |oldIds| && Elems(oldIds) <= z.known && Elems(newIds) !! z.known
    && live == z.live - Elems(oldIds[..k]) + Elems(newIds) + undead
  }

  lemma SwitchStart(z: Start, oldIds: seq<ContainerId>, newIds: seq<ContainerId>, live: set<ContainerId>, passed: set<ContainerId>)
    requires GreenBooks(z, newIds, live, passed) && Elems(oldIds) <= z.known
    ensures Switching(z, oldIds, 0, newIds, live, {})
  {
    assert oldIds[..0] == [];
  }

  lemma SwitchStep(z: Start, oldIds: seq<ContainerId>, k: nat, newIds: seq<ContainerId>, live: set<ContainerId>, undead: set<ContainerId>,
                   still: set<ContainerId>)
    requires Switching(z, oldIds, k, newIds, live, undead) && k < |oldIds| && still <= {oldIds[k]}
    ensures Switching(z, oldIds, k + 1, newIds, live - {oldIds[k]} + still, undead - {oldIds[k]} + still)
  {
    assert oldIds[..k + 1] == oldIds[..k] + [oldIds[k]];
    assert Elems(oldIds[..k + 1]) == Elems(oldIds[..k]) + {oldIds[k]};
    assert oldIds[k] in Elems(oldIds);
  }

  lemma SwitchDone(z: Start, oldIds: seq<ContainerId>, newIds: seq<ContainerId>, live: set<ContainerId>, undead: set<ContainerId>)
    requires Switching(z, oldIds, |oldIds|, newIds, live, undead) && |newIds| == |oldIds|
    ensures Books(z, oldIds, newIds, live, {}, undead)
  {
    assert oldIds[..|oldIds|] == oldIds;
    forall i | 0 <= i < |oldIds| ensures oldIds[i] != newIds[i] {
      assert oldIds[i] in Elems(oldIds) && newIds[i] in Elems(newIds);
    }
    assert Outgoing(oldIds, newIds) == Elems(oldIds);
    assert Incoming(oldIds, newIds) == Elems(newIds);
  }

  /** All new containers serve, so every original can go. */
  method Switch(b: ContainerBackend, oldIds: seq<ContainerId>, newIds: seq<ContainerId>, ghost z: Start, ghost from: nat)
    returns (ghost undead: set<ContainerId>)
    requires OnTrack(b, z, from, |newIds|) && Explained(b, z, {}, {}) && |oldIds| == |newIds|
    requires Elems(oldIds) <= z.known && GreenBooks(z, newIds, b.live, b.passed)
    modifies b`live, b`failedKills, b`trace, b`log
    ensures old(b.trace) <= b.trace
    ensures OnTrack(b, z, from, 0) && Explained(b, z, {}, undead)
    ensures Books(z, oldIds, newIds, b.live, {}, undead)
    ensures old(b.log) <= b.log && AllGood(b.log[|old(b.log)|..])
  {
    hide Covered, Safe, AllSafe, Survived, Switching, Books, GreenBooks, AllGood, KilledOne, Records;
    undead := {};
    NothingIsGood(b.log);
    SwitchStart(z, oldIds, newIds, b.live, b.passed);
    for k := 0 to |oldIds|
      invariant old(b.trace) <= b.trace
      invariant OnTrack(b, z, from, |newIds| - k) && Explained(b, z, {}, undead)
      invariant Switching(z, oldIds, k, newIds, b.live, undead)
      invariant old(b.log) <= b.log && AllGood(b.log[|old(b.log)|..])
    {
      ghost var live, fails, log := b.live, b.failedKills, b.log;
      ghost var still := Kill(b, oldIds[k], z, from, |newIds| - k, true);
      KillIsGood(log, b.log, oldIds[k]);
      AllGoodParts(old(b.log), log, b.log);
      SwitchStep(z, oldIds, k, newIds, live, undead, still);
      SurvivedMore(undead, fails, z.failures, still, b.failedKills);
      SurvivedFewer(undead + still, undead - {oldIds[k]} + still, b.failedKills, z.failures);
      undead := undead - {oldIds[k]} + still;
    }
    SwitchDone(z, oldIds, newIds, b.live, undead);
  }

  lemma UnwindStep(z: Start, newIds: seq<ContainerId>, live: set<ContainerId>, unnamed: set<ContainerId>, undead: set<ContainerId>,
                   live': set<ContainerId>, still: set<ContainerId>)
    requires Unwinding(z, newIds, live, unnamed, undead) && newIds != [] && WellFormed(z)
    requires live' == live - {newIds[0]} + still && still <= {newIds[0]}
    ensures Unwinding(z, newIds[1..], live', unnamed, undead + still)
  {
    assert newIds == [newIds[0]] + newIds[1..];
    assert Elems(newIds) == {newIds[0]} + Elems(newIds[1..]);
  }

  /** While nothing that ran at the start has stopped, no cover is needed. */
  lemma KillNewKeepsCover(z: Start, s: Snapshot, id: ContainerId)
    requires Covered(z, s, 0) && z.live <= s.live && id !in z.known
    ensures Covered(z, s.(live := s.live - {id}), 0) && z.live <= s.live - {id}
  {
    assert Stopped(z, s.live - {id}) == {};
  }

  method KillNew(b: ContainerBackend, id: ContainerId, ghost z: Start, ghost from: nat) returns (ghost still: set<ContainerId>)
    requires OnTrack(b, z, from, 0) && z.live <= b.live && id !in z.known
    modifies b`live, b`failedKills, b`trace, b`log
    ensures old(b.trace) <= b.trace
    ensures OnTrack(b, z, from, 0)
    ensures old(b.failedKills) <= b.failedKills && Survived(still, b.failedKills, |old(b.failedKills)|)
    ensures still <= {id} && b.live == old(b.live) - {id} + still
    ensures KilledOne(old(b.log), b.log, id)
  {
    hide Covered, Safe, AllSafe;
    ghost var was, past := Now(b), b.trace;
    KillNewKeepsCover(z, was, id);
    var ok := b.KillSandbox(id);
    still := if id in b.live && !ok then {id} else {};
    SafeIfCovered(z, Now(b), 0);
    AllSafeAppend(z, past, from, Now(b));
  }

  /** Kills every new container again. */
  method Unwind(b: ContainerBackend, newIds: seq<ContainerId>, ghost z: Start, ghost from: nat,
                ghost unnamed: set<ContainerId>, ghost undead0: set<ContainerId>)
    returns (ghost undead: set<ContainerId>)
    requires OnTrack(b, z, from, 0) && Explained(b, z, unnamed, undead0) && WellFormed(z)
    requires Unwinding(z, newIds, b.live, unnamed, undead0)
    modifies b`live, b`failedKills, b`trace, b`log
    ensures old(b.trace) <= b.trace
    ensures OnTrack(b, z, from, 0) && Explained(b, z, unnamed, undead)
    ensures unnamed !! z.known && b.live == z.live + unnamed + undead
    ensures old(b.log) <= b.log && AllGood(b.log[|old(b.log)|..])
  {
    hide Covered, Safe, AllSafe, Survived, Unwinding, AllGood, KilledOne, Records;
    undead := undead0;
    NothingIsGood(b.log);
    assert newIds[0..] == newIds;
    for k := 0 to |newIds|
      invariant old(b.trace) <= b.trace
      invariant OnTrack(b, z, from, 0) && Explained(b, z, unnamed, undead)
      invariant Unwinding(z, newIds[k..], b.live, unnamed, undead)
      invariant old(b.log) <= b.log && AllGood(b.log[|old(b.log)|..])
    {
      ghost var live, fails, log := b.live, b.failedKills, b.log;
      UnwindFacts(z, newIds[k..], live, unnamed, undead);
      ghost var still := KillNew(b, newIds[k], z, from);
      KillIsGood(log, b.log, newIds[k]);
      AllGoodParts(old(b.log), log, b.log);
      assert newIds[k..][1..] == newIds[k + 1..];
      UnwindStep(z, newIds[k..], live, unnamed, undead, b.live, still);
      SurvivedMore(undead, fails, z.failures, still, b.failedKills);
      undead := undead + still;
    }
    UnwindFacts(z, newIds[|newIds|..], b.live, unnamed, undead);
    SurvivedFewer(undead, undead * b.live, b.failedKills, z.failures);
    undead := undead * b.live;
  }

  lemma UnwindFacts(z: Start, newIds: seq<ContainerId>, live: set<ContainerId>, unnamed: set<ContainerId>, undead: set<ContainerId>)
    requires Unwinding(z, newIds, live, unnamed, undead)
    ensures unnamed !! z.known && z.live <= live
    ensures newIds != [] ==> newIds[0] !in z.known
    ensures newIds == [] ==> live == z.live + unnamed + undead * live
  {
    if newIds != [] { assert newIds[0] in Elems(newIds); }
  }

  /** Aborted with the originals untouched, or not aborted and every slot
      holding a new container that passed. */
  ghost predicate AllOrNothing(orig: seq<ContainerId>, cur: seq<ContainerId>, passed: set<ContainerId>, z: Start, r: Report) {
    if r.aborted then cur == orig
    else Elems(cur) <= passed && Elems(cur) !! z.known && GreenLog(r.history, orig, cur)
  }

  /** All or nothing: the service ends up with all new containers, each of which
      passed, and is not aborted, or it keeps its originals and is. */
  method BlueGreen(b: ContainerBackend, svc: Service)
    returns (r: Report, ghost unnamed: set<ContainerId>, ghost undead: set<ContainerId>)
    requires b.Valid() && svc.Valid() && Elems(svc.ids) <= b.known
    modifies b, svc
    ensures old(b.trace) <= b.trace
    ensures svc.Valid() && Accountable(b, svc, old(StartOf(b, svc)), |old(b.trace)|, old(svc.ids), r, unnamed, undead)
    ensures AllOrNothing(old(svc.ids), svc.ids, b.passed, old(StartOf(b, svc)), r)
    ensures !r.aborted ==> unnamed == {}
    ensures old(b.log) <= b.log && (r.aborted <==> !AllGood(b.log[|old(b.log)|..]))
    ensures svc.saved == old(svc.saved) && svc.replicas == old(svc.replicas)
  {
    hide OnTrack, Accountable, Records, Explained, Books, Unwinding, CountHealthy, AllGood;
    ghost var z, from := StartOf(b, svc), |b.trace|;
    var oldIds := svc.backing[..svc.len];
    StartOnTrack(b, svc);
    var allHealthy, newIds;
    allHealthy, r, newIds, unnamed, undead := CreateAll(b, oldIds, z, from);
    ghost var log := b.log;
    if allHealthy {
      undead := Switch(b, oldIds, newIds, z, from);
      svc.Replace(newIds);
    } else {
      undead := Unwind(b, newIds, z, from, unnamed, undead);
      r := r.(aborted := true);
      BooksUnchanged(z, oldIds, b.live, unnamed, undead);
    }
    AllGoodParts(old(b.log), log, b.log);
    TrackIsAccountable(b, svc, z, from, oldIds, r, unnamed, undead);
  }

  lemma TrackIsAccountable(b: ContainerBackend, svc: Service, z: Start, from: nat, orig: seq<ContainerId>, r: Report,
                           unnamed: set<ContainerId>, undead: set<ContainerId>)
    requires svc.Valid() && |svc.ids| == |orig| && Tallied(r) && OnTrack(b, z, from, 0)
    requires Books(z, orig, svc.ids, b.live, unnamed, undead) && Explained(b, z, unnamed, undead)
    ensures Accountable(b, svc, z, from, orig, r, unnamed, undead)
  {
    SafeIfCovered(z, Now(b), 0);
  }

  lemma BooksUnchanged(z: Start, ids: seq<ContainerId>, live: set<ContainerId>, unnamed: set<ContainerId>, undead: set<ContainerId>)
    requires Elems(ids) <= z.known && unnamed !! z.known && live == z.live + unnamed + undead
    ensures Books(z, ids, ids, live, unnamed, undead)
  {
    assert Outgoing(ids, ids) == {} && Incoming(ids, ids) == {};
  }

  // ---- The entry point ----

  const MAX_HEALTH_WAIT := 600

  /** `imageOk` is the verdict of image-reference validation. The service file is
      rewritten at the end, but not when a rolling update is cancelled. */
  method Rollout(b: ContainerBackend, services: map<string, Service>, serviceName: string, newImage: string, imageOk: bool,
                 strategy: string, healthWait: int, abortOnFailure: bool, cancelAt: nat, disk: DiskOutcome)
    returns (r: Option<Report>, cancelled: bool, ghost unnamed: set<ContainerId>, ghost undead: set<ContainerId>,
             ghost segs: seq<seq<Event>>)
    requires b.Valid()
    requires serviceName in services ==> services[serviceName].Valid() && Elems(services[serviceName].ids) <= b.known
    modifies b, if serviceName in services then {services[serviceName]} else {},
             if serviceName in services then {services[serviceName].backing} else {}
    ensures old(b.trace) <= b.trace
    ensures r.Some? <==>
      && serviceName != "" && newImage != "" && imageOk && healthWait <= MAX_HEALTH_WAIT
      && strategy in {"", "rolling", "blue-green"} && serviceName in services
    ensures r.None? ==> unchanged(b)
    ensures r.None? && serviceName in services ==> unchanged(services[serviceName]) && unchanged(services[serviceName].backing)
    ensures r.Some? ==>
      var svc := services[serviceName];
      var z := old(StartOf(b, svc));
      && Accountable(b, svc, z, |old(b.trace)|, old(svc.ids), r.value, unnamed, undead)
      && svc.saved == (if cancelled || old(svc.ids) == [] then old(svc.saved) else AfterWrite(old(svc.saved), svc.ids, disk))
      && (|old(svc.ids)| == 0 ==> r.value.aborted)
      && (|old(svc.ids)| > 0 && strategy == "blue-green" ==> !cancelled && AllOrNothing(old(svc.ids), svc.ids, b.passed, z, r.value))
      && (|old(svc.ids)| > 0 && strategy != "blue-green" ==>
            && Chronicles(r.value.history, old(svc.ids), svc.ids, b.passed)
            && (!r.value.aborted ==> |r.value.history| == |old(svc.ids)|)
            && Tells(old(b.log), b.log, segs, r.value.history)
            && (cancelled <==> cancelAt == |r.value.history| < |old(svc.ids)| && !StoppedByFailure(r.value, abortOnFailure))
            && (r.value.aborted <==> cancelled || StoppedByFailure(r.value, abortOnFailure)))
      && (|old(svc.ids)| > 0 && strategy == "blue-green" ==>
            old(b.log) <= b.log && (r.value.aborted <==> !AllGood(b.log[|old(b.log)|..])))
      && (b.failedKills == old(b.failedKills) && b.unnamed == old(b.unnamed)
          && Elems(old(svc.ids)) <= old(b.live) && NoRepeats(old(svc.ids)) ==>
            b.live == old(b.live) - Elems(old(svc.ids)) + Elems(svc.ids))
  {
    hide *;
    cancelled, unnamed, undead, segs := false, {}, {}, [];
    if serviceName == "" || newImage == "" || !imageOk || (strategy != "" && strategy != "rolling" && strategy != "blue-green")
       || healthWait > MAX_HEALTH_WAIT || serviceName !in services {
      r := None;
      return;
    }
    var svc := services[serviceName];
    ghost var z := StartOf(b, svc);
    NothingToRoll(b, svc);
    assert z.unnamed <= z.known && z.failures == |b.failedKills| && z.unnamed == b.unnamed && z.live == b.live by {
      StartFacts(b, svc);
    }
    var report := Report(0, 0, true, []);
    if svc.len == 0 {
    } else if strategy == "blue-green" {
      report, unnamed, undead := BlueGreen(b, svc);
      svc.Save(disk);
    } else {
      report, cancelled, unnamed, undead, segs := Rolling(b, svc, abortOnFailure, cancelAt);
      if !cancelled { svc.Save(disk); }
    }
    r := Some(report);
    if b.failedKills == old(b.failedKills) && b.unnamed == old(b.unnamed) && Elems(old(svc.ids)) <= old(b.live)
       && NoRepeats(old(svc.ids)) {
      CleanRollout(b, svc, z, |old(b.trace)|, old(svc.ids), report, unnamed, undead);
    }
  }

  lemma StartFacts(b: ContainerBackend, svc: Service)
    requires b.Valid()
    ensures var z := StartOf(b, svc);
            z.unnamed <= z.known && z.failures == |b.failedKills| && z.unnamed == b.unnamed && z.live == b.live
  {
  }

  lemma NothingToRoll(b: ContainerBackend, svc: Service)
    requires b.Valid() && svc.Valid() && Elems(svc.ids) <= b.known
    ensures svc.len == |svc.ids|
    ensures Accountable(b, svc, StartOf(b, svc), |b.trace|, svc.ids, Report(0, 0, true, []), {}, {})
  {
    StartOnTrack(b, svc);
    SafeIfCovered(StartOf(b, svc), Now(b), 0);
  }

  ghost predicate NoRepeats(ids: seq<ContainerId>) {
    forall i, j :: 0 <= i < j < |ids| ==> ids[i] != ids[j]
  }

  lemma CleanBooks(z: Start, orig: seq<ContainerId>, cur: seq<ContainerId>, live: set<ContainerId>)
    requires Books(z, orig, cur, live, {}, {}) && Elems(orig) <= z.live
    requires NoRepeats(orig)
    ensures live == z.live - Elems(orig) + Elems(cur)
  {
    forall x | x in Elems(cur) ensures x in live {
      var i :| 0 <= i < |cur| && cur[i] == x;
      if cur[i] == orig[i] {
        assert orig[i] in Elems(orig);
      } else {
        assert x in Incoming(orig, cur);
      }
    }
    forall x | x in live && x in Elems(orig) ensures x in Elems(cur) {
      var i :| 0 <= i < |orig| && orig[i] == x;
      assert cur[i] == orig[i];
    }
  }

  /** With every creation named and every kill successful, a rollout of distinct
      running originals leaves running exactly the registered containers and what
      the service never owned. */
  lemma CleanRollout(b: ContainerBackend, svc: Service, z: Start, from: nat, orig: seq<ContainerId>, r: Report,
                     unnamed: set<ContainerId>, undead: set<ContainerId>)
    requires Accountable(b, svc, z, from, orig, r, unnamed, undead) && z.unnamed <= z.known
    requires |b.failedKills| == z.failures && b.unnamed == z.unnamed
    requires Elems(orig) <= z.live && NoRepeats(orig)
    ensures unnamed == undead == {} && b.live == z.live - Elems(orig) + Elems(svc.ids)
  {
    hide AllSafe, Safe, Tallied, Records;
    assert undead == {};
    assert unnamed == {} by {
      assert unnamed <= b.unnamed;
    }
    CleanBooks(z, orig, svc.ids, b.live);
  }
}
