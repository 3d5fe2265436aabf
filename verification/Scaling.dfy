/** Replica scaling: the registered list and the running containers, call by call. */
module Scaling {
  import opened Common
  import opened Backend

  const MAX_REPLICAS := 20

  ghost predicate Distinct(s: seq<ContainerId>) {
    forall i, j :: 0 <= i < j < |s| ==> s[i] != s[j]
  }

  /** The running containers are the registered ones, each registered once,
      together with `others`, which this service does not register. */
  ghost predicate Accounted(live: set<ContainerId>, ids: seq<ContainerId>, others: set<ContainerId>) {
    Distinct(ids) && Elems(ids) !! others && live == Elems(ids) + others
  }

  lemma AccountedAppend(live: set<ContainerId>, ids: seq<ContainerId>, others: set<ContainerId>, id: ContainerId)
    requires Accounted(live, ids, others) && id !in live
    ensures Accounted(live + {id}, ids + [id], others)
  {
    assert Elems(ids + [id]) == Elems(ids) + {id};
    forall i, j | 0 <= i < j < |ids + [id]| ensures (ids + [id])[i] != (ids + [id])[j] {
      assert (ids + [id])[i] in ids;
    }
  }

  lemma AccountedStray(live: set<ContainerId>, ids: seq<ContainerId>, others: set<ContainerId>, extra: set<ContainerId>)
    requires Accounted(live, ids, others) && extra !! live
    ensures Accounted(live + extra, ids, others + extra)
  {
  }

  lemma AccountedDrop(live: set<ContainerId>, ids: seq<ContainerId>, others: set<ContainerId>, killed: bool)
    requires Accounted(live, ids, others) && ids != []
    ensures var id, rest := ids[|ids| - 1], ids[..|ids| - 1];
            if killed then Accounted(live - {id}, rest, others) else Accounted(live, rest, others + {id})
  {
    var id, rest := ids[|ids| - 1], ids[..|ids| - 1];
    assert ids == rest + [id];
    assert Elems(ids) == Elems(rest) + {id};
    assert id !in rest;
  }

  /** How a scale call ends: refused up front, stopped after `created` of the
      needed creations, or carried through. */
  datatype Outcome = Rejected | Stopped(created: nat) | Done

  /** One creation was asked for, and refused or not. */
  ghost predicate Asked(past: seq<Event>, log: seq<Event>, refused: bool) {
    |log| == |past| + 1 && past <= log && log[|past|].Created? && log[|past|].reply.Refused? == refused
  }

  /** So many creations were asked for and accepted and, if the last word is a
      refusal, one more was refused. */
  ghost predicate AskedMany(past: seq<Event>, log: seq<Event>, accepted: nat, refused: bool) {
    && past <= log && |log| == |past| + accepted + (if refused then 1 else 0)
    && forall i :: |past| <= i < |log| ==> log[i].Created? && log[i].reply.Refused? == (refused && i == |log| - 1)
  }

  lemma AskedOneMore(past: seq<Event>, mid: seq<Event>, log: seq<Event>, accepted: nat, refused: bool)
    requires AskedMany(past, mid, accepted, false) && Asked(mid, log, refused)
    ensures AskedMany(past, log, if refused then accepted else accepted + 1, refused)
  {
  }

  lemma AskedNone(past: seq<Event>)
    ensures AskedMany(past, past, 0, false)
  {
  }

  /** One creation. A container whose reply carries no ID runs without being registered. */
  method CreateReplica(b: ContainerBackend, svc: Service, ghost others: set<ContainerId>)
    returns (refused: bool, ghost unnamed: set<ContainerId>)
    requires b.Valid() && svc.Valid()
    modifies b, svc`backing, svc`len, svc`ids, svc.backing
    ensures b.Valid() && svc.Valid() && (svc.backing == old(svc.backing) || fresh(svc.backing))
    ensures old(svc.ids) <= svc.ids && unnamed !! old(b.known) && old(b.known) + unnamed <= b.known
    ensures |svc.ids| + |unnamed| == |old(svc.ids)| + if refused then 0 else 1
    ensures b.unnamed == old(b.unnamed) + unnamed && b.failedKills == old(b.failedKills)
    ensures old(Accounted(b.live, svc.ids, others)) ==> Accounted(b.live, svc.ids, others + unnamed)
    ensures Asked(old(b.log), b.log, refused)
  {
    ghost var was, ids := b.live, svc.ids;
    ghost var accounted := Accounted(was, ids, others);
    var reply;
    reply, unnamed := b.CreateSandbox();
    if accounted { AccountedStray(was, ids, others, unnamed); }
    if reply.Accepted? && reply.id.Some? {
      if accounted { AccountedAppend(was, ids, others, reply.id.value); }
      svc.Append(reply.id.value);
      assert others + unnamed == others;
    }
    refused := reply.Refused?;
  }

  /** Creates up to `needed` containers, stopping at the first refusal. */
  method CreateReplicas(b: ContainerBackend, svc: Service, needed: nat, ghost others: set<ContainerId>)
    returns (made: nat, ghost unnamed: set<ContainerId>)
    requires b.Valid() && svc.Valid()
    modifies b, svc`backing, svc`len, svc`ids, svc.backing
    ensures b.Valid() && svc.Valid() && (svc.backing == old(svc.backing) || fresh(svc.backing))
    ensures old(svc.ids) <= svc.ids
    ensures old(Accounted(b.live, svc.ids, others)) ==> Accounted(b.live, svc.ids, others + unnamed)
    ensures |svc.ids| + |unnamed| == |old(svc.ids)| + made && made <= needed
    ensures AskedMany(old(b.log), b.log, made, made < needed)
    ensures b.unnamed == old(b.unnamed) + unnamed && b.failedKills == old(b.failedKills)
    ensures unnamed !! old(b.known) && old(b.known) + unnamed <= b.known
  {
    hide AskedMany, Asked, Records;
    unnamed := {};
    made := 0;
    assert others + unnamed == others;
    AskedNone(b.log);
    var refused := false;
    while made < needed && !refused
      invariant made <= needed && (refused ==> made < needed) && AskedMany(old(b.log), b.log, made, refused)
      invariant b.Valid() && svc.Valid() && (svc.backing == old(svc.backing) || fresh(svc.backing))
      invariant old(svc.ids) <= svc.ids && |svc.ids| + |unnamed| == |old(svc.ids)| + made
      invariant b.unnamed == old(b.unnamed) + unnamed && b.failedKills == old(b.failedKills)
      invariant unnamed <= b.known && unnamed !! old(b.known) && old(b.known) <= b.known
      invariant old(Accounted(b.live, svc.ids, others)) ==> Accounted(b.live, svc.ids, others + unnamed)
      decreases needed - made, !refused
    {
      ghost var extra, log := {}, b.log;
      refused, extra := CreateReplica(b, svc, others + unnamed);
      UnionAssociative(others, unnamed, extra);
      UnionAssociative(old(b.unnamed), unnamed, extra);
      DisjointUnionSize(unnamed, extra);
      unnamed := unnamed + extra;
      AskedOneMore(old(b.log), log, b.log, made, refused);
      made := if refused then made else made + 1;
    }
  }

  /** Creates what is missing; a refusal ends the call with what was created so far. */
  method ScaleUp(b: ContainerBackend, svc: Service, target: nat, disk: DiskOutcome, ghost others: set<ContainerId>)
    returns (r: Outcome, ghost unnamed: set<ContainerId>)
    requires b.Valid() && svc.Valid() && |svc.ids| <= target
    modifies b, svc, svc.backing
    ensures b.Valid() && svc.Valid() && (svc.backing == old(svc.backing) || fresh(svc.backing))
    ensures old(svc.ids) <= svc.ids
    ensures old(Accounted(b.live, svc.ids, others)) ==> Accounted(b.live, svc.ids, others + unnamed)
    ensures r.Done? ==> |svc.ids| + |unnamed| == target && svc.replicas == |svc.ids|
    ensures AskedMany(old(b.log), b.log, if r.Stopped? then r.created else target - |old(svc.ids)|, r.Stopped?)
    ensures r.Stopped? ==> |svc.ids| + |unnamed| == |old(svc.ids)| + r.created < target && svc.replicas == old(svc.replicas)
    ensures !r.Rejected? && svc.saved == AfterWrite(old(svc.saved), svc.ids, disk)
    ensures b.unnamed == old(b.unnamed) + unnamed && b.failedKills == old(b.failedKills)
    ensures unnamed !! old(b.known) && old(b.known) + unnamed <= b.known
  {
    hide AskedMany, Records;
    var needed := target - svc.len;
    var made;
    made, unnamed := CreateReplicas(b, svc, needed, others);
    if made < needed {
      svc.Save(disk);
      return Stopped(made), unnamed;
    }
    svc.replicas := svc.len;
    svc.Save(disk);
    r := Done;
  }

  /** Kills the last replica and drops it from the list; `still` is it, if the kill failed. */
  method DropReplica(b: ContainerBackend, svc: Service, ghost others: set<ContainerId>) returns (ghost still: set<ContainerId>)
    requires b.Valid() && svc.Valid() && svc.len > 0
    modifies b`live, b`failedKills, b`trace, b`log, svc`len, svc`ids
    ensures b.Valid() && svc.Valid() && svc.ids == old(svc.ids)[..|old(svc.ids)| - 1]
    ensures still <= {old(svc.ids)[|old(svc.ids)| - 1]}
    ensures old(b.failedKills) <= b.failedKills && Survived(still, b.failedKills, |old(b.failedKills)|)
    ensures old(Accounted(b.live, svc.ids, others)) ==> Accounted(b.live, svc.ids, others + still)
  {
    var id := svc.backing[svc.len - 1];
    ghost var was, ids := b.live, svc.ids;
    var killed := b.KillSandbox(id);
    still := if killed then {} else {id};
    assert others + {} == others;
    if Accounted(was, ids, others) { AccountedDrop(was, ids, others, killed); }
    svc.DropLast();
  }

  /** Drops replicas from the end of the list until `target` are left. */
  method DropReplicas(b: ContainerBackend, svc: Service, target: nat, ghost others: set<ContainerId>)
    returns (ghost undead: set<ContainerId>)
    requires b.Valid() && svc.Valid() && target <= |svc.ids|
    modifies b`live, b`failedKills, b`trace, b`log, svc`len, svc`ids
    ensures b.Valid() && svc.Valid() && svc.ids == old(svc.ids)[..target]
    ensures undead <= Elems(old(svc.ids)[target..]) && Survived(undead, b.failedKills, |old(b.failedKills)|)
    ensures old(b.failedKills) <= b.failedKills
    ensures old(Accounted(b.live, svc.ids, others)) ==> Accounted(b.live, svc.ids, others + undead)
  {
    hide Accounted, Survived, Records;
    undead := {};
    SurvivedNone(b.failedKills);
    assert others + undead == others;
    while svc.len > target
      invariant b.Valid() && svc.Valid()
      invariant target <= svc.len <= |old(svc.ids)| && svc.ids == old(svc.ids)[..svc.len]
      invariant undead <= Elems(old(svc.ids)[svc.len..])
      invariant old(b.failedKills) <= b.failedKills && Survived(undead, b.failedKills, |old(b.failedKills)|)
      invariant old(Accounted(b.live, svc.ids, others)) ==> Accounted(b.live, svc.ids, others + undead)
      decreases svc.len
    {
      ghost var fails := b.failedKills;
      ghost var still := DropReplica(b, svc, others + undead);
      SurvivedMore(undead, fails, |old(b.failedKills)|, still, b.failedKills);
      UnionAssociative(others, undead, still);
      undead := undead + still;
      assert old(svc.ids)[svc.len..] == [old(svc.ids)[svc.len]] + old(svc.ids)[svc.len + 1..];
    }
  }

  /** Removes replicas from the end of the list; a failed kill is ignored, and
      leaves the container running without being registered. */
  method ScaleDown(b: ContainerBackend, svc: Service, target: nat, disk: DiskOutcome, ghost others: set<ContainerId>)
    returns (ghost undead: set<ContainerId>)
    requires b.Valid() && svc.Valid() && target <= |svc.ids|
    modifies b`live, b`failedKills, b`trace, b`log, svc
    ensures b.Valid() && svc.Valid() && svc.backing == old(svc.backing)
    ensures svc.ids == old(svc.ids)[..target]
    ensures undead <= Elems(old(svc.ids)[target..]) && Survived(undead, b.failedKills, |old(b.failedKills)|)
    ensures old(b.failedKills) <= b.failedKills
    ensures old(Accounted(b.live, svc.ids, others)) ==> Accounted(b.live, svc.ids, others + undead)
    ensures svc.replicas == target && svc.saved == AfterWrite(old(svc.saved), svc.ids, disk)
  {
    hide Accounted, Survived, Records;
    undead := DropReplicas(b, svc, target, others);
    svc.replicas := svc.len;
    svc.Save(disk);
  }

  /** Sets the number of replicas. It ends with exactly `n` registered, keeping a
      prefix of the list or extending it, except that a creation whose reply named
      no container leaves one replica fewer. */
  method ScaleSet(b: ContainerBackend, services: map<string, Service>, name: string, n: int, disk: DiskOutcome,
                  ghost others: set<ContainerId>)
    returns (r: Outcome, ghost unnamed: set<ContainerId>, ghost undead: set<ContainerId>)
    requires b.Valid()
    requires name in services ==> services[name].Valid()
    modifies b, if name in services then {services[name]} else {}, if name in services then {services[name].backing} else {}
    ensures b.Valid()
    ensures r.Rejected? <==> n < 0 || n > MAX_REPLICAS || name !in services
    ensures r.Rejected? ==> unnamed == undead == {} && b.live == old(b.live)
    ensures b.unnamed == old(b.unnamed) + unnamed && unnamed !! old(b.known) && old(b.known) + unnamed <= b.known
    ensures old(b.failedKills) <= b.failedKills && Survived(undead, b.failedKills, |old(b.failedKills)|)
    ensures name in services ==>
      var s := services[name];
      && s.Valid() && (s.backing == old(s.backing) || fresh(s.backing))
      && (old(Accounted(b.live, s.ids, others)) ==> Accounted(b.live, s.ids, others + unnamed + undead))
      && (r.Rejected? ==> s.ids == old(s.ids))
      && s.saved == (if r.Rejected? || n == |old(s.ids)| then old(s.saved) else AfterWrite(old(s.saved), s.ids, disk))
      && (r.Done? ==> |s.ids| == n - |unnamed|)
      && (r.Done? ==> if n <= |old(s.ids)| then s.ids == old(s.ids)[..n]
                      else old(s.ids) <= s.ids)
      && (r.Stopped? ==> n > |old(s.ids)| && old(s.ids) <= s.ids
                         && |s.ids| == |old(s.ids)| + r.created - |unnamed|)
      && (!r.Rejected? && n > |old(s.ids)| ==>
            AskedMany(old(b.log), b.log, if r.Stopped? then r.created else n - |old(s.ids)|, r.Stopped?))
  {
    hide Accounted, Survived, Records, AskedMany;
    unnamed, undead := {}, {};
    SurvivedNone(b.failedKills);
    if n < 0 || n > MAX_REPLICAS || name !in services {
      assert others + unnamed + undead == others;
      return Rejected, unnamed, undead;
    }
    var svc := services[name];
    if n == svc.len {
      assert svc.ids[..n] == svc.ids;
      assert others + unnamed + undead == others;
      return Done, unnamed, undead;
    }
    if n > svc.len {
      r, unnamed := ScaleUp(b, svc, n, disk, others);
      assert others + unnamed + undead == others + unnamed;
    } else {
      undead := ScaleDown(b, svc, n, disk, others);
      assert others + unnamed + undead == others + undead;
      r := Done;
    }
  }

  /** Any sequence of scale calls on a service accounts for every container: the
      running ones are the registered ones, plus exactly those that some reply
      failed to name or some kill failed to stop. */
  method ScaleRepeatedly(b: ContainerBackend, services: map<string, Service>, name: string, targets: seq<int>,
                         ghost others: set<ContainerId>)
    returns (ghost unnamed: set<ContainerId>, ghost undead: set<ContainerId>)
    requires b.Valid() && name in services && services[name].Valid()
    requires Accounted(b.live, services[name].ids, others)
    modifies b, services[name], services[name].backing
    ensures services[name].Valid() && Accounted(b.live, services[name].ids, others + unnamed + undead)
    ensures b.unnamed == old(b.unnamed) + unnamed && unnamed !! old(b.known) && Survived(undead, b.failedKills, |old(b.failedKills)|)
  {
    unnamed, undead := {}, {};
    assert others + unnamed + undead == others;
    assert Survived(undead, b.failedKills, |b.failedKills|);
    hide Accounted, Survived;
    ghost var svc := services[name];
    for k := 0 to |targets|
      invariant b.Valid() && svc.Valid() && (svc.backing == old(svc.backing) || fresh(svc.backing))
      invariant Accounted(b.live, svc.ids, others + unnamed + undead)
      invariant b.unnamed == old(b.unnamed) + unnamed
      invariant unnamed !! old(b.known) && old(b.known) + unnamed <= b.known
      invariant old(b.failedKills) <= b.failedKills && Survived(undead, b.failedKills, |old(b.failedKills)|)
    {
      ghost var fails := b.failedKills;
      var r; ghost var more, still;
      var disk: DiskOutcome := *;
      r, more, still := ScaleSet(b, services, name, targets[k], disk, others + unnamed + undead);
      SurvivedMore(undead, fails, |old(b.failedKills)|, still, b.failedKills);
      UnionAssociative(old(b.unnamed), unnamed, more);
      Regroup(others, unnamed, undead, more, still);
      unnamed, undead := unnamed + more, undead + still;
    }
  }

  lemma Regroup<T>(a: set<T>, b: set<T>, c: set<T>, d: set<T>, e: set<T>)
    ensures a + b + c + d + e == a + (b + d) + (c + e)
  {
  }
}
