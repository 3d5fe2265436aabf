/**
 The failover protocol run by several managers over an unreliable network.

 Everything ever sent stays available for delivery, so a delivery step may
 lose, delay, duplicate and reorder heartbeats at will. A failover check and
 the promotion it leads to are separate steps, as they take the lock separately.
 Nodes do not crash and their IDs are distinct (they key the map of nodes).
 */
module HaCluster {
  import opened HaNode

  datatype Cluster = Cluster(clock: int, nodes: map<string, Node>, sent: set<Heartbeat>, suspecting: set<string>)

  datatype Step =
    | Tick(elapsed: nat)
    | Dispatch(id: string)
    | Deliver(id: string, hb: Heartbeat)
    | Check(id: string)
    | Promote(id: string)

  ghost predicate Init(c: Cluster) {
    && c.sent == {} && c.suspecting == {}
    && (forall id :: id in c.nodes ==> c.nodes[id].selfId == id && c.nodes[id].lastHeartbeat <= c.clock)
  }

  ghost predicate Enabled(c: Cluster, s: Step) {
    match s
    case Tick(_) => true
    case Dispatch(id) => id in c.nodes
    case Deliver(id, hb) => id in c.nodes && hb in c.sent
    case Check(id) => id in c.nodes
    case Promote(id) => id in c.nodes && id in c.suspecting
  }

  ghost function Apply(c: Cluster, s: Step): Cluster
    requires Enabled(c, s)
  {
    match s
    case Tick(d) => c.(clock := c.clock + d)
    case Dispatch(id) => c.(sent := c.sent + {Beat(c.nodes[id])})
    case Deliver(id, hb) => c.(nodes := c.nodes[id := Receive(c.nodes[id], hb, c.clock)])
    case Check(id) =>
      if Suspects(c.nodes[id], c.clock) then c.(suspecting := c.suspecting + {id}) else c
    case Promote(id) =>
      c.(nodes := c.nodes[id := Promoted(c.nodes[id], c.clock)], suspecting := c.suspecting - {id})
  }

  /** `run` is the sequence of states that `steps` goes through. */
  ghost predicate IsRun(run: seq<Cluster>, steps: seq<Step>) {
    && |run| == |steps| + 1
    && Init(run[0])
    && forall i :: 0 <= i < |steps| ==> Enabled(run[i], steps[i]) && run[i + 1] == Apply(run[i], steps[i])
  }

  ghost function ActiveSet(c: Cluster): set<string> {
    set id | id in c.nodes && c.nodes[id].role.Active?
  }

  /** The nodes that are active in some state of the run. */
  ghost function EverActive(run: seq<Cluster>): set<string> {
    if run == [] then {} else EverActive(run[..|run| - 1]) + ActiveSet(run[|run| - 1])
  }

  ghost predicate Beats(c: Cluster, a: string, b: string)
    requires a in c.nodes && b in c.nodes
  {
    Outranks(c.nodes[a].priority, a, c.nodes[b].priority, b)
  }

  /** `b` is the best-ranked node of `ids`. */
  ghost predicate IsBest(c: Cluster, b: string, ids: set<string>) {
    b in ids && ids <= c.nodes.Keys && forall o :: o in ids && o != b ==> Beats(c, b, o)
  }

  // ---- The invariant: what the messages in flight prove about the past ----

  ghost predicate Inv(c: Cluster, ever: set<string>) {
    && (forall id :: id in c.nodes ==> c.nodes[id].selfId == id)
    && ActiveSet(c) <= ever <= c.nodes.Keys
    && (forall hb :: hb in c.sent && hb.role.Active? ==>
          hb.fromId in ever && hb.priority == c.nodes[hb.fromId].priority)
    && (forall b :: IsBest(c, b, ever) ==> b in ActiveSet(c))
  }

  /** A node's identity and priority never change. */
  ghost predicate SameMembers(c: Cluster, d: Cluster) {
    && c.nodes.Keys == d.nodes.Keys
    && forall id :: id in c.nodes ==> c.nodes[id].selfId == d.nodes[id].selfId && c.nodes[id].priority == d.nodes[id].priority
  }

  lemma StepKeepsMembers(c: Cluster, s: Step)
    requires Enabled(c, s)
    ensures SameMembers(c, Apply(c, s))
  {
  }

  /** No heartbeat in flight can make the best-ranked ever-active node stand down. */
  lemma BestResists(c: Cluster, ever: set<string>, b: string, hb: Heartbeat)
    requires Inv(c, ever) && IsBest(c, b, ever) && hb in c.sent
    ensures Receive(c.nodes[b], hb, c.clock).role.Active?
  {
    assert b in ActiveSet(c);
    if hb.role.Active? && hb.fromId != b {
      assert Beats(c, b, hb.fromId);
      OutranksIsTotalOrder(c.nodes[b].priority, b, hb.priority, hb.fromId, 0, b);
    }
  }

  lemma StepKeepsInv(c: Cluster, ever: set<string>, s: Step)
    requires Inv(c, ever) && Enabled(c, s)
    ensures Inv(Apply(c, s), ever + ActiveSet(Apply(c, s)))
  {
    var d := Apply(c, s);
    var ever' := ever + ActiveSet(d);
    StepKeepsMembers(c, s);
    forall b | IsBest(d, b, ever')
      ensures b in ActiveSet(d)
    {
      if b in ever {
        forall o | o in ever && o != b ensures Beats(c, b, o) { assert Beats(d, b, o); }
        assert IsBest(c, b, ever);
        if s.Deliver? && s.id == b { BestResists(c, ever, b, s.hb); }
      }
    }
  }

  lemma {:induction false} RunKeepsInv(run: seq<Cluster>, steps: seq<Step>)
    requires IsRun(run, steps)
    ensures Inv(run[|run| - 1], EverActive(run))
  {
    var n := |steps|;
    if n == 0 {
      assert EverActive(run) == ActiveSet(run[0]) by { assert run[..0] == []; }
    } else {
      var prefix := run[..n];
      RunKeepsInv(prefix, steps[..n - 1]);
      StepKeepsInv(prefix[n - 1], EverActive(prefix), steps[n - 1]);
    }
  }

  /** Safety of failover: in every state of every run, the best-ranked node
      among all that have been active so far is active now. */
  lemma BestEverActiveIsActive(run: seq<Cluster>, steps: seq<Step>, b: string)
    requires IsRun(run, steps)
    requires IsBest(run[|run| - 1], b, EverActive(run))
    ensures run[|run| - 1].nodes[b].role.Active?
  {
    RunKeepsInv(run, steps);
  }

  /** A non-empty set of nodes has a best-ranked member. */
  lemma {:induction false} SomeoneIsBest(c: Cluster, ids: set<string>) returns (b: string)
    requires ids != {} && ids <= c.nodes.Keys
    ensures IsBest(c, b, ids)
  {
    var x :| x in ids;
    if ids == {x} {
      b := x;
    } else {
      var y := SomeoneIsBest(c, ids - {x});
      OutranksIsTotalOrder(c.nodes[x].priority, x, c.nodes[y].priority, y, 0, x);
      if Beats(c, y, x) {
        b := y;
      } else {
        b := x;
        forall o | o in ids && o != x ensures Beats(c, x, o) {
          assert o in ids - {x};
          OutranksIsTotalOrder(c.nodes[x].priority, x, c.nodes[y].priority, y, c.nodes[o].priority, o);
        }
      }
    }
  }

  /** Once some node has been active, there is never a state without an active one. */
  lemma NeverLeaderless(run: seq<Cluster>, steps: seq<Step>)
    requires IsRun(run, steps)
    requires EverActive(run) != {}
    ensures ActiveSet(run[|run| - 1]) != {}
  {
    RunKeepsInv(run, steps);
    var b := SomeoneIsBest(run[|run| - 1], EverActive(run));
    BestEverActiveIsActive(run, steps, b);
    assert b in ActiveSet(run[|run| - 1]);
  }

  // ---- Split-brain convergence ----

  ghost predicate NoPromotions(steps: seq<Step>, from: nat) {
    forall i :: from <= i < |steps| ==> !steps[i].Promote?
  }

  /** From state `from` on, a heartbeat of active node `s` is delivered to `d`. */
  ghost predicate Heard(steps: seq<Step>, from: nat, s: string, d: string) {
    exists i :: from <= i < |steps| && steps[i].Deliver? && steps[i].id == d
                && steps[i].hb.fromId == s && steps[i].hb.role.Active?
  }

  /** Every node active in state `from` hears every other one, in any order and
      mixed with any other traffic. */
  ghost predicate FullRound(run: seq<Cluster>, steps: seq<Step>, from: nat)
    requires from < |run|
  {
    forall s, d :: s in ActiveSet(run[from]) && d in ActiveSet(run[from]) && s != d ==> Heard(steps, from, s, d)
  }

  lemma {:induction false} ActiveOnlyShrinks(run: seq<Cluster>, steps: seq<Step>, from: nat, end: nat)
    requires IsRun(run, steps) && from <= end < |run| && NoPromotions(steps, from)
    ensures ActiveSet(run[end]) <= ActiveSet(run[from])
    decreases end
  {
    if from < end {
      ActiveOnlyShrinks(run, steps, from, end - 1);
      assert Enabled(run[end - 1], steps[end - 1]);
    }
  }

  lemma {:induction false} MembersAgree(run: seq<Cluster>, steps: seq<Step>, i: nat, j: nat)
    requires IsRun(run, steps) && i <= j < |run|
    ensures SameMembers(run[i], run[j])
    decreases j
  {
    hide Apply, Enabled, Init, Receive;
    if i < j {
      assert Enabled(run[j - 1], steps[j - 1]) && run[j] == Apply(run[j - 1], steps[j - 1]);
      MembersAgree(run, steps, i, j - 1);
      StepKeepsMembers(run[j - 1], steps[j - 1]);
    }
  }

  lemma RunPrefix(run: seq<Cluster>, steps: seq<Step>, k: nat)
    requires IsRun(run, steps) && k < |run|
    ensures IsRun(run[..k + 1], steps[..k])
    ensures run[..k + 1][k] == run[k]
  {
  }

  lemma DeliveryDemotes(c: Cluster, ever: set<string>, d: string, hb: Heartbeat)
    requires Inv(c, ever) && Enabled(c, Deliver(d, hb)) && hb.role.Active? && hb.fromId != d
    requires hb.fromId in c.nodes && Beats(c, hb.fromId, d)
    ensures d !in ActiveSet(Apply(c, Deliver(d, hb)))
  {
  }

  /** Any node outranked by an active node it hears from is no longer active at the end. */
  lemma OutrankedStandsDown(run: seq<Cluster>, steps: seq<Step>, from: nat, b: string, d: string)
    requires IsRun(run, steps) && from < |run| && NoPromotions(steps, from)
    requires b in run[from].nodes && d in run[from].nodes && b != d
    requires Beats(run[from], b, d) && Heard(steps, from, b, d)
    ensures d !in ActiveSet(run[|run| - 1])
  {
    hide ActiveSet, Inv, Apply, Outranks, EverActive;
    var i :| from <= i < |steps| && steps[i].Deliver? && steps[i].id == d
             && steps[i].hb.fromId == b && steps[i].hb.role.Active?;
    RunPrefix(run, steps, i);
    RunKeepsInv(run[..i + 1], steps[..i]);
    MembersAgree(run, steps, from, i);
    assert Enabled(run[i], steps[i]) && run[i + 1] == Apply(run[i], steps[i]);
    DeliveryDemotes(run[i], EverActive(run[..i + 1]), d, steps[i].hb);
    ActiveOnlyShrinks(run, steps, i + 1, |run| - 1);
  }

  /** One full round without promotions, from any reachable state with an active
      node, leaves exactly one node active: the best-ranked of those active before. */
  lemma RoundConverges(run: seq<Cluster>, steps: seq<Step>, from: nat, b: string)
    requires IsRun(run, steps) && from < |run|
    requires NoPromotions(steps, from) && FullRound(run, steps, from)
    requires IsBest(run[from], b, ActiveSet(run[from]))
    ensures ActiveSet(run[|run| - 1]) == {b}
  {
    var last := run[|run| - 1];
    ActiveOnlyShrinks(run, steps, from, |run| - 1);
    forall d | d in ActiveSet(run[from]) && d != b ensures d !in ActiveSet(last) {
      OutrankedStandsDown(run, steps, from, b, d);
    }
    assert EverActive(run) != {} by { EverActiveGrows(run, from, b); }
    NeverLeaderless(run, steps);
    assert ActiveSet(last) <= {b};
  }

  lemma {:induction false} EverActiveGrows(run: seq<Cluster>, i: nat, id: string)
    requires i < |run| && id in ActiveSet(run[i])
    ensures id in EverActive(run)
  {
    if i < |run| - 1 {
      EverActiveGrows(run[..|run| - 1], i, id);
    }
  }

  // ---- Counting role changes ----

  ghost function Demotions(run: seq<Cluster>): nat {
    if |run| < 2 then 0
    else Demotions(run[..|run| - 1]) + |ActiveSet(run[|run| - 2]) - ActiveSet(run[|run| - 1])|
  }

  ghost function Promotions(run: seq<Cluster>): nat {
    if |run| < 2 then 0
    else Promotions(run[..|run| - 1]) + |ActiveSet(run[|run| - 1]) - ActiveSet(run[|run| - 2])|
  }

  lemma {:induction false} RoleChangesBalance(run: seq<Cluster>)
    requires run != []
    ensures Demotions(run) + |ActiveSet(run[|run| - 1])| == |ActiveSet(run[0])| + Promotions(run)
  {
    hide ActiveSet;
    if |run| > 1 {
      RoleChangesBalance(run[..|run| - 1]);
      Exchange(ActiveSet(run[|run| - 2]), ActiveSet(run[|run| - 1]));
    }
  }

  lemma Exchange(a: set<string>, b: set<string>)
    ensures |a - b| + |b| == |a| + |b - a|
  {
    assert a == (a - b) + (a * b) && b == (b - a) + (a * b);
  }

  /** Over any run that has known an active node, demotions stay below the
      initially active nodes plus the promotions. */
  lemma DemotionsAreBounded(run: seq<Cluster>, steps: seq<Step>)
    requires IsRun(run, steps) && EverActive(run) != {}
    ensures Demotions(run) < |ActiveSet(run[0])| + Promotions(run)
  {
    NeverLeaderless(run, steps);
    RoleChangesBalance(run);
  }

  // ---- A promotion needs silence ----

  /** At state `j`, every heartbeat delivered to `id` so far is at least the
      failover timeout old. */
  ghost predicate SilentAt(run: seq<Cluster>, steps: seq<Step>, j: nat, id: string)
    requires |run| == |steps| + 1 && j < |run|
  {
    forall i :: 0 <= i < j && steps[i].Deliver? && steps[i].id == id ==> run[i].clock + FAILOVER_TIMEOUT <= run[j].clock
  }

  /** The timer of a node is never behind any heartbeat it accepted. */
  lemma {:induction false} TimerCoversDeliveries(run: seq<Cluster>, steps: seq<Step>, k: nat, id: string, i: nat)
    requires IsRun(run, steps) && i < k < |run|
    requires steps[i].Deliver? && steps[i].id == id
    ensures id in run[k].nodes && run[i].clock <= run[k].nodes[id].lastHeartbeat <= run[k].clock
    decreases k
  {
    assert Enabled(run[k - 1], steps[k - 1]) && run[k] == Apply(run[k - 1], steps[k - 1]);
    TimersInPast(run, steps, k - 1);
    if i < k - 1 {
      TimerCoversDeliveries(run, steps, k - 1, id, i);
    }
  }

  lemma {:induction false} TimersInPast(run: seq<Cluster>, steps: seq<Step>, k: nat)
    requires IsRun(run, steps) && k < |run|
    ensures forall id :: id in run[k].nodes ==> run[k].nodes[id].lastHeartbeat <= run[k].clock
  {
    if k > 0 {
      TimersInPast(run, steps, k - 1);
      assert Enabled(run[k - 1], steps[k - 1]);
    }
  }

  lemma {:induction false} SuspicionHasCheck(run: seq<Cluster>, steps: seq<Step>, k: nat, id: string) returns (j: nat)
    requires IsRun(run, steps) && k < |run| && id in run[k].suspecting
    ensures j < k && steps[j] == Check(id) && SilentAt(run, steps, j, id)
    ensures id in run[j].nodes && run[j].nodes[id].role.Standby?
    ensures forall i :: j < i < k ==> steps[i] != Promote(id)
  {
    assert k > 0;
    assert Enabled(run[k - 1], steps[k - 1]) && run[k] == Apply(run[k - 1], steps[k - 1]);
    if id in run[k - 1].suspecting {
      j := SuspicionHasCheck(run, steps, k - 1, id);
    } else {
      j := k - 1;
      forall i | 0 <= i < j && steps[i].Deliver? && steps[i].id == id
        ensures run[i].clock + FAILOVER_TIMEOUT <= run[j].clock
      {
        TimerCoversDeliveries(run, steps, j, id, i);
      }
    }
  }

  /** Every promotion goes back to a check of its own, made when the node was standby
      and had accepted no heartbeat for the whole failover timeout. */
  lemma PromotionNeedsSilence(run: seq<Cluster>, steps: seq<Step>, k: nat) returns (j: nat)
    requires IsRun(run, steps) && k < |steps| && steps[k].Promote?
    ensures j < k && steps[j] == Check(steps[k].id) && SilentAt(run, steps, j, steps[k].id)
    ensures steps[k].id in run[j].nodes && run[j].nodes[steps[k].id].role.Standby?
    ensures forall i :: j < i < k ==> steps[i] != steps[k]
  {
    assert Enabled(run[k], steps[k]);
    j := SuspicionHasCheck(run, steps, k, steps[k].id);
  }

  // ---- And silence is noticed ----

  /** The steps that restart the failover timer of a node. */
  ghost predicate Restarts(s: Step, id: string) {
    (s.Deliver? && s.id == id) || s == Promote(id)
  }

  /** By time `t` the timer has been at rest: it was not started later than that, at
      first or by any step so far. */
  ghost predicate AtRestSince(run: seq<Cluster>, steps: seq<Step>, k: nat, id: string, t: int)
    requires |run| == |steps| + 1 && k < |run| && id in run[0].nodes
  {
    run[0].nodes[id].lastHeartbeat <= t && forall i :: 0 <= i < k && Restarts(steps[i], id) ==> run[i].clock <= t
  }

  /** The timer is the latest of its starts. */
  lemma {:induction false} TimerIsLatestStart(run: seq<Cluster>, steps: seq<Step>, k: nat, id: string, t: int)
    requires IsRun(run, steps) && k < |run| && id in run[0].nodes && id in run[k].nodes
    ensures run[k].nodes[id].lastHeartbeat <= t <==> AtRestSince(run, steps, k, id, t)
    decreases k
  {
    if k > 0 {
      var p := k - 1;
      assert Enabled(run[p], steps[p]) && run[k] == Apply(run[p], steps[p]);
      StepKeepsMembers(run[p], steps[p]);
      TimersInPast(run, steps, p);
      TimerIsLatestStart(run, steps, p, id, t);
      if Restarts(steps[p], id) {
        TimerIsLatestStart(run, steps, p, id, run[p].clock);
        assert run[k].nodes[id].lastHeartbeat == run[p].clock;
      } else {
        assert run[k].nodes[id].lastHeartbeat == run[p].nodes[id].lastHeartbeat;
      }
    }
  }

  /** A check makes a node suspect the active one exactly if it is standby and for the
      whole failover timeout nothing has restarted its timer. */
  lemma CheckSuspectsIff(run: seq<Cluster>, steps: seq<Step>, j: nat, id: string)
    requires IsRun(run, steps) && j < |steps| && steps[j] == Check(id) && id in run[0].nodes
    ensures id in run[j].nodes
    ensures id in run[j + 1].suspecting <==>
            || id in run[j].suspecting
            || (run[j].nodes[id].role.Standby? && AtRestSince(run, steps, j, id, run[j].clock - FAILOVER_TIMEOUT))
  {
    assert Enabled(run[j], steps[j]) && run[j + 1] == Apply(run[j], steps[j]);
    TimerIsLatestStart(run, steps, j, id, run[j].clock - FAILOVER_TIMEOUT);
  }

  /** A promotion makes its node active and settles its suspicion; only such a step makes a node active. */
  lemma OnlyPromotionActivates(run: seq<Cluster>, steps: seq<Step>, k: nat, id: string)
    requires IsRun(run, steps) && k < |steps| && id in run[k].nodes && id !in ActiveSet(run[k])
    ensures id in ActiveSet(run[k + 1]) <==> steps[k] == Promote(id)
    ensures steps[k] == Promote(id) ==> id !in run[k + 1].suspecting
  {
    assert Enabled(run[k], steps[k]) && run[k + 1] == Apply(run[k], steps[k]);
  }
}
