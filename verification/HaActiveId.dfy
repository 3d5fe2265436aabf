/** What a node's record of the active node is worth. */
module HaActiveId {
  import opened HaNode
  import opened HaCluster

  /** Initially active nodes name themselves, as the constructor makes them. */
  ghost predicate SelfNaming(c: Cluster) {
    forall id :: id in ActiveSet(c) ==> c.nodes[id].activeId == id
  }

  // ---- An active node names itself or someone it outranks ----

  ghost predicate NamesItselfOrLoser(c: Cluster, ever: set<string>, id: string)
    requires id in c.nodes
  {
    var named := c.nodes[id].activeId;
    named == id || (named in ever && named in c.nodes && Beats(c, id, named))
  }

  ghost predicate NamesInv(c: Cluster, ever: set<string>) {
    forall id :: id in ActiveSet(c) ==> id in c.nodes && NamesItselfOrLoser(c, ever, id)
  }

  /** A receiver that stays active has heard itself or a node that it outranks. */
  lemma DeliveryNames(c: Cluster, ever: set<string>, id: string, hb: Heartbeat)
    requires Inv(c, ever) && NamesInv(c, ever) && Enabled(c, Deliver(id, hb))
    requires id in ActiveSet(Apply(c, Deliver(id, hb)))
    ensures NamesItselfOrLoser(Apply(c, Deliver(id, hb)), ever, id)
  {
    assert id in ActiveSet(c);
    if hb.role.Active? && hb.fromId != id {
      OutranksIsTotalOrder(c.nodes[id].priority, id, hb.priority, hb.fromId, 0, id);
    } else if hb.role.Active? {
      assert Apply(c, Deliver(id, hb)).nodes[id].activeId == id;
    } else {
      assert NamesItselfOrLoser(c, ever, id);
    }
  }

  lemma StepKeepsNames(c: Cluster, ever: set<string>, s: Step)
    requires Inv(c, ever) && NamesInv(c, ever) && Enabled(c, s)
    ensures NamesInv(Apply(c, s), ever + ActiveSet(Apply(c, s)))
  {
    var d := Apply(c, s);
    StepKeepsMembers(c, s);
    forall id | id in ActiveSet(d)
      ensures id in d.nodes && NamesItselfOrLoser(d, ever + ActiveSet(d), id)
    {
      if s.Deliver? && s.id == id {
        DeliveryNames(c, ever, id, s.hb);
      } else if s != Promote(id) {
        assert id in ActiveSet(c) && NamesItselfOrLoser(c, ever, id);
      }
    }
  }

  /** In every state of every run, an active node takes itself for the active one, or
      another that has been active and that it outranks. */
  lemma {:induction false} ActiveNamesItselfOrLoser(run: seq<Cluster>, steps: seq<Step>)
    requires IsRun(run, steps) && SelfNaming(run[0])
    ensures NamesInv(run[|run| - 1], EverActive(run))
  {
    var n := |steps|;
    if n > 0 {
      var prefix := run[..n];
      ActiveNamesItselfOrLoser(prefix, steps[..n - 1]);
      RunKeepsInv(prefix, steps[..n - 1]);
      StepKeepsNames(prefix[n - 1], EverActive(prefix), steps[n - 1]);
    }
  }

  // ---- Exactly when it names another ----

  ghost predicate HearsActive(s: Step, id: string) {
    s.Deliver? && s.id == id && s.hb.role.Active?
  }

  /** The step after which the record is what the step said. */
  ghost predicate Settles(s: Step, id: string) {
    s == Promote(id) || HearsActive(s, id)
  }

  /** Step `i` delivers another node's active heartbeat, and nothing up to `k` settles the record again. */
  ghost predicate LastHeard(steps: seq<Step>, i: nat, k: nat, id: string)
    requires k <= |steps|
  {
    && i < k && HearsActive(steps[i], id) && steps[i].hb.fromId != id
    && forall j :: i < j < k ==> !Settles(steps[j], id)
  }

  /** What one step does to the record of a node that is active after it. */
  lemma StepNames(c: Cluster, s: Step, id: string)
    requires Enabled(c, s) && id in ActiveSet(Apply(c, s)) && forall n :: n in c.nodes ==> c.nodes[n].selfId == n
    ensures var named := Apply(c, s).nodes[id].activeId;
            && (s == Promote(id) ==> named == id)
            && (HearsActive(s, id) ==> named == s.hb.fromId)
            && (!Settles(s, id) ==> id in ActiveSet(c) && named == c.nodes[id].activeId)
  {
  }

  ghost predicate LastHeardAnother(steps: seq<Step>, k: nat, id: string)
    requires k <= |steps|
  {
    exists i: nat :: LastHeard(steps, i, k, id)
  }

  lemma LastHeardStep(steps: seq<Step>, k: nat, id: string)
    requires k < |steps|
    ensures LastHeardAnother(steps, k + 1, id) <==>
            if HearsActive(steps[k], id) then steps[k].hb.fromId != id
            else steps[k] != Promote(id) && LastHeardAnother(steps, k, id)
  {
    var next := k + 1;
    if LastHeardAnother(steps, next, id) {
      var i: nat :| LastHeard(steps, i, next, id);
      assert i < k ==> LastHeard(steps, i, k, id);
    }
    if HearsActive(steps[k], id) && steps[k].hb.fromId != id {
      assert LastHeard(steps, k, next, id);
    }
    if !Settles(steps[k], id) && LastHeardAnother(steps, k, id) {
      var i: nat :| LastHeard(steps, i, k, id);
      assert LastHeard(steps, i, next, id);
    }
  }

  /** An active node names another exactly if the last active heartbeat delivered to
      it, since its last promotion or else since the start, came from another node. */
  lemma {:induction false} ActiveNamesAnotherIff(run: seq<Cluster>, steps: seq<Step>, k: nat, id: string)
    requires IsRun(run, steps) && SelfNaming(run[0]) && k < |run| && id in ActiveSet(run[k])
    ensures run[k].nodes[id].activeId != id <==> LastHeardAnother(steps, k, id)
  {
    hide Apply, LastHeardAnother;
    if k == 0 {
      NothingHeard(steps, id);
    } else {
      assert Enabled(run[k - 1], steps[k - 1]) && run[k] == Apply(run[k - 1], steps[k - 1]);
      SelfIds(run, steps, k - 1);
      StepNames(run[k - 1], steps[k - 1], id);
      LastHeardStep(steps, k - 1, id);
      if !Settles(steps[k - 1], id) { ActiveNamesAnotherIff(run, steps, k - 1, id); }
    }
  }

  lemma NothingHeard(steps: seq<Step>, id: string)
    ensures !LastHeardAnother(steps, 0, id)
  {
  }

  lemma SelfIds(run: seq<Cluster>, steps: seq<Step>, k: nat)
    requires IsRun(run, steps) && k < |run|
    ensures forall n :: n in run[k].nodes ==> run[k].nodes[n].selfId == n
  {
    MembersAgree(run, steps, 0, k);
  }

  // ---- Whom any node names ----

  /** The record as the steps settle it: by a promotion the node itself, by an active
      heartbeat its sender, else what it was at the start. */
  ghost predicate SettledBy(run: seq<Cluster>, steps: seq<Step>, k: nat, id: string, i: nat)
    requires |run| == |steps| + 1 && k <= |steps|
  {
    i < k && Settles(steps[i], id) && forall j :: i < j < k ==> !Settles(steps[j], id)
  }

  /** Every node, active or standby or just demoted, names the sender of the last active
      heartbeat it received, or itself if it was promoted after that. */
  lemma {:induction false} NamesLastSettled(run: seq<Cluster>, steps: seq<Step>, k: nat, id: string, i: nat)
    requires IsRun(run, steps) && k < |run| && SettledBy(run, steps, k, id, i)
    ensures id in run[k].nodes
    ensures run[k].nodes[id].activeId == if steps[i] == Promote(id) then id else steps[i].hb.fromId
    decreases k
  {
    var p := k - 1;
    assert Enabled(run[p], steps[p]) && run[k] == Apply(run[p], steps[p]);
    SelfIds(run, steps, p);
    if i < p { NamesLastSettled(run, steps, p, id, i); }
  }

  /** Without such a step the record is that of the start. */
  lemma {:induction false} NamesAsAtFirst(run: seq<Cluster>, steps: seq<Step>, k: nat, id: string)
    requires IsRun(run, steps) && k < |run| && id in run[0].nodes && forall j :: 0 <= j < k ==> !Settles(steps[j], id)
    ensures id in run[k].nodes && run[k].nodes[id].activeId == run[0].nodes[id].activeId
  {
    if k > 0 {
      assert Enabled(run[k - 1], steps[k - 1]) && run[k] == Apply(run[k - 1], steps[k - 1]);
      NamesAsAtFirst(run, steps, k - 1, id);
    }
  }

  // ---- An instance ----

  /** Two active nodes; the better one hears the other, stays active and names it. */
  lemma WinnerCanNameLoser() returns (run: seq<Cluster>, steps: seq<Step>)
    ensures IsRun(run, steps) && |run| == 3 && SelfNaming(run[0])
    ensures "a" in run[2].nodes && run[2].nodes["a"].role.Active? && run[2].nodes["a"].activeId == "b"
  {
    var a, b := Node("a", 1, Active, "a", 0, []), Node("b", 2, Active, "b", 0, []);
    var c := Cluster(0, map["a" := a, "b" := b], {}, {});
    steps := [Dispatch("b"), Deliver("a", Beat(b))];
    var d := Apply(c, steps[0]);
    run := [c, d, Apply(d, steps[1])];
  }
}
