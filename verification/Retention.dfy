/** Backup retention: listing newest first, grouping by target, deleting beyond a count. */
module Retention {
  import opened Common
  import opened Sorting

  datatype Backup = Backup(id: string, target: string, timestamp: int)

  type Manifests = map<string, Backup>

  predicate Newer(a: Backup, b: Backup) {
    a.timestamp > b.timestamp
  }

  ghost predicate WellNamed(m: Manifests) {
    forall id :: id in m ==> m[id].id == id
  }

  ghost predicate NoDuplicates<T>(s: seq<T>) {
    forall i, j :: 0 <= i < j < |s| ==> s[i] != s[j]
  }

  /** All the backups, each once, newest first. */
  ghost predicate Listing(list: seq<Backup>, m: Manifests) {
    && NoDuplicates(list) && Ordered(list, Newer)
    && (forall b :: b in list ==> b.id in m && m[b.id] == b)
    && (forall id :: id in m ==> m[id] in list)
  }

  ghost function IdsOf(m: Manifests, target: string): set<string> {
    set id | id in m && m[id].target == target
  }

  // ---- Groups ----

  /** The backups of one target, in the order of the list. */
  function ByTarget(list: seq<Backup>, target: string): seq<Backup> {
    if list == [] then []
    else
      var earlier := ByTarget(list[..|list| - 1], target);
      if list[|list| - 1].target == target then earlier + [list[|list| - 1]] else earlier
  }

  function Excess(group: seq<Backup>, keep: nat): seq<Backup> {
    if |group| <= keep then [] else group[keep..]
  }

  function Surviving(group: seq<Backup>, keep: nat): seq<Backup> {
    if |group| <= keep then group else group[..keep]
  }

  lemma {:induction false} GroupMembers(list: seq<Backup>, target: string)
    ensures forall b :: b in ByTarget(list, target) <==> b in list && b.target == target
  {
    if list != [] {
      var init, last := list[..|list| - 1], list[|list| - 1];
      GroupMembers(init, target);
      assert list == init + [last];
      var g := ByTarget(init, target);
      forall b ensures b in ByTarget(list, target) <==> b in list && b.target == target {
        assert b in list <==> b in init || b == last;
        assert b in g + [last] <==> b in g || b == last;
      }
    }
  }

  lemma {:induction false} GroupKeepsOrder(list: seq<Backup>, target: string)
    requires NoDuplicates(list) && Ordered(list, Newer)
    ensures NoDuplicates(ByTarget(list, target)) && Ordered(ByTarget(list, target), Newer)
  {
    if list != [] {
      var init, last := list[..|list| - 1], list[|list| - 1];
      GroupKeepsOrder(init, target);
      GroupMembers(init, target);
      var g := ByTarget(init, target);
      forall i | 0 <= i < |g| ensures g[i] != last && !Newer(last, g[i]) {
        assert g[i] in init;
        var k :| 0 <= k < |init| && init[k] == g[i];
        assert list[k] == g[i] && list[|list| - 1] == last;
      }
    }
  }

  // ---- What pruning decides ----

  /** The backup is beyond the first `keep` of its target. */
  ghost predicate Doomed(list: seq<Backup>, keep: nat, b: Backup) {
    b in Excess(ByTarget(list, b.target), keep)
  }

  /** The IDs in `gone` are those of the doomed backups, and nothing else. */
  ghost predicate Pruned(list: seq<Backup>, keep: nat, gone: set<string>) {
    && (forall b :: b in list ==> (b.id in gone <==> Doomed(list, keep, b)))
    && (forall id :: id in gone ==> exists b :: b in list && b.id == id)
  }

  ghost function Ids(bs: seq<Backup>): set<string> {
    set b | b in bs :: b.id
  }

  lemma {:induction false} IdsSize(bs: seq<Backup>)
    requires forall i, j :: 0 <= i < j < |bs| ==> bs[i].id != bs[j].id
    ensures |Ids(bs)| == |bs|
  {
    if bs != [] {
      var init, last := bs[..|bs| - 1], bs[|bs| - 1];
      IdsSize(init);
      assert bs == init + [last];
      assert Ids(bs) == Ids(init) + {last.id};
      assert last.id !in Ids(init);
    }
  }

  /** The group of a target lists exactly its backups, each under its own ID. */
  lemma GroupFacts(list: seq<Backup>, m: Manifests, target: string)
    requires WellNamed(m) && Listing(list, m)
    ensures var g := ByTarget(list, target);
            && NoDuplicates(g) && Ordered(g, Newer)
            && (forall i, j :: 0 <= i < j < |g| ==> g[i].id != g[j].id)
            && IdsOf(m, target) == Ids(g)
            && (forall b :: b in g <==> b in list && b.target == target)
  {
    var g := ByTarget(list, target);
    GroupMembers(list, target);
    GroupKeepsOrder(list, target);
    forall i, j | 0 <= i < j < |g| ensures g[i].id != g[j].id {
      assert g[i] in list && g[j] in list;
    }
    forall id | id in IdsOf(m, target) ensures id in Ids(g) { assert m[id] in g; }
    forall id | id in Ids(g) ensures id in IdsOf(m, target) {
      var b :| b in g && b.id == id;
    }
  }

  lemma SurvivorsOfTarget(list: seq<Backup>, m: Manifests, keep: nat, gone: set<string>, target: string)
    requires WellNamed(m) && Listing(list, m) && Pruned(list, keep, gone)
    ensures IdsOf(m - gone, target) == Ids(Surviving(ByTarget(list, target), keep))
  {
    var g := ByTarget(list, target);
    var s := Surviving(g, keep);
    GroupFacts(list, m, target);
    forall id | id in IdsOf(m - gone, target) ensures id in Ids(s) {
      assert m[id] in list && m[id] in g && !Doomed(list, keep, m[id]);
      SurvivingOrExcess(g, keep, m[id]);
    }
    forall id | id in Ids(s) ensures id in IdsOf(m - gone, target) {
      var b :| b in s && b.id == id;
      assert b in g;
      NotBoth(g, keep, b);
      assert !Doomed(list, keep, b);
    }
  }

  /** A target keeps as many backups as allowed. */
  lemma PrunedCount(list: seq<Backup>, m: Manifests, keep: nat, gone: set<string>, target: string)
    requires WellNamed(m) && Listing(list, m) && Pruned(list, keep, gone)
    ensures |IdsOf(m - gone, target)| == if |IdsOf(m, target)| <= keep then |IdsOf(m, target)| else keep
  {
    hide Listing, Pruned, WellNamed, ByTarget, IdsOf, Ids;
    GroupFacts(list, m, target);
    SurvivorsOfTarget(list, m, keep, gone, target);
    var g := ByTarget(list, target);
    IdsSize(g);
    IdsSize(Surviving(g, keep));
  }

  /** No backup that stays is older than one of the same target that goes. */
  lemma PrunedAreOldest(list: seq<Backup>, m: Manifests, keep: nat, gone: set<string>, stays: string, goes: string)
    requires WellNamed(m) && Listing(list, m) && Pruned(list, keep, gone)
    requires stays in m && goes in m && stays !in gone && goes in gone && m[stays].target == m[goes].target
    ensures m[stays].timestamp >= m[goes].timestamp
  {
    var target := m[stays].target;
    var g := ByTarget(list, target);
    GroupFacts(list, m, target);
    assert m[stays] in list && m[goes] in list && m[stays] in g;
    assert Doomed(list, keep, m[goes]) && !Doomed(list, keep, m[stays]);
    SurvivingOrExcess(g, keep, m[stays]);
    var s, e := Surviving(g, keep), Excess(g, keep);
    var i :| 0 <= i < |s| && s[i] == m[stays];
    var j :| 0 <= j < |e| && e[j] == m[goes];
    assert g[i] == m[stays] && g[keep + j] == m[goes];
    assert !Newer(g[keep + j], g[i]);
  }

  /** Pruning again, with whatever listing, deletes nothing. */
  lemma PruneIsIdempotent(list: seq<Backup>, m: Manifests, keep: nat, gone: set<string>, list': seq<Backup>, gone': set<string>)
    requires WellNamed(m) && Listing(list, m) && Pruned(list, keep, gone)
    requires Listing(list', m - gone) && Pruned(list', keep, gone')
    ensures gone' == {}
  {
    forall b | b in list' ensures !Doomed(list', keep, b) {
      PrunedCount(list, m, keep, gone, b.target);
      GroupFacts(list', m - gone, b.target);
      IdsSize(ByTarget(list', b.target));
    }
  }

  lemma SurvivingOrExcess(g: seq<Backup>, keep: nat, b: Backup)
    requires b in g
    ensures b in Surviving(g, keep) || b in Excess(g, keep)
  {
    if |g| > keep { assert g == g[..keep] + g[keep..]; }
  }

  lemma NotBoth(g: seq<Backup>, keep: nat, b: Backup)
    requires NoDuplicates(g) && b in Surviving(g, keep)
    ensures b !in Excess(g, keep)
  {
    var i :| 0 <= i < |Surviving(g, keep)| && Surviving(g, keep)[i] == b;
    forall j | 0 <= j < |Excess(g, keep)| ensures Excess(g, keep)[j] != b {
      assert g[i] == b && Excess(g, keep)[j] == g[keep + j];
    }
  }

  // ---- The manager ----

  class BackupManager {
    var manifests: Manifests

    constructor (manifests: Manifests)
      ensures this.manifests == manifests
    {
      this.manifests := manifests;
    }

    method ListBackups() returns (list: seq<Backup>)
      requires WellNamed(manifests)
      ensures Listing(list, manifests)
    {
      var found: seq<Backup> := [];
      var todo := manifests.Keys;
      while todo != {}
        invariant todo <= manifests.Keys && NoDuplicates(found)
        invariant forall b :: b in found ==> b.id in manifests && manifests[b.id] == b && b.id !in todo
        invariant forall id :: id in manifests && id !in todo ==> manifests[id] in found
        decreases todo
      {
        var id :| id in todo;
        ghost var was := found;
        found := found + [manifests[id]];
        todo := todo - {id};
      }
      NewerIsStrictWeak();
      list := Sort(found, Newer);
      SameMembers(list, found);
      PermutationHasNoDuplicates(list, found);
    }

    method DeleteBackup(id: string) returns (ok: bool)
      modifies this
      ensures ok <==> id in old(manifests)
      ensures manifests == old(manifests) - {id}
    {
      if id !in manifests {
        return false;
      }
      manifests := manifests - {id};
      return true;
    }

    /** Deletes what a group has beyond the first `keep`. */
    method PruneGroup(group: seq<Backup>, keep: nat) returns (pruned: seq<string>)
      requires forall b :: b in group ==> b.id in manifests
      requires forall i, j :: 0 <= i < j < |group| ==> group[i].id != group[j].id
      modifies this
      ensures manifests == old(manifests) - Ids(Excess(group, keep))
      ensures NoDuplicates(pruned) && forall id :: id in pruned <==> id in Ids(Excess(group, keep))
    {
      pruned := [];
      var excess := Excess(group, keep);
      forall i, j | 0 <= i < j < |excess| ensures excess[i].id != excess[j].id {
        assert excess[i] == group[keep + i] && excess[j] == group[keep + j];
      }
      assert excess[..0] == [];
      for k := 0 to |excess|
        invariant manifests == old(manifests) - Ids(excess[..k])
        invariant |pruned| == k && forall i :: 0 <= i < k ==> pruned[i] == excess[i].id
      {
        assert excess[k] in group && excess[k].id !in Ids(excess[..k]);
        var ok := DeleteBackup(excess[k].id);
        assert ok;
        if ok { pruned := pruned + [excess[k].id]; }
        assert excess[..k + 1] == excess[..k] + [excess[k]];
        assert Ids(excess[..k + 1]) == Ids(excess[..k]) + {excess[k].id};
      }
      assert excess[..|excess|] == excess;
    }

    /** Enforces the retention count per target; a negative count is a fault (a
        slice bound out of range) as soon as there is any backup. */
    method PruneBackups(keep: int) returns (r: Option<seq<string>>, ghost list: seq<Backup>)
      requires WellNamed(manifests)
      modifies this
      ensures Listing(list, old(manifests))
      ensures r.None? <==> keep < 0 && old(manifests) != map[]
      ensures r.None? ==> manifests == old(manifests)
      ensures r.Some? ==> NoDuplicates(r.value) && manifests == old(manifests) - Set(r.value)
      ensures r.Some? && keep >= 0 ==> Pruned(list, keep, Set(r.value))
    {
      var backups := ListBackups();
      list := backups;
      var groups := GroupByTarget(backups);
      if keep < 0 {
        EmptyListing(backups, manifests, groups.Keys);
        r := if groups == map[] then Some([]) else None;
        return;
      }
      var pruned := PruneGroups(backups, groups, keep);
      r := Some(pruned);
    }

    method PruneGroups(ghost list: seq<Backup>, groups: map<string, seq<Backup>>, keep: nat) returns (pruned: seq<string>)
      requires WellNamed(manifests) && Listing(list, manifests)
      requires forall b :: b in list ==> b.target in groups
      requires forall t :: t in groups ==> groups[t] == ByTarget(list, t)
      modifies this
      ensures NoDuplicates(pruned) && manifests == old(manifests) - Set(pruned)
      ensures Pruned(list, keep, Set(pruned))
    {
      hide Listing, Pruned, PartlyPruned, ByTarget, Doomed, Excess, Ids;
      pruned := [];
      var todo := groups.Keys;
      ghost var gone: set<string> := {};
      NothingPruned(list, keep, todo);
      while todo != {}
        invariant todo <= groups.Keys && PartlyPruned(list, keep, todo, gone)
        invariant manifests == old(manifests) - gone
        invariant NoDuplicates(pruned) && Set(pruned) == gone
        decreases todo
      {
        var target :| target in todo;
        UntouchedGroup(list, old(manifests), keep, todo, gone, target);
        PartlyPrunedStep(list, old(manifests), keep, todo, gone, target);
        var more := PruneGroup(groups[target], keep);
        ghost var ids := Ids(Excess(groups[target], keep));
        JoinedHaveNoDuplicates(pruned, more);
        SetConcat(pruned, more);
        assert Set(more) == ids;
        pruned, gone, todo := pruned + more, gone + ids, todo - {target};
      }
      AllPruned(list, keep, gone);
    }
  }

  ghost function Set(s: seq<string>): set<string> {
    set x | x in s
  }

  lemma SetConcat(s: seq<string>, t: seq<string>)
    ensures Set(s + t) == Set(s) + Set(t)
  {
  }

  lemma EmptyListing(list: seq<Backup>, m: Manifests, targets: set<string>)
    requires Listing(list, m) && forall t :: t in targets <==> exists b :: b in list && b.target == t
    ensures targets == {} <==> m == map[]
  {
    if m != map[] {
      var id :| id in m;
      assert m[id] in list && m[id].target in targets;
    }
  }

  /** The targets in `todo` are still untouched, the others pruned. */
  ghost predicate PartlyPruned(list: seq<Backup>, keep: nat, todo: set<string>, gone: set<string>) {
    && (forall b :: b in list ==> (b.id in gone <==> b.target !in todo && Doomed(list, keep, b)))
    && (forall id :: id in gone ==> exists b :: b in list && b.id == id)
  }

  lemma PartlyPrunedStep(list: seq<Backup>, m: Manifests, keep: nat, todo: set<string>, gone: set<string>, target: string)
    requires WellNamed(m) && Listing(list, m) && PartlyPruned(list, keep, todo, gone) && target in todo
    ensures var more := Ids(Excess(ByTarget(list, target), keep));
            gone !! more && PartlyPruned(list, keep, todo - {target}, gone + more)
  {
    var g := ByTarget(list, target);
    var e := Excess(g, keep);
    GroupFacts(list, m, target);
    forall x | x in e ensures x in list && x.target == target && x.id !in gone { assert x in g; }
    forall b | b in list ensures b.id in gone + Ids(e) <==> b.target !in todo - {target} && Doomed(list, keep, b) {
      if b.id in Ids(e) {
        var x :| x in e && x.id == b.id;
        assert x == m[x.id] == b;
      }
    }
    forall id | id in gone + Ids(e) ensures exists b :: b in list && b.id == id {
      if id in Ids(e) { var x :| x in e && x.id == id; }
    }
  }

  /** Before anything is deleted, no backup is gone. */
  lemma NothingPruned(list: seq<Backup>, keep: nat, targets: set<string>)
    requires forall b :: b in list ==> b.target in targets
    ensures PartlyPruned(list, keep, targets, {})
  {
  }

  lemma AllPruned(list: seq<Backup>, keep: nat, gone: set<string>)
    requires PartlyPruned(list, keep, {}, gone)
    ensures Pruned(list, keep, gone)
  {
  }

  /** What PruneGroup asks of the group of a target not yet visited. */
  lemma UntouchedGroup(list: seq<Backup>, m: Manifests, keep: nat, todo: set<string>, gone: set<string>, target: string)
    requires WellNamed(m) && Listing(list, m) && PartlyPruned(list, keep, todo, gone) && target in todo
    ensures var g := ByTarget(list, target);
            && (forall b :: b in g ==> b.id in m - gone)
            && (forall i, j :: 0 <= i < j < |g| ==> g[i].id != g[j].id)
  {
    GroupFacts(list, m, target);
  }

  lemma JoinedHaveNoDuplicates(s: seq<string>, t: seq<string>)
    requires NoDuplicates(s) && NoDuplicates(t) && forall x :: x in s ==> x !in t
    ensures NoDuplicates(s + t)
  {
    forall i, j | 0 <= i < j < |s + t| ensures (s + t)[i] != (s + t)[j] {
      if i < |s| <= j { assert s[i] in s && t[j - |s|] in t; }
    }
  }

  method GroupByTarget(list: seq<Backup>) returns (groups: map<string, seq<Backup>>)
    ensures forall t :: t in groups <==> exists b :: b in list && b.target == t
    ensures forall t :: t in groups ==> groups[t] == ByTarget(list, t)
  {
    hide ByTarget;
    groups := map[];
    assert list[..0] == [];
    for i := 0 to |list|
      invariant forall t :: t in groups <==> exists b :: b in list[..i] && b.target == t
      invariant forall t :: t in groups ==> groups[t] == ByTarget(list[..i], t)
    {
      var t := list[i].target;
      if t !in groups { NoGroupYet(list[..i], t); }
      assert list[..i + 1] == list[..i] + [list[i]];
      forall u { ByTargetAppend(list, i, u); }
      groups := groups[t := (if t in groups then groups[t] else []) + [list[i]]];
      forall u ensures u in groups <==> exists b :: b in list[..i + 1] && b.target == u {
        assert list[i] in list[..i + 1];
        if u in groups && u != t {
          var b :| b in list[..i] && b.target == u;
          assert b in list[..i + 1];
        }
      }
    }
    assert list[..|list|] == list;
  }

  lemma ByTargetAppend(list: seq<Backup>, i: nat, target: string)
    requires i < |list|
    ensures ByTarget(list[..i + 1], target) ==
            if list[i].target == target then ByTarget(list[..i], target) + [list[i]] else ByTarget(list[..i], target)
  {
    assert list[..i + 1][..i] == list[..i];
  }

  lemma NoGroupYet(list: seq<Backup>, target: string)
    requires !exists b :: b in list && b.target == target
    ensures ByTarget(list, target) == []
  {
    GroupMembers(list, target);
    var g := ByTarget(list, target);
    assert forall i :: 0 <= i < |g| ==> g[i] in g;
  }

  lemma NewerIsStrictWeak()
    ensures StrictWeak(Newer)
  {
  }

  lemma {:induction false} PermutationHasNoDuplicates(r: seq<Backup>, s: seq<Backup>)
    requires NoDuplicates(s) && multiset(r) == multiset(s)
    ensures NoDuplicates(r)
  {
    forall i, j | 0 <= i < j < |r| ensures r[i] != r[j] {
      if r[i] == r[j] {
        TwiceInMultiset(r, i, j);
        OnceInMultiset(s, r[i]);
      }
    }
  }

  lemma TwiceInMultiset(r: seq<Backup>, i: nat, j: nat)
    requires i < j < |r| && r[i] == r[j]
    ensures multiset(r)[r[i]] >= 2
  {
    assert r == r[..i] + [r[i]] + r[i + 1..j] + [r[j]] + r[j + 1..];
  }

  lemma {:induction false} OnceInMultiset(s: seq<Backup>, b: Backup)
    requires NoDuplicates(s)
    ensures multiset(s)[b] <= 1
  {
    if s != [] {
      var init, last := s[..|s| - 1], s[|s| - 1];
      assert s == init + [last];
      OnceInMultiset(init, b);
      if last == b { assert b !in init; }
    }
  }
}
