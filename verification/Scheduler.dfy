/** Placement scoring and the shortlist of candidate nodes, over the reals. */
module Scheduler {
  import opened Common
  import opened Sorting

  /** A node as a backend reports it; a missing field is zero. The two backends
      use different names for the CPU count and the memory size. */
  datatype Node = Node(id: string, ncpu: real, cpuCount: real, memoryBytes: real, memoryMB: real, containers: int,
                       usedMemoryMB: real, cpuUsagePercent: real)

  datatype NodeScore = NodeScore(nodeId: string, score: real, availableCPU: real, availableMemoryMB: int)

  function Max(x: real, y: real): real { if x >= y then x else y }
  function Min(x: real, y: real): real { if x <= y then x else y }

  /** Rounds to the nearest integer, halves away from zero. */
  function Round(x: real): real {
    if x >= 0.0 then (x + 0.5).Floor as real else -((-x + 0.5).Floor as real)
  }

  function Round2(x: real): real {
    Round(x * 100.0) / 100.0
  }

  lemma FloorIsMonotone(x: real, y: real)
    requires x <= y
    ensures x.Floor <= y.Floor
  {
    assert x.Floor as real <= x <= y < (y.Floor + 1) as real;
  }

  lemma RoundIsMonotone(x: real, y: real)
    requires x <= y
    ensures Round(x) <= Round(y)
  {
    if x >= 0.0 {
      FloorIsMonotone(x + 0.5, y + 0.5);
    } else if y >= 0.0 {
      FloorIsMonotone(0.0, y + 0.5);
      FloorIsMonotone(0.0, -x + 0.5);
    } else {
      FloorIsMonotone(-y + 0.5, -x + 0.5);
    }
  }

  lemma Round2IsMonotone(x: real, y: real)
    requires x <= y
    ensures Round2(x) <= Round2(y)
  {
    hide Round;
    RoundIsMonotone(x * 100.0, y * 100.0);
  }

  // ---- Scoring ----

  /** The result is a number of hundredths, at most half a hundredth away. */
  lemma Round2IsNearest(x: real) returns (k: int)
    ensures Round2(x) * 100.0 == k as real
    ensures -0.005 <= Round2(x) - x <= 0.005
  {
    var y := x * 100.0;
    k := if y >= 0.0 then (y + 0.5).Floor else -((-y + 0.5).Floor);
    assert Round(y) == k as real;
  }

  function TotalCPU(n: Node): real {
    if n.ncpu == 0.0 then n.cpuCount else n.ncpu
  }

  function TotalMem(n: Node): real {
    (if n.memoryBytes == 0.0 then n.memoryMB * 1024.0 * 1024.0 else n.memoryBytes) / (1024.0 * 1024.0)
  }

  function AvailableMem(n: Node): real {
    Max(TotalMem(n) - n.usedMemoryMB, 0.0)
  }

  function AvailableCPU(n: Node): real {
    if n.cpuUsagePercent > 0.0 then TotalCPU(n) * (1.0 - n.cpuUsagePercent / 100.0) else TotalCPU(n)
  }

  function MemRatio(n: Node): real {
    if TotalMem(n) > 0.0 then AvailableMem(n) / TotalMem(n) else 1.0
  }

  function CpuRatio(n: Node): real {
    if TotalCPU(n) > 0.0 then AvailableCPU(n) / TotalCPU(n) else 1.0
  }

  /** The average of the ratios, with a bonus for nodes in use and a penalty for nodes nearly full. */
  function RawScore(memRatio: real, cpuRatio: real, inUse: bool): real {
    var base := (memRatio + cpuRatio) / 2.0;
    var withBonus := if inUse then base * 1.10 else base;
    if 1.0 - memRatio > 0.80 then withBonus * 0.50 else withBonus
  }

  function Score(n: Node): real {
    Round2(Max(0.0, Min(1.0, RawScore(MemRatio(n), CpuRatio(n), n.containers > 0))))
  }

  function ScoreNode(n: Node, requiredMem: int, requiredCPU: real): Option<NodeScore> {
    if AvailableMem(n) < requiredMem as real || AvailableCPU(n) < requiredCPU then None
    else Some(NodeScore(n.id, Score(n), Round2(AvailableCPU(n)), AvailableMem(n).Floor))
  }

  lemma ScoreIsBetween0And1(n: Node)
    ensures 0.0 <= Score(n) <= 1.0
  {
    var s := Max(0.0, Min(1.0, RawScore(MemRatio(n), CpuRatio(n), n.containers > 0)));
    Round2IsMonotone(0.0, s);
    Round2IsMonotone(s, 1.0);
    assert Round2(0.0) == 0.0 && Round2(1.0) == 1.0;
  }

  lemma DivideMonotone(a: real, b: real, t: real)
    requires a <= b && t > 0.0
    ensures a / t <= b / t
  {
  }

  /** With either ratio lower, the clamped score is no higher, on either side of the penalty step. */
  lemma RawScoreIsMonotone(m: real, m': real, c: real, c': real, inUse: bool)
    requires m' <= m && c' <= c
    ensures Max(0.0, Min(1.0, RawScore(m', c', inUse))) <= Max(0.0, Min(1.0, RawScore(m, c, inUse)))
  {
    var b, b' := (m + c) / 2.0, (m' + c') / 2.0;
    assert b' <= b;
    if inUse { assert b' * 1.10 <= b * 1.10; }
  }

  /** Using more memory, all else equal, never raises a node's score and never lets it pass a requirement it failed. */
  lemma MoreUsedMemoryNeverHelps(n: Node, used: real, requiredMem: int, requiredCPU: real)
    requires used >= n.usedMemoryMB
    ensures var n' := n.(usedMemoryMB := used);
            && Score(n') <= Score(n)
            && (ScoreNode(n', requiredMem, requiredCPU).Some? ==> ScoreNode(n, requiredMem, requiredCPU).Some?)
  {
    hide RawScore, Round2;
    var n' := n.(usedMemoryMB := used);
    if TotalMem(n) > 0.0 { DivideMonotone(AvailableMem(n'), AvailableMem(n), TotalMem(n)); }
    RawScoreIsMonotone(MemRatio(n), MemRatio(n'), CpuRatio(n), CpuRatio(n'), n.containers > 0);
    Round2IsMonotone(Max(0.0, Min(1.0, RawScore(MemRatio(n'), CpuRatio(n'), n.containers > 0))),
                     Max(0.0, Min(1.0, RawScore(MemRatio(n), CpuRatio(n), n.containers > 0))));
  }

  /** Using more of the CPU, all else equal, never raises a node's score. */
  lemma MoreCpuUseNeverHelps(n: Node, usage: real)
    requires usage >= n.cpuUsagePercent
    ensures Score(n.(cpuUsagePercent := usage)) <= Score(n)
  {
    hide RawScore, Round2;
    var n' := n.(cpuUsagePercent := usage);
    if TotalCPU(n) > 0.0 {
      LessFree(TotalCPU(n), n.cpuUsagePercent, usage);
      DivideMonotone(AvailableCPU(n'), AvailableCPU(n), TotalCPU(n));
    }
    RawScoreIsMonotone(MemRatio(n), MemRatio(n'), CpuRatio(n), CpuRatio(n'), n.containers > 0);
    Round2IsMonotone(Max(0.0, Min(1.0, RawScore(MemRatio(n'), CpuRatio(n'), n.containers > 0))),
                     Max(0.0, Min(1.0, RawScore(MemRatio(n), CpuRatio(n), n.containers > 0))));
  }

  lemma LessFree(cores: real, usage: real, more: real)
    requires cores > 0.0 && more >= usage
    ensures cores * (1.0 - more / 100.0) <= cores * (1.0 - usage / 100.0)
    ensures more > 0.0 ==> cores * (1.0 - more / 100.0) <= cores
  {
    assert more / 100.0 >= usage / 100.0;
  }

  /** Both ratios weigh the same; use of the node adds a tenth, and less than a fifth
      of free memory halves the score. */
  lemma RawScoreWeighs(m: real, c: real)
    ensures RawScore(m, c, false) * (if m < 0.2 then 4.0 else 2.0) == m + c
    ensures RawScore(m, c, true) * 10.0 == RawScore(m, c, false) * 11.0
  {
  }

  lemma ScoreOf(n: Node, m: real, c: real, raw: real)
    requires MemRatio(n) == m && CpuRatio(n) == c && RawScore(m, c, n.containers > 0) == raw && 0.0 <= raw <= 1.0
    ensures Score(n) == Round2(raw)
  {
    hide MemRatio, CpuRatio, RawScore, Round2;
  }

  /** An idle empty node scores highest. */
  lemma IdleNodeScore(n: Node)
    requires n.usedMemoryMB == 0.0 && n.cpuUsagePercent == 0.0 && n.containers == 0 && TotalMem(n) > 0.0 && TotalCPU(n) > 0.0
    ensures Score(n) == 1.0
  {
    ScoreOf(n, 1.0, 1.0, 1.0);
    assert Round2(1.0) == 1.0;
  }

  /** Half full and half busy, with containers. */
  lemma BusyNodeScore()
    ensures Score(Node("b", 0.0, 4.0, 0.0, 8192.0, 2, 4096.0, 50.0)) == 0.55
  {
    hide Round2;
    var n := Node("b", 0.0, 4.0, 0.0, 8192.0, 2, 4096.0, 50.0);
    assert TotalMem(n) == 8192.0 && TotalCPU(n) == 4.0;
    ScoreOf(n, 0.5, 0.5, 0.55);
    RoundExamples();
  }

  /** Nine tenths full and half busy, with containers. */
  lemma FullNodeScore()
    ensures Score(Node("c", 4.0, 0.0, 0.0, 1000.0, 2, 900.0, 50.0)) == 0.17
  {
    hide Round2;
    var n := Node("c", 4.0, 0.0, 0.0, 1000.0, 2, 900.0, 50.0);
    assert TotalMem(n) == 1000.0 && TotalCPU(n) == 4.0;
    ScoreOf(n, 0.1, 0.5, 0.165);
    RoundExamples();
  }

  lemma RoundExamples()
    ensures Round2(0.55) == 0.55 && Round2(0.165) == 0.17
  {
  }

  // ---- The requirements ----

  /** In terms of what is reported: free memory, at least none, and free CPU cover what is asked. */
  ghost predicate Meets(n: Node, mem: int, cpu: real) {
    var mb := if n.memoryBytes != 0.0 then n.memoryBytes / 1048576.0 else n.memoryMB;
    var cores := if n.ncpu != 0.0 then n.ncpu else n.cpuCount;
    && (mb - n.usedMemoryMB >= mem as real || mem <= 0)
    && (if n.cpuUsagePercent <= 0.0 then cores >= cpu else cores - cores * n.cpuUsagePercent / 100.0 >= cpu)
  }

  lemma ScoreNodeIff(n: Node, mem: int, cpu: real)
    ensures ScoreNode(n, mem, cpu).Some? <==> Meets(n, mem, cpu)
    ensures ScoreNode(n, mem, cpu).Some? ==>
      var s, free := ScoreNode(n, mem, cpu).value, TotalMem(n) - n.usedMemoryMB;
      && s.nodeId == n.id && s.score == Score(n)
      && (free >= 0.0 ==> s.availableMemoryMB as real <= free < s.availableMemoryMB as real + 1.0)
      && (free < 0.0 ==> s.availableMemoryMB == 0)
      && -0.005 <= s.availableCPU - AvailableCPU(n) <= 0.005
  {
    hide Score, Round2;
    var k := Round2IsNearest(AvailableCPU(n));
    assert TotalMem(n) == if n.memoryBytes != 0.0 then n.memoryBytes / 1048576.0 else n.memoryMB;
    var cores, p := TotalCPU(n), n.cpuUsagePercent;
    assert cores * (1.0 - p / 100.0) == cores - cores * p / 100.0;
  }

  // ---- The shortlist ----

  /** Higher score, then more free memory, then more free CPU. */
  predicate Better(a: NodeScore, b: NodeScore) {
    if a.score != b.score then a.score > b.score
    else if a.availableMemoryMB != b.availableMemoryMB then a.availableMemoryMB > b.availableMemoryMB
    else a.availableCPU > b.availableCPU
  }

  /** Score decides, then free memory, then free CPU. */
  lemma BetterIsLexicographic(a: NodeScore, b: NodeScore)
    ensures a.score > b.score ==> Better(a, b)
    ensures a.score == b.score && a.availableMemoryMB > b.availableMemoryMB ==> Better(a, b)
    ensures a.score == b.score && a.availableMemoryMB == b.availableMemoryMB ==>
      (Better(a, b) <==> a.availableCPU > b.availableCPU)
    ensures Better(a, b) ==> !Better(b, a)
  {
  }

  lemma BetterIsStrictWeak()
    ensures StrictWeak(Better)
  {
  }

  /** The scores of the nodes that meet the requirements; entries that are not nodes are skipped. */
  function Qualifying(nodes: seq<Option<Node>>, requiredMem: int, requiredCPU: real): seq<NodeScore> {
    if nodes == [] then []
    else
      var earlier := Qualifying(nodes[..|nodes| - 1], requiredMem, requiredCPU);
      var last := nodes[|nodes| - 1];
      if last.Some? && ScoreNode(last.value, requiredMem, requiredCPU).Some?
      then earlier + [ScoreNode(last.value, requiredMem, requiredCPU).value] else earlier
  }

  /** The score is that of a listed node that meets the requirements. */
  ghost predicate Earned(x: NodeScore, nodes: seq<Option<Node>>, mem: int, cpu: real) {
    exists i :: 0 <= i < |nodes| && nodes[i].Some? && Meets(nodes[i].value, mem, cpu)
                && ScoreNode(nodes[i].value, mem, cpu) == Some(x)
  }

  /** Exactly the listed nodes that meet the requirements are scored. */
  lemma {:induction false} QualifyingMembers(nodes: seq<Option<Node>>, mem: int, cpu: real, x: NodeScore)
    ensures x in Qualifying(nodes, mem, cpu) <==> Earned(x, nodes, mem, cpu)
  {
    hide ScoreNode, Meets;
    if nodes != [] {
      var init, last := nodes[..|nodes| - 1], nodes[|nodes| - 1];
      QualifyingMembers(init, mem, cpu, x);
      if last.Some? { ScoreNodeIff(last.value, mem, cpu); }
      assert nodes == init + [last];
      if Earned(x, init, mem, cpu) {
        var i :| 0 <= i < |init| && init[i].Some? && Meets(init[i].value, mem, cpu) && ScoreNode(init[i].value, mem, cpu) == Some(x);
        assert nodes[i] == init[i];
      }
      if last.Some? && ScoreNode(last.value, mem, cpu) == Some(x) { assert nodes[|nodes| - 1] == last; }
      if Earned(x, nodes, mem, cpu) {
        var i :| 0 <= i < |nodes| && nodes[i].Some? && Meets(nodes[i].value, mem, cpu) && ScoreNode(nodes[i].value, mem, cpu) == Some(x);
        assert i < |init| ==> init[i] == nodes[i];
      }
    }
  }

  const SHORTLIST := 3

  /** The best three of the qualifying nodes, best first: none left out is better
      than one returned. `nodes` is None when the node list cannot be read. */
  method SuggestNode(nodes: Option<seq<Option<Node>>>, requiredMem: int, requiredCPU: real)
    returns (r: Option<seq<NodeScore>>, ghost rest: seq<NodeScore>)
    ensures r.Some? <==> nodes.Some?
    ensures r.Some? ==>
      var q := Qualifying(nodes.value, requiredMem, requiredCPU);
      && |r.value| == (if |q| < SHORTLIST then |q| else SHORTLIST)
      && multiset(r.value) + multiset(rest) == multiset(q)
      && Ordered(r.value, Better)
      && (forall x, y :: x in rest && y in r.value ==> !Better(x, y))
      && (forall x :: x in r.value || x in rest <==> Earned(x, nodes.value, requiredMem, requiredCPU))
  {
    hide ScoreNode, Earned;
    rest := [];
    if nodes.None? {
      return None, rest;
    }
    var list := nodes.value;
    var scored: seq<NodeScore> := [];
    for i := 0 to |list|
      invariant scored == Qualifying(list[..i], requiredMem, requiredCPU)
    {
      assert list[..i + 1][..i] == list[..i];
      if list[i].Some? {
        var ns := ScoreNode(list[i].value, requiredMem, requiredCPU);
        if ns.Some? {
          scored := scored + [ns.value];
        }
      }
    }
    assert list[..|list|] == list;
    BetterIsStrictWeak();
    var sorted := Sort(scored, Better);
    SameMembers(sorted, scored);
    var n := if |sorted| > SHORTLIST then SHORTLIST else |sorted|;
    assert sorted == sorted[..n] + sorted[n..];
    rest := sorted[n..];
    forall x ensures x in scored <==> Earned(x, list, requiredMem, requiredCPU) {
      QualifyingMembers(list, requiredMem, requiredCPU, x);
    }
    return Some(sorted[..n]), rest;
  }
}
