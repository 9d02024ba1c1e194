/** Who delegates to whom, where a chain of delegations ends, and what each end gathers. */
module DelegationModel {
  import opened Wrappers

  type Id = string

  datatype DelegationNode = DelegationNode(id: Id, initialWeight: int)

  datatype DelegationEdge = DelegationEdge(from: Id, to: Id)

  datatype EvaluatedNode = EvaluatedNode(id: Id, totalWeight: int)

  // --- the edge list as a map ---

  ghost predicate SoleDelegates(edges: seq<DelegationEdge>) {
    && (forall i | 0 <= i < |edges| :: edges[i].from != edges[i].to)
    && (forall i, j | 0 <= i < j < |edges| && edges[i].from == edges[j].from :: edges[i].to == edges[j].to)
  }

  /** The first edge out of each id. */
  function OutDegree(edges: seq<DelegationEdge>): map<Id, Id> {
    if edges == [] then map[]
    else
      var before, edge := OutDegree(edges[..|edges| - 1]), edges[|edges| - 1];
      if edge.from in before then before else before[edge.from := edge.to]
  }

  lemma {:induction false} OutDegreeIsEdges(edges: seq<DelegationEdge>, u: Id, v: Id)
    requires SoleDelegates(edges)
    ensures u in OutDegree(edges) && OutDegree(edges)[u] == v <==> DelegationEdge(u, v) in edges
    ensures u in OutDegree(edges) ==> DelegationEdge(u, OutDegree(edges)[u]) in edges
  {
    if edges != [] {
      var front, last := edges[..|edges| - 1], edges[|edges| - 1];
      OutDegreeIsEdges(front, u, v);
      assert edges == front + [last];
      if last.from == u && u in OutDegree(front) {
        var i :| 0 <= i < |front| && front[i] == DelegationEdge(u, OutDegree(front)[u]);
        assert edges[i].to == last.to;
      }
    }
  }

  /** The empty id reads as no target. */
  function Next(out: map<Id, Id>, u: Id): Option<Id> {
    if u in out && out[u] != "" then Some(out[u]) else None
  }

  /** A delegation is followed exactly when there is an edge for it and its target is not empty. */
  lemma NextIsEdge(edges: seq<DelegationEdge>, u: Id, v: Id)
    requires SoleDelegates(edges)
    ensures Next(OutDegree(edges), u) == Some(v) <==> DelegationEdge(u, v) in edges && v != ""
  {
    OutDegreeIsEdges(edges, u, v);
    if u in OutDegree(edges) {
      OutDegreeIsEdges(edges, u, OutDegree(edges)[u]);
    }
  }

  /** An accepted edge whose target is empty is not followed. */
  lemma EmptyTargetIsIgnored()
    ensures var edges := [DelegationEdge("a", "")];
            SoleDelegates(edges) && DelegationEdge("a", "") in edges && Next(OutDegree(edges), "a") == None
  {
    var edges := [DelegationEdge("a", "")];
    OutDegreeIsEdges(edges, "a", "");
  }

  // --- chains ---

  /** `k` delegations lead from `u` to `v`. */
  ghost predicate Reaches(out: map<Id, Id>, u: Id, k: nat, v: Id)
    decreases k
  {
    if k == 0 then u == v
    else Next(out, u).Some? && Reaches(out, Next(out, u).value, k - 1, v)
  }

  ghost predicate LeadsTo(out: map<Id, Id>, u: Id, v: Id) {
    exists k: nat :: k > 0 && Reaches(out, u, k, v)
  }

  ghost predicate OnCycle(out: map<Id, Id>, u: Id) {
    LeadsTo(out, u, u)
  }

  /** The chain from `u` stops at `r`, who delegates no further. */
  ghost predicate ChainEnds(out: map<Id, Id>, u: Id, k: nat, r: Id) {
    Reaches(out, u, k, r) && Next(out, r).None?
  }

  ghost predicate Ends(out: map<Id, Id>, u: Id) {
    exists k: nat, r :: ChainEnds(out, u, k, r)
  }

  lemma {:induction false} ChainEndsOnce(out: map<Id, Id>, u: Id, k: nat, r: Id, k': nat, r': Id)
    requires ChainEnds(out, u, k, r) && ChainEnds(out, u, k', r')
    ensures k == k' && r == r'
    decreases k
  {
    if k > 0 && k' > 0 {
      ChainEndsOnce(out, Next(out, u).value, k - 1, r, k' - 1, r');
    }
  }

  lemma {:induction false} ReachesExtend(out: map<Id, Id>, u: Id, k: nat, v: Id)
    requires Reaches(out, u, k, v) && Next(out, v).Some?
    ensures Reaches(out, u, k + 1, Next(out, v).value)
    decreases k
  {
    if k > 0 {
      ReachesExtend(out, Next(out, u).value, k - 1, v);
    } else {
      assert Reaches(out, Next(out, u).value, 0, Next(out, v).value);
    }
  }

  /** A chain that passes `v` goes on from there. */
  lemma {:induction false} ReachesSplit(out: map<Id, Id>, u: Id, a: nat, v: Id, b: nat, w: Id)
    requires Reaches(out, u, a, v) && Reaches(out, u, a + b, w)
    ensures Reaches(out, v, b, w)
    decreases a
  {
    if a > 0 { ReachesSplit(out, Next(out, u).value, a - 1, v, b, w); }
  }

  /** From anything a cycle leads to, the chain comes back. */
  lemma {:induction false} CycleReturns(out: map<Id, Id>, u: Id, c: nat, d: nat, v: Id) returns (k: nat)
    requires c > 0 && Reaches(out, u, c, u) && Reaches(out, u, d, v)
    ensures Reaches(out, v, k, u) && Next(out, v).Some?
    decreases d
  {
    if d <= c {
      k := c - d;
      ReachesSplit(out, u, d, v, c - d, u);
      if k == 0 { assert v == u; }
    } else {
      ReachesSplit(out, u, c, u, d - c, v);
      k := CycleReturns(out, u, c, d - c, v);
    }
  }

  ghost predicate Follows(out: map<Id, Id>, u: Id, v: Id) {
    exists k: nat :: Reaches(out, u, k, v)
  }

  /**
   * Of the chains from these ids, taken in order: within `maxDepth` steps, each ends or meets one of the chains before.
   */
  ghost predicate InTime(out: map<Id, Id>, ids: seq<Id>, maxDepth: int) {
    forall i: nat | i < |ids| :: MeetsInTime(out, ids, i, maxDepth)
  }

  ghost predicate MeetsInTime(out: map<Id, Id>, ids: seq<Id>, i: nat, maxDepth: int)
    requires i < |ids|
  {
    exists d: nat, v :: d <= maxDepth && Reaches(out, ids[i], d, v) && (Next(out, v).None? || Seen(out, ids[..i], v))
  }

  /** One of the chains passes `v`. */
  ghost predicate Seen(out: map<Id, Id>, ids: seq<Id>, v: Id) {
    exists j :: 0 <= j < |ids| && Follows(out, ids[j], v)
  }

  ghost function RootOf(out: map<Id, Id>, u: Id): (r: Id)
    requires Ends(out, u)
    ensures exists k: nat :: ChainEnds(out, u, k, r)
  {
    var k: nat, r :| ChainEnds(out, u, k, r);
    r
  }

  lemma RootIs(out: map<Id, Id>, u: Id, k: nat, r: Id)
    requires ChainEnds(out, u, k, r)
    ensures Ends(out, u) && RootOf(out, u) == r
  {
    var k': nat :| ChainEnds(out, u, k', RootOf(out, u));
    ChainEndsOnce(out, u, k, r, k', RootOf(out, u));
  }

  /** One root is reached from both sides of a delegation. */
  lemma RootOfNext(out: map<Id, Id>, u: Id)
    requires Ends(out, u)
    ensures Next(out, u).None? ==> RootOf(out, u) == u
    ensures Next(out, u).Some? ==> Ends(out, Next(out, u).value) && RootOf(out, u) == RootOf(out, Next(out, u).value)
  {
    var k: nat, r :| ChainEnds(out, u, k, r);
    RootIs(out, u, k, r);
    if Next(out, u).Some? {
      RootIs(out, Next(out, u).value, k - 1, r);
    }
  }

  // --- a height that falls along every delegation ---

  function Height(heights: map<Id, nat>, u: Id): nat {
    if u in heights then heights[u] else 0
  }

  ghost predicate Ranked(out: map<Id, Id>, heights: map<Id, nat>) {
    forall u | Next(out, u).Some? :: Height(heights, Next(out, u).value) < Height(heights, u)
  }

  lemma {:induction false} RankedFalls(out: map<Id, Id>, heights: map<Id, nat>, u: Id, k: nat, v: Id)
    requires Ranked(out, heights) && Reaches(out, u, k, v) && k > 0
    ensures Height(heights, v) < Height(heights, u)
    decreases k
  {
    if k > 1 { RankedFalls(out, heights, Next(out, u).value, k - 1, v); }
  }

  lemma {:induction false} RankedEnds(out: map<Id, Id>, heights: map<Id, nat>, u: Id)
    requires Ranked(out, heights)
    ensures Ends(out, u) && !OnCycle(out, u)
    decreases Height(heights, u)
  {
    if k: nat :| k > 0 && Reaches(out, u, k, u) {
      RankedFalls(out, heights, u, k, u);
    }
    if Next(out, u).Some? {
      RankedEnds(out, heights, Next(out, u).value);
      var k: nat, r :| ChainEnds(out, Next(out, u).value, k, r);
      assert ChainEnds(out, u, k + 1, r);
    } else {
      assert ChainEnds(out, u, 0, u);
    }
  }

  // --- weights ---

  ghost predicate AllEnd(out: map<Id, Id>) {
    forall u :: Ends(out, u)
  }

  function TotalWeight(nodes: seq<DelegationNode>): int {
    if nodes == [] then 0 else TotalWeight(nodes[..|nodes| - 1]) + nodes[|nodes| - 1].initialWeight
  }

  /** The weight of the nodes whose chain ends at `r`. */
  ghost function Gathered(nodes: seq<DelegationNode>, out: map<Id, Id>, r: Id): int
    requires AllEnd(out)
  {
    if nodes == [] then 0
    else
      var last := nodes[|nodes| - 1];
      Gathered(nodes[..|nodes| - 1], out, r) + if RootOf(out, last.id) == r then last.initialWeight else 0
  }

  function ResultWeight(results: seq<EvaluatedNode>): int {
    if results == [] then 0 else ResultWeight(results[..|results| - 1]) + results[|results| - 1].totalWeight
  }

  ghost function IdsOf(results: seq<EvaluatedNode>): (ids: seq<Id>)
    ensures |ids| == |results| && forall i | 0 <= i < |ids| :: ids[i] == results[i].id
  {
    seq(|results|, i requires 0 <= i < |results| => results[i].id)
  }

  predicate NoRepeats(ids: seq<Id>) {
    forall i, j | 0 <= i < j < |ids| :: ids[i] != ids[j]
  }

  ghost function GatheredBy(nodes: seq<DelegationNode>, out: map<Id, Id>, ids: seq<Id>): int
    requires AllEnd(out)
  {
    if ids == [] then 0
    else GatheredBy(nodes, out, ids[..|ids| - 1]) + Gathered(nodes, out, ids[|ids| - 1])
  }

  /** Whoever delegates gathers nothing: no chain ends there. */
  lemma {:induction false} DelegatorGathersNothing(nodes: seq<DelegationNode>, out: map<Id, Id>, u: Id)
    requires AllEnd(out) && Next(out, u).Some?
    ensures Gathered(nodes, out, u) == 0
  {
    if nodes != [] {
      DelegatorGathersNothing(nodes[..|nodes| - 1], out, u);
    }
  }

  lemma {:induction false} OneMoreNode(nodes: seq<DelegationNode>, out: map<Id, Id>, ids: seq<Id>)
    requires AllEnd(out) && nodes != [] && NoRepeats(ids)
    ensures var last := nodes[|nodes| - 1];
            GatheredBy(nodes, out, ids) ==
            GatheredBy(nodes[..|nodes| - 1], out, ids) +
            if RootOf(out, last.id) in ids then last.initialWeight else 0
    decreases |ids|
  {
    if ids != [] {
      var front := ids[..|ids| - 1];
      OneMoreNode(nodes, out, front);
      assert ids == front + [ids[|ids| - 1]];
    }
  }

  lemma {:induction false} NothingGathered(out: map<Id, Id>, ids: seq<Id>)
    requires AllEnd(out)
    ensures GatheredBy([], out, ids) == 0
  {
    if ids != [] { NothingGathered(out, ids[..|ids| - 1]); }
  }

  /** When every root is listed once, the listed sums add up to all the weight there was. */
  lemma {:induction false} WeightIsConserved(nodes: seq<DelegationNode>, out: map<Id, Id>, ids: seq<Id>)
    requires AllEnd(out) && NoRepeats(ids)
    requires forall i | 0 <= i < |nodes| :: RootOf(out, nodes[i].id) in ids
    ensures GatheredBy(nodes, out, ids) == TotalWeight(nodes)
    decreases |nodes|
  {
    if nodes == [] {
      NothingGathered(out, ids);
    } else {
      WeightIsConserved(nodes[..|nodes| - 1], out, ids);
      OneMoreNode(nodes, out, ids);
    }
  }

  ghost predicate GathersExactly(results: seq<EvaluatedNode>, nodes: seq<DelegationNode>, out: map<Id, Id>)
    requires AllEnd(out)
  {
    forall i | 0 <= i < |results| :: results[i].totalWeight == Gathered(nodes, out, results[i].id)
  }

  lemma {:induction false} ResultsAddUp(results: seq<EvaluatedNode>, nodes: seq<DelegationNode>, out: map<Id, Id>)
    requires AllEnd(out) && GathersExactly(results, nodes, out)
    ensures ResultWeight(results) == GatheredBy(nodes, out, IdsOf(results))
  {
    if results != [] {
      var front := results[..|results| - 1];
      ResultsAddUp(front, nodes, out);
      assert IdsOf(results)[..|results| - 1] == IdsOf(front);
    }
  }
}

module DelegationGraph {
  import opened Wrappers
  import opened DelegationModel

  datatype Failure =
    | TooManyNodes
    | DuplicateNode(id: Id)
    | SelfDelegation(id: Id)
    | MultipleDelegates(id: Id)
    | TooDeep(id: Id)
    | Cycle(id: Id)

  datatype Result<+T> = Ok(value: T) | Err(error: Failure)

  ghost predicate DistinctNodes(nodes: seq<DelegationNode>) {
    forall i, j | 0 <= i < j < |nodes| :: nodes[i].id != nodes[j].id
  }

  /** What each refusal means; with none of these in the input, evaluation succeeds. */
  ghost predicate Justified(f: Failure, nodes: seq<DelegationNode>, edges: seq<DelegationEdge>, maxDepth: int,
                            maxNodes: int) {
    match f
    case TooManyNodes => |nodes| > maxNodes
    case DuplicateNode(id) => exists i, j :: 0 <= i < j < |nodes| && nodes[i].id == id == nodes[j].id
    case SelfDelegation(id) => DelegationEdge(id, id) in edges
    case MultipleDelegates(id) =>
      exists a, b :: a != b && DelegationEdge(id, a) in edges && DelegationEdge(id, b) in edges
    case _ => ScanJustified(f, OutDegree(edges), maxDepth)
  }

  /** A chain longer than the limit, or a real cycle. */
  ghost predicate ScanJustified(f: Failure, out: map<Id, Id>, maxDepth: int) {
    match f
    case TooDeep(id) => exists u, k: nat :: k > maxDepth && Reaches(out, u, k, id)
    case Cycle(id) => OnCycle(out, id)
    case _ => false
  }

  /** The ids an evaluation reports on. */
  ghost predicate Mentioned(nodes: seq<DelegationNode>, edges: seq<DelegationEdge>, id: Id) {
    || (exists i :: 0 <= i < |nodes| && nodes[i].id == id)
    || (exists i :: 0 <= i < |edges| && (edges[i].from == id || edges[i].to == id))
  }

  method MapNodes(nodes: seq<DelegationNode>) returns (r: Result<map<Id, int>>)
    ensures r.Ok? ==> DistinctNodes(nodes)
    ensures r.Ok? ==> forall id :: id in r.value <==> exists i :: 0 <= i < |nodes| && nodes[i].id == id
    ensures r.Err? ==> r.error.DuplicateNode? && Justified(r.error, nodes, [], 0, 0)
  {
    var nodeMap: map<Id, int> := map[];
    for i := 0 to |nodes|
      invariant forall id :: id in nodeMap <==> exists j :: 0 <= j < i && nodes[j].id == id
      invariant DistinctNodes(nodes[..i])
    {
      if nodes[i].id in nodeMap {
        return Err(DuplicateNode(nodes[i].id));
      }
      nodeMap := nodeMap[nodes[i].id := nodes[i].initialWeight];
      assert nodes[..i + 1] == nodes[..i] + [nodes[i]];
    }
    assert nodes[..|nodes|] == nodes;
    return Ok(nodeMap);
  }

  method MapEdges(edges: seq<DelegationEdge>) returns (r: Result<map<Id, Id>>)
    ensures r.Ok? ==> r.value == OutDegree(edges) && SoleDelegates(edges)
    ensures r.Err? ==> (r.error.SelfDelegation? || r.error.MultipleDelegates?) && Justified(r.error, [], edges, 0, 0)
  {
    var outDegree: map<Id, Id> := map[];
    for i := 0 to |edges|
      invariant outDegree == OutDegree(edges[..i]) && SoleDelegates(edges[..i])
    {
      var edge := edges[i];
      ghost var done := edges[..i];
      assert edges[..i + 1] == done + [edge];
      if edge.from == edge.to {
        return Err(SelfDelegation(edge.from));
      }
      if edge.from in outDegree {
        var existingTo := outDegree[edge.from];
        OutDegreeIsEdges(done, edge.from, existingTo);
        if existingTo != edge.to {
          assert DelegationEdge(edge.from, edge.to) == edges[i];
          return Err(MultipleDelegates(edge.from));
        }
        assert SoleDelegates(edges[..i + 1]) by {
          forall j | 0 <= j < i && edges[j].from == edge.from ensures edges[j].to == edge.to {
            OutDegreeIsEdges(done, edge.from, edges[j].to);
            assert done[j] == DelegationEdge(edge.from, edges[j].to);
          }
        }
      } else {
        assert SoleDelegates(edges[..i + 1]) by {
          forall j | 0 <= j < i ensures edges[j].from != edge.from {
            OutDegreeIsEdges(done, edges[j].from, edges[j].to);
            assert done[j] == DelegationEdge(edges[j].from, edges[j].to);
          }
        }
        outDegree := outDegree[edge.from := edge.to];
      }
    }
    assert edges[..|edges|] == edges;
    return Ok(outDegree);
  }

  /** Everything on the stack leads to `node`, and `start` does so in `depth` steps. */
  ghost predicate OnTheWay(out: map<Id, Id>, stack: set<Id>, start: Id, node: Id, depth: nat) {
    Reaches(out, start, depth, node) && forall u | u in stack :: LeadsTo(out, u, node)
  }

  lemma NextIsOnTheWay(out: map<Id, Id>, stack: set<Id>, start: Id, node: Id, depth: nat)
    requires Next(out, node).Some? && OnTheWay(out, stack, start, node, depth)
    ensures OnTheWay(out, stack + {node}, start, Next(out, node).value, depth + 1)
  {
    var target := Next(out, node).value;
    ReachesExtend(out, start, depth, node);
    forall u | u in stack + {node} ensures LeadsTo(out, u, target) {
      if u in stack {
        var k: nat :| k > 0 && Reaches(out, u, k, node);
        ReachesExtend(out, u, k, node);
      } else {
        assert Reaches(out, node, 0, node);
        ReachesExtend(out, node, 0, node);
      }
    }
  }

  /** The sets the cycle scan shares; a finished node has a height. */
  class CycleScan {
    const outDegree: map<Id, Id>
    const maxDepth: int
    var visited: set<Id>
    var stack: set<Id>
    ghost var heights: map<Id, nat>

    ghost predicate Valid()
      reads this
    {
      && visited == heights.Keys + stack
      && heights.Keys !! stack
      && forall u | u in heights && Next(outDegree, u).Some? ::
           Next(outDegree, u).value in heights && heights[Next(outDegree, u).value] < heights[u]
    }

    constructor (outDegree: map<Id, Id>, maxDepth: int)
      ensures Valid() && visited == {} && stack == {}
      ensures this.outDegree == outDegree && this.maxDepth == maxDepth
    {
      this.outDegree, this.maxDepth := outDegree, maxDepth;
      visited, stack, heights := {}, {}, map[];
    }

    /** Whether the chain from `node` ends, or meets a finished node, within the steps that are left. */
    ghost predicate Arrives(node: Id, depth: nat)
      reads this
    {
      exists d: nat, v :: depth + d <= maxDepth && Reaches(outDegree, node, d, v) &&
                          (Next(outDegree, v).None? || v in heights)
    }

    lemma ClosedHeights(u: Id, k: nat, v: Id)
      requires Valid() && u in heights && Reaches(outDegree, u, k, v)
      ensures v in heights
      decreases k
    {
      if k > 0 { ClosedHeights(Next(outDegree, u).value, k - 1, v); }
    }

    /** A node that is on the stack again never arrives. */
    lemma CycleNeverArrives(node: Id, depth: nat)
      requires Valid() && node in stack && OnCycle(outDegree, node)
      ensures !Arrives(node, depth)
    {
      var c: nat :| c > 0 && Reaches(outDegree, node, c, node);
      forall d: nat, v | Reaches(outDegree, node, d, v) ensures Next(outDegree, v).Some? && v !in heights {
        var k := CycleReturns(outDegree, node, c, d, v);
        if v in heights { ClosedHeights(v, k, node); }
      }
    }

    lemma ArrivesByNext(node: Id, depth: nat)
      requires Next(outDegree, node).Some? && node !in heights
      ensures Arrives(node, depth) <==> Arrives(Next(outDegree, node).value, depth + 1)
    {
      var target := Next(outDegree, node).value;
      if d: nat, v :| depth + d <= maxDepth && Reaches(outDegree, node, d, v) &&
                      (Next(outDegree, v).None? || v in heights) {
        assert d > 0 && Reaches(outDegree, target, d - 1, v);
      }
      if d: nat, v :| depth + 1 + d <= maxDepth && Reaches(outDegree, target, d, v) &&
                      (Next(outDegree, v).None? || v in heights) {
        assert Reaches(outDegree, node, d + 1, v);
      }
    }

    method CheckCycleAndDepth(ghost start: Id, nodeId: Id, depth: nat) returns (failed: Option<Failure>)
      requires Valid() && OnTheWay(outDegree, stack, start, nodeId, depth)
      modifies this
      ensures failed.None? ==> Valid() && stack == old(stack) && old(heights.Keys) + {nodeId} <= heights.Keys
      ensures failed.None? ==> forall u | u in heights :: u in old(heights) || Follows(outDegree, nodeId, u)
      ensures failed.None? <==> old(Arrives(nodeId, depth))
      ensures failed.Some? ==> ScanJustified(failed.value, outDegree, maxDepth)
      decreases maxDepth - depth
    {
      if depth > maxDepth {
        return Some(TooDeep(nodeId));
      }
      if nodeId in stack {
        CycleNeverArrives(nodeId, depth);
        return Some(Cycle(nodeId));
      }
      assert Reaches(outDegree, nodeId, 0, nodeId);
      if nodeId in visited {
        return None;
      }
      if Next(outDegree, nodeId).Some? {
        NextIsOnTheWay(outDegree, stack, start, nodeId, depth);
        ArrivesByNext(nodeId, depth);
      }
      visited := visited + {nodeId};
      stack := stack + {nodeId};
      if nodeId in outDegree && outDegree[nodeId] != "" {
        var target := outDegree[nodeId];
        failed := CheckCycleAndDepth(start, target, depth + 1);
        if failed.Some? { return; }
        forall u | Follows(outDegree, target, u) ensures Follows(outDegree, nodeId, u) {
          var k: nat :| Reaches(outDegree, target, k, u);
          assert Reaches(outDegree, nodeId, k + 1, u);
        }
        heights := heights[nodeId := heights[target] + 1];
      } else {
        heights := heights[nodeId := 0];
      }
      stack := stack - {nodeId};
      failed := None;
    }
  }

  lemma SeenMore(out: map<Id, Id>, ids: seq<Id>, id: Id, v: Id)
    ensures Seen(out, ids + [id], v) <==> Seen(out, ids, v) || Follows(out, id, v)
  {
    var all := ids + [id];
    assert all[|ids|] == id;
    if j :| 0 <= j < |ids| && Follows(out, ids[j], v) { assert all[j] == ids[j]; }
  }

  /** Scans the ids in order; succeeds exactly when all chains arrive in time, and then every chain ends. */
  method CheckAll(allNodesToCheck: seq<Id>, outDegree: map<Id, Id>, maxDepth: int)
    returns (failed: Option<Failure>, ghost heights: map<Id, nat>)
    requires forall u | u in outDegree :: u in allNodesToCheck
    ensures failed.None? ==> Ranked(outDegree, heights)
    ensures failed.None? <==> InTime(outDegree, allNodesToCheck, maxDepth)
    ensures failed.Some? ==> ScanJustified(failed.value, outDegree, maxDepth)
  {
    var scan := new CycleScan(outDegree, maxDepth);
    heights := map[];
    for i := 0 to |allNodesToCheck|
      invariant scan.Valid() && scan.stack == {}
      invariant scan.outDegree == outDegree && scan.maxDepth == maxDepth
      invariant forall u :: u in scan.heights <==> Seen(outDegree, allNodesToCheck[..i], u)
      invariant forall j: nat | j < i :: MeetsInTime(outDegree, allNodesToCheck, j, maxDepth)
    {
      var nodeId := allNodesToCheck[i];
      ghost var before := allNodesToCheck[..i];
      assert allNodesToCheck[..i + 1] == before + [nodeId];
      assert Reaches(outDegree, nodeId, 0, nodeId) && Follows(outDegree, nodeId, nodeId);
      ArrivalIsMeeting(scan, allNodesToCheck, i);
      if nodeId !in scan.visited {
        failed := scan.CheckCycleAndDepth(nodeId, nodeId, 0);
        if failed.Some? { return; }
      } else {
        assert i > 0 && MeetsInTime(outDegree, allNodesToCheck, 0, maxDepth);
        assert scan.Arrives(nodeId, 0);
      }
      forall u ensures u in scan.heights <==> Seen(outDegree, before + [nodeId], u) {
        SeenMore(outDegree, before, nodeId, u);
        if k: nat :| Reaches(outDegree, nodeId, k, u) { scan.ClosedHeights(nodeId, k, u); }
      }
    }
    failed, heights := None, scan.heights;
    assert allNodesToCheck[..|allNodesToCheck|] == allNodesToCheck;
    forall u | Next(outDegree, u).Some? ensures u in heights {
      var j :| 0 <= j < |allNodesToCheck| && allNodesToCheck[j] == u;
      assert Reaches(outDegree, u, 0, u);
    }
  }

  /** What the scan asks of the next id, in terms of the chains before. */
  lemma ArrivalIsMeeting(scan: CycleScan, ids: seq<Id>, i: nat)
    requires i < |ids| && forall u :: u in scan.heights <==> Seen(scan.outDegree, ids[..i], u)
    ensures scan.Arrives(ids[i], 0) <==> MeetsInTime(scan.outDegree, ids, i, scan.maxDepth)
  {
  }

  /** Roots found so far. */
  class RootFinder {
    const outDegree: map<Id, Id>
    ghost const heights: map<Id, nat>
    var memo: map<Id, Id>

    ghost predicate Valid()
      reads this
    {
      && Ranked(outDegree, heights)
      && AllEnd(outDegree)
      && forall u | u in memo :: memo[u] == RootOf(outDegree, u)
    }

    constructor (outDegree: map<Id, Id>, ghost heights: map<Id, nat>)
      requires Ranked(outDegree, heights)
      ensures Valid() && this.outDegree == outDegree
    {
      this.outDegree, this.heights := outDegree, heights;
      memo := map[];
      forall u ensures Ends(outDegree, u) { RankedEnds(outDegree, heights, u); }
    }

    /** With or without the memo, the answer is where plain walking ends. */
    method FindRoot(node: Id) returns (root: Id)
      requires Valid()
      modifies this
      ensures Valid() && root == RootOf(outDegree, node)
      decreases Height(heights, node)
    {
      RootOfNext(outDegree, node);
      if node in memo {
        return memo[node];
      }
      if node !in outDegree || outDegree[node] == "" {
        memo := memo[node := node];
        return node;
      }
      var target := outDegree[node];
      root := FindRoot(target);
      memo := memo[node := root];
    }
  }

  lemma RootIsMentioned(nodes: seq<DelegationNode>, edges: seq<DelegationEdge>, i: nat)
    requires i < |nodes| && SoleDelegates(edges) && Ends(OutDegree(edges), nodes[i].id)
    ensures Mentioned(nodes, edges, RootOf(OutDegree(edges), nodes[i].id))
  {
    var out := OutDegree(edges);
    var k: nat, r :| ChainEnds(out, nodes[i].id, k, r);
    RootIs(out, nodes[i].id, k, r);
    if k > 0 {
      ReachesByEdge(edges, nodes[i].id, k, r);
    }
  }

  lemma {:induction false} ReachesByEdge(edges: seq<DelegationEdge>, u: Id, k: nat, v: Id)
    requires SoleDelegates(edges) && Reaches(OutDegree(edges), u, k, v) && k > 0
    ensures exists i :: 0 <= i < |edges| && edges[i].to == v
    decreases k
  {
    var out := OutDegree(edges);
    if k == 1 {
      assert Reaches(out, out[u], 0, v);
      OutDegreeIsEdges(edges, u, v);
    } else {
      ReachesByEdge(edges, Next(out, u).value, k - 1, v);
    }
  }

  /** Zero for every id that a node or an edge mentions. */
  method InitialResults(nodes: seq<DelegationNode>, edges: seq<DelegationEdge>, nodeMap: map<Id, int>,
                        outDegree: map<Id, Id>)
    returns (finalResults: map<Id, int>)
    requires SoleDelegates(edges) && outDegree == OutDegree(edges)
    requires forall id :: id in nodeMap <==> exists i :: 0 <= i < |nodes| && nodes[i].id == id
    ensures forall id :: id in finalResults <==> Mentioned(nodes, edges, id)
    ensures forall id | id in finalResults :: finalResults[id] == 0
  {
    var ids := nodeMap.Keys + outDegree.Keys + outDegree.Values;
    forall id ensures id in ids <==> Mentioned(nodes, edges, id) {
      if i :| 0 <= i < |edges| && (edges[i].from == id || edges[i].to == id) {
        OutDegreeIsEdges(edges, edges[i].from, edges[i].to);
        assert edges[i] == DelegationEdge(edges[i].from, edges[i].to);
      }
      if id in outDegree.Keys + outDegree.Values {
        var u :| u in outDegree && (u == id || outDegree[u] == id);
        OutDegreeIsEdges(edges, u, outDegree[u]);
      }
    }
    finalResults := map id | id in ids :: 0;
  }

  /** Sends each node's weight to its root. */
  method GatherWeights(nodes: seq<DelegationNode>, edges: seq<DelegationEdge>, finder: RootFinder, zero: map<Id, int>)
    returns (finalResults: map<Id, int>)
    requires finder.Valid() && finder.outDegree == OutDegree(edges) && SoleDelegates(edges)
    requires forall id :: id in zero <==> Mentioned(nodes, edges, id)
    requires forall id | id in zero :: zero[id] == 0
    modifies finder
    ensures AllEnd(OutDegree(edges)) && finalResults.Keys == zero.Keys
    ensures forall id | id in finalResults :: finalResults[id] == Gathered(nodes, OutDegree(edges), id)
  {
    finalResults := zero;
    for i := 0 to |nodes|
      invariant finder.Valid() && finalResults.Keys == zero.Keys
      invariant forall id | id in finalResults :: finalResults[id] == Gathered(nodes[..i], OutDegree(edges), id)
    {
      var root := finder.FindRoot(nodes[i].id);
      RootIsMentioned(nodes, edges, i);
      var current := if root in finalResults then finalResults[root] else 0;
      finalResults := finalResults[root := current + nodes[i].initialWeight];
      assert nodes[..i + 1][..i] == nodes[..i];
    }
    assert nodes[..|nodes|] == nodes;
  }

  /** The entries of a map as a list, each once. */
  method Entries(finalResults: map<Id, int>) returns (results: seq<EvaluatedNode>)
    ensures NoRepeats(IdsOf(results)) && forall id :: id in IdsOf(results) <==> id in finalResults
    ensures forall i | 0 <= i < |results| ::
              results[i].id in finalResults && results[i].totalWeight == finalResults[results[i].id]
  {
    results := [];
    var rest := finalResults.Keys;
    while rest != {}
      invariant rest <= finalResults.Keys && NoRepeats(IdsOf(results))
      invariant forall id :: id in IdsOf(results) <==> id in finalResults.Keys - rest
      invariant forall i | 0 <= i < |results| ::
                  results[i].id in finalResults && results[i].totalWeight == finalResults[results[i].id]
      decreases rest
    {
      var id := AnyOf(rest);
      ghost var before := IdsOf(results);
      results := results + [EvaluatedNode(id, finalResults[id])];
      assert id !in before;
      assert IdsOf(results) == before + [id];
      rest := rest - {id};
    }
  }

  /** The ids of the nodes, then those that delegate, in input order; an id already visited is passed over. */
  function ScanOrder(nodes: seq<DelegationNode>, edges: seq<DelegationEdge>): seq<Id> {
    seq(|nodes|, i requires 0 <= i < |nodes| => nodes[i].id) +
    seq(|edges|, i requires 0 <= i < |edges| => edges[i].from)
  }

  lemma OrderCovers(nodes: seq<DelegationNode>, edges: seq<DelegationEdge>)
    requires SoleDelegates(edges)
    ensures forall u | u in OutDegree(edges) :: u in ScanOrder(nodes, edges)
  {
    forall u | u in OutDegree(edges) ensures u in ScanOrder(nodes, edges) {
      OutDegreeIsEdges(edges, u, OutDegree(edges)[u]);
      var i :| 0 <= i < |edges| && edges[i] == DelegationEdge(u, OutDegree(edges)[u]);
      assert ScanOrder(nodes, edges)[|nodes| + i] == u;
    }
  }

  /**
   * On success every chain ends, the results list each mentioned id once with exactly the weight whose
   * chains end there, and the results add up to the initial weight. Every failure is justified.
   */
  method EvaluateDelegationGraph(nodes: seq<DelegationNode>, edges: seq<DelegationEdge>, maxDepth: int := 100,
                                 maxNodes: int := 10000)
    returns (r: Result<seq<EvaluatedNode>>)
    ensures r.Err? ==> Justified(r.error, nodes, edges, maxDepth, maxNodes)
    ensures r.Ok? <==> |nodes| <= maxNodes && DistinctNodes(nodes) && SoleDelegates(edges) &&
                       InTime(OutDegree(edges), ScanOrder(nodes, edges), maxDepth)
    ensures r.Ok? ==>
              && |nodes| <= maxNodes && DistinctNodes(nodes) && SoleDelegates(edges)
              && AllEnd(OutDegree(edges)) && (forall u :: !OnCycle(OutDegree(edges), u))
    ensures r.Ok? ==>
              && NoRepeats(IdsOf(r.value))
              && (forall id :: id in IdsOf(r.value) <==> Mentioned(nodes, edges, id))
              && GathersExactly(r.value, nodes, OutDegree(edges))
    ensures r.Ok? ==> ResultWeight(r.value) == TotalWeight(nodes)
    ensures r.Ok? ==> forall i | 0 <= i < |r.value| && Next(OutDegree(edges), r.value[i].id).Some? ::
                        r.value[i].totalWeight == 0
  {
    if |nodes| > maxNodes {
      return Err(TooManyNodes);
    }
    var nodeMap := MapNodes(nodes);
    if nodeMap.Err? {
      return Err(nodeMap.error);
    }
    var outDegree := MapEdges(edges);
    if outDegree.Err? {
      return Err(outDegree.error);
    }
    OrderCovers(nodes, edges);
    var failed, heights := CheckAll(ScanOrder(nodes, edges), outDegree.value, maxDepth);
    if failed.Some? {
      return Err(failed.value);
    }
    forall u ensures !OnCycle(outDegree.value, u) { RankedEnds(outDegree.value, heights, u); }
    var finder := new RootFinder(outDegree.value, heights);
    var zero := InitialResults(nodes, edges, nodeMap.value, outDegree.value);
    var finalResults := GatherWeights(nodes, edges, finder, zero);
    var results := Entries(finalResults);
    ResultsAreExact(nodes, edges, results);
    return Ok(results);
  }

  lemma ResultsAreExact(nodes: seq<DelegationNode>, edges: seq<DelegationEdge>, results: seq<EvaluatedNode>)
    requires SoleDelegates(edges) && AllEnd(OutDegree(edges)) && GathersExactly(results, nodes, OutDegree(edges))
    requires NoRepeats(IdsOf(results)) && forall id :: id in IdsOf(results) <==> Mentioned(nodes, edges, id)
    ensures ResultWeight(results) == TotalWeight(nodes)
    ensures forall i | 0 <= i < |results| && Next(OutDegree(edges), results[i].id).Some? :: results[i].totalWeight == 0
  {
    var out := OutDegree(edges);
    forall i | 0 <= i < |nodes| ensures RootOf(out, nodes[i].id) in IdsOf(results) {
      RootIsMentioned(nodes, edges, i);
    }
    WeightIsConserved(nodes, out, IdsOf(results));
    ResultsAddUp(results, nodes, out);
    forall i | 0 <= i < |results| && Next(out, results[i].id).Some? ensures results[i].totalWeight == 0 {
      DelegatorGathersNothing(nodes, out, results[i].id);
    }
  }
}
