/** The compiled execution plan the glossary examples read. The plan compiler belongs to
    an external library, so a plan is an input here: its node ids, its adjacency
    dictionary (as a sequence of entries in enumeration order), the cycle flag and the
    topological order, together with what the compiler guarantees about them (`Valid`). */
module ExecutionPlans {

  import opened Wrappers

  type NodeId = string

  datatype ExecutionPlan = ExecutionPlan(
    nodeIds: seq<NodeId>,
    adjacency: seq<(NodeId, seq<NodeId>)>,
    hasCycles: bool,
    topologicalOrder: Option<seq<NodeId>>)

  ghost predicate Distinct(xs: seq<NodeId>) {
    forall i, j :: 0 <= i < j < |xs| ==> xs[i] != xs[j]
  }

  /** The position of x in xs. */
  function IndexOf(xs: seq<NodeId>, x: NodeId): (i: nat)
    requires x in xs
    ensures i < |xs| && xs[i] == x && x !in xs[..i]
  {
    if xs[0] == x then 0 else 1 + IndexOf(xs[1..], x)
  }

  /** In a sequence without repetitions, the entry at position i has position i. */
  lemma IndexOfDistinct(xs: seq<NodeId>, i: int)
    requires Distinct(xs) && 0 <= i < |xs|
    ensures IndexOf(xs, xs[i]) == i
  {
  }

  /** The keys of the adjacency dictionary. */
  function Sources(adjacency: seq<(NodeId, seq<NodeId>)>): (ks: seq<NodeId>)
    ensures |ks| == |adjacency| && forall i :: 0 <= i < |ks| ==> ks[i] == adjacency[i].0
  {
    if |adjacency| == 0 then [] else Sources(adjacency[..|adjacency| - 1]) + [adjacency[|adjacency| - 1].0]
  }

  /** `adjacency.TryGetValue(v, out var outs)`. */
  function Successors(adjacency: seq<(NodeId, seq<NodeId>)>, v: NodeId): (r: Option<seq<NodeId>>)
    ensures r.Some? <==> v in Sources(adjacency)
    ensures r.Some? ==> exists i :: 0 <= i < |adjacency| && adjacency[i] == (v, r.value)
  {
    if |adjacency| == 0 then None
    else if adjacency[0].0 == v then Some(adjacency[0].1)
    else
      var r := Successors(adjacency[1..], v);
      assert Sources(adjacency[1..]) == Sources(adjacency)[1..];
      r
  }

  /** The plan has an edge u -> v. */
  ghost predicate IsEdge(plan: ExecutionPlan, u: NodeId, v: NodeId) {
    exists i :: 0 <= i < |plan.adjacency| && plan.adjacency[i].0 == u && v in plan.adjacency[i].1
  }

  /** order lists every node once, and every edge goes forward in it. */
  ghost predicate IsTopologicalOrder(plan: ExecutionPlan, order: seq<NodeId>) {
    Distinct(order) && |order| == |plan.nodeIds|
    && (forall v :: v in order <==> v in plan.nodeIds)
    && forall u, v :: IsEdge(plan, u, v) ==> u in order && v in order && IndexOf(order, u) < IndexOf(order, v)
  }

  /** What the compiler guarantees: node ids are unique, the adjacency has one entry per
      source and names only nodes of the plan, and an acyclic plan carries a
      topological order. */
  ghost predicate Valid(plan: ExecutionPlan) {
    Distinct(plan.nodeIds) && Distinct(Sources(plan.adjacency))
    && (forall i :: 0 <= i < |plan.adjacency| ==> plan.adjacency[i].0 in plan.nodeIds)
    && (forall i, k :: 0 <= i < |plan.adjacency| && 0 <= k < |plan.adjacency[i].1| ==>
          plan.adjacency[i].1[k] in plan.nodeIds)
    && (!plan.hasCycles ==> plan.topologicalOrder.Some?)
    && (!plan.hasCycles ==> IsTopologicalOrder(plan, plan.topologicalOrder.value))
  }

  /** `GetTopologicalOrder`: the plan's order, or InvalidOperationException when the plan
      has cycles or no order. */
  function GetTopologicalOrder(plan: ExecutionPlan): (r: Result<seq<NodeId>>)
    requires Valid(plan)
    ensures r.Ok? <==> !plan.hasCycles && plan.topologicalOrder.Some?
    ensures r.Ok? ==> IsTopologicalOrder(plan, r.value)
    ensures r.Err? ==> r.error.InvalidOperation?
  {
    if plan.hasCycles || plan.topologicalOrder.None? then
      Err(InvalidOperation("Graph must be acyclic to have a topological order."))
    else
      Ok(plan.topologicalOrder.value)
  }

  /** A walk along the plan's edges. */
  ghost predicate IsWalk(plan: ExecutionPlan, w: seq<NodeId>) {
    forall k :: 0 <= k < |w| - 1 ==> IsEdge(plan, w[k], w[k + 1])
  }

  /** A topological order rules out cycles: a walk of one or more edges never returns to
      the node it started from. */
  lemma {:induction false} OrderedWalk(plan: ExecutionPlan, order: seq<NodeId>, w: seq<NodeId>)
    requires IsTopologicalOrder(plan, order) && IsWalk(plan, w) && |w| >= 2
    ensures w[0] in order && w[|w| - 1] in order && IndexOf(order, w[0]) < IndexOf(order, w[|w| - 1])
  {
    if |w| > 2 {
      OrderedWalk(plan, order, w[..|w| - 1]);
      assert IsEdge(plan, w[|w| - 2], w[|w| - 1]);
    } else {
      assert IsEdge(plan, w[0], w[1]);
    }
  }

  lemma TopologicalMeansAcyclic(plan: ExecutionPlan, order: seq<NodeId>, w: seq<NodeId>)
    requires IsTopologicalOrder(plan, order) && IsWalk(plan, w) && |w| >= 2
    ensures w[0] != w[|w| - 1]
  {
    OrderedWalk(plan, order, w);
  }
}
