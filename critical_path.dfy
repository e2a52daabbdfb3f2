/** `ComputeCriticalPath` of the glossary examples: the longest path through a DAG whose
    nodes carry durations. A predecessor list is built from the plan's adjacency, a
    dynamic program over the topological order records each node's finish time and the
    predecessor it waited for, the node finishing last is picked, and its chain of
    recorded predecessors is the path. Dictionaries become Dafny maps; the finish-time
    dictionary is enumerated in insertion order, which is the topological order. */
module CriticalPaths {

  import opened Wrappers
  import opened ExecutionPlans

  /** `int.MinValue`, the starting value of the search for the latest finish. */
  const IntMinValue: int := -0x8000_0000

  // ---------------------------------------------------------------------------
  // Predecessor lists
  // ---------------------------------------------------------------------------

  /** src once for every occurrence of t among outs. */
  function PredsFrom(src: NodeId, outs: seq<NodeId>, t: NodeId): seq<NodeId> {
    if |outs| == 0 then []
    else PredsFrom(src, outs[..|outs| - 1], t) + (if outs[|outs| - 1] == t then [src] else [])
  }

  /** `predecessors[t]` once every adjacency entry has been walked, in enumeration order. */
  function PredsOf(adjacency: seq<(NodeId, seq<NodeId>)>, t: NodeId): seq<NodeId> {
    if |adjacency| == 0 then []
    else
      var last := adjacency[|adjacency| - 1];
      PredsOf(adjacency[..|adjacency| - 1], t) + PredsFrom(last.0, last.1, t)
  }

  lemma {:induction false} PredsFromMember(src: NodeId, outs: seq<NodeId>, t: NodeId, p: NodeId)
    ensures p in PredsFrom(src, outs, t) <==> p == src && t in outs
  {
    if |outs| > 0 {
      PredsFromMember(src, outs[..|outs| - 1], t, p);
      assert outs == outs[..|outs| - 1] + [outs[|outs| - 1]];
    }
  }

  lemma {:induction false} PredsOfMember(adjacency: seq<(NodeId, seq<NodeId>)>, t: NodeId, p: NodeId)
    ensures p in PredsOf(adjacency, t) <==> exists i :: 0 <= i < |adjacency| && adjacency[i].0 == p && t in adjacency[i].1
  {
    if |adjacency| > 0 {
      var n := |adjacency| - 1;
      PredsOfMember(adjacency[..n], t, p);
      PredsFromMember(adjacency[n].0, adjacency[n].1, t, p);
      if p in PredsOf(adjacency, t) && p !in PredsOf(adjacency[..n], t) {
        assert adjacency[n].0 == p && t in adjacency[n].1;
      }
      if exists i :: 0 <= i < |adjacency| && adjacency[i].0 == p && t in adjacency[i].1 {
        var i :| 0 <= i < |adjacency| && adjacency[i].0 == p && t in adjacency[i].1;
        if i < n {
          assert adjacency[..n][i] == adjacency[i];
        }
      }
    }
  }

  lemma PredsFromSnoc(src: NodeId, outs: seq<NodeId>, x: NodeId, t: NodeId)
    ensures PredsFrom(src, outs + [x], t) == PredsFrom(src, outs, t) + (if x == t then [src] else [])
  {
    assert (outs + [x])[..|outs|] == outs;
  }

  lemma PredsOfSnoc(adjacency: seq<(NodeId, seq<NodeId>)>, e: (NodeId, seq<NodeId>), t: NodeId)
    ensures PredsOf(adjacency + [e], t) == PredsOf(adjacency, t) + PredsFrom(e.0, e.1, t)
  {
    assert (adjacency + [e])[..|adjacency|] == adjacency;
  }

  lemma PredsOfPrefix(adjacency: seq<(NodeId, seq<NodeId>)>, i: int, t: NodeId)
    requires 0 <= i < |adjacency|
    ensures PredsOf(adjacency[..i + 1], t) == PredsOf(adjacency[..i], t) + PredsFrom(adjacency[i].0, adjacency[i].1, t)
  {
    assert adjacency[..i + 1][..i] == adjacency[..i];
  }

  /** The predecessor list of t holds exactly the sources of the edges into t. */
  lemma PredsAreEdges(plan: ExecutionPlan, t: NodeId, p: NodeId)
    ensures p in PredsOf(plan.adjacency, t) <==> IsEdge(plan, p, t)
  {
    PredsOfMember(plan.adjacency, t, p);
  }

  /** `predecessors[id] = new List<string>()` for every node id. */
  method EmptyPredecessors(ids: seq<NodeId>) returns (preds: map<NodeId, seq<NodeId>>)
    ensures forall id :: id in preds <==> id in ids
    ensures forall id :: id in preds ==> preds[id] == []
  {
    preds := map[];
    for i := 0 to |ids|
      invariant forall id :: id in preds <==> id in ids[..i]
      invariant forall id :: id in preds ==> preds[id] == []
    {
      preds := preds[ids[i] := []];
      assert forall id :: id in ids[..i + 1] <==> id in ids[..i] || id == ids[i];
    }
    assert ids[..|ids|] == ids;
  }

  /** `foreach (var t in outs) predecessors[t].Add(src)` for one adjacency entry. */
  method AddSource(preds: map<NodeId, seq<NodeId>>, src: NodeId, outs: seq<NodeId>) returns (preds': map<NodeId, seq<NodeId>>)
    requires forall k :: 0 <= k < |outs| ==> outs[k] in preds
    ensures preds'.Keys == preds.Keys
    ensures forall id :: id in preds ==> preds'[id] == preds[id] + PredsFrom(src, outs, id)
  {
    preds' := preds;
    for k := 0 to |outs|
      invariant preds'.Keys == preds.Keys
      invariant forall id :: id in preds ==> preds'[id] == preds[id] + PredsFrom(src, outs[..k], id)
    {
      var t := outs[k];
      preds' := preds'[t := preds'[t] + [src]];
      assert outs[..k + 1][..k] == outs[..k];
    }
    assert outs[..|outs|] == outs;
  }

  /** Step 1: an empty list per node id, then `predecessors[t].Add(src)` for every edge
      src -> t in adjacency order. */
  method BuildPredecessors(plan: ExecutionPlan) returns (preds: map<NodeId, seq<NodeId>>)
    requires Valid(plan)
    ensures forall id :: id in preds <==> id in plan.nodeIds
    ensures forall id :: id in preds ==> preds[id] == PredsOf(plan.adjacency, id)
  {
    preds := EmptyPredecessors(plan.nodeIds);
    for i := 0 to |plan.adjacency|
      invariant forall id :: id in preds <==> id in plan.nodeIds
      invariant forall id :: id in preds ==> preds[id] == PredsOf(plan.adjacency[..i], id)
    {
      var (src, outs) := plan.adjacency[i];
      assert forall k :: 0 <= k < |outs| ==> outs[k] in plan.nodeIds;
      var next := AddSource(preds, src, outs);
      forall id | id in next
        ensures next[id] == PredsOf(plan.adjacency[..i + 1], id)
      {
        PredsOfPrefix(plan.adjacency, i, id);
      }
      preds := next;
    }
    assert plan.adjacency[..|plan.adjacency|] == plan.adjacency;
  }

  // ---------------------------------------------------------------------------
  // The dynamic program
  // ---------------------------------------------------------------------------

  /** `finishTime.TryGetValue(p, out var ft) ? ft : 0`. */
  function FinishOr0(finish: map<NodeId, int>, p: NodeId): int {
    if p in finish then finish[p] else 0
  }

  /** `nodeDurations.TryGetValue(v, out var d) ? d : 0`. */
  function Duration(durations: map<NodeId, int>, v: NodeId): int {
    if v in durations then durations[v] else 0
  }

  /** The scan over a predecessor list: (bestTime, bestPred) start at (0, null) and a
      candidate replaces them only when its finish time is strictly greater. So the best
      time is the largest finish time, or 0, and the best predecessor is the first one
      attaining it, never one finishing at 0. */
  function Best(ps: seq<NodeId>, finish: map<NodeId, int>): (r: (int, Option<NodeId>))
    ensures r.0 >= 0 && forall p :: p in ps ==> FinishOr0(finish, p) <= r.0
    ensures r.1.None? ==> r.0 == 0
    ensures r.1.Some? ==> r.0 > 0 && r.1.value in ps && FinishOr0(finish, r.1.value) == r.0
  {
    if |ps| == 0 then (0, None)
    else
      var b := Best(ps[..|ps| - 1], finish);
      var c := FinishOr0(finish, ps[|ps| - 1]);
      assert forall p :: p in ps ==> p in ps[..|ps| - 1] || p == ps[|ps| - 1];
      if c > b.0 then (c, Some(ps[|ps| - 1])) else b
  }

  /** The recorded predecessor is the first one in list order whose finish time is the
      best time: every candidate before it finished strictly earlier. */
  lemma {:induction false} BestIsFirst(ps: seq<NodeId>, finish: map<NodeId, int>) returns (j: nat)
    requires Best(ps, finish).1.Some?
    ensures j < |ps| && ps[j] == Best(ps, finish).1.value
    ensures forall i :: 0 <= i < j ==> FinishOr0(finish, ps[i]) < Best(ps, finish).0
  {
    var n := |ps| - 1;
    var b := Best(ps[..n], finish);
    if FinishOr0(finish, ps[n]) > b.0 {
      j := n;
      forall i | 0 <= i < j
        ensures FinishOr0(finish, ps[i]) < Best(ps, finish).0
      {
        assert ps[i] == ps[..n][i];
      }
    } else {
      j := BestIsFirst(ps[..n], finish);
    }
  }

  /** Two finish maps that agree on the candidates give the same scan. */
  lemma {:induction false} BestFrame(ps: seq<NodeId>, f1: map<NodeId, int>, f2: map<NodeId, int>)
    requires forall p :: p in ps ==> FinishOr0(f1, p) == FinishOr0(f2, p)
    ensures Best(ps, f1) == Best(ps, f2)
  {
    if |ps| > 0 {
      BestFrame(ps[..|ps| - 1], f1, f2);
    }
  }

  datatype Schedule = Schedule(finish: map<NodeId, int>, parent: map<NodeId, Option<NodeId>>)

  /** The finish times and parents after the nodes of order, in order:
      finish[v] = bestTime + duration(v) and parent[v] = bestPred. */
  function Scheduled(order: seq<NodeId>, preds: map<NodeId, seq<NodeId>>, durations: map<NodeId, int>): Schedule {
    if |order| == 0 then Schedule(map[], map[])
    else
      var s := Scheduled(order[..|order| - 1], preds, durations);
      var v := order[|order| - 1];
      var b := Best(if v in preds then preds[v] else [], s.finish);
      Schedule(s.finish[v := b.0 + Duration(durations, v)], s.parent[v := b.1])
  }

  /** Exactly the nodes of the order have a finish time and a parent entry. */
  lemma {:induction false} ScheduledKeys(order: seq<NodeId>, preds: map<NodeId, seq<NodeId>>, durations: map<NodeId, int>, x: NodeId)
    ensures x in Scheduled(order, preds, durations).finish <==> x in order
    ensures x in Scheduled(order, preds, durations).parent <==> x in order
  {
    if |order| > 0 {
      ScheduledKeys(order[..|order| - 1], preds, durations, x);
      assert order == order[..|order| - 1] + [order[|order| - 1]];
    }
  }

  /** Later steps leave the entry of an earlier node alone. */
  lemma {:induction false} ScheduledKeeps(order: seq<NodeId>, preds: map<NodeId, seq<NodeId>>, durations: map<NodeId, int>,
                                          j: nat, i: nat)
    requires Distinct(order) && i < j <= |order|
    ensures order[i] in order[..j]
    ensures order[i] in Scheduled(order, preds, durations).finish && order[i] in Scheduled(order, preds, durations).parent
    ensures order[i] in Scheduled(order[..j], preds, durations).finish && order[i] in Scheduled(order[..j], preds, durations).parent
    ensures Scheduled(order, preds, durations).finish[order[i]] == Scheduled(order[..j], preds, durations).finish[order[i]]
    ensures Scheduled(order, preds, durations).parent[order[i]] == Scheduled(order[..j], preds, durations).parent[order[i]]
    decreases |order|
  {
    assert order[..j][i] == order[i];
    ScheduledKeys(order, preds, durations, order[i]);
    ScheduledKeys(order[..j], preds, durations, order[i]);
    if j < |order| {
      var n := |order| - 1;
      assert order[..n][..j] == order[..j] && order[..n][i] == order[i];
      ScheduledKeeps(order[..n], preds, durations, j, i);
      assert order[i] != order[n];
    } else {
      assert order[..j] == order;
    }
  }

  /** Every node is scheduled against the finish times of the nodes before it. */
  lemma ScheduledStep(order: seq<NodeId>, preds: map<NodeId, seq<NodeId>>, durations: map<NodeId, int>, k: int)
    requires Distinct(order) && 0 <= k < |order|
    ensures order[k] in Scheduled(order, preds, durations).finish && order[k] in Scheduled(order, preds, durations).parent
    ensures var v, before := order[k], Scheduled(order[..k], preds, durations);
      var b := Best(if v in preds then preds[v] else [], before.finish);
      Scheduled(order, preds, durations).finish[v] == b.0 + Duration(durations, v)
      && Scheduled(order, preds, durations).parent[v] == b.1
  {
    ScheduledKeeps(order, preds, durations, k + 1, k);
    assert order[..k + 1][..k] == order[..k];
  }

  /** A recorded parent was scheduled before its child: the chain of parents walks
      backwards through the order. */
  ghost predicate ParentsEarlier(order: seq<NodeId>, parent: map<NodeId, Option<NodeId>>) {
    forall v :: v in parent && parent[v].Some? ==>
      v in order && parent[v].value in order && IndexOf(order, parent[v].value) < IndexOf(order, v)
  }

  lemma ScheduledParentsEarlier(order: seq<NodeId>, preds: map<NodeId, seq<NodeId>>, durations: map<NodeId, int>)
    requires Distinct(order)
    ensures ParentsEarlier(order, Scheduled(order, preds, durations).parent)
  {
    var s := Scheduled(order, preds, durations);
    forall v | v in s.parent && s.parent[v].Some?
      ensures v in order && s.parent[v].value in order && IndexOf(order, s.parent[v].value) < IndexOf(order, v)
    {
      ScheduledKeys(order, preds, durations, v);
      var k := IndexOf(order, v);
      ScheduledStep(order, preds, durations, k);
      var before := Scheduled(order[..k], preds, durations);
      var p := s.parent[v].value;
      assert p in before.finish;
      ScheduledKeys(order[..k], preds, durations, p);
      var i :| 0 <= i < k && order[..k][i] == p;
      IndexOfDistinct(order, i);
    }
  }

  // ---------------------------------------------------------------------------
  // The end node and the path
  // ---------------------------------------------------------------------------

  /** The search for the latest finish over the nodes of order, in order: (maxTime,
      endNode) start at (int.MinValue, first) and a node replaces them only when its time
      is strictly greater, so ties keep the earlier node. */
  function Peak(order: seq<NodeId>, finish: map<NodeId, int>, first: NodeId): (int, NodeId) {
    if |order| == 0 then (IntMinValue, first)
    else
      var m := Peak(order[..|order| - 1], finish, first);
      var t := FinishOr0(finish, order[|order| - 1]);
      if t > m.0 then (t, order[|order| - 1]) else m
  }

  /** The search finds the latest finish time, or int.MinValue with the first node when
      nothing is later than that; otherwise the node it returns is the first in the
      order to finish at that time. */
  lemma {:induction false} PeakIsFirstLatest(order: seq<NodeId>, finish: map<NodeId, int>, first: NodeId)
    ensures var r := Peak(order, finish, first);
      r.0 >= IntMinValue && forall v :: v in order ==> FinishOr0(finish, v) <= r.0
    ensures var r := Peak(order, finish, first);
      r.0 == IntMinValue ==> r.1 == first
    ensures var r := Peak(order, finish, first);
      r.0 > IntMinValue ==>
        exists j :: (0 <= j < |order| && order[j] == r.1 && FinishOr0(finish, order[j]) == r.0
          && forall i :: 0 <= i < j ==> FinishOr0(finish, order[i]) < r.0)
  {
    if |order| > 0 {
      var n := |order| - 1;
      var r, m := Peak(order, finish, first), Peak(order[..n], finish, first);
      PeakIsFirstLatest(order[..n], finish, first);
      assert forall v :: v in order ==> v in order[..n] || v == order[n];
      if FinishOr0(finish, order[n]) > m.0 {
        forall i | 0 <= i < n
          ensures FinishOr0(finish, order[i]) < r.0
        {
          assert order[i] == order[..n][i];
        }
      } else if m.0 > IntMinValue {
        var j :| 0 <= j < n && order[..n][j] == m.1 && FinishOr0(finish, order[..n][j]) == m.0
          && forall i :: 0 <= i < j ==> FinishOr0(finish, order[..n][i]) < m.0;
        forall i | 0 <= i < j
          ensures FinishOr0(finish, order[i]) < r.0
        {
          assert order[i] == order[..n][i];
        }
        assert order[j] == order[..n][j];
      }
    }
  }

  /** The chain of recorded parents ending at v, oldest first. */
  function Chain(order: seq<NodeId>, parent: map<NodeId, Option<NodeId>>, v: NodeId): (path: seq<NodeId>)
    requires ParentsEarlier(order, parent) && v in order
    decreases IndexOf(order, v)
  {
    (if v in parent && parent[v].Some? then Chain(order, parent, parent[v].value) else []) + [v]
  }

  /** `path.Reverse()`. */
  function Reversed(s: seq<NodeId>): (r: seq<NodeId>)
    ensures |r| == |s| && forall i :: 0 <= i < |s| ==> r[i] == s[|s| - 1 - i]
  {
    if |s| == 0 then [] else [s[|s| - 1]] + Reversed(s[..|s| - 1])
  }

  /** One step of the search: the prefix of length k + 1 against the prefix of length k. */
  lemma PeakPrefix(order: seq<NodeId>, k: int, finish: map<NodeId, int>, first: NodeId)
    requires 0 <= k < |order|
    ensures var m := Peak(order[..k], finish, first);
      Peak(order[..k + 1], finish, first) == if FinishOr0(finish, order[k]) > m.0 then (FinishOr0(finish, order[k]), order[k]) else m
  {
    assert order[..k + 1][..k] == order[..k];
  }

  /** The predecessor map the method builds. */
  function PredecessorMap(plan: ExecutionPlan): (preds: map<NodeId, seq<NodeId>>) {
    map id | id in plan.nodeIds :: PredsOf(plan.adjacency, id)
  }

  /** What `ComputeCriticalPath` returns: InvalidOperationException for a plan with cycles
      or without an order, an index error for a plan without nodes (`plan.NodeIds[0]`),
      otherwise the latest finish time and the parent chain of the node attaining it. */
  function CriticalPathOf(plan: ExecutionPlan, durations: map<NodeId, int>): (r: Result<(int, seq<NodeId>)>)
    requires Valid(plan)
    ensures r.Err? <==> plan.hasCycles || plan.topologicalOrder.None? || |plan.nodeIds| == 0
    ensures plan.hasCycles || plan.topologicalOrder.None? ==> r.Err? && r.error.InvalidOperation?
    ensures r.Ok? ==> |r.value.1| >= 1
  {
    if plan.hasCycles || plan.topologicalOrder.None? then
      Err(InvalidOperation("Critical path requires a DAG with a topological order."))
    else if |plan.nodeIds| == 0 then
      Err(IndexOutOfRange)
    else
      var order := plan.topologicalOrder.value;
      var s := Scheduled(order, PredecessorMap(plan), durations);
      ScheduledParentsEarlier(order, PredecessorMap(plan), durations);
      var (total, end) := Peak(order, s.finish, plan.nodeIds[0]);
      PeakIsFirstLatest(order, s.finish, plan.nodeIds[0]);
      assert end in order;
      Ok((total, Chain(order, s.parent, end)))
  }

  // ---------------------------------------------------------------------------
  // The method
  // ---------------------------------------------------------------------------

  /** The scan over v's predecessors. */
  method BestPredecessor(ps: seq<NodeId>, finishTime: map<NodeId, int>) returns (bestTime: int, bestPred: Option<NodeId>)
    ensures (bestTime, bestPred) == Best(ps, finishTime)
  {
    bestPred := None;
    bestTime := 0;
    if |ps| > 0 {
      for k := 0 to |ps|
        invariant (bestTime, bestPred) == Best(ps[..k], finishTime)
      {
        var p := ps[k];
        var cand := if p in finishTime then finishTime[p] else 0;
        if cand > bestTime {
          bestTime := cand;
          bestPred := Some(p);
        }
        assert ps[..k + 1][..k] == ps[..k];
      }
      assert ps[..|ps|] == ps;
    }
  }

  /** The dynamic program over the topological order. */
  method RunSchedule(order: seq<NodeId>, preds: map<NodeId, seq<NodeId>>, durations: map<NodeId, int>)
    returns (finishTime: map<NodeId, int>, parentOnCritical: map<NodeId, Option<NodeId>>)
    requires forall k :: 0 <= k < |order| ==> order[k] in preds
    ensures Schedule(finishTime, parentOnCritical) == Scheduled(order, preds, durations)
  {
    finishTime := map[];
    parentOnCritical := map[];
    for i := 0 to |order|
      invariant Schedule(finishTime, parentOnCritical) == Scheduled(order[..i], preds, durations)
    {
      var v := order[i];
      var duration := if v in durations then durations[v] else 0;
      var bestTime, bestPred := BestPredecessor(preds[v], finishTime);
      finishTime := finishTime[v := bestTime + duration];
      parentOnCritical := parentOnCritical[v := bestPred];
      assert order[..i + 1][..i] == order[..i];
    }
    assert order[..|order|] == order;
  }

  /** The search for the node finishing last, over the finish times in insertion order. */
  method FindEnd(order: seq<NodeId>, finishTime: map<NodeId, int>, first: NodeId) returns (maxTime: int, endNode: NodeId)
    requires forall k :: 0 <= k < |order| ==> order[k] in finishTime
    ensures (maxTime, endNode) == Peak(order, finishTime, first)
  {
    endNode := first;
    maxTime := IntMinValue;
    for i := 0 to |order|
      invariant (maxTime, endNode) == Peak(order[..i], finishTime, first)
    {
      var node := order[i];
      var time := finishTime[node];
      if time > maxTime {
        maxTime := time;
        endNode := node;
      }
      assert order[..i + 1][..i] == order[..i];
    }
    assert order[..|order|] == order;
  }

  /** Walking the parent links back from the end node, then reversing. */
  method TracePath(order: seq<NodeId>, parentOnCritical: map<NodeId, Option<NodeId>>, endNode: NodeId) returns (path: seq<NodeId>)
    requires ParentsEarlier(order, parentOnCritical) && endNode in order
    requires forall k :: 0 <= k < |order| ==> order[k] in parentOnCritical
    ensures path == Chain(order, parentOnCritical, endNode)
  {
    path := [];
    var cur: Option<NodeId> := Some(endNode);
    while cur.Some?
      invariant cur.Some? ==> cur.value in order
      invariant cur.Some? ==> Chain(order, parentOnCritical, cur.value) + Reversed(path) == Chain(order, parentOnCritical, endNode)
      invariant cur.None? ==> Reversed(path) == Chain(order, parentOnCritical, endNode)
      decreases if cur.Some? then IndexOf(order, cur.value) + 1 else 0
    {
      var v := cur.value;
      path := path + [v];
      assert Reversed(path) == [v] + Reversed(path[..|path| - 1]);
      assert v in parentOnCritical by {
        var k := IndexOf(order, v);
      }
      cur := parentOnCritical[v];
    }
    path := Reversed(path);
  }

  /** `ComputeCriticalPath`. */
  method ComputeCriticalPath(plan: ExecutionPlan, durations: map<NodeId, int>) returns (r: Result<(int, seq<NodeId>)>)
    requires Valid(plan)
    ensures r == CriticalPathOf(plan, durations)
  {
    if plan.hasCycles || plan.topologicalOrder.None? {
      return Err(InvalidOperation("Critical path requires a DAG with a topological order."));
    }
    var preds := BuildPredecessors(plan);
    assert preds == PredecessorMap(plan);
    var order := plan.topologicalOrder.value;
    assert forall k :: 0 <= k < |order| ==> order[k] in plan.nodeIds;
    var finishTime, parentOnCritical := RunSchedule(order, preds, durations);
    forall k | 0 <= k < |order|
      ensures order[k] in finishTime && order[k] in parentOnCritical
    {
      ScheduledKeys(order, preds, durations, order[k]);
    }
    if |plan.nodeIds| == 0 {
      return Err(IndexOutOfRange);
    }
    var maxTime, endNode := FindEnd(order, finishTime, plan.nodeIds[0]);
    PeakIsFirstLatest(order, finishTime, plan.nodeIds[0]);
    ScheduledParentsEarlier(order, preds, durations);
    var path := TracePath(order, parentOnCritical, endNode);
    r := Ok((maxTime, path));
  }

  // ---------------------------------------------------------------------------
  // What the result means
  // ---------------------------------------------------------------------------

  /** The schedule of an acyclic plan. */
  function PlanSchedule(plan: ExecutionPlan, durations: map<NodeId, int>): Schedule
    requires Valid(plan) && !plan.hasCycles
  {
    Scheduled(plan.topologicalOrder.value, PredecessorMap(plan), durations)
  }

  /** For every node v, in the final finish times: finish[v] is v's duration plus the
      latest finish among its predecessors (0 if none finishes after 0), and its parent
      is the first predecessor attaining that latest finish, or none. */
  lemma FinishRecurrence(plan: ExecutionPlan, durations: map<NodeId, int>, v: NodeId)
    requires Valid(plan) && !plan.hasCycles && v in plan.nodeIds
    ensures v in PlanSchedule(plan, durations).finish && v in PlanSchedule(plan, durations).parent
    ensures var s, b := PlanSchedule(plan, durations), Best(PredsOf(plan.adjacency, v), PlanSchedule(plan, durations).finish);
      s.finish[v] == Duration(durations, v) + b.0 && s.parent[v] == b.1
  {
    var order, preds := plan.topologicalOrder.value, PredecessorMap(plan);
    var s := PlanSchedule(plan, durations);
    var k := IndexOf(order, v);
    ScheduledStep(order, preds, durations, k);
    var before := Scheduled(order[..k], preds, durations);
    var ps := PredsOf(plan.adjacency, v);
    forall p | p in ps
      ensures FinishOr0(before.finish, p) == FinishOr0(s.finish, p)
    {
      PredsAreEdges(plan, v, p);
      var i := IndexOf(order, p);
      ScheduledKeeps(order, preds, durations, k, i);
    }
    BestFrame(ps, before.finish, s.finish);
  }

  /** How a node's finish time is made up: its duration alone when it has no parent,
      its duration plus its parent's finish time otherwise, the parent being a
      predecessor in the plan. */
  lemma ParentLink(plan: ExecutionPlan, durations: map<NodeId, int>, v: NodeId)
    requires Valid(plan) && !plan.hasCycles && v in plan.nodeIds
    ensures v in PlanSchedule(plan, durations).finish && v in PlanSchedule(plan, durations).parent
    ensures var s := PlanSchedule(plan, durations);
      && (s.parent[v].None? ==> s.finish[v] == Duration(durations, v))
      && (s.parent[v].Some? ==>
            (IsEdge(plan, s.parent[v].value, v) && s.parent[v].value in s.finish
             && s.finish[v] == Duration(durations, v) + s.finish[s.parent[v].value]))
  {
    FinishRecurrence(plan, durations, v);
    var s := PlanSchedule(plan, durations);
    if s.parent[v].Some? {
      PredsAreEdges(plan, v, s.parent[v].value);
    }
  }

  /** A recorded parent always finished after time 0: a predecessor finishing at 0
      (a zero-duration start node, say) never becomes a parent, so the path then
      begins after it. */
  lemma ParentFinishedLater(plan: ExecutionPlan, durations: map<NodeId, int>, v: NodeId)
    requires Valid(plan) && !plan.hasCycles && v in plan.nodeIds
    ensures v in PlanSchedule(plan, durations).parent
    ensures var s := PlanSchedule(plan, durations);
      s.parent[v].Some? ==> s.parent[v].value in s.finish && s.finish[s.parent[v].value] > 0
  {
    FinishRecurrence(plan, durations, v);
  }

  /** The sum of the durations along a path. */
  function SumDurations(durations: map<NodeId, int>, path: seq<NodeId>): int {
    if |path| == 0 then 0 else SumDurations(durations, path[..|path| - 1]) + Duration(durations, path[|path| - 1])
  }

  lemma SumDurationsSnoc(durations: map<NodeId, int>, xs: seq<NodeId>, x: NodeId)
    ensures SumDurations(durations, xs + [x]) == SumDurations(durations, xs) + Duration(durations, x)
  {
    assert (xs + [x])[..|xs|] == xs;
  }

  /** The parent chain ending at v ends at v and walks along edges of the plan. */
  lemma {:induction false} ChainWalk(plan: ExecutionPlan, durations: map<NodeId, int>, v: NodeId)
    requires Valid(plan) && !plan.hasCycles && v in plan.nodeIds
    requires ParentsEarlier(plan.topologicalOrder.value, PlanSchedule(plan, durations).parent)
    ensures var c := Chain(plan.topologicalOrder.value, PlanSchedule(plan, durations).parent, v);
      c[|c| - 1] == v && IsWalk(plan, c)
    decreases IndexOf(plan.topologicalOrder.value, v)
  {
    var order, parent := plan.topologicalOrder.value, PlanSchedule(plan, durations).parent;
    ParentLink(plan, durations, v);
    var c := Chain(order, parent, v);
    if parent[v].Some? {
      var p := parent[v].value;
      ChainWalk(plan, durations, p);
      var cp := Chain(order, parent, p);
      assert c == cp + [v];
      forall k | 0 <= k < |c| - 1
        ensures IsEdge(plan, c[k], c[k + 1])
      {
        if k < |cp| - 1 {
          assert c[k] == cp[k] && c[k + 1] == cp[k + 1];
        }
      }
    }
  }

  /** The durations along the parent chain ending at v add up to v's finish time. */
  lemma {:induction false} ChainSum(plan: ExecutionPlan, durations: map<NodeId, int>, v: NodeId)
    requires Valid(plan) && !plan.hasCycles && v in plan.nodeIds
    requires ParentsEarlier(plan.topologicalOrder.value, PlanSchedule(plan, durations).parent)
    ensures v in PlanSchedule(plan, durations).finish
    ensures SumDurations(durations, Chain(plan.topologicalOrder.value, PlanSchedule(plan, durations).parent, v))
      == PlanSchedule(plan, durations).finish[v]
    decreases IndexOf(plan.topologicalOrder.value, v)
  {
    var order, sched := plan.topologicalOrder.value, PlanSchedule(plan, durations);
    ParentLink(plan, durations, v);
    var c := Chain(order, sched.parent, v);
    if sched.parent[v].Some? {
      var p := sched.parent[v].value;
      ChainSum(plan, durations, p);
      var cp := Chain(order, sched.parent, p);
      assert c == cp + [v];
      SumDurationsSnoc(durations, cp, v);
    } else {
      assert c == [] + [v];
      SumDurationsSnoc(durations, [], v);
    }
  }

  ghost predicate NonNegative(durations: map<NodeId, int>) {
    forall v :: v in durations ==> durations[v] >= 0
  }

  /** A node finishes no earlier than its own duration after time 0. */
  lemma FinishAtLeastDuration(plan: ExecutionPlan, durations: map<NodeId, int>, v: NodeId)
    requires Valid(plan) && !plan.hasCycles && v in plan.nodeIds
    ensures v in PlanSchedule(plan, durations).finish
    ensures PlanSchedule(plan, durations).finish[v] >= Duration(durations, v)
  {
    FinishRecurrence(plan, durations, v);
  }

  /** With durations that are never negative, a longer prefix never sums to less. */
  lemma {:induction false} PrefixSumGrows(durations: map<NodeId, int>, xs: seq<NodeId>, a: int, b: int)
    requires NonNegative(durations) && 0 <= a <= b <= |xs|
    ensures SumDurations(durations, xs[..a]) <= SumDurations(durations, xs[..b])
    decreases b
  {
    if a < b {
      PrefixSumGrows(durations, xs, a, b - 1);
      assert xs[..b][..b - 1] == xs[..b - 1];
    }
  }

  lemma PrefixSumStep(durations: map<NodeId, int>, xs: seq<NodeId>, k: int)
    requires 0 <= k < |xs|
    ensures SumDurations(durations, xs[..k + 1]) == SumDurations(durations, xs[..k]) + Duration(durations, xs[k])
  {
    assert xs[..k + 1][..k] == xs[..k];
  }

  /** The same bound on any schedule over an order without repetitions: the node at
      position k finishes no later than the durations of positions 0..k add up to. */
  lemma {:induction false} ScheduledWithinPrefix(order: seq<NodeId>, preds: map<NodeId, seq<NodeId>>,
                                                 durations: map<NodeId, int>, k: int)
    requires Distinct(order) && NonNegative(durations) && 0 <= k < |order|
    ensures order[k] in Scheduled(order, preds, durations).finish
    ensures Scheduled(order, preds, durations).finish[order[k]] <= SumDurations(durations, order[..k + 1])
    decreases k
  {
    var v, s := order[k], Scheduled(order, preds, durations);
    var before := Scheduled(order[..k], preds, durations);
    ScheduledStep(order, preds, durations, k);
    var b := Best(if v in preds then preds[v] else [], before.finish);
    PrefixSumStep(durations, order, k);
    if b.1.Some? {
      var p := b.1.value;
      assert p in before.finish;
      ScheduledKeys(order[..k], preds, durations, p);
      var i :| 0 <= i < k && order[..k][i] == p;
      ScheduledKeeps(order, preds, durations, k, i);
      ScheduledWithinPrefix(order, preds, durations, i);
      PrefixSumGrows(durations, order, i + 1, k);
    } else {
      PrefixSumGrows(durations, order, 0, k);
      assert order[..0] == [];
    }
  }

  /** The end node's search over the acyclic, non-empty plan. */
  function PeakOf(plan: ExecutionPlan, durations: map<NodeId, int>): (int, NodeId)
    requires Valid(plan) && !plan.hasCycles && |plan.nodeIds| > 0
  {
    Peak(plan.topologicalOrder.value, PlanSchedule(plan, durations).finish, plan.nodeIds[0])
  }

  /** The successful result is the peak's time and the parent chain of the peak's node. */
  lemma ResultParts(plan: ExecutionPlan, durations: map<NodeId, int>)
    requires Valid(plan) && CriticalPathOf(plan, durations).Ok?
    ensures !plan.hasCycles && |plan.nodeIds| > 0
    ensures ParentsEarlier(plan.topologicalOrder.value, PlanSchedule(plan, durations).parent)
    ensures PeakOf(plan, durations).1 in plan.topologicalOrder.value
    ensures CriticalPathOf(plan, durations).value.0 == PeakOf(plan, durations).0
    ensures CriticalPathOf(plan, durations).value.1
      == Chain(plan.topologicalOrder.value, PlanSchedule(plan, durations).parent, PeakOf(plan, durations).1)
  {
    ScheduledParentsEarlier(plan.topologicalOrder.value, PredecessorMap(plan), durations);
    PeakIsFirstLatest(plan.topologicalOrder.value, PlanSchedule(plan, durations).finish, plan.nodeIds[0]);
  }

  /** With durations that are never negative, the total is the latest finish time of
      any node, attained by the node the path ends at, and no node's own duration
      exceeds it. */
  lemma TotalIsLatestFinish(plan: ExecutionPlan, durations: map<NodeId, int>)
    requires Valid(plan) && CriticalPathOf(plan, durations).Ok? && NonNegative(durations)
    ensures var (total, path) := CriticalPathOf(plan, durations).value;
      var finish := PlanSchedule(plan, durations).finish;
      && path[|path| - 1] in finish && finish[path[|path| - 1]] == total
      && (forall v :: v in plan.nodeIds ==> v in finish && finish[v] <= total)
      && (forall v :: v in plan.nodeIds ==> Duration(durations, v) <= total)
  {
    ResultParts(plan, durations);
    var order, sched := plan.topologicalOrder.value, PlanSchedule(plan, durations);
    var peak := PeakOf(plan, durations);
    PeakIsFirstLatest(order, sched.finish, plan.nodeIds[0]);
    FinishAtLeastDuration(plan, durations, order[0]);
    assert peak.0 > IntMinValue;
    ChainWalk(plan, durations, peak.1);
    forall v | v in plan.nodeIds
      ensures v in sched.finish && sched.finish[v] <= peak.0 && Duration(durations, v) <= peak.0
    {
      FinishAtLeastDuration(plan, durations, v);
    }
  }

  /** The path walks along the plan's edges and its durations add up to the finish time
      of the node it ends at. */
  lemma PathIsCritical(plan: ExecutionPlan, durations: map<NodeId, int>)
    requires Valid(plan) && CriticalPathOf(plan, durations).Ok?
    ensures var path := CriticalPathOf(plan, durations).value.1;
      var finish := PlanSchedule(plan, durations).finish;
      && path[|path| - 1] == PeakOf(plan, durations).1
      && IsWalk(plan, path) && path[|path| - 1] in finish
      && SumDurations(durations, path) == finish[path[|path| - 1]]
  {
    ResultParts(plan, durations);
    var end := PeakOf(plan, durations).1;
    ChainWalk(plan, durations, end);
    ChainSum(plan, durations, end);
  }

  /** No walk into v sums to more than v's finish time: each step's node finishes at
      least its duration after the node before it. */
  lemma {:induction false} WalkWithinFinish(plan: ExecutionPlan, durations: map<NodeId, int>, w: seq<NodeId>)
    requires Valid(plan) && !plan.hasCycles && IsWalk(plan, w) && |w| >= 1 && w[|w| - 1] in plan.nodeIds
    ensures w[|w| - 1] in PlanSchedule(plan, durations).finish
    ensures SumDurations(durations, w) <= PlanSchedule(plan, durations).finish[w[|w| - 1]]
    decreases |w|
  {
    var finish := PlanSchedule(plan, durations).finish;
    var v, front := w[|w| - 1], w[..|w| - 1];
    FinishRecurrence(plan, durations, v);
    if |w| > 1 {
      var u := front[|front| - 1];
      assert IsEdge(plan, u, v);
      var i :| 0 <= i < |plan.adjacency| && plan.adjacency[i].0 == u && v in plan.adjacency[i].1;
      forall k | 0 <= k < |front| - 1
        ensures IsEdge(plan, front[k], front[k + 1])
      {
        assert front[k] == w[k] && front[k + 1] == w[k + 1];
      }
      WalkWithinFinish(plan, durations, front);
      PredsAreEdges(plan, v, u);
    }
  }

  /** With durations that are never negative, no walk through the plan's nodes sums to
      more than the total: the path found is a longest one. */
  lemma NoWalkLonger(plan: ExecutionPlan, durations: map<NodeId, int>, w: seq<NodeId>)
    requires Valid(plan) && CriticalPathOf(plan, durations).Ok? && NonNegative(durations)
    requires IsWalk(plan, w) && |w| >= 1 && w[|w| - 1] in plan.nodeIds
    ensures SumDurations(durations, w) <= CriticalPathOf(plan, durations).value.0
  {
    ResultParts(plan, durations);
    TotalIsLatestFinish(plan, durations);
    WalkWithinFinish(plan, durations, w);
  }

  /** With durations that are never negative, the latest finish over an order without
      repetitions does not exceed the sum of all durations along it. */
  lemma ScheduledPeakWithinSum(order: seq<NodeId>, preds: map<NodeId, seq<NodeId>>,
                               durations: map<NodeId, int>, first: NodeId)
    requires Distinct(order) && NonNegative(durations) && |order| > 0
    ensures Peak(order, Scheduled(order, preds, durations).finish, first).0 <= SumDurations(durations, order)
  {
    var s := Scheduled(order, preds, durations);
    var peak := Peak(order, s.finish, first);
    PeakIsFirstLatest(order, s.finish, first);
    ScheduledStep(order, preds, durations, 0);
    assert FinishOr0(s.finish, order[0]) >= 0;
    assert order[0] in order;
    var j :| 0 <= j < |order| && order[j] == peak.1 && FinishOr0(s.finish, order[j]) == peak.0;
    ScheduledWithinPrefix(order, preds, durations, j);
    PrefixSumGrows(durations, order, j + 1, |order|);
    assert order[..|order|] == order;
  }

  /** With durations that are never negative, the total does not exceed the sum of the
      durations of all nodes. */
  lemma TotalWithinSum(plan: ExecutionPlan, durations: map<NodeId, int>)
    requires Valid(plan) && CriticalPathOf(plan, durations).Ok? && NonNegative(durations)
    ensures CriticalPathOf(plan, durations).value.0 <= SumDurations(durations, plan.topologicalOrder.value)
  {
    ResultParts(plan, durations);
    ScheduledPeakWithinSum(plan.topologicalOrder.value, PredecessorMap(plan), durations, plan.nodeIds[0]);
  }
}
