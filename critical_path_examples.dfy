/** Worked plans for the critical path: a fork whose first node takes no time, and the
    glossary's demo DAG with its durations. The plan compiler is outside this model, so
    each plan lists its nodes and adjacency in the order the nodes and edges were added,
    and its topological order is that node order. Node names are parameters, so the
    facts hold for any distinct names and in particular for the glossary's. */
module CriticalPathExamples {

  import opened Wrappers
  import opened ExecutionPlans
  import opened CriticalPaths

  // ---------------------------------------------------------------------------
  // The fork: st -> a, st -> b, a -> m, b -> m
  // ---------------------------------------------------------------------------

  function ForkPlan(st: NodeId, a: NodeId, b: NodeId, m: NodeId): ExecutionPlan {
    ExecutionPlan([st, a, b, m], [(st, [a, b]), (a, [m]), (b, [m])], false, Some([st, a, b, m]))
  }

  function ForkDurations(st: NodeId, a: NodeId, b: NodeId, m: NodeId): map<NodeId, int> {
    map[st := 0, a := 90, b := 60, m := 40]
  }

  lemma ForkOrdered(st: NodeId, a: NodeId, b: NodeId, m: NodeId)
    requires Distinct([st, a, b, m])
    ensures IsTopologicalOrder(ForkPlan(st, a, b, m), [st, a, b, m])
  {
    var plan := ForkPlan(st, a, b, m);
    var order := plan.nodeIds;
    IndexOfDistinct(order, 0);
    IndexOfDistinct(order, 1);
    IndexOfDistinct(order, 2);
    IndexOfDistinct(order, 3);
    forall u, v | IsEdge(plan, u, v)
      ensures u in order && v in order && IndexOf(order, u) < IndexOf(order, v)
    {
      var i :| 0 <= i < |plan.adjacency| && plan.adjacency[i].0 == u && v in plan.adjacency[i].1;
      if i == 0 {
        assert u == st && (v == a || v == b);
      } else {
        assert v == m && (u == a || u == b);
      }
    }
  }

  lemma ForkValid(st: NodeId, a: NodeId, b: NodeId, m: NodeId)
    requires Distinct([st, a, b, m])
    ensures Valid(ForkPlan(st, a, b, m))
  {
    ForkOrdered(st, a, b, m);
    var ns := [st, a, b, m];
    assert ns[0] != ns[1] && ns[0] != ns[2] && ns[1] != ns[2];
    assert Sources(ForkPlan(st, a, b, m).adjacency) == [st, a, b];
  }

  lemma BestOne(x: NodeId, f: map<NodeId, int>)
    ensures Best([x], f) == if FinishOr0(f, x) > 0 then (FinishOr0(f, x), Some(x)) else (0, None)
  {
    assert [x][..0] == [];
  }

  lemma BestTwo(x: NodeId, y: NodeId, f: map<NodeId, int>)
    requires FinishOr0(f, x) > 0 && FinishOr0(f, y) <= FinishOr0(f, x)
    ensures Best([x, y], f) == (FinishOr0(f, x), Some(x))
  {
    BestOne(x, f);
    assert [x, y][..1] == [x];
  }

  lemma PredsFromOne(src: NodeId, x: NodeId, t: NodeId)
    ensures PredsFrom(src, [x], t) == if x == t then [src] else []
  {
    PredsFromSnoc(src, [], x, t);
    assert [] + [x] == [x];
  }

  lemma PredsFromTwo(src: NodeId, x: NodeId, y: NodeId, t: NodeId)
    ensures PredsFrom(src, [x, y], t) == (if x == t then [src] else []) + (if y == t then [src] else [])
  {
    PredsFromOne(src, x, t);
    PredsFromSnoc(src, [x], y, t);
    assert [x] + [y] == [x, y];
  }

  /** The predecessor list of t in the fork, entry by entry. */
  lemma ForkPredsOf(st: NodeId, a: NodeId, b: NodeId, m: NodeId, t: NodeId)
    ensures PredsOf(ForkPlan(st, a, b, m).adjacency, t)
      == PredsFrom(st, [a, b], t) + PredsFrom(a, [m], t) + PredsFrom(b, [m], t)
  {
    var e0: (NodeId, seq<NodeId>) := (st, [a, b]);
    var e1: (NodeId, seq<NodeId>) := (a, [m]);
    var e2: (NodeId, seq<NodeId>) := (b, [m]);
    PredsOfSnoc([], e0, t);
    assert [] + [e0] == [e0];
    PredsOfSnoc([e0], e1, t);
    assert [e0] + [e1] == [e0, e1];
    PredsOfSnoc([e0, e1], e2, t);
    assert [e0, e1] + [e2] == ForkPlan(st, a, b, m).adjacency;
  }

  lemma ForkPredsAt(st: NodeId, a: NodeId, b: NodeId, m: NodeId, t: NodeId)
    ensures PredsOf(ForkPlan(st, a, b, m).adjacency, t)
      == (if t == a then [st] else []) + (if t == b then [st] else [])
         + (if t == m then [a] else []) + (if t == m then [b] else [])
  {
    ForkPredsOf(st, a, b, m, t);
    PredsFromTwo(st, a, b, t);
    PredsFromOne(a, m, t);
    PredsFromOne(b, m, t);
  }

  lemma ForkPredLists(st: NodeId, a: NodeId, b: NodeId, m: NodeId)
    requires Distinct([st, a, b, m])
    ensures var adj := ForkPlan(st, a, b, m).adjacency;
      PredsOf(adj, st) == [] && PredsOf(adj, a) == [st] && PredsOf(adj, b) == [st] && PredsOf(adj, m) == [a, b]
  {
    var ns := [st, a, b, m];
    assert ns[0] != ns[1] && ns[0] != ns[2] && ns[0] != ns[3] && ns[1] != ns[2] && ns[1] != ns[3] && ns[2] != ns[3];
    ForkPredsAt(st, a, b, m, st);
    ForkPredsAt(st, a, b, m, a);
    ForkPredsAt(st, a, b, m, b);
    ForkPredsAt(st, a, b, m, m);
  }

  lemma ForkDurationsAre(st: NodeId, a: NodeId, b: NodeId, m: NodeId)
    requires Distinct([st, a, b, m])
    ensures var d := ForkDurations(st, a, b, m);
      Duration(d, st) == 0 && Duration(d, a) == 90 && Duration(d, b) == 60 && Duration(d, m) == 40
  {
    var ns := [st, a, b, m];
    assert ns[0] != ns[1] && ns[0] != ns[2] && ns[0] != ns[3] && ns[1] != ns[2] && ns[1] != ns[3] && ns[2] != ns[3];
  }

  /** The dynamic program on the fork, first step: st finishes at its duration, 0. */
  lemma ForkStart(st: NodeId, a: NodeId, b: NodeId, m: NodeId)
    requires Distinct([st, a, b, m])
    ensures Valid(ForkPlan(st, a, b, m))
    ensures var s := PlanSchedule(ForkPlan(st, a, b, m), ForkDurations(st, a, b, m));
      st in s.finish && s.finish[st] == 0
  {
    ForkValid(st, a, b, m);
    ForkDurationsAre(st, a, b, m);
    ForkPredLists(st, a, b, m);
    FinishRecurrence(ForkPlan(st, a, b, m), ForkDurations(st, a, b, m), st);
  }

  /** The dynamic program on the fork, branches: st finishes at 0, so neither a nor
      b records a parent. */
  lemma ForkBranches(st: NodeId, a: NodeId, b: NodeId, m: NodeId)
    requires Distinct([st, a, b, m])
    ensures Valid(ForkPlan(st, a, b, m))
    ensures var s := PlanSchedule(ForkPlan(st, a, b, m), ForkDurations(st, a, b, m));
      && st in s.finish && s.finish[st] == 0
      && a in s.finish && s.finish[a] == 90
      && b in s.finish && s.finish[b] == 60
      && a in s.parent && s.parent[a] == None
  {
    var plan, durations := ForkPlan(st, a, b, m), ForkDurations(st, a, b, m);
    ForkStart(st, a, b, m);
    ForkDurationsAre(st, a, b, m);
    ForkPredLists(st, a, b, m);
    BestOne(st, PlanSchedule(plan, durations).finish);
    FinishRecurrence(plan, durations, a);
    FinishRecurrence(plan, durations, b);
  }

  /** The dynamic program on the fork: st finishes at 0, so a and b record no parent,
      and m waits for a, the first of its predecessors to finish at 90. */
  lemma ForkSchedule(st: NodeId, a: NodeId, b: NodeId, m: NodeId)
    requires Distinct([st, a, b, m])
    ensures Valid(ForkPlan(st, a, b, m))
    ensures var s := PlanSchedule(ForkPlan(st, a, b, m), ForkDurations(st, a, b, m));
      && st in s.finish && s.finish[st] == 0
      && a in s.finish && s.finish[a] == 90
      && b in s.finish && s.finish[b] == 60
      && m in s.finish && s.finish[m] == 130
      && a in s.parent && s.parent[a] == None
      && m in s.parent && s.parent[m] == Some(a)
  {
    var plan, durations := ForkPlan(st, a, b, m), ForkDurations(st, a, b, m);
    ForkBranches(st, a, b, m);
    ForkDurationsAre(st, a, b, m);
    ForkPredLists(st, a, b, m);
    var f := PlanSchedule(plan, durations).finish;
    FinishRecurrence(plan, durations, m);
    BestTwo(a, b, f);
  }

  /** The node finishing last is m, at 130. */
  lemma ForkPeak(st: NodeId, a: NodeId, b: NodeId, m: NodeId)
    requires Distinct([st, a, b, m])
    ensures Valid(ForkPlan(st, a, b, m)) && PeakOf(ForkPlan(st, a, b, m), ForkDurations(st, a, b, m)) == (130, m)
  {
    ForkSchedule(st, a, b, m);
    ForkPeakOver(st, a, b, m, PlanSchedule(ForkPlan(st, a, b, m), ForkDurations(st, a, b, m)).finish);
  }

  lemma ForkPeakOver(st: NodeId, a: NodeId, b: NodeId, m: NodeId, f: map<NodeId, int>)
    requires st in f && f[st] == 0 && a in f && f[a] == 90 && b in f && f[b] == 60 && m in f && f[m] == 130
    ensures Peak([st, a, b, m], f, st) == (130, m)
  {
    var order := [st, a, b, m];
    PeakPrefix(order, 0, f, st);
    PeakPrefix(order, 1, f, st);
    PeakPrefix(order, 2, f, st);
    PeakPrefix(order, 3, f, st);
    assert order[..4] == order;
  }

  /** m's chain of parents is [a, m]: a has none. */
  lemma ForkChain(st: NodeId, a: NodeId, b: NodeId, m: NodeId)
    requires Distinct([st, a, b, m])
    ensures Valid(ForkPlan(st, a, b, m))
    ensures ParentsEarlier([st, a, b, m], PlanSchedule(ForkPlan(st, a, b, m), ForkDurations(st, a, b, m)).parent)
    ensures Chain([st, a, b, m], PlanSchedule(ForkPlan(st, a, b, m), ForkDurations(st, a, b, m)).parent, m) == [a, m]
  {
    var plan, durations := ForkPlan(st, a, b, m), ForkDurations(st, a, b, m);
    ForkSchedule(st, a, b, m);
    ScheduledParentsEarlier(plan.nodeIds, PredecessorMap(plan), durations);
    var parent := PlanSchedule(plan, durations).parent;
    assert Chain([st, a, b, m], parent, a) == [a];
  }

  /** The fork's critical path: st takes no time, so it never wins a predecessor scan
      and the path leaves it out. The total is 130 = 90 + 40, the path [a, m]. */
  lemma ForkResult(st: NodeId, a: NodeId, b: NodeId, m: NodeId)
    requires Distinct([st, a, b, m])
    ensures Valid(ForkPlan(st, a, b, m))
    ensures CriticalPathOf(ForkPlan(st, a, b, m), ForkDurations(st, a, b, m)) == Ok((130, [a, m]))
  {
    var plan, durations := ForkPlan(st, a, b, m), ForkDurations(st, a, b, m);
    ForkPeak(st, a, b, m);
    ForkChain(st, a, b, m);
    ResultParts(plan, durations);
  }

  /** The same with the names of the glossary's gotcha: durations {start: 0, A: 90, B: 60,
      merge: 40} give the total 130 and the path [A, merge], not [start, A, merge]. */
  lemma GlossaryForkResult()
    ensures Valid(ForkPlan("start", "A", "B", "merge"))
    ensures CriticalPathOf(ForkPlan("start", "A", "B", "merge"), ForkDurations("start", "A", "B", "merge"))
      == Ok((130, ["A", "merge"]))
  {
    var ns: seq<NodeId> := ["start", "A", "B", "merge"];
    assert ns[0] != ns[3] by {
      assert ns[0][0] != ns[3][0];
    }
    ForkResult("start", "A", "B", "merge");
  }

  // ---------------------------------------------------------------------------
  // The demo DAG: st -> a, st -> b, a -> c, b -> c, c -> e
  // ---------------------------------------------------------------------------

  function DemoPlan(st: NodeId, a: NodeId, b: NodeId, c: NodeId, e: NodeId): ExecutionPlan {
    ExecutionPlan([st, a, b, c, e], [(st, [a, b]), (a, [c]), (b, [c]), (c, [e])], false, Some([st, a, b, c, e]))
  }

  function DemoDurations(st: NodeId, a: NodeId, b: NodeId, c: NodeId, e: NodeId): map<NodeId, int> {
    map[st := 1, a := 2, b := 2, c := 3, e := 1]
  }

  lemma DemoOrdered(st: NodeId, a: NodeId, b: NodeId, c: NodeId, e: NodeId)
    requires Distinct([st, a, b, c, e])
    ensures IsTopologicalOrder(DemoPlan(st, a, b, c, e), [st, a, b, c, e])
  {
    var plan := DemoPlan(st, a, b, c, e);
    var order := plan.nodeIds;
    IndexOfDistinct(order, 0);
    IndexOfDistinct(order, 1);
    IndexOfDistinct(order, 2);
    IndexOfDistinct(order, 3);
    IndexOfDistinct(order, 4);
    forall u, v | IsEdge(plan, u, v)
      ensures u in order && v in order && IndexOf(order, u) < IndexOf(order, v)
    {
      var i :| 0 <= i < |plan.adjacency| && plan.adjacency[i].0 == u && v in plan.adjacency[i].1;
      if i == 0 {
        assert u == st && (v == a || v == b);
      } else if i < 3 {
        assert v == c && (u == a || u == b);
      } else {
        assert u == c && v == e;
      }
    }
  }

  lemma DemoValid(st: NodeId, a: NodeId, b: NodeId, c: NodeId, e: NodeId)
    requires Distinct([st, a, b, c, e])
    ensures Valid(DemoPlan(st, a, b, c, e))
  {
    DemoOrdered(st, a, b, c, e);
    var ns := [st, a, b, c, e];
    assert ns[0] != ns[1] && ns[0] != ns[2] && ns[0] != ns[3] && ns[1] != ns[2] && ns[1] != ns[3] && ns[2] != ns[3];
    assert Sources(DemoPlan(st, a, b, c, e).adjacency) == [st, a, b, c];
  }

  lemma DemoPredsOf(st: NodeId, a: NodeId, b: NodeId, c: NodeId, e: NodeId, t: NodeId)
    ensures PredsOf(DemoPlan(st, a, b, c, e).adjacency, t)
      == PredsFrom(st, [a, b], t) + PredsFrom(a, [c], t) + PredsFrom(b, [c], t) + PredsFrom(c, [e], t)
  {
    var e0: (NodeId, seq<NodeId>) := (st, [a, b]);
    var e1: (NodeId, seq<NodeId>) := (a, [c]);
    var e2: (NodeId, seq<NodeId>) := (b, [c]);
    var e3: (NodeId, seq<NodeId>) := (c, [e]);
    PredsOfSnoc([], e0, t);
    assert [] + [e0] == [e0];
    PredsOfSnoc([e0], e1, t);
    assert [e0] + [e1] == [e0, e1];
    PredsOfSnoc([e0, e1], e2, t);
    assert [e0, e1] + [e2] == [e0, e1, e2];
    PredsOfSnoc([e0, e1, e2], e3, t);
    assert [e0, e1, e2] + [e3] == DemoPlan(st, a, b, c, e).adjacency;
  }

  lemma DemoPredsAt(st: NodeId, a: NodeId, b: NodeId, c: NodeId, e: NodeId, t: NodeId)
    ensures PredsOf(DemoPlan(st, a, b, c, e).adjacency, t)
      == (if t == a then [st] else []) + (if t == b then [st] else [])
         + (if t == c then [a] else []) + (if t == c then [b] else []) + (if t == e then [c] else [])
  {
    DemoPredsOf(st, a, b, c, e, t);
    PredsFromTwo(st, a, b, t);
    PredsFromOne(a, c, t);
    PredsFromOne(b, c, t);
    PredsFromOne(c, e, t);
  }

  lemma DemoPredLists(st: NodeId, a: NodeId, b: NodeId, c: NodeId, e: NodeId)
    requires Distinct([st, a, b, c, e])
    ensures var adj := DemoPlan(st, a, b, c, e).adjacency;
      && PredsOf(adj, st) == [] && PredsOf(adj, a) == [st] && PredsOf(adj, b) == [st]
      && PredsOf(adj, c) == [a, b] && PredsOf(adj, e) == [c]
  {
    var ns := [st, a, b, c, e];
    assert ns[0] != ns[1] && ns[0] != ns[2] && ns[0] != ns[3] && ns[0] != ns[4] && ns[1] != ns[2]
      && ns[1] != ns[3] && ns[1] != ns[4] && ns[2] != ns[3] && ns[2] != ns[4] && ns[3] != ns[4];
    DemoPredsAt(st, a, b, c, e, st);
    DemoPredsAt(st, a, b, c, e, a);
    DemoPredsAt(st, a, b, c, e, b);
    DemoPredsAt(st, a, b, c, e, c);
    DemoPredsAt(st, a, b, c, e, e);
  }

  lemma DemoDurationsAre(st: NodeId, a: NodeId, b: NodeId, c: NodeId, e: NodeId)
    requires Distinct([st, a, b, c, e])
    ensures var d := DemoDurations(st, a, b, c, e);
      && Duration(d, st) == 1 && Duration(d, a) == 2 && Duration(d, b) == 2
      && Duration(d, c) == 3 && Duration(d, e) == 1
  {
    var ns := [st, a, b, c, e];
    assert ns[0] != ns[1] && ns[0] != ns[2] && ns[0] != ns[3] && ns[0] != ns[4] && ns[1] != ns[2]
      && ns[1] != ns[3] && ns[1] != ns[4] && ns[2] != ns[3] && ns[2] != ns[4] && ns[3] != ns[4];
  }

  /** The dynamic program on the demo, first part: st finishes at 1, a and b at 3, each
      waiting for st. */
  lemma DemoStart(st: NodeId, a: NodeId, b: NodeId, c: NodeId, e: NodeId)
    requires Distinct([st, a, b, c, e])
    ensures Valid(DemoPlan(st, a, b, c, e))
    ensures var s := PlanSchedule(DemoPlan(st, a, b, c, e), DemoDurations(st, a, b, c, e));
      st in s.finish && s.finish[st] == 1 && st in s.parent && s.parent[st] == None
  {
    DemoValid(st, a, b, c, e);
    DemoDurationsAre(st, a, b, c, e);
    DemoPredLists(st, a, b, c, e);
    FinishRecurrence(DemoPlan(st, a, b, c, e), DemoDurations(st, a, b, c, e), st);
  }

  /** The dynamic program on the demo, first part: st finishes at 1, a and b at 3, each
      waiting for st. */
  lemma DemoBranches(st: NodeId, a: NodeId, b: NodeId, c: NodeId, e: NodeId)
    requires Distinct([st, a, b, c, e])
    ensures Valid(DemoPlan(st, a, b, c, e))
    ensures var s := PlanSchedule(DemoPlan(st, a, b, c, e), DemoDurations(st, a, b, c, e));
      && st in s.finish && s.finish[st] == 1 && st in s.parent && s.parent[st] == None
      && a in s.finish && s.finish[a] == 3 && a in s.parent && s.parent[a] == Some(st)
      && b in s.finish && s.finish[b] == 3
  {
    var plan, durations := DemoPlan(st, a, b, c, e), DemoDurations(st, a, b, c, e);
    DemoStart(st, a, b, c, e);
    DemoDurationsAre(st, a, b, c, e);
    DemoPredLists(st, a, b, c, e);
    BestOne(st, PlanSchedule(plan, durations).finish);
    FinishRecurrence(plan, durations, a);
    FinishRecurrence(plan, durations, b);
  }

  /** c waits for a, the first of its predecessors to finish at 3 (b ties and does not
      replace it). */
  lemma DemoJoin(st: NodeId, a: NodeId, b: NodeId, c: NodeId, e: NodeId)
    requires Distinct([st, a, b, c, e])
    ensures Valid(DemoPlan(st, a, b, c, e))
    ensures var s := PlanSchedule(DemoPlan(st, a, b, c, e), DemoDurations(st, a, b, c, e));
      c in s.finish && s.finish[c] == 6 && c in s.parent && s.parent[c] == Some(a)
  {
    var plan, durations := DemoPlan(st, a, b, c, e), DemoDurations(st, a, b, c, e);
    DemoBranches(st, a, b, c, e);
    DemoDurationsAre(st, a, b, c, e);
    DemoPredLists(st, a, b, c, e);
    var f := PlanSchedule(plan, durations).finish;
    BestTwo(a, b, f);
    FinishRecurrence(plan, durations, c);
  }

  /** e waits for c and finishes at 7. */
  lemma DemoLast(st: NodeId, a: NodeId, b: NodeId, c: NodeId, e: NodeId)
    requires Distinct([st, a, b, c, e])
    ensures Valid(DemoPlan(st, a, b, c, e))
    ensures var s := PlanSchedule(DemoPlan(st, a, b, c, e), DemoDurations(st, a, b, c, e));
      e in s.finish && s.finish[e] == 7 && e in s.parent && s.parent[e] == Some(c)
  {
    var plan, durations := DemoPlan(st, a, b, c, e), DemoDurations(st, a, b, c, e);
    DemoJoin(st, a, b, c, e);
    DemoDurationsAre(st, a, b, c, e);
    DemoPredLists(st, a, b, c, e);
    var f := PlanSchedule(plan, durations).finish;
    BestOne(c, f);
    FinishRecurrence(plan, durations, e);
  }

  /** The dynamic program on the demo. */
  lemma DemoSchedule(st: NodeId, a: NodeId, b: NodeId, c: NodeId, e: NodeId)
    requires Distinct([st, a, b, c, e])
    ensures Valid(DemoPlan(st, a, b, c, e))
    ensures var s := PlanSchedule(DemoPlan(st, a, b, c, e), DemoDurations(st, a, b, c, e));
      && st in s.finish && s.finish[st] == 1 && st in s.parent && s.parent[st] == None
      && a in s.finish && s.finish[a] == 3 && a in s.parent && s.parent[a] == Some(st)
      && b in s.finish && s.finish[b] == 3
      && c in s.finish && s.finish[c] == 6 && c in s.parent && s.parent[c] == Some(a)
      && e in s.finish && s.finish[e] == 7 && e in s.parent && s.parent[e] == Some(c)
  {
    DemoBranches(st, a, b, c, e);
    DemoJoin(st, a, b, c, e);
    DemoLast(st, a, b, c, e);
  }

  lemma DemoPeakOver(st: NodeId, a: NodeId, b: NodeId, c: NodeId, e: NodeId, f: map<NodeId, int>)
    requires st in f && f[st] == 1 && a in f && f[a] == 3 && b in f && f[b] == 3
    requires c in f && f[c] == 6 && e in f && f[e] == 7
    ensures Peak([st, a, b, c, e], f, st) == (7, e)
  {
    var order := [st, a, b, c, e];
    PeakPrefix(order, 0, f, st);
    PeakPrefix(order, 1, f, st);
    PeakPrefix(order, 2, f, st);
    PeakPrefix(order, 3, f, st);
    PeakPrefix(order, 4, f, st);
    assert order[..5] == order;
  }

  /** The node finishing last is e, at 7. */
  lemma DemoPeak(st: NodeId, a: NodeId, b: NodeId, c: NodeId, e: NodeId)
    requires Distinct([st, a, b, c, e])
    ensures Valid(DemoPlan(st, a, b, c, e)) && PeakOf(DemoPlan(st, a, b, c, e), DemoDurations(st, a, b, c, e)) == (7, e)
  {
    DemoSchedule(st, a, b, c, e);
    DemoPeakOver(st, a, b, c, e, PlanSchedule(DemoPlan(st, a, b, c, e), DemoDurations(st, a, b, c, e)).finish);
  }

  /** e's chain of parents is [st, a, c, e]. */
  lemma DemoChain(st: NodeId, a: NodeId, b: NodeId, c: NodeId, e: NodeId)
    requires Distinct([st, a, b, c, e])
    ensures Valid(DemoPlan(st, a, b, c, e))
    ensures ParentsEarlier([st, a, b, c, e], PlanSchedule(DemoPlan(st, a, b, c, e), DemoDurations(st, a, b, c, e)).parent)
    ensures Chain([st, a, b, c, e], PlanSchedule(DemoPlan(st, a, b, c, e), DemoDurations(st, a, b, c, e)).parent, e)
      == [st, a, c, e]
  {
    var plan, durations := DemoPlan(st, a, b, c, e), DemoDurations(st, a, b, c, e);
    DemoSchedule(st, a, b, c, e);
    ScheduledParentsEarlier(plan.nodeIds, PredecessorMap(plan), durations);
    DemoChainOver(st, a, b, c, e, PlanSchedule(plan, durations).parent);
  }

  lemma ChainHead(order: seq<NodeId>, parent: map<NodeId, Option<NodeId>>, st: NodeId, a: NodeId)
    requires ParentsEarlier(order, parent) && st in order && a in order
    requires st in parent && parent[st] == None && a in parent && parent[a] == Some(st)
    ensures Chain(order, parent, a) == [st, a]
  {
    assert Chain(order, parent, st) == [st];
  }

  lemma DemoChainOver(st: NodeId, a: NodeId, b: NodeId, c: NodeId, e: NodeId, parent: map<NodeId, Option<NodeId>>)
    requires ParentsEarlier([st, a, b, c, e], parent)
    requires st in parent && parent[st] == None && a in parent && parent[a] == Some(st)
    requires c in parent && parent[c] == Some(a) && e in parent && parent[e] == Some(c)
    ensures Chain([st, a, b, c, e], parent, e) == [st, a, c, e]
  {
    var order := [st, a, b, c, e];
    ChainHead(order, parent, st, a);
    var c1 := Chain(order, parent, a);
    var c2 := Chain(order, parent, c);
    assert c2 == c1 + [c] == [st, a, c];
    assert Chain(order, parent, e) == c2 + [e] == [st, a, c, e];
  }

  /** The demo's critical path: total 7 along st, a, c, e. */
  lemma DemoResult(st: NodeId, a: NodeId, b: NodeId, c: NodeId, e: NodeId)
    requires Distinct([st, a, b, c, e])
    ensures Valid(DemoPlan(st, a, b, c, e))
    ensures CriticalPathOf(DemoPlan(st, a, b, c, e), DemoDurations(st, a, b, c, e)) == Ok((7, [st, a, c, e]))
  {
    DemoPeak(st, a, b, c, e);
    DemoChain(st, a, b, c, e);
    ResultParts(DemoPlan(st, a, b, c, e), DemoDurations(st, a, b, c, e));
  }

  /** The same with the glossary's node names and durations {start: 1, a: 2, b: 2, c: 3,
      end: 1}: the total is 7 along start, a, c, end. */
  lemma GlossaryDemoResult()
    ensures Valid(DemoPlan("start", "a", "b", "c", "end"))
    ensures CriticalPathOf(DemoPlan("start", "a", "b", "c", "end"), DemoDurations("start", "a", "b", "c", "end"))
      == Ok((7, ["start", "a", "c", "end"]))
  {
    var ns: seq<NodeId> := ["start", "a", "b", "c", "end"];
    assert ns[1][0] != ns[2][0] && ns[1][0] != ns[3][0] && ns[2][0] != ns[3][0];
    assert Distinct(ns);
    DemoResult("start", "a", "b", "c", "end");
  }
}
