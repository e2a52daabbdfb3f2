/** `ComputeBetweennessCentrality` of the glossary examples: Brandes' algorithm over the
    plan's directed edges, one breadth-first pass per source node, dependencies
    accumulated off the stack and credited to every node but the source, and the scores
    scaled by 1/((n-1)(n-2)) when n > 2. The dictionaries keyed by node id become arrays
    indexed by the node's position in `NodeIds` (the ids are distinct), and the
    adjacency dictionary becomes the adjacency lists of those positions. */
module GlossaryCentrality {

  import opened Wrappers
  import opened ExecutionPlans
  import opened GraphSearch
  import opened Brandes

  // ---------------------------------------------------------------------------
  // The plan as a graph over positions
  // ---------------------------------------------------------------------------

  /** The positions in ids of the nodes ws. */
  function Positions(ids: seq<NodeId>, ws: seq<NodeId>): (ps: seq<int>)
    requires forall k :: 0 <= k < |ws| ==> ws[k] in ids
    ensures |ps| == |ws| && forall k :: 0 <= k < |ws| ==> 0 <= ps[k] < |ids| && ids[ps[k]] == ws[k]
  {
    if |ws| == 0 then [] else Positions(ids, ws[..|ws| - 1]) + [IndexOf(ids, ws[|ws| - 1])]
  }

  /** `adjacency.TryGetValue(v, out var outs) ? outs : nothing`, as positions. */
  function OutPositions(plan: ExecutionPlan, v: NodeId): (ps: seq<int>)
    requires Valid(plan)
    ensures forall k :: 0 <= k < |ps| ==> 0 <= ps[k] < |plan.nodeIds|
  {
    var outs := Successors(plan.adjacency, v).GetOr([]);
    assert forall k :: 0 <= k < |outs| ==> outs[k] in plan.nodeIds by {
      if Successors(plan.adjacency, v).Some? {
        var i :| 0 <= i < |plan.adjacency| && plan.adjacency[i] == (v, outs);
        assert forall k :: 0 <= k < |outs| ==> outs[k] == plan.adjacency[i].1[k];
      }
    }
    Positions(plan.nodeIds, outs)
  }

  /** Node i's successors, for every position i. */
  function PlanGraph(plan: ExecutionPlan): (g: Graph)
    requires Valid(plan)
    ensures |g| == |plan.nodeIds| && WellFormed(g)
  {
    seq(|plan.nodeIds|, i requires 0 <= i < |plan.nodeIds| => OutPositions(plan, plan.nodeIds[i]))
  }

  lemma PositionsMember(ids: seq<NodeId>, ws: seq<NodeId>, j: int)
    requires ExecutionPlans.Distinct(ids) && 0 <= j < |ids| && forall k :: 0 <= k < |ws| ==> ws[k] in ids
    ensures j in Positions(ids, ws) <==> ids[j] in ws
  {
    var ps := Positions(ids, ws);
    if ids[j] in ws {
      var k :| 0 <= k < |ws| && ws[k] == ids[j];
      assert ids[ps[k]] == ids[j];
    }
  }

  /** The adjacency entry of a source is the one `TryGetValue` finds. */
  lemma SuccessorsOfEntry(plan: ExecutionPlan, i: int)
    requires Valid(plan) && 0 <= i < |plan.adjacency|
    ensures Successors(plan.adjacency, plan.adjacency[i].0) == Some(plan.adjacency[i].1)
  {
    var v := plan.adjacency[i].0;
    assert Sources(plan.adjacency)[i] == v;
    var r := Successors(plan.adjacency, v);
    var k :| 0 <= k < |plan.adjacency| && plan.adjacency[k] == (v, r.value);
    assert Sources(plan.adjacency)[k] == v;
  }

  /** There is an edge from position i to position j exactly when the plan has an edge
      between the nodes there. */
  lemma PlanGraphEdges(plan: ExecutionPlan, i: int, j: int)
    requires Valid(plan) && 0 <= i < |plan.nodeIds| && 0 <= j < |plan.nodeIds|
    ensures j in PlanGraph(plan)[i] <==> IsEdge(plan, plan.nodeIds[i], plan.nodeIds[j])
  {
    var ids := plan.nodeIds;
    var r := Successors(plan.adjacency, ids[i]);
    var outs := r.GetOr([]);
    assert PlanGraph(plan)[i] == OutPositions(plan, ids[i]);
    if r.Some? {
      var k :| 0 <= k < |plan.adjacency| && plan.adjacency[k] == (ids[i], outs);
      assert forall m :: 0 <= m < |outs| ==> outs[m] == plan.adjacency[k].1[m];
      PositionsMember(ids, outs, j);
      if IsEdge(plan, ids[i], ids[j]) {
        var e :| 0 <= e < |plan.adjacency| && plan.adjacency[e].0 == ids[i] && ids[j] in plan.adjacency[e].1;
        SuccessorsOfEntry(plan, e);
      }
    } else {
      forall e | 0 <= e < |plan.adjacency|
        ensures plan.adjacency[e].0 != ids[i]
      {
        assert Sources(plan.adjacency)[e] == plan.adjacency[e].0;
      }
    }
  }

  // ---------------------------------------------------------------------------
  // Accumulation for every node
  // ---------------------------------------------------------------------------

  /** `foreach (var v in predecessors[w]) if (sigma[w] > 0) dependency[v] += ...`: the
      guarded loop passes the same shares as the unguarded one, since a share out of a
      node with no shortest walks is 0. */
  method PassSharesGuarded(sigma: array<nat>, preds: array<seq<int>>, delta: array<real>, ghost Dl: seq<real>, w: int)
    requires sigma.Length == preds.Length == delta.Length && 0 <= w < sigma.Length
    requires forall i :: 0 <= i < |preds[w]| ==> 0 <= preds[w][i] < sigma.Length && preds[w][i] != w
    requires delta[..] == Dl
    modifies delta
    ensures forall x :: 0 <= x < delta.Length ==> delta[x] == Dl[x] + EntryCredit(sigma[..], Dl, x, w, preds[w])
  {
    for i := 0 to |preds[w]|
      invariant delta[w] == Dl[w]
      invariant forall x :: 0 <= x < delta.Length ==> delta[x] == Dl[x] + EntryCredit(sigma[..], Dl, x, w, preds[w][..i])
    {
      var v := preds[w][i];
      if sigma[w] > 0 {
        delta[v] := delta[v] + (sigma[v] as real / sigma[w] as real) * (1.0 + delta[w]);
      }
      assert preds[w][..i + 1][..i] == preds[w][..i];
    }
    assert preds[w][..|preds[w]|] == preds[w];
  }

  /** One turn of the stack loop: pop stack[k], pass its shares on, and add its dependency
      to its centrality unless it is the source. */
  method PopAll(g: Graph, s: int, sigma: array<nat>, preds: array<seq<int>>, dl: array<real>, cent: array<real>,
                ghost D: seq<int>, ghost S: seq<nat>, ghost P: seq<seq<int>>, stack: seq<int>, k: int,
                ghost C0: seq<real>)
    requires |D| == |g| && Counted(D, S) && PredsSound(g, D, P) && Stacked(D, stack) && 0 <= k < |stack|
    requires sigma[..] == S && preds[..] == P && dl.Length == |g| && cent.Length == |g| == |C0| && dl != cent
    requires DeltaEq(S, P, dl[..], stack[k + 1..]) && forall x :: 0 <= x < |g| ==> dl[x] >= 0.0
    requires forall x :: 0 <= x < |g| ==> cent[x] == C0[x] + NodeCredit(stack[k + 1..], s, x, dl[..])
    modifies dl, cent
    ensures DeltaEq(S, P, dl[..], stack[k..]) && forall x :: 0 <= x < |g| ==> dl[x] >= 0.0
    ensures forall x :: 0 <= x < |g| ==> cent[x] == C0[x] + NodeCredit(stack[k..], s, x, dl[..])
  {
    var w := stack[k];
    PopReady(g, D, S, P, stack, k);
    ghost var Dl := dl[..];
    ghost var Cl := cent[..];
    PassSharesGuarded(sigma, preds, dl, Dl, w);
    PopStep(g, D, S, P, stack, k, Dl, dl[..]);
    forall x | 0 <= x < |g|
      ensures dl[x] >= 0.0
    {
      EntryCreditNonneg(S, Dl, x, w, P[w]);
    }
    forall x | 0 <= x < |g|
      ensures NodeCredit(stack[k..], s, x, dl[..])
           == NodeCredit(stack[k + 1..], s, x, Dl) + (if w != s && w == x then dl[x] else 0.0)
    {
      NodeCreditStep(stack, k, s, x, Dl, dl[..]);
    }
    if w != s {
      cent[w] := cent[w] + dl[w];
    }
    assert forall x :: 0 <= x < |g| && x != w ==> cent[x] == Cl[x];
  }

  /** The stack loop of one source: every node reached from s, other than s, gains its
      dependency; every other node keeps its centrality. */
  method AccumulateAll(n: nat, g: Graph, s: int, sigma: array<nat>, preds: array<seq<int>>,
                       stack: seq<int>, ghost D: seq<int>, cent: array<real>, ghost C0: seq<real>)
    returns (ghost delta: seq<real>)
    requires |g| == n && WellFormed(g) && sigma.Length == n && preds.Length == n && cent.Length == n
    requires Passed(g, s, D, sigma[..], preds[..], stack) && cent[..] == C0
    modifies cent
    ensures Dependency(g, s, D, sigma[..], preds[..], stack, delta)
    ensures forall x :: 0 <= x < n ==> delta[x] >= 0.0
    ensures forall x :: 0 <= x < n ==> cent[x] == C0[x] + (if x != s && D[x] >= 0 then delta[x] else 0.0)
  {
    var dl := new real[n](_ => 0.0);
    ghost var S, P := sigma[..], preds[..];
    var k := |stack|;
    while k > 0
      invariant 0 <= k <= |stack| && dl.Length == n && cent.Length == n
      invariant sigma[..] == S && preds[..] == P
      invariant DeltaEq(S, P, dl[..], stack[k..]) && forall x :: 0 <= x < n ==> dl[x] >= 0.0
      invariant forall x :: 0 <= x < n ==> cent[x] == C0[x] + NodeCredit(stack[k..], s, x, dl[..])
    {
      k := k - 1;
      PopAll(g, s, sigma, preds, dl, cent, D, S, P, stack, k, C0);
    }
    delta := dl[..];
    assert stack[0..] == stack;
  }

  /** One turn of the loop over sources: the pass from s credits every node x with
      row[x], what Brandes' algorithm assigns it for that source. */
  method CreditAll(n: nat, g: Graph, s: int, cent: array<real>, ghost C0: seq<real>) returns (ghost row: seq<real>)
    requires |g| == n && WellFormed(g) && 0 <= s < n && cent.Length == n && cent[..] == C0
    modifies cent
    ensures |row| == n
    ensures forall x :: 0 <= x < n ==> SourceCredit(g, s, x, row[x]) && row[x] >= 0.0 && cent[x] == C0[x] + row[x]
  {
    var dist, sigma, preds, stack := SourcePass(n, g, s);
    ghost var delta := AccumulateAll(n, g, s, sigma, preds, stack, dist[..], cent, C0);
    ghost var D := dist[..];
    row := seq(n, x requires 0 <= x < n => if x != s && D[x] >= 0 then delta[x] else 0.0);
    assert forall x :: 0 <= x < n ==> SourceCredit(g, s, x, row[x]);
  }

  // ---------------------------------------------------------------------------
  // The scores
  // ---------------------------------------------------------------------------

  /** The normalisation factor 1/((n-1)(n-2)) for n > 2, 1 otherwise. */
  function Norm(n: nat): (r: real)
    ensures r > 0.0
    ensures n > 2 ==> r * ((n - 1) * (n - 2)) as real == 1.0
    ensures n <= 2 ==> r == 1.0
  {
    if n > 2 then 1.0 / (((n - 1) * (n - 2)) as real) else 1.0
  }

  /** `kv.Value * norm`. */
  function Normalised(x: real, n: nat): (r: real)
    ensures x >= 0.0 ==> r >= 0.0
    ensures x == 0.0 ==> r == 0.0
    ensures n <= 2 ==> r == x
  {
    x * Norm(n)
  }

  /** What the result of `ComputeBetweennessCentrality` is: one score per node of the plan,
      node i's score being the sum over all sources of what Brandes' algorithm credits to
      i from that source, times the normalisation factor. */
  ghost predicate Scored(plan: ExecutionPlan, scores: map<NodeId, real>, credits: seq<seq<real>>)
    requires Valid(plan)
  {
    var n := |plan.nodeIds|;
    (forall v :: v in scores <==> v in plan.nodeIds)
    && |credits| == n
    && forall i :: 0 <= i < n ==>
         |credits[i]| == n && Credited(PlanGraph(plan), i, credits[i])
         && plan.nodeIds[i] in scores && scores[plan.nodeIds[i]] == Normalised(SumReals(credits[i]), n)
  }

  /** sums[x] adds up cols[x], the credits the first s sources give to x. */
  ghost predicate Summed(g: Graph, n: nat, s: nat, cols: seq<seq<real>>, sums: seq<real>) {
    WellFormed(g) && |sums| == n && |cols| == n
    && forall x :: 0 <= x < n ==>
         |cols[x]| == s && Credited(g, x, cols[x]) && sums[x] == SumReals(cols[x]) && sums[x] >= 0.0
  }

  /** Each column extended by the entry of one more source. */
  function Extended(cols: seq<seq<real>>, row: seq<real>): (cols': seq<seq<real>>)
    requires |row| == |cols|
    ensures |cols'| == |cols| && forall x :: 0 <= x < |cols| ==> cols'[x] == cols[x] + [row[x]]
  {
    seq(|cols|, x requires 0 <= x < |cols| => cols[x] + [row[x]])
  }

  /** One more source's credits keep the sums. */
  lemma SummedSnoc(g: Graph, n: nat, s: nat, cols: seq<seq<real>>, row: seq<real>, before: seq<real>, after: seq<real>)
    requires Summed(g, n, s, cols, before) && |row| == n && |after| == n
    requires forall x :: 0 <= x < n ==> SourceCredit(g, s, x, row[x]) && row[x] >= 0.0 && after[x] == before[x] + row[x]
    ensures Summed(g, n, s + 1, Extended(cols, row), after)
  {
    var cols' := Extended(cols, row);
    forall x | 0 <= x < n
      ensures |cols'[x]| == s + 1 && Credited(g, x, cols'[x]) && after[x] == SumReals(cols'[x]) && after[x] >= 0.0
    {
      CreditedSnoc(g, x, cols[x], row[x]);
      assert cols'[x][..s] == cols[x];
    }
  }

  /** The loop over sources: cent[x] sums what every source's pass credits to x. */
  method SumCredits(n: nat, g: Graph) returns (totals: seq<real>, ghost credits: seq<seq<real>>)
    requires |g| == n && WellFormed(g)
    ensures |totals| == n && |credits| == n
    ensures forall x :: 0 <= x < n ==>
      |credits[x]| == n && Credited(g, x, credits[x]) && totals[x] == SumReals(credits[x]) && totals[x] >= 0.0
  {
    var cent := new real[n](_ => 0.0);
    credits := seq(n, x => []);
    for s := 0 to n
      invariant Summed(g, n, s, credits, cent[..])
    {
      ghost var before := cent[..];
      ghost var row := CreditAll(n, g, s, cent, before);
      SummedSnoc(g, n, s, credits, row, before, cent[..]);
      credits := Extended(credits, row);
    }
    totals := cent[..];
  }

  /** `centrality.ToDictionary(kv => kv.Key, kv => kv.Value * norm)`, with the node at
      position j carrying cent[j]. */
  method ScaleScores(ids: seq<NodeId>, cent: seq<real>) returns (scores: map<NodeId, real>)
    requires ExecutionPlans.Distinct(ids) && |cent| == |ids|
    ensures forall v :: v in scores <==> v in ids
    ensures forall j :: 0 <= j < |ids| ==> scores[ids[j]] == Normalised(cent[j], |ids|)
  {
    var norm := Norm(|ids|);
    scores := map[];
    for i := 0 to |ids|
      invariant forall v :: v in scores <==> v in ids[..i]
      invariant forall j :: 0 <= j < i ==> scores[ids[j]] == Normalised(cent[j], |ids|)
    {
      scores := scores[ids[i] := cent[i] * norm];
    }
    assert ids[..|ids|] == ids;
  }

  /** `ComputeBetweennessCentrality`: Brandes' algorithm from every node of the plan, then
      the normalisation. credits[i][s] is what the pass from source s credits to node i. */
  method ComputeBetweennessCentrality(plan: ExecutionPlan) returns (scores: map<NodeId, real>, ghost credits: seq<seq<real>>)
    requires Valid(plan)
    ensures Scored(plan, scores, credits)
    ensures forall v :: v in scores ==> scores[v] >= 0.0
  {
    var n := |plan.nodeIds|;
    var g := PlanGraph(plan);
    var cent;
    cent, credits := SumCredits(n, g);
    scores := ScaleScores(plan.nodeIds, cent);
    forall v | v in scores
      ensures scores[v] >= 0.0
    {
      var j := IndexOf(plan.nodeIds, v);
    }
  }

  // ---------------------------------------------------------------------------
  // What the scores say
  // ---------------------------------------------------------------------------

  /** A step with no outgoing edge has an empty neighbour list. */
  lemma NoEdgesNoPositions(plan: ExecutionPlan, i: int)
    requires Valid(plan) && 0 <= i < |plan.nodeIds|
    requires forall w :: !IsEdge(plan, plan.nodeIds[i], w)
    ensures PlanGraph(plan)[i] == []
  {
    var g := PlanGraph(plan);
    if g[i] != [] {
      PlanGraphEdges(plan, i, g[i][0]);
    }
  }

  /** Node i's entry of a scored map: its credits and its normalised sum. */
  lemma ScoreAt(plan: ExecutionPlan, scores: map<NodeId, real>, credits: seq<seq<real>>, i: int)
    requires Valid(plan) && Scored(plan, scores, credits) && 0 <= i < |plan.nodeIds|
    ensures |credits[i]| == |plan.nodeIds| && Credited(PlanGraph(plan), i, credits[i])
    ensures plan.nodeIds[i] in scores && scores[plan.nodeIds[i]] == Normalised(SumReals(credits[i]), |plan.nodeIds|)
  {
  }

  /** A step with no successors lies on no shortest walk between two other steps, so its
      score is 0. */
  lemma SinkScoresZero(plan: ExecutionPlan, scores: map<NodeId, real>, credits: seq<seq<real>>, i: int)
    requires Valid(plan) && Scored(plan, scores, credits) && 0 <= i < |plan.nodeIds|
    requires forall w :: !IsEdge(plan, plan.nodeIds[i], w)
    ensures scores[plan.nodeIds[i]] == 0.0
  {
    var g := PlanGraph(plan);
    NoEdgesNoPositions(plan, i);
    ScoreAt(plan, scores, credits, i);
    CreditedZero(g, i, credits[i]);
  }

  /** A step nothing leads to lies on no shortest walk between two other steps, so its
      score is 0. */
  lemma EntryScoresZero(plan: ExecutionPlan, scores: map<NodeId, real>, credits: seq<seq<real>>, i: int)
    requires Valid(plan) && Scored(plan, scores, credits) && 0 <= i < |plan.nodeIds|
    requires forall u :: !IsEdge(plan, u, plan.nodeIds[i])
    ensures scores[plan.nodeIds[i]] == 0.0
  {
    var g := PlanGraph(plan);
    forall y | 0 <= y < |g|
      ensures i !in g[y]
    {
      PlanGraphEdges(plan, y, i);
    }
    ScoreAt(plan, scores, credits, i);
    CreditedZero(g, i, credits[i]);
  }
}
