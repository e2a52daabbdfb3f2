/** The chapter-23 run over its fixed DAG: the build step, the cyclomatic step and the
    merge with its fall-back values, plus the metrics the run computes on that DAG. The
    chain runs the steps in sequence; the graph variant runs diameter, betweenness and
    cyclomatic in parallel after the build. The steps write disjoint keys, so both give
    the same summary. */
module StructuralRun {

  import opened Wrappers
  import opened GraphSearch
  import opened Brandes
  import opened BrandesUnique
  import opened StructuralMetrics

  /** Sources s1..s5 (nodes 0..4) all feed the aggregator m (node 5), which feeds the
      target t (node 6). */
  function FixedDag(): (g: Graph)
    ensures |g| == 7 && WellFormed(g) && WellFormed(Undirected(g))
  {
    var g: Graph := [[5], [5], [5], [5], [5], [6], []];
    UndirectedWellFormed(g);
    g
  }

  /** Step "BuildDag". */
  method BuildDag() returns (n: nat, dag: Graph, aggregator: int)
    ensures n == 7 && dag == FixedDag() && aggregator == 5
  {
    n := 7;
    var lists := CreateEmptyAdjacency(n);
    for s := 0 to 5
      invariant forall i :: 0 <= i < s ==> lists[i] == [5]
      invariant forall i :: s <= i < 7 ==> lists[i] == []
    {
      lists[s] := lists[s] + [5];
    }
    lists[5] := lists[5] + [6];
    dag := lists[..];
    assert forall i :: 0 <= i < 7 ==> dag[i] == FixedDag()[i];
    aggregator := 5;
  }

  /** Step "Cyclomatic": M = E - V + P with E the edge count and P the number of weakly
      connected components. */
  method Cyclomatic(n: nat, dag: Graph) returns (m: int)
    requires |dag| == n && WellFormed(dag)
    ensures m == Size(dag) - n + ComponentCount(Undirected(dag))
  {
    var e := CountEdges(dag);
    var p := CountWeaklyConnectedComponents(n, dag);
    m := e - n + p;
  }

  // ---------------------------------------------------------------------------
  // The fixed DAG's undirected view
  // ---------------------------------------------------------------------------

  /** In the undirected view the aggregator is adjacent to every other node and no other
      two nodes are adjacent. */
  lemma FixedAdjacency(x: int, y: int)
    requires 0 <= x < 7 && 0 <= y < 7
    ensures y in Undirected(FixedDag())[x] <==> (x == 5) != (y == 5)
  {
    var dag := FixedDag();
    UndirectedCounts(dag, x, y);
    FixedEdges(x, y);
    FixedEdges(y, x);
    assert y in Undirected(dag)[x] <==> multiset(Undirected(dag)[x])[y] > 0;
  }

  /** The directed edges of the fixed DAG, as adjacency counts. */
  lemma FixedEdges(x: int, y: int)
    requires 0 <= x < 7
    ensures multiset(FixedDag()[x])[y] == if (x < 5 && y == 5) || (x == 5 && y == 6) then 1 else 0
  {
    var dag := FixedDag();
    if x < 5 {
      assert dag[x] == [5];
    } else if x == 5 {
      assert dag[x] == [6];
    } else {
      assert dag[x] == [];
    }
  }

  /** Every pair of nodes is joined by a walk of at most two steps, through the aggregator. */
  lemma FixedShortWalk(s: int, v: int) returns (p: seq<int>)
    requires 0 <= s < 7 && 0 <= v < 7
    ensures PathFrom(Undirected(FixedDag()), s, v, p) && |p| <= 3
  {
    var u := Undirected(FixedDag());
    if s == v {
      p := [s];
    } else if s == 5 || v == 5 {
      FixedAdjacency(s, v);
      p := [s, v];
    } else {
      FixedAdjacency(s, 5);
      FixedAdjacency(5, v);
      p := [s, 5, v];
    }
  }

  /** A graph in which node 0 reaches every node has a single component. */
  lemma OneComponent(g: Graph)
    requires |g| >= 1 && forall x :: 0 <= x < |g| ==> Reachable(g, 0, x)
    ensures ComponentCount(g) == 1
  {
    forall r | 0 < r < |g|
      ensures ReachedBelow(g, r, r)
    {
      assert Reachable(g, 0, r);
    }
    assert LeadersBelow(g, |g|) == {0};
  }

  lemma SizeSnoc(g: Graph, l: seq<int>)
    ensures Size(g + [l]) == Size(g) + |l|
  {
    assert (g + [l])[..|g|] == g;
  }

  /** The fixed DAG: six edges, seven nodes, one weakly connected component, so M = 0. */
  lemma FixedCyclomatic()
    ensures Size(FixedDag()) == 6 && ComponentCount(Undirected(FixedDag())) == 1
  {
    var g := FixedDag();
    assert Size(g) == 6 by {
      var l: seq<int> := [5];
      var prefix: Graph := [];
      for i := 0 to 5
        invariant |prefix| == i && Size(prefix) == i && forall k :: 0 <= k < i ==> prefix[k] == l
      {
        SizeSnoc(prefix, l);
        prefix := prefix + [l];
      }
      SizeSnoc(prefix, [6]);
      SizeSnoc(prefix + [[6]], []);
      assert g == prefix + [[6]] + [[]];
    }
    forall x | 0 <= x < 7
      ensures Reachable(Undirected(g), 0, x)
    {
      var p := FixedShortWalk(0, x);
    }
    OneComponent(Undirected(g));
  }

  /** The fixed DAG's undirected diameter is 2: two sources are two steps apart, and no pair
      is further apart. */
  lemma FixedDiameter()
    ensures IsDiameter(Undirected(FixedDag()), 2)
  {
    var u := Undirected(FixedDag());
    forall s', v, k: nat | 0 <= s' < 7 && 0 <= v < 7 && ShortestDistance(u, s', v, k)
      ensures k <= 2
    {
      var p := FixedShortWalk(s', v);
    }
    var w := FixedShortWalk(0, 1);
    forall p | PathFrom(u, 0, 1, p)
      ensures |p| >= 3
    {
      if |p| == 2 {
        FixedAdjacency(0, 1);
      }
    }
    assert PathFrom(u, 0, 1, w) && |w| == 3;
    assert ShortestDistance(u, 0, 1, 2);
  }

  // ---------------------------------------------------------------------------
  // Betweenness of the aggregator
  // ---------------------------------------------------------------------------

  /** A star on seven nodes centred on the aggregator (node 5): the aggregator and any
      other node are adjacent once each way, any two other nodes never. */
  ghost predicate Star(u: Graph) {
    |u| == 7 && WellFormed(u)
    && forall x, y :: 0 <= x < 7 && 0 <= y < 7 ==> multiset(u[x])[y] == if (x == 5) != (y == 5) then 1 else 0
  }

  /** The undirected view of the fixed DAG is that star. */
  lemma FixedStar()
    ensures Star(Undirected(FixedDag()))
  {
    forall x, y | 0 <= x < 7 && 0 <= y < 7
      ensures multiset(Undirected(FixedDag())[x])[y] == if (x == 5) != (y == 5) then 1 else 0
    {
      UndirectedCounts(FixedDag(), x, y);
      FixedEdges(x, y);
      FixedEdges(y, x);
    }
  }

  /** The levels of a search from a node s other than the aggregator: s at 0, the
      aggregator at 1, every other node at 2. */
  function StarLevels(s: int): (D: seq<int>)
    ensures |D| == 7
  {
    seq(7, i => if i == s then 0 else if i == 5 then 1 else 2)
  }

  lemma StarBfs(u: Graph, s: int)
    requires Star(u) && 0 <= s < 7 && s != 5
    ensures BfsLabels(u, s, StarLevels(s))
  {
    var D := StarLevels(s);
    forall v, j | 0 <= v < 7 && 0 <= j < |u[v]|
      ensures 0 <= D[u[v][j]] <= D[v] + 1
    {
      assert u[v][j] in multiset(u[v]);
    }
    forall v | 0 <= v < 7 && v != s
      ensures HasParent(u, D, v)
    {
      if v == 5 {
        assert multiset(u[s])[5] == 1;
        assert v in u[s] && D[s] + 1 == D[v];
      } else {
        assert multiset(u[5])[v] == 1;
        assert v in u[5] && D[5] + 1 == D[v];
      }
    }
  }

  /** A list holding exactly one entry, once, is that entry alone. */
  lemma SingleEntry(ps: seq<int>, a: int)
    requires multiset(ps) == multiset{a}
    ensures ps == [a]
  {
    assert |ps| == |multiset(ps)| == 1;
    assert ps[0] in multiset(ps);
  }

  /** The predecessor list of w in a pass over the star from s other than the
      aggregator: the aggregator's is [s], s's is empty, any other node's is [aggregator]. */
  lemma StarPred(u: Graph, s: int, D: seq<int>, P: seq<seq<int>>, w: int)
    requires Star(u) && 0 <= s < 7 && s != 5 && D == StarLevels(s) && 0 <= w < 7
    requires PredsSound(u, D, P) && PredsExact(u, D, P)
    ensures P[w] == if w == s then [] else if w == 5 then [s] else [5]
  {
    var m: multiset<int> := if w == s then multiset{} else if w == 5 then multiset{s} else multiset{5};
    forall y
      ensures multiset(P[w])[y] == m[y]
    {
      if !(0 <= y < 7) {
        assert y !in P[w];
      } else {
        assert multiset(P[w])[y] == (if D[y] >= 0 && D[y] + 1 == D[w] then multiset(u[y])[w] else 0);
        assert D[y] == (if y == s then 0 else if y == 5 then 1 else 2);
        assert D[w] == (if w == s then 0 else if w == 5 then 1 else 2);
        assert multiset(u[y])[w] == if (y == 5) != (w == 5) then 1 else 0;
      }
    }
    assert multiset(P[w]) == m;
    if w != s {
      SingleEntry(P[w], if w == 5 then s else 5);
    }
  }

  /** The nodes 0..6 in order. */
  function Nodes(): (ns: seq<int>)
    ensures |ns| == 7 && forall k :: 0 <= k < 7 ==> ns[k] == k
  {
    [0, 1, 2, 3, 4, 5, 6]
  }

  /** A stack holding all seven nodes is a rearrangement of 0..6. */
  lemma AllStacked(D: seq<int>, stack: seq<int>)
    requires |D| == 7 && Stacked(D, stack) && forall x :: 0 <= x < 7 ==> D[x] >= 0
    ensures multiset(stack) == multiset(Nodes())
  {
    forall x
      ensures multiset(stack)[x] == multiset(Nodes())[x]
    {
      StackCount(D, stack, x);
      NodesCount(x);
    }
  }

  lemma StackCount(D: seq<int>, stack: seq<int>, x: int)
    requires Stacked(D, stack) && forall y :: 0 <= y < |D| ==> D[y] >= 0
    ensures multiset(stack)[x] == if 0 <= x < |D| then 1 else 0
  {
    DistinctCount(stack, x);
    if !(0 <= x < |D|) {
      forall k | 0 <= k < |stack|
        ensures stack[k] != x
      {
      }
    }
  }

  lemma NodesCount(x: int)
    ensures multiset(Nodes())[x] == if 0 <= x < 7 then 1 else 0
  {
    var all := Nodes();
    DistinctCount(all, x);
    if 0 <= x < 7 {
      assert all[x] == x;
    } else {
      forall k | 0 <= k < 7
        ensures all[k] != x
      {
      }
    }
  }

  lemma CreditCons(S: seq<nat>, P: seq<seq<int>>, delta: seq<real>, x: int, w: int, ws: seq<int>)
    ensures Credit(S, P, delta, x, [w] + ws) == Term(S, P, delta, x, w) + Credit(S, P, delta, x, ws)
  {
    assert ([w] + ws)[1..] == ws;
  }

  /** The counts, and the dependencies of the nodes beyond the aggregator, in a pass over
      the star from s: one shortest path to every node, and nothing beyond the outer
      nodes. */
  lemma StarCounts(u: Graph, s: int, D: seq<int>, S: seq<nat>, P: seq<seq<int>>, stack: seq<int>, delta: seq<real>)
    requires Star(u) && 0 <= s < 7 && s != 5 && Dependency(u, s, D, S, P, stack, delta) && D == StarLevels(s)
    requires forall w :: 0 <= w < 7 ==> P[w] == if w == s then [] else if w == 5 then [s] else [5]
    ensures S[5] == 1
    ensures forall w :: 0 <= w < 7 && w != s && w != 5 ==> S[w] == 1 && delta[w] == 0.0
  {
    assert S[5] == 1 by {
      assert SumOver(S, [s]) == S[s];
    }
    forall w | 0 <= w < 7 && w != s && w != 5
      ensures S[w] == 1 && delta[w] == 0.0
    {
      assert SumOver(S, [5]) == S[5];
      forall k | 0 <= k < |stack| && 0 <= stack[k] < |P|
        ensures w !in P[stack[k]]
      {
      }
      CreditAbsent(S, P, delta, w, stack);
    }
  }

  /** A pass over the star from s other than the aggregator credits it 5: each of the five
      other nodes has one shortest path from s, through the aggregator. */
  lemma StarDependency(u: Graph, s: int, D: seq<int>, S: seq<nat>, P: seq<seq<int>>, stack: seq<int>, delta: seq<real>)
    requires Star(u) && 0 <= s < 7 && s != 5 && Dependency(u, s, D, S, P, stack, delta)
    ensures D[5] == 1 && delta[5] == 5.0
  {
    StarBfs(u, s);
    LabelsUnique(u, s, D, StarLevels(s));
    forall w | 0 <= w < 7
      ensures P[w] == if w == s then [] else if w == 5 then [s] else [5]
    {
      StarPred(u, s, D, P, w);
    }
    StarCounts(u, s, D, S, P, stack, delta);
    forall w | 0 <= w < 7
      ensures Term(S, P, delta, 5, w) == if w == s || w == 5 then 0.0 else 1.0
    {
      StarTerm(s, S, P, delta, w);
    }
    AllStacked(D, stack);
    StarSum(s, S, P, delta, stack);
  }

  /** What the aggregator receives from w: one share from each node but s and itself. */
  lemma StarTerm(s: int, S: seq<nat>, P: seq<seq<int>>, delta: seq<real>, w: int)
    requires 0 <= s < 7 && s != 5 && |S| == 7 && |P| == 7 && |delta| == 7 && 0 <= w < 7
    requires P[w] == if w == s then [] else if w == 5 then [s] else [5]
    requires S[5] == 1 && (w != s && w != 5 ==> S[w] == 1 && delta[w] == 0.0)
    ensures Term(S, P, delta, 5, w) == if w == s || w == 5 then 0.0 else 1.0
  {
    if w == 5 {
      assert [s][..0] == [];
      assert EntryCredit(S, delta, 5, w, [s]) == EntryCredit(S, delta, 5, w, []) + 0.0;
    } else if w != s {
      assert [5][..0] == [];
      assert Share(S, delta, 5, w) == (1 as real / 1 as real) * (1.0 + 0.0);
      assert EntryCredit(S, delta, 5, w, [5]) == EntryCredit(S, delta, 5, w, []) + Share(S, delta, 5, w);
    }
  }

  /** Adding up the shares over the whole stack. */
  lemma StarSum(s: int, S: seq<nat>, P: seq<seq<int>>, delta: seq<real>, stack: seq<int>)
    requires 0 <= s < 7 && s != 5 && multiset(stack) == multiset(Nodes())
    requires forall w :: 0 <= w < 7 ==> Term(S, P, delta, 5, w) == if w == s || w == 5 then 0.0 else 1.0
    ensures Credit(S, P, delta, 5, stack) == 5.0
  {
    CreditPerm(S, P, delta, 5, stack, Nodes());
    CreditCons(S, P, delta, 5, 0, [1, 2, 3, 4, 5, 6]);
    CreditCons(S, P, delta, 5, 1, [2, 3, 4, 5, 6]);
    CreditCons(S, P, delta, 5, 2, [3, 4, 5, 6]);
    CreditCons(S, P, delta, 5, 3, [4, 5, 6]);
    CreditCons(S, P, delta, 5, 4, [5, 6]);
    CreditCons(S, P, delta, 5, 5, [6]);
    CreditCons(S, P, delta, 5, 6, []);
  }

  /** Every source's credit to the aggregator of the star: 5 from each other node, 0 from
      itself. */
  lemma AggregatorCredits(u: Graph, credits: seq<real>)
    requires Star(u) && |credits| == 7 && Credited(u, 5, credits)
    ensures credits == [5.0, 5.0, 5.0, 5.0, 5.0, 0.0, 5.0]
  {
    forall s | 0 <= s < 7
      ensures credits[s] == if s == 5 then 0.0 else 5.0
    {
      assert SourceCredit(u, s, 5, credits[s]);
      var D, S, P, stack, delta :| Dependency(u, s, D, S, P, stack, delta)
        && credits[s] == (if 5 != s && 0 <= 5 < |u| && D[5] >= 0 then delta[5] else 0.0);
      if s != 5 {
        StarDependency(u, s, D, S, P, stack, delta);
      }
    }
  }

  lemma AggregatorSum()
    ensures SumReals([5.0, 5.0, 5.0, 5.0, 5.0, 0.0, 5.0]) == 30.0
  {
    var xs := [5.0, 5.0, 5.0, 5.0, 5.0, 0.0, 5.0];
    assert SumReals(xs[..1]) == 5.0;
    assert SumReals(xs[..2]) == 10.0 by { assert xs[..2][..1] == xs[..1]; }
    assert SumReals(xs[..3]) == 15.0 by { assert xs[..3][..2] == xs[..2]; }
    assert SumReals(xs[..4]) == 20.0 by { assert xs[..4][..3] == xs[..3]; }
    assert SumReals(xs[..5]) == 25.0 by { assert xs[..5][..4] == xs[..4]; }
    assert SumReals(xs[..6]) == 25.0 by { assert xs[..6][..5] == xs[..5]; }
    assert xs[..7][..6] == xs[..6] && xs[..7] == xs;
  }

  // ---------------------------------------------------------------------------
  // Merge and the whole run
  // ---------------------------------------------------------------------------

  /** What the merge step reports; a betweenness of None stands for `double.NaN`. */
  datatype Summary = Summary(diameter: int, betweenness: Option<real>, cyclomatic: int)

  const IntMinValue: int := -0x8000_0000

  /** Step "Merge": a missing diameter reads as -1, a missing betweenness as NaN and a
      missing cyclomatic number as `int.MinValue`. */
  function Merge(d: Option<int>, b: Option<real>, m: Option<int>): (r: Summary)
    ensures d.None? ==> r.diameter == -1
    ensures b.None? ==> r.betweenness.None?
    ensures m.None? ==> r.cyclomatic == -2147483648
    ensures d.Some? ==> r.diameter == d.value
    ensures b == r.betweenness
    ensures m.Some? ==> r.cyclomatic == m.value
  {
    Summary(d.GetOr(-1), b, m.GetOr(IntMinValue))
  }

  /** The whole run: build, then diameter, betweenness of the aggregator and the
      cyclomatic number, then the merge. */
  method RunStructuralMetrics() returns (summary: Summary, ghost credits: seq<real>)
    ensures summary.diameter == 2 && summary.cyclomatic == 0
    ensures summary.betweenness.Some? && summary.betweenness.value >= 0.0
    ensures |credits| == 7 && Credited(Undirected(FixedDag()), 5, credits)
    ensures summary.betweenness.value == SumReals(credits) / 2.0 == 15.0
  {
    var n, dag, m := BuildDag();
    var undirected := ToUndirected(n, dag);
    UndirectedWellFormed(dag);
    var d := ComputeDiameter(n, undirected);
    FixedDiameter();
    DiameterUnique(undirected, d, 2);
    var c;
    c, credits := ComputeBetweennessForNode(n, undirected, m);
    FixedStar();
    AggregatorCredits(undirected, credits);
    AggregatorSum();
    var cyclo := Cyclomatic(n, dag);
    FixedCyclomatic();
    summary := Merge(Some(d), Some(c), Some(cyclo));
  }
}
