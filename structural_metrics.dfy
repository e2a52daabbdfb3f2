/** The structural metrics of chapter 23 over a small DAG (five sources, one aggregator,
    one target): the undirected view of the DAG, its edge count, its weakly connected
    components, breadth-first distances, the diameter, the cyclomatic number
    M = E - V + P and one node's Brandes betweenness. The chain and graph variants carry
    textually identical helpers. Adjacency lists are `List<int>[]` in the source: the
    helpers fill an `array<seq<int>>` and hand its contents on as a `Graph` value. */
module StructuralMetrics {

  import opened Wrappers
  import SetFacts
  import opened GraphSearch
  import opened Brandes

  // ---------------------------------------------------------------------------
  // Building adjacency lists
  // ---------------------------------------------------------------------------

  /** n empty lists (`CreateEmptyAdjacency`). */
  method CreateEmptyAdjacency(n: nat) returns (g: array<seq<int>>)
    ensures fresh(g) && g.Length == n
    ensures forall i :: 0 <= i < n ==> g[i] == []
  {
    g := new seq<int>[n];
    for i := 0 to n
      invariant forall k :: 0 <= k < i ==> g[k] == []
    {
      g[i] := [];
    }
  }

  /** One mirrored edge: j appended to list i, then i appended to list j. */
  function AddBoth(u: Graph, i: int, j: int): (r: Graph)
    requires 0 <= i < |u| && 0 <= j < |u|
    ensures |r| == |u|
  {
    var u1 := u[i := u[i] + [j]];
    u1[j := u1[j] + [i]]
  }

  /** n empty adjacency lists. */
  function EmptyLists(n: nat): (g: Graph)
    ensures |g| == n
  {
    seq(n, _ => [])
  }

  /** The edges from i to each of js mirrored, in list order. */
  function MirrorEach(u: Graph, i: int, js: seq<int>): (r: Graph)
    requires 0 <= i < |u| && forall k :: 0 <= k < |js| ==> 0 <= js[k] < |u|
    ensures |r| == |u|
  {
    if |js| == 0 then u else AddBoth(MirrorEach(u, i, js[..|js| - 1]), i, js[|js| - 1])
  }

  /** The lists once the edges of nodes 0 .. k-1 have been mirrored into empty lists. */
  function MirrorPrefix(dag: Graph, k: nat): (r: Graph)
    requires k <= |dag| && WellFormed(dag)
    ensures |r| == |dag|
  {
    if k == 0 then EmptyLists(|dag|) else MirrorEach(MirrorPrefix(dag, k - 1), k - 1, dag[k - 1])
  }

  /** The undirected view: every directed edge i -> j listed at both ends. */
  function Undirected(dag: Graph): (u: Graph)
    requires WellFormed(dag)
  {
    MirrorPrefix(dag, |dag|)
  }

  /** `ToUndirected`: for every node i and every j in dag[i], in order, u[i].Add(j) and u[j].Add(i). */
  method ToUndirected(n: nat, dag: Graph) returns (u: Graph)
    requires |dag| == n && WellFormed(dag)
    ensures u == Undirected(dag)
  {
    var lists := CreateEmptyAdjacency(n);
    assert lists[..] == MirrorPrefix(dag, 0);
    for i := 0 to n
      invariant lists[..] == MirrorPrefix(dag, i)
    {
      ghost var base := lists[..];
      for k := 0 to |dag[i]|
        invariant lists[..] == MirrorEach(base, i, dag[i][..k])
      {
        var j := dag[i][k];
        lists[i] := lists[i] + [j];
        lists[j] := lists[j] + [i];
        assert dag[i][..k + 1][..k] == dag[i][..k];
      }
      assert dag[i][..|dag[i]|] == dag[i];
    }
    u := lists[..];
  }

  lemma AddBothCounts(u: Graph, i: int, j: int, x: int, y: int)
    requires 0 <= i < |u| && 0 <= j < |u| && 0 <= x < |u|
    ensures multiset(AddBoth(u, i, j)[x])[y]
         == multiset(u[x])[y] + (if x == i && y == j then 1 else 0) + (if x == j && y == i then 1 else 0)
  {
  }

  lemma {:induction false} MirrorEachCounts(u: Graph, i: int, js: seq<int>, x: int, y: int)
    requires 0 <= i < |u| && forall k :: 0 <= k < |js| ==> 0 <= js[k] < |u|
    requires 0 <= x < |u|
    ensures multiset(MirrorEach(u, i, js)[x])[y]
         == multiset(u[x])[y] + (if x == i then multiset(js)[y] else 0) + (if y == i then multiset(js)[x] else 0)
  {
    if |js| > 0 {
      var front, j := js[..|js| - 1], js[|js| - 1];
      MirrorEachCounts(u, i, front, x, y);
      AddBothCounts(MirrorEach(u, i, front), i, j, x, y);
      assert js == front + [j];
    }
  }

  lemma {:induction false} MirrorPrefixCounts(dag: Graph, k: nat, x: int, y: int)
    requires k <= |dag| && WellFormed(dag) && 0 <= x < |dag| && 0 <= y < |dag|
    ensures multiset(MirrorPrefix(dag, k)[x])[y]
         == (if x < k then multiset(dag[x])[y] else 0) + (if y < k then multiset(dag[y])[x] else 0)
  {
    if k > 0 {
      MirrorPrefixCounts(dag, k - 1, x, y);
      MirrorEachCounts(MirrorPrefix(dag, k - 1), k - 1, dag[k - 1], x, y);
    }
  }

  /** j occurs in u[i] once for each edge i -> j and once for each edge j -> i; so the
      undirected view is symmetric, counting repetitions. */
  lemma UndirectedCounts(dag: Graph, x: int, y: int)
    requires WellFormed(dag) && 0 <= x < |dag| && 0 <= y < |dag|
    ensures multiset(Undirected(dag)[x])[y] == multiset(dag[x])[y] + multiset(dag[y])[x]
    ensures multiset(Undirected(dag)[x])[y] == multiset(Undirected(dag)[y])[x]
  {
    MirrorPrefixCounts(dag, |dag|, x, y);
    MirrorPrefixCounts(dag, |dag|, y, x);
  }

  lemma {:induction false} MirrorEachWellFormed(u: Graph, i: int, js: seq<int>)
    requires WellFormed(u) && 0 <= i < |u| && forall k :: 0 <= k < |js| ==> 0 <= js[k] < |u|
    ensures WellFormed(MirrorEach(u, i, js))
  {
    if |js| > 0 {
      MirrorEachWellFormed(u, i, js[..|js| - 1]);
    }
  }

  lemma {:induction false} MirrorPrefixWellFormed(dag: Graph, k: nat)
    requires k <= |dag| && WellFormed(dag)
    ensures WellFormed(MirrorPrefix(dag, k))
  {
    if k > 0 {
      MirrorPrefixWellFormed(dag, k - 1);
      MirrorEachWellFormed(MirrorPrefix(dag, k - 1), k - 1, dag[k - 1]);
    }
  }

  /** The undirected view has the same nodes and names only nodes of the graph. */
  lemma UndirectedWellFormed(dag: Graph)
    requires WellFormed(dag)
    ensures |Undirected(dag)| == |dag| && WellFormed(Undirected(dag))
  {
    MirrorPrefixWellFormed(dag, |dag|);
  }

  // ---------------------------------------------------------------------------
  // Edge count
  // ---------------------------------------------------------------------------

  /** The number of adjacency entries, repetitions included. */
  function Size(g: Graph): nat {
    if |g| == 0 then 0 else Size(g[..|g| - 1]) + |g[|g| - 1]|
  }

  /** `CountEdges`: the sum of the list lengths. */
  method CountEdges(dag: Graph) returns (e: int)
    ensures e == Size(dag)
  {
    e := 0;
    for i := 0 to |dag|
      invariant e == Size(dag[..i])
    {
      assert dag[..i + 1][..i] == dag[..i];
      e := e + |dag[i]|;
    }
    assert dag[..|dag|] == dag;
  }

  lemma {:induction false} SizeUpdate(g: Graph, i: int, s: seq<int>)
    requires 0 <= i < |g|
    ensures Size(g[i := s]) == Size(g) - |g[i]| + |s|
    decreases |g|
  {
    var m := |g| - 1;
    if i < m {
      assert g[i := s][..m] == g[..m][i := s];
      SizeUpdate(g[..m], i, s);
    } else {
      assert g[i := s][..m] == g[..m];
    }
  }

  lemma {:induction false} MirrorEachSize(u: Graph, i: int, js: seq<int>)
    requires 0 <= i < |u| && forall k :: 0 <= k < |js| ==> 0 <= js[k] < |u|
    ensures Size(MirrorEach(u, i, js)) == Size(u) + 2 * |js|
  {
    if |js| > 0 {
      var front, j := js[..|js| - 1], js[|js| - 1];
      MirrorEachSize(u, i, front);
      var w := MirrorEach(u, i, front);
      SizeUpdate(w, i, w[i] + [j]);
      var w1 := w[i := w[i] + [j]];
      SizeUpdate(w1, j, w1[j] + [i]);
    }
  }

  lemma {:induction false} EmptySize(n: nat)
    ensures Size(EmptyLists(n)) == 0
  {
    if n > 0 {
      assert EmptyLists(n)[..n - 1] == EmptyLists(n - 1);
      EmptySize(n - 1);
    }
  }

  lemma {:induction false} MirrorPrefixSize(dag: Graph, k: nat)
    requires k <= |dag| && WellFormed(dag)
    ensures Size(MirrorPrefix(dag, k)) == 2 * Size(dag[..k])
  {
    if k == 0 {
      EmptySize(|dag|);
    } else {
      MirrorPrefixSize(dag, k - 1);
      MirrorEachSize(MirrorPrefix(dag, k - 1), k - 1, dag[k - 1]);
      assert dag[..k][..k - 1] == dag[..k - 1];
    }
  }

  /** The undirected view lists every edge twice: its total list length is 2 * CountEdges. */
  lemma UndirectedSize(dag: Graph)
    requires WellFormed(dag)
    ensures Size(Undirected(dag)) == 2 * Size(dag)
  {
    MirrorPrefixSize(dag, |dag|);
    assert dag[..|dag|] == dag;
  }

  // ---------------------------------------------------------------------------
  // Breadth-first distances
  // ---------------------------------------------------------------------------

  /** The `foreach (var w in g[v])` loop of `BfsDistances`: every neighbour of v still at
      -1 is labelled dist[v] + 1 and enqueued. */
  method ScanNeighbours(g: Graph, s: int, dist: array<int>, q: seq<int>, ghost order: seq<int>,
                        ghost unseen: set<int>, ghost head: int, v: int)
    returns (q': seq<int>, ghost order': seq<int>, ghost unseen': set<int>)
    requires WellFormed(g) && dist.Length == |g| && 1 <= head <= |order| && q == order[head..]
    requires Queued(g, s, dist[..], order, unseen) && Front(g, dist[..], order, head, v, 0)
    modifies dist
    ensures head <= |order'| && q' == order'[head..] && |unseen'| + |q'| == |unseen| + |q|
    ensures Queued(g, s, dist[..], order', unseen') && Front(g, dist[..], order', head, v, |g[v]|)
  {
    q', order', unseen' := q, order, unseen;
    for j := 0 to |g[v]|
      invariant dist.Length == |g| && 1 <= head <= |order'| && q' == order'[head..]
      invariant Queued(g, s, dist[..], order', unseen') && Front(g, dist[..], order', head, v, j)
      invariant |unseen'| + |q'| == |unseen| + |q|
    {
      var w := g[v][j];
      if dist[w] == -1 {
        ghost var D, order0, unseen0 := dist[..], order', unseen';
        SetLabel(dist, w, dist[v] + 1);
        SliceSnoc(order', head, w);
        q' := q' + [w];
        order' := order' + [w];
        unseen' := unseen' - {w};
        LabelQueued(g, s, D, order0, unseen0, head, v, j, dist[..], order', unseen');
        LabelFront(g, D, order0, head, v, j, dist[..], order');
      } else {
        SkipStep(g, s, dist[..], order', unseen', head, v, j);
      }
    }
  }

  /** A fresh distance array: -1 ("not reached") everywhere but 0 at s. */
  method Unreached(n: nat, s: int) returns (dist: array<int>)
    requires 0 <= s < n
    ensures fresh(dist) && dist.Length == n && dist[s] == 0
    ensures forall x :: 0 <= x < n && x != s ==> dist[x] == -1
  {
    dist := new int[n];
    for i := 0 to n
      invariant forall k :: 0 <= k < i ==> dist[k] == -1
    {
      dist[i] := -1;
    }
    dist[s] := 0;
  }

  /** `BfsDistances`: dist starts at -1 everywhere and 0 at s; each dequeued v labels its
      unlabelled neighbours dist[v] + 1 and enqueues them. The ghost `order` is every node
      ever enqueued, `head` how many have been dequeued. */
  method BfsDistances(n: nat, g: Graph, s: int) returns (dist: array<int>)
    requires |g| == n && WellFormed(g) && 0 <= s < n
    ensures fresh(dist) && BfsLabels(g, s, dist[..])
    ensures forall v :: 0 <= v < n ==> dist[v] < n
  {
    dist := Unreached(n, s);
    var q := [s];
    ghost var order, head := [s], 0;
    ghost var unseen := SetFacts.Range(n) - {s};
    StartState(g, s, dist[..]);
    while |q| > 0
      invariant dist.Length == n && 0 <= head <= |order| && q == order[head..]
      invariant Queued(g, s, dist[..], order, unseen) && Expanded(g, dist[..], order, head)
      invariant head < |order| ==> dist[..][order[|order| - 1]] <= dist[..][order[head]] + 1
      decreases |unseen| + |q|
    {
      DequeueStep(g, s, dist[..], order, unseen, head);
      SliceTail(order, head);
      var v := q[0];
      q := q[1..];
      head := head + 1;
      q, order, unseen := ScanNeighbours(g, s, dist, q, order, unseen, head, v);
      ScannedStep(g, s, dist[..], order, unseen, head, v);
    }
    FinalState(g, s, dist[..], order, unseen);
  }

  // ---------------------------------------------------------------------------
  // Weakly connected components
  // ---------------------------------------------------------------------------

  /** The marked nodes are closed under successors. */
  ghost predicate Closed(g: Graph, M: seq<bool>)
    requires WellFormed(g) && |M| == |g|
  {
    forall x, j :: 0 <= x < |g| && M[x] && 0 <= j < |g[x]| ==> M[g[x][j]]
  }

  lemma {:induction false} ClosedKeepsPaths(g: Graph, M: seq<bool>, p: seq<int>)
    requires WellFormed(g) && |M| == |g| && Closed(g, M) && IsPath(g, p) && M[p[0]]
    ensures M[p[|p| - 1]]
    decreases |p|
  {
    if |p| > 1 {
      var front := p[..|p| - 1];
      assert IsPath(g, front);
      ClosedKeepsPaths(g, M, front);
      var x := front[|front| - 1];
      var j :| 0 <= j < |g[x]| && g[x][j] == p[|p| - 1];
    }
  }

  // The marking search of `CountWeaklyConnectedComponents`, proved like `BfsDistances`
  // over the contents M of `seen` (M0 before the search), `order` and `unseen`.

  ghost predicate Marking(g: Graph, root: int, M0: seq<bool>, M: seq<bool>, order: seq<int>, unseen: set<int>)
    requires WellFormed(g)
  {
    |M0| == |g| && |M| == |g| && 0 <= root < |g| && NodesIn(order, |g|) && |order| > 0 && order[0] == root
    && (forall x :: 0 <= x < |g| ==> (M[x] <==> M0[x] || x in order) && (x in unseen <==> !M[x]))
    && (forall k :: 0 <= k < |order| ==> !M0[order[k]] && Reachable(g, root, order[k]))
    && unseen <= SetFacts.Range(|g|)
  }

  /** The successors of the first k enqueued nodes are marked. */
  ghost predicate MarkExpanded(g: Graph, M: seq<bool>, order: seq<int>, k: int)
    requires WellFormed(g) && |M| == |g| && NodesIn(order, |g|)
  {
    0 <= k <= |order| && forall i, j :: 0 <= i < k && 0 <= j < |g[order[i]]| ==> M[g[order[i]][j]]
  }

  ghost predicate MarkFront(g: Graph, M: seq<bool>, order: seq<int>, head: int, v: int, j: int)
    requires WellFormed(g) && |M| == |g| && NodesIn(order, |g|)
  {
    1 <= head <= |order| && v == order[head - 1] && MarkExpanded(g, M, order, head - 1)
    && 0 <= j <= |g[v]| && forall i :: 0 <= i < j ==> M[g[v][i]]
  }

  lemma MarkStart(g: Graph, root: int, M0: seq<bool>, M: seq<bool>) returns (unseen: set<int>)
    requires WellFormed(g) && |M0| == |g| && 0 <= root < |g| && !M0[root] && M == M0[root := true]
    ensures Marking(g, root, M0, M, [root], unseen) && MarkExpanded(g, M, [root], 0)
  {
    unseen := set x | 0 <= x < |g| && !M[x];
    ReachSelf(g, root);
  }

  lemma MarkDequeue(g: Graph, root: int, M0: seq<bool>, M: seq<bool>, order: seq<int>, unseen: set<int>, head: int)
    requires WellFormed(g) && Marking(g, root, M0, M, order, unseen) && MarkExpanded(g, M, order, head)
    requires head < |order|
    ensures MarkFront(g, M, order, head + 1, order[head], 0)
  {
  }

  lemma MarkLabel(g: Graph, root: int, M0: seq<bool>, M: seq<bool>, order: seq<int>, unseen: set<int>, head: int,
                  v: int, j: int, M': seq<bool>, order': seq<int>, unseen': set<int>)
    requires WellFormed(g) && Marking(g, root, M0, M, order, unseen) && MarkFront(g, M, order, head, v, j)
    requires j < |g[v]| && !M[g[v][j]]
    requires M' == M[g[v][j] := true] && order' == order + [g[v][j]] && unseen' == unseen - {g[v][j]}
    ensures Marking(g, root, M0, M', order', unseen') && MarkFront(g, M', order', head, v, j + 1)
    ensures |unseen'| == |unseen| - 1
  {
    var w := g[v][j];
    assert Reachable(g, root, v) && w in g[v];
    ReachStep(g, root, v, w);
    forall k | 0 <= k < |order'|
      ensures !M0[order'[k]] && Reachable(g, root, order'[k])
    {
      if k < |order| {
        assert order'[k] == order[k];
      }
    }
  }

  lemma MarkSkip(g: Graph, M: seq<bool>, order: seq<int>, head: int, v: int, j: int)
    requires WellFormed(g) && |M| == |g| && NodesIn(order, |g|) && MarkFront(g, M, order, head, v, j)
    requires j < |g[v]| && M[g[v][j]]
    ensures MarkFront(g, M, order, head, v, j + 1)
  {
  }

  lemma MarkScanned(g: Graph, M: seq<bool>, order: seq<int>, head: int, v: int)
    requires WellFormed(g) && |M| == |g| && NodesIn(order, |g|) && 0 <= v < |g|
    requires MarkFront(g, M, order, head, v, |g[v]|)
    ensures MarkExpanded(g, M, order, head)
  {
  }

  /** Once every enqueued node is expanded, exactly the previously marked nodes and the
      nodes reachable from the root are marked, and the marks are still closed. */
  lemma MarkFinal(g: Graph, root: int, M0: seq<bool>, M: seq<bool>, order: seq<int>, unseen: set<int>)
    requires WellFormed(g) && Marking(g, root, M0, M, order, unseen) && MarkExpanded(g, M, order, |order|)
    requires Closed(g, M0)
    ensures Closed(g, M)
    ensures forall x :: 0 <= x < |g| ==> (M[x] <==> M0[x] || Reachable(g, root, x))
  {
    forall x, j | 0 <= x < |g| && M[x] && 0 <= j < |g[x]|
      ensures M[g[x][j]]
    {
      if !M0[x] {
        var k :| 0 <= k < |order| && order[k] == x;
      }
    }
    forall x | 0 <= x < |g| && Reachable(g, root, x)
      ensures M[x]
    {
      var p :| PathFrom(g, root, x, p);
      ClosedKeepsPaths(g, M, p);
    }
    forall x | 0 <= x < |g| && M[x] && !M0[x]
      ensures Reachable(g, root, x)
    {
      var k :| 0 <= k < |order| && order[k] == x;
    }
  }

  /** `seen[w] = true`, kept apart so that the callers see the new contents as one update. */
  method SetMark(seen: array<bool>, w: int)
    requires 0 <= w < seen.Length
    modifies seen
    ensures seen[..] == old(seen[..])[w := true]
  {
    seen[w] := true;
  }

  /** The `foreach (var w in u[v])` loop of the component search. */
  method MarkNeighbours(g: Graph, root: int, ghost M0: seq<bool>, seen: array<bool>, q: seq<int>, ghost order: seq<int>,
                        ghost unseen: set<int>, ghost head: int, v: int)
    returns (q': seq<int>, ghost order': seq<int>, ghost unseen': set<int>)
    requires WellFormed(g) && seen.Length == |g| && 1 <= head <= |order| && q == order[head..]
    requires Marking(g, root, M0, seen[..], order, unseen) && MarkFront(g, seen[..], order, head, v, 0)
    modifies seen
    ensures head <= |order'| && q' == order'[head..] && |unseen'| + |q'| == |unseen| + |q|
    ensures Marking(g, root, M0, seen[..], order', unseen') && MarkFront(g, seen[..], order', head, v, |g[v]|)
  {
    q', order', unseen' := q, order, unseen;
    for j := 0 to |g[v]|
      invariant seen.Length == |g| && 1 <= head <= |order'| && q' == order'[head..]
      invariant Marking(g, root, M0, seen[..], order', unseen') && MarkFront(g, seen[..], order', head, v, j)
      invariant |unseen'| + |q'| == |unseen| + |q|
    {
      var w := g[v][j];
      if !seen[w] {
        ghost var M, order0, unseen0 := seen[..], order', unseen';
        SetMark(seen, w);
        SliceSnoc(order', head, w);
        q' := q' + [w];
        order' := order' + [w];
        unseen' := unseen' - {w};
        MarkLabel(g, root, M0, M, order0, unseen0, head, v, j, seen[..], order', unseen');
      } else {
        MarkSkip(g, seen[..], order', head, v, j);
      }
    }
  }

  /** One component search: mark root and every unmarked node reachable from it. */
  method MarkComponent(g: Graph, seen: array<bool>, root: int)
    requires WellFormed(g) && seen.Length == |g| && 0 <= root < |g| && !seen[root] && Closed(g, seen[..])
    modifies seen
    ensures Closed(g, seen[..])
    ensures forall x :: 0 <= x < |g| ==> (seen[x] <==> old(seen[x]) || Reachable(g, root, x))
  {
    ghost var M0 := seen[..];
    var q := [root];
    SetMark(seen, root);
    ghost var order, head := [root], 0;
    ghost var unseen := MarkStart(g, root, M0, seen[..]);
    while |q| > 0
      invariant seen.Length == |g| && 0 <= head <= |order| && q == order[head..]
      invariant Marking(g, root, M0, seen[..], order, unseen) && MarkExpanded(g, seen[..], order, head)
      decreases |unseen| + |q|
    {
      MarkDequeue(g, root, M0, seen[..], order, unseen, head);
      SliceTail(order, head);
      var v := q[0];
      q := q[1..];
      head := head + 1;
      q, order, unseen := MarkNeighbours(g, root, M0, seen, q, order, unseen, head, v);
      MarkScanned(g, seen[..], order, head, v);
    }
    MarkFinal(g, root, M0, seen[..], order, unseen);
  }

  /** Some node numbered below s reaches x. */
  ghost predicate ReachedBelow(g: Graph, s: int, x: int) {
    exists t :: 0 <= t < s && Reachable(g, t, x)
  }

  /** The nodes below s that no smaller node reaches: the node at which the component
      search of `CountWeaklyConnectedComponents` starts a new component. */
  ghost function LeadersBelow(g: Graph, s: int): set<int> {
    set r | 0 <= r < s && r < |g| && !ReachedBelow(g, r, r)
  }

  /** The number of components: one leader per component. */
  ghost function ComponentCount(g: Graph): nat {
    |LeadersBelow(g, |g|)|
  }

  /** After the searches started at nodes below s, exactly the nodes they reach are seen. */
  ghost predicate SeenBelow(g: Graph, M: seq<bool>, s: int) {
    |M| == |g| && forall x :: 0 <= x < |g| ==> (M[x] <==> ReachedBelow(g, s, x))
  }

  /** A node already seen starts no component, and the seen set stays as it is. */
  lemma ComponentSkip(g: Graph, M: seq<bool>, s: int)
    requires SeenBelow(g, M, s) && 0 <= s < |g| && M[s]
    ensures SeenBelow(g, M, s + 1) && LeadersBelow(g, s + 1) == LeadersBelow(g, s)
  {
    forall x | 0 <= x < |g| && Reachable(g, s, x)
      ensures ReachedBelow(g, s, x)
    {
      var t :| 0 <= t < s && Reachable(g, t, s);
      ReachTrans(g, t, s, x);
    }
  }

  /** An unseen node starts a new component, whose search adds what it reaches. */
  lemma ComponentNew(g: Graph, M: seq<bool>, M': seq<bool>, s: int)
    requires SeenBelow(g, M, s) && 0 <= s < |g| && !M[s] && |M'| == |g|
    requires forall x :: 0 <= x < |g| ==> (M'[x] <==> M[x] || Reachable(g, s, x))
    ensures SeenBelow(g, M', s + 1)
    ensures s !in LeadersBelow(g, s) && LeadersBelow(g, s + 1) == LeadersBelow(g, s) + {s}
  {
  }

  /** `CountWeaklyConnectedComponents`: over the undirected view, every node not yet seen
      starts a new component and a search that marks everything it reaches. */
  method CountWeaklyConnectedComponents(n: nat, dag: Graph) returns (c: int)
    requires |dag| == n && WellFormed(dag)
    ensures c == ComponentCount(Undirected(dag))
  {
    var u := ToUndirected(n, dag);
    UndirectedWellFormed(dag);
    var seen := new bool[n](_ => false);
    c := 0;
    for s := 0 to n
      invariant seen.Length == n && Closed(u, seen[..]) && SeenBelow(u, seen[..], s)
      invariant c == |LeadersBelow(u, s)|
    {
      if seen[s] {
        ComponentSkip(u, seen[..], s);
        continue;
      }
      c := c + 1;
      ghost var M := seen[..];
      MarkComponent(u, seen, s);
      ComponentNew(u, M, seen[..], s);
    }
  }

  /** Every adjacency entry is mirrored: the edge i -> j comes with j -> i. */
  ghost predicate Symmetric(g: Graph) {
    WellFormed(g) && forall i, j :: 0 <= i < |g| && 0 <= j < |g[i]| ==> i in g[g[i][j]]
  }

  lemma UndirectedSymmetric(dag: Graph)
    requires WellFormed(dag)
    ensures Symmetric(Undirected(dag))
  {
    var u := Undirected(dag);
    UndirectedWellFormed(dag);
    forall i, j | 0 <= i < |u| && 0 <= j < |u[i]|
      ensures i in u[u[i][j]]
    {
      UndirectedCounts(dag, u[i][j], i);
      assert u[i][j] in multiset(u[i]);
    }
  }

  /** In a symmetric graph a walk can be walked back. */
  lemma {:induction false} ReverseReach(g: Graph, a: int, b: int, p: seq<int>)
    requires Symmetric(g) && PathFrom(g, a, b, p)
    ensures Reachable(g, b, a)
    decreases |p|
  {
    if |p| == 1 {
      ReachSelf(g, a);
    } else {
      var front := p[..|p| - 1];
      var u := front[|front| - 1];
      assert PathFrom(g, a, u, front);
      ReverseReach(g, a, u, front);
      var j :| 0 <= j < |g[u]| && g[u][j] == b;
      assert PathFrom(g, b, u, [b, u]);
      ReachTrans(g, b, u, a);
    }
  }

  /** Every node is reached from some leader. */
  lemma {:induction false} HasLeader(g: Graph, x: int)
    requires 0 <= x < |g|
    ensures exists r :: r in LeadersBelow(g, |g|) && Reachable(g, r, x)
    decreases x
  {
    ReachSelf(g, x);
    if ReachedBelow(g, x, x) {
      var t :| 0 <= t < x && Reachable(g, t, x);
      HasLeader(g, t);
      var r :| r in LeadersBelow(g, |g|) && Reachable(g, r, t);
      ReachTrans(g, r, t, x);
    } else {
      assert x in LeadersBelow(g, |g|);
    }
  }

  /** In a symmetric graph the leaders partition the nodes: each node is reached from
      exactly one leader, so `ComponentCount` counts the connected components. */
  lemma LeadersPartition(g: Graph, x: int)
    requires Symmetric(g) && 0 <= x < |g|
    ensures exists r :: r in LeadersBelow(g, |g|) && Reachable(g, r, x)
    ensures forall r1, r2 ::
              r1 in LeadersBelow(g, |g|) && r2 in LeadersBelow(g, |g|) && Reachable(g, r1, x) && Reachable(g, r2, x)
              ==> r1 == r2
  {
    HasLeader(g, x);
    forall r1, r2 | r1 in LeadersBelow(g, |g|) && r2 in LeadersBelow(g, |g|)
                    && Reachable(g, r1, x) && Reachable(g, r2, x) && r1 < r2
      ensures false
    {
      var p :| PathFrom(g, r2, x, p);
      ReverseReach(g, r2, x, p);
      ReachTrans(g, r1, x, r2);
      assert ReachedBelow(g, r2, r2);
    }
  }

  /** A non-empty graph has between one and n components. */
  lemma ComponentBounds(g: Graph)
    requires |g| >= 1
    ensures 1 <= ComponentCount(g) <= |g|
  {
    assert 0 in LeadersBelow(g, |g|);
    SetFacts.SubsetCount(LeadersBelow(g, |g|), SetFacts.Range(|g|));
  }

  // ---------------------------------------------------------------------------
  // Diameter
  // ---------------------------------------------------------------------------

  lemma DistanceUnique(g: Graph, s: int, v: int, k1: nat, k2: nat)
    requires ShortestDistance(g, s, v, k1) && ShortestDistance(g, s, v, k2)
    ensures k1 == k2
  {
    var p1 :| PathFrom(g, s, v, p1) && |p1| == k1 + 1;
    var p2 :| PathFrom(g, s, v, p2) && |p2| == k2 + 1;
  }

  /** No shortest distance from a source below s exceeds d. */
  ghost predicate DistancesBelow(g: Graph, s: int, d: int) {
    forall s', v, k: nat :: 0 <= s' < s && 0 <= v < |g| && ShortestDistance(g, s', v, k) ==> k <= d
  }

  /** d is the diameter of g: the largest shortest distance between two nodes, or 0 when
      no two distinct nodes are connected. Unreachable pairs do not count. */
  ghost predicate IsDiameter(g: Graph, d: int) {
    d >= 0 && DistancesBelow(g, |g|, d)
    && (d == 0 || exists s, v :: 0 <= s < |g| && 0 <= v < |g| && ShortestDistance(g, s, v, d))
  }

  /** The diameter is well defined: two values meeting `IsDiameter` agree. */
  lemma DiameterUnique(g: Graph, d1: int, d2: int)
    requires IsDiameter(g, d1) && IsDiameter(g, d2)
    ensures d1 == d2
  {
    if d1 > 0 {
      var s, v :| 0 <= s < |g| && 0 <= v < |g| && ShortestDistance(g, s, v, d1);
    }
    if d2 > 0 {
      var s, v :| 0 <= s < |g| && 0 <= v < |g| && ShortestDistance(g, s, v, d2);
    }
  }

  /** Once every label of the search from s is at most d, the bound covers source s too. */
  lemma DistancesStep(g: Graph, s: int, dist: seq<int>, d0: int, d: int)
    requires WellFormed(g) && BfsLabels(g, s, dist) && DistancesBelow(g, s, d0) && d0 <= d
    requires forall x :: 0 <= x < |g| && dist[x] >= 0 ==> dist[x] <= d
    ensures DistancesBelow(g, s + 1, d)
  {
    forall v, k: nat | 0 <= v < |g| && ShortestDistance(g, s, v, k)
      ensures k <= d
    {
      var p :| PathFrom(g, s, v, p) && |p| == k + 1;
      BfsLabelsAreDistances(g, s, dist, v);
      DistanceUnique(g, s, v, k, dist[v]);
    }
  }

  /** `ComputeDiameter`: the largest label of a breadth-first search from every node. */
  method ComputeDiameter(n: nat, g: Graph) returns (d: int)
    requires |g| == n && WellFormed(g)
    ensures IsDiameter(g, d) && (n > 0 ==> d < n)
  {
    d := 0;
    ghost var bs, bv := 0, 0;
    for s := 0 to n
      invariant d >= 0 && DistancesBelow(g, s, d) && (d == 0 || d < n)
      invariant d == 0 || (0 <= bs < n && 0 <= bv < n && ShortestDistance(g, bs, bv, d))
    {
      var dist := BfsDistances(n, g, s);
      ghost var d0 := d;
      for v := 0 to n
        invariant dist.Length == n && BfsLabels(g, s, dist[..]) && d0 <= d && (d == 0 || d < n)
        invariant forall x :: 0 <= x < n ==> dist[x] < n
        invariant forall x :: 0 <= x < v && dist[x] >= 0 ==> dist[x] <= d
        invariant d == 0 || (0 <= bs < n && 0 <= bv < n && ShortestDistance(g, bs, bv, d))
      {
        if dist[v] >= 0 && dist[v] > d {
          BfsLabelsAreDistances(g, s, dist[..], v);
          d, bs, bv := dist[v], s, v;
        }
      }
      DistancesStep(g, s, dist[..], d0, d);
    }
  }

  // ---------------------------------------------------------------------------
  // Betweenness of one node
  // ---------------------------------------------------------------------------

  /** `foreach (var v in predecessors[w]) delta[v] += (sigma[v] / sigma[w]) * (1.0 + delta[w]);`
      (no guard on sigma[w]: every popped node has a positive count). */
  method PassShares(sigma: array<nat>, preds: array<seq<int>>, delta: array<real>, ghost Dl: seq<real>, w: int)
    requires sigma.Length == preds.Length == delta.Length && 0 <= w < sigma.Length && sigma[w] >= 1
    requires forall i :: 0 <= i < |preds[w]| ==> 0 <= preds[w][i] < sigma.Length && preds[w][i] != w
    requires delta[..] == Dl
    modifies delta
    ensures forall x :: 0 <= x < delta.Length ==> delta[x] == Dl[x] + EntryCredit(sigma[..], Dl, x, w, preds[w])
  {
    for i := 0 to |preds[w]|
      invariant delta[w] == Dl[w]
      invariant forall x :: 0 <= x < delta.Length ==> delta[x] == Dl[x] + EntryCredit(sigma[..], Dl, x, w, preds[w][..i])
    {
      var v := preds[w][i];
      delta[v] := delta[v] + (sigma[v] as real / sigma[w] as real) * (1.0 + delta[w]);
      assert preds[w][..i + 1][..i] == preds[w][..i];
    }
    assert preds[w][..|preds[w]|] == preds[w];
  }

  /** One turn of the stack loop: pop stack[k], pass its shares on, and credit it to the
      score when it is the node asked about. */
  method PopNode(g: Graph, s: int, node: int, sigma: array<nat>, preds: array<seq<int>>, dl: array<real>,
                 ghost D: seq<int>, ghost S: seq<nat>, ghost P: seq<seq<int>>, stack: seq<int>, k: int,
                 ghost score0: real, score: real)
    returns (score': real)
    requires |D| == |g| && Counted(D, S) && PredsSound(g, D, P) && Stacked(D, stack) && 0 <= k < |stack|
    requires sigma[..] == S && preds[..] == P && dl.Length == |g|
    requires DeltaEq(S, P, dl[..], stack[k + 1..]) && forall x :: 0 <= x < |g| ==> dl[x] >= 0.0
    requires score == score0 + NodeCredit(stack[k + 1..], s, node, dl[..])
    modifies dl
    ensures DeltaEq(S, P, dl[..], stack[k..]) && forall x :: 0 <= x < |g| ==> dl[x] >= 0.0
    ensures score' == score0 + NodeCredit(stack[k..], s, node, dl[..])
  {
    var w := stack[k];
    PopReady(g, D, S, P, stack, k);
    ghost var Dl := dl[..];
    PassShares(sigma, preds, dl, Dl, w);
    PopStep(g, D, S, P, stack, k, Dl, dl[..]);
    forall x | 0 <= x < |g|
      ensures dl[x] >= 0.0
    {
      EntryCreditNonneg(S, Dl, x, w, P[w]);
    }
    NodeCreditStep(stack, k, s, node, Dl, dl[..]);
    score' := score;
    if w != s && w == node {
      score' := score + dl[w];
    }
  }

  /** The stack loop of one source: pop every node, pass its shares on to its
      predecessors, and add delta[node] to the score when node (not the source) is popped. */
  method AccumulateForNode(n: nat, g: Graph, s: int, node: int, sigma: array<nat>, preds: array<seq<int>>,
                           stack: seq<int>, ghost D: seq<int>, score0: real)
    returns (score: real, ghost delta: seq<real>)
    requires |g| == n && WellFormed(g) && sigma.Length == n && preds.Length == n
    requires Passed(g, s, D, sigma[..], preds[..], stack) && score0 >= 0.0
    ensures Dependency(g, s, D, sigma[..], preds[..], stack, delta)
    ensures score == score0 + (if node != s && 0 <= node < n && D[node] >= 0 then delta[node] else 0.0)
    ensures score >= score0
  {
    var dl := new real[n](_ => 0.0);
    ghost var S, P := sigma[..], preds[..];
    var k := |stack|;
    score := score0;
    while k > 0
      invariant 0 <= k <= |stack| && dl.Length == n
      invariant DeltaEq(S, P, dl[..], stack[k..]) && forall x :: 0 <= x < n ==> dl[x] >= 0.0
      invariant score == score0 + NodeCredit(stack[k..], s, node, dl[..]) && score >= score0
    {
      k := k - 1;
      score := PopNode(g, s, node, sigma, preds, dl, D, S, P, stack, k, score0, score);
    }
    delta := dl[..];
    assert stack[0..] == stack;
  }

  /** One turn of the loop over sources: the pass from s and its accumulation. */
  method CreditFromSource(n: nat, g: Graph, s: int, node: int, score0: real) returns (score: real, ghost c: real)
    requires |g| == n && WellFormed(g) && 0 <= s < n && score0 >= 0.0
    ensures SourceCredit(g, s, node, c) && score == score0 + c && c >= 0.0
  {
    var dist, sigma, preds, stack := SourcePass(n, g, s);
    ghost var D, delta := dist[..], [];
    score, delta := AccumulateForNode(n, g, s, node, sigma, preds, stack, D, score0);
    c := if node != s && 0 <= node < |g| && D[node] >= 0 then delta[node] else 0.0;
    CreditOfPass(g, s, node, D, sigma[..], preds[..], stack, delta);
  }

  /** Brandes' accumulation specialised to one node: the sum over all sources of what each
      source's pass credits to node, halved because every undirected pair is counted from
      both ends. */
  method ComputeBetweennessForNode(n: nat, g: Graph, node: int) returns (score: real, ghost credits: seq<real>)
    requires |g| == n && WellFormed(g)
    ensures |credits| == n && Credited(g, node, credits)
    ensures score == SumReals(credits) / 2.0 && score >= 0.0
  {
    score := 0.0;
    credits := [];
    for s := 0 to n
      invariant |credits| == s && score == SumReals(credits) && score >= 0.0
      invariant Credited(g, node, credits)
    {
      ghost var c, prev := 0.0, credits;
      score, c := CreditFromSource(n, g, s, node, score);
      CreditedSnoc(g, node, prev, c);
      credits := prev + [c];
      assert credits[..s] == prev;
    }
    score := score / 2.0;
  }
}
