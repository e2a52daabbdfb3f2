/** Walks, reachability and breadth-first labellings of graphs given as adjacency lists,
    shared by the chapter 23 metrics and the glossary's betweenness centrality. */
module GraphSearch {

  import SetFacts

  /** Adjacency lists: node i's successors, in insertion order, at index i. */
  type Graph = seq<seq<int>>

  /** Every adjacency entry names a node of the graph. */
  ghost predicate WellFormed(g: Graph) {
    forall i, j :: 0 <= i < |g| && 0 <= j < |g[i]| ==> 0 <= g[i][j] < |g|
  }

  // ---------------------------------------------------------------------------
  // Paths and breadth-first distances
  // ---------------------------------------------------------------------------

  /** p is a walk of g: nodes of g, each step along an adjacency entry. */
  ghost predicate IsPath(g: Graph, p: seq<int>) {
    |p| > 0 && (forall k :: 0 <= k < |p| ==> 0 <= p[k] < |g|)
    && forall k :: 0 <= k < |p| - 1 ==> p[k + 1] in g[p[k]]
  }

  /** p walks from s to v. */
  ghost predicate PathFrom(g: Graph, s: int, v: int, p: seq<int>) {
    IsPath(g, p) && p[0] == s && p[|p| - 1] == v
  }

  ghost predicate Reachable(g: Graph, s: int, v: int) {
    exists p :: PathFrom(g, s, v, p)
  }

  /** The shortest walk from s to v takes k steps. */
  ghost predicate ShortestDistance(g: Graph, s: int, v: int, k: nat) {
    (exists p :: PathFrom(g, s, v, p) && |p| == k + 1)
    && forall p :: PathFrom(g, s, v, p) ==> |p| >= k + 1
  }

  /** Some edge u -> v leaves a node u labelled one level below v. (Quantified facts about
      it are triggered on this predicate alone, so that a parent's label does not ask for
      the parent's own parent.) */
  ghost predicate HasParent(g: Graph, D: seq<int>, v: int)
    requires |D| == |g| && 0 <= v < |g|
  {
    exists u :: 0 <= u < |g| && v in g[u] && D[u] >= 0 && D[u] + 1 == D[v]
  }

  /** The labelling a breadth-first search from s leaves behind: s at 0, -1 for "not
      reached", every neighbour of a reached node reached at most one level further,
      and every other reached node entered from a node one level closer. */
  ghost predicate BfsLabels(g: Graph, s: int, dist: seq<int>)
    requires WellFormed(g)
  {
    |dist| == |g| && 0 <= s < |g| && dist[s] == 0
    && (forall v :: 0 <= v < |g| ==> dist[v] >= -1)
    && (forall v, j :: 0 <= v < |g| && dist[v] >= 0 && 0 <= j < |g[v]| ==> 0 <= dist[g[v][j]] <= dist[v] + 1)
    && (forall v {:trigger HasParent(g, dist, v)} :: 0 <= v < |g| && v != s && dist[v] >= 0 ==> HasParent(g, dist, v))
  }

  /** A walk to u followed by an edge u -> v is a walk to v. */
  lemma PathSnoc(g: Graph, s: int, u: int, v: int, p: seq<int>)
    requires PathFrom(g, s, u, p) && 0 <= v < |g| && v in g[u]
    ensures PathFrom(g, s, v, p + [v])
  {
    var p' := p + [v];
    forall k | 0 <= k < |p'| - 1
      ensures p'[k + 1] in g[p'[k]]
    {
      if k < |p| - 1 {
        assert p'[k] == p[k] && p'[k + 1] == p[k + 1];
      }
    }
  }

  lemma {:induction false} LabelBelowPath(g: Graph, s: int, dist: seq<int>, v: int, p: seq<int>)
    requires WellFormed(g) && BfsLabels(g, s, dist) && PathFrom(g, s, v, p)
    ensures 0 <= dist[v] < |p|
    decreases |p|
  {
    if |p| > 1 {
      var front := p[..|p| - 1];
      var u := front[|front| - 1];
      assert PathFrom(g, s, u, front);
      LabelBelowPath(g, s, dist, u, front);
      var j :| 0 <= j < |g[u]| && g[u][j] == v;
    }
  }

  lemma {:induction false} PathOfLabel(g: Graph, s: int, dist: seq<int>, v: int) returns (p: seq<int>)
    requires WellFormed(g) && BfsLabels(g, s, dist) && 0 <= v < |g| && dist[v] >= 0
    ensures PathFrom(g, s, v, p) && |p| == dist[v] + 1
    decreases dist[v]
  {
    if v == s {
      p := [s];
    } else {
      assert HasParent(g, dist, v);
      var u :| 0 <= u < |g| && v in g[u] && dist[u] >= 0 && dist[u] + 1 == dist[v];
      var q := PathOfLabel(g, s, dist, u);
      p := q + [v];
      PathSnoc(g, s, u, v, q);
    }
  }

  /** A breadth-first labelling is exactly the shortest-path distance: a node is labelled
      iff it is reachable, and then its label is the length of a shortest walk. */
  lemma BfsLabelsAreDistances(g: Graph, s: int, dist: seq<int>, v: int)
    requires WellFormed(g) && BfsLabels(g, s, dist) && 0 <= v < |g|
    ensures dist[v] >= 0 <==> Reachable(g, s, v)
    ensures dist[v] >= 0 ==> ShortestDistance(g, s, v, dist[v])
  {
    if dist[v] >= 0 {
      var p := PathOfLabel(g, s, dist, v);
      forall q | PathFrom(g, s, v, q)
        ensures |q| >= dist[v] + 1
      {
        LabelBelowPath(g, s, dist, v, q);
      }
    } else if Reachable(g, s, v) {
      var q :| PathFrom(g, s, v, q);
      LabelBelowPath(g, s, dist, v, q);
    }
  }

  // The breadth-first search is proved over the contents D of its `dist` array, the
  // ghost sequence `order` of every node ever enqueued and the ghost set `unseen` of
  // nodes not yet labelled; each predicate below is one invariant of the queue loop.

  /** Every entry of `order` names one of n nodes. */
  ghost predicate NodesIn(order: seq<int>, n: int) {
    forall k :: 0 <= k < |order| ==> 0 <= order[k] < n
  }

  /** Levels along the queue never decrease, and the k-th enqueued node is at level k or below. */
  ghost predicate Levels(D: seq<int>, order: seq<int>)
    requires NodesIn(order, |D|)
  {
    (forall k, l :: 0 <= k <= l < |order| ==> D[order[k]] <= D[order[l]])
    && forall k :: 0 <= k < |order| ==> D[order[k]] <= k
  }

  /** Exactly the enqueued nodes are labelled (-1 means "not reached"); `unseen` is the rest. */
  ghost predicate Listed(D: seq<int>, order: seq<int>, unseen: set<int>)
    requires NodesIn(order, |D|)
  {
    (forall x :: 0 <= x < |D| ==> D[x] >= -1 && (D[x] >= 0 ==> x in order) && (x in unseen <==> D[x] == -1))
    && (forall k :: 0 <= k < |order| ==> D[order[k]] >= 0)
    && unseen <= SetFacts.Range(|D|) && |order| + |unseen| == |D|
  }

  /** Every labelled node other than s was entered from a node one level closer. */
  ghost predicate Entered(g: Graph, s: int, D: seq<int>)
    requires |D| == |g|
  {
    forall x {:trigger HasParent(g, D, x)} :: 0 <= x < |g| && x != s && D[x] >= 0 ==> HasParent(g, D, x)
  }

  /** The neighbours of the first k enqueued nodes are labelled, at most one level further. */
  ghost predicate Expanded(g: Graph, D: seq<int>, order: seq<int>, k: int)
    requires WellFormed(g) && |D| == |g| && NodesIn(order, |g|)
  {
    0 <= k <= |order|
    && forall i, j :: 0 <= i < k && 0 <= j < |g[order[i]]| ==> 0 <= D[g[order[i]][j]] <= D[order[i]] + 1
  }

  /** The state of the search between two steps. */
  ghost predicate Queued(g: Graph, s: int, D: seq<int>, order: seq<int>, unseen: set<int>)
    requires WellFormed(g)
  {
    |D| == |g| && 0 <= s < |g| && D[s] == 0 && NodesIn(order, |g|)
    && Levels(D, order) && Listed(D, order, unseen) && Entered(g, s, D)
  }

  /** The scan of the neighbours of v, the head-th dequeued node: the nodes dequeued
      before v are expanded, the first j neighbours of v are labelled, and no label
      exceeds v's by more than one. */
  ghost predicate Front(g: Graph, D: seq<int>, order: seq<int>, head: int, v: int, j: int)
    requires WellFormed(g) && |D| == |g| && NodesIn(order, |g|)
  {
    1 <= head <= |order| && v == order[head - 1]
    && Expanded(g, D, order, head - 1) && 0 <= j <= |g[v]|
    && (forall i :: 0 <= i < j ==> 0 <= D[g[v][i]] <= D[v] + 1)
    && D[order[|order| - 1]] <= D[v] + 1
  }

  lemma StartState(g: Graph, s: int, D: seq<int>)
    requires WellFormed(g) && 0 <= s < |g| && |D| == |g| && D[s] == 0
    requires forall x :: 0 <= x < |g| && x != s ==> D[x] == -1
    ensures Queued(g, s, D, [s], SetFacts.Range(|g|) - {s}) && Expanded(g, D, [s], 0)
  {
  }

  lemma DequeueStep(g: Graph, s: int, D: seq<int>, order: seq<int>, unseen: set<int>, head: int)
    requires WellFormed(g) && Queued(g, s, D, order, unseen) && Expanded(g, D, order, head)
    requires head < |order| && D[order[|order| - 1]] <= D[order[head]] + 1
    ensures Front(g, D, order, head + 1, order[head], 0)
  {
  }

  lemma LevelsAppend(D: seq<int>, order: seq<int>, h: int, w: int)
    requires NodesIn(order, |D|) && Levels(D, order) && 0 <= w < |D|
    requires forall k :: 0 <= k < |order| ==> order[k] != w
    requires 0 <= h < |order| && D[order[|order| - 1]] <= D[order[h]] + 1
    ensures NodesIn(order + [w], |D|) && Levels(D[w := D[order[h]] + 1], order + [w])
  {
    var D', order' := D[w := D[order[h]] + 1], order + [w];
    forall k, l | 0 <= k <= l < |order'|
      ensures D'[order'[k]] <= D'[order'[l]]
    {
      if l == |order| && k < |order| {
        assert D[order[k]] <= D[order[|order| - 1]];
      }
    }
  }

  lemma ListedAppend(D: seq<int>, order: seq<int>, unseen: set<int>, w: int, val: int)
    requires NodesIn(order, |D|) && Listed(D, order, unseen) && 0 <= w < |D| && D[w] == -1 && val >= 0
    ensures NodesIn(order + [w], |D|) && Listed(D[w := val], order + [w], unseen - {w})
    ensures |unseen - {w}| == |unseen| - 1 && forall k :: 0 <= k < |order| ==> order[k] != w
  {
    var D', order' := D[w := val], order + [w];
    forall k | 0 <= k < |order'|
      ensures D'[order'[k]] >= 0
    {
      if k < |order| {
        assert D[order[k]] >= 0;
      }
    }
  }

  lemma EnteredStep(g: Graph, s: int, D: seq<int>, v: int, w: int)
    requires |D| == |g| && Entered(g, s, D) && 0 <= v < |g| && D[v] >= 0
    requires 0 <= w < |g| && w in g[v] && D[w] == -1
    ensures Entered(g, s, D[w := D[v] + 1])
  {
    var D' := D[w := D[v] + 1];
    forall x | 0 <= x < |g| && x != s && D'[x] >= 0
      ensures HasParent(g, D', x)
    {
      if x == w {
        assert D'[v] == D[v];
      } else {
        assert HasParent(g, D, x);
        var u :| 0 <= u < |g| && x in g[u] && D[u] >= 0 && D[u] + 1 == D[x];
        assert D'[u] == D[u];
      }
    }
  }

  lemma ExpandedAppend(g: Graph, D: seq<int>, order: seq<int>, k: int, w: int, val: int)
    requires WellFormed(g) && |D| == |g| && NodesIn(order, |g|) && Expanded(g, D, order, k)
    requires 0 <= w < |g| && D[w] == -1 && forall i :: 0 <= i < |order| ==> order[i] != w
    ensures NodesIn(order + [w], |g|) && Expanded(g, D[w := val], order + [w], k)
  {
    var D', order' := D[w := val], order + [w];
    forall i, l | 0 <= i < k && 0 <= l < |g[order'[i]]|
      ensures 0 <= D'[g[order'[i]][l]] <= D'[order'[i]] + 1
    {
      assert order'[i] == order[i];
      assert D[g[order[i]][l]] >= 0;
    }
  }

  /** Labelling an unlabelled neighbour w of v one level beyond v keeps the search state... */
  lemma LabelQueued(g: Graph, s: int, D: seq<int>, order: seq<int>, unseen: set<int>, head: int, v: int, j: int,
                    D': seq<int>, order': seq<int>, unseen': set<int>)
    requires WellFormed(g) && Queued(g, s, D, order, unseen) && Front(g, D, order, head, v, j) && j < |g[v]|
    requires D[g[v][j]] == -1
    requires D' == D[g[v][j] := D[v] + 1] && order' == order + [g[v][j]] && unseen' == unseen - {g[v][j]}
    ensures Queued(g, s, D', order', unseen') && |unseen'| == |unseen| - 1
    ensures forall k :: 0 <= k < |order| ==> order[k] != g[v][j]
  {
    var w := g[v][j];
    ListedAppend(D, order, unseen, w, D[v] + 1);
    LevelsAppend(D, order, head - 1, w);
    EnteredStep(g, s, D, v, w);
  }

  /** ... and the scan of v's neighbours moves on by one. */
  lemma LabelFront(g: Graph, D: seq<int>, order: seq<int>, head: int, v: int, j: int, D': seq<int>, order': seq<int>)
    requires WellFormed(g) && |D| == |g| && NodesIn(order, |g|) && Front(g, D, order, head, v, j) && j < |g[v]|
    requires D[g[v][j]] == -1 && D[v] >= 0 && forall k :: 0 <= k < |order| ==> order[k] != g[v][j]
    requires D' == D[g[v][j] := D[v] + 1] && order' == order + [g[v][j]]
    ensures NodesIn(order', |g|) && Front(g, D', order', head, v, j + 1)
  {
    var w := g[v][j];
    ExpandedAppend(g, D, order, head - 1, w, D[v] + 1);
    NearStep(g, D, v, j);
  }

  lemma NearStep(g: Graph, D: seq<int>, v: int, j: int)
    requires WellFormed(g) && |D| == |g| && 0 <= v < |g| && 0 <= j < |g[v]| && D[v] >= 0
    requires (forall i :: 0 <= i < j ==> 0 <= D[g[v][i]] <= D[v] + 1) && D[g[v][j]] == -1
    ensures var D' := D[g[v][j] := D[v] + 1];
      D'[v] == D[v] && forall i :: 0 <= i < j + 1 ==> 0 <= D'[g[v][i]] <= D'[v] + 1
  {
    var D' := D[g[v][j] := D[v] + 1];
    forall i | 0 <= i < j + 1
      ensures 0 <= D'[g[v][i]] <= D'[v] + 1
    {
      if i < j {
        assert D[g[v][i]] >= 0;
      }
    }
  }

  /** A neighbour that already has a label lies at most one level beyond v. */
  lemma SkipStep(g: Graph, s: int, D: seq<int>, order: seq<int>, unseen: set<int>, head: int, v: int, j: int)
    requires WellFormed(g) && Queued(g, s, D, order, unseen) && Front(g, D, order, head, v, j) && j < |g[v]|
    requires D[g[v][j]] != -1
    ensures Front(g, D, order, head, v, j + 1)
  {
    var w := g[v][j];
    assert w in order;
    var k :| 0 <= k < |order| && order[k] == w;
    assert D[order[k]] <= D[order[|order| - 1]];
  }

  lemma ScannedStep(g: Graph, s: int, D: seq<int>, order: seq<int>, unseen: set<int>, head: int, v: int)
    requires WellFormed(g) && 0 <= v < |g| && Queued(g, s, D, order, unseen) && Front(g, D, order, head, v, |g[v]|)
    ensures Expanded(g, D, order, head)
    ensures head < |order| ==> D[order[|order| - 1]] <= D[order[head]] + 1
  {
    if head < |order| {
      assert D[order[head - 1]] <= D[order[head]];
    }
  }

  /** Once every enqueued node is expanded, D is a breadth-first labelling with levels below n. */
  lemma FinalState(g: Graph, s: int, D: seq<int>, order: seq<int>, unseen: set<int>)
    requires WellFormed(g) && Queued(g, s, D, order, unseen) && Expanded(g, D, order, |order|)
    ensures BfsLabels(g, s, D)
    ensures forall x :: 0 <= x < |g| ==> D[x] < |g|
  {
    forall x, j | 0 <= x < |g| && D[x] >= 0 && 0 <= j < |g[x]|
      ensures 0 <= D[g[x][j]] <= D[x] + 1
    {
      var k :| 0 <= k < |order| && order[k] == x;
    }
    forall x | 0 <= x < |g| && D[x] >= 0
      ensures D[x] < |g|
    {
      var k :| 0 <= k < |order| && order[k] == x;
    }
  }

  /** `dist[w] = val`, kept apart so that the callers see the new contents as one update. */
  method SetLabel(dist: array<int>, w: int, val: int)
    requires 0 <= w < dist.Length
    modifies dist
    ensures dist[..] == old(dist[..])[w := val]
  {
    dist[w] := val;
  }

  lemma SliceSnoc(s: seq<int>, i: int, x: int)
    requires 0 <= i <= |s|
    ensures (s + [x])[i..] == s[i..] + [x]
  {
  }

  lemma SliceTail(s: seq<int>, i: int)
    requires 0 <= i < |s|
    ensures s[i..][0] == s[i] && s[i..][1..] == s[i + 1..]
  {
  }

  // ---------------------------------------------------------------------------
  // Reachability
  // ---------------------------------------------------------------------------

  /** Walks a -> b and b -> c join into a walk a -> c. */
  lemma PathJoin(g: Graph, a: int, b: int, c: int, p: seq<int>, q: seq<int>)
    requires PathFrom(g, a, b, p) && PathFrom(g, b, c, q)
    ensures PathFrom(g, a, c, p + q[1..])
  {
    var r := p + q[1..];
    forall k | 0 <= k < |r| - 1
      ensures r[k + 1] in g[r[k]]
    {
      if k < |p| - 1 {
        assert r[k] == p[k] && r[k + 1] == p[k + 1];
      } else {
        var m := k - (|p| - 1);
        assert r[k] == q[m] && r[k + 1] == q[m + 1];
      }
    }
  }

  lemma ReachTrans(g: Graph, a: int, b: int, c: int)
    requires Reachable(g, a, b) && Reachable(g, b, c)
    ensures Reachable(g, a, c)
  {
    var p :| PathFrom(g, a, b, p);
    var q :| PathFrom(g, b, c, q);
    PathJoin(g, a, b, c, p, q);
  }

  /** Every node reaches itself by the one-node walk. */
  lemma ReachSelf(g: Graph, a: int)
    requires 0 <= a < |g|
    ensures Reachable(g, a, a)
  {
    assert PathFrom(g, a, a, [a]);
  }

  lemma ReachStep(g: Graph, a: int, u: int, v: int)
    requires Reachable(g, a, u) && 0 <= v < |g| && v in g[u]
    ensures Reachable(g, a, v)
  {
    var p :| PathFrom(g, a, u, p);
    PathSnoc(g, a, u, v, p);
  }
}
