/** The per-source pass of Brandes' betweenness algorithm, shared by the chapter 23 metric
    and the glossary's centrality: a breadth-first search that also counts shortest walks
    (sigma) and records each node's shortest-path predecessors, followed by the
    dependency accumulation that pops the visited nodes in reverse order. Path counts,
    which the source keeps in doubles, are `nat`; dependencies are `real`. */
module Brandes {

  import SetFacts
  import opened GraphSearch

  // ---------------------------------------------------------------------------
  // Counting shortest walks
  // ---------------------------------------------------------------------------

  /** The sum of S over the entries of ps, one term per entry (entries outside S count 0). */
  function SumOver(S: seq<nat>, ps: seq<int>): nat {
    if |ps| == 0 then 0
    else SumOver(S, ps[..|ps| - 1]) + (var p := ps[|ps| - 1]; if 0 <= p < |S| then S[p] else 0)
  }

  /** Reached nodes, and only they, have a positive walk count. */
  ghost predicate Counted(D: seq<int>, S: seq<nat>) {
    |S| == |D| && forall x :: 0 <= x < |D| ==> (S[x] >= 1 <==> D[x] >= 0)
  }

  /** Every recorded predecessor p of x is a reached node with an edge p -> x one level
      below x. */
  ghost predicate PredsSound(g: Graph, D: seq<int>, P: seq<seq<int>>)
    requires |D| == |g|
  {
    |P| == |g|
    && forall x, i :: 0 <= x < |g| && 0 <= i < |P[x]| ==>
         0 <= P[x][i] < |g| && x in g[P[x][i]] && D[P[x][i]] >= 0 && D[P[x][i]] + 1 == D[x]
  }

  /** sigma[s] = 1, and every other node's count is the sum of its predecessors' counts. */
  ghost predicate SigmaSum(s: int, S: seq<nat>, P: seq<seq<int>>) {
    |P| == |S| && 0 <= s < |S| && S[s] == 1
    && forall x :: 0 <= x < |S| && x != s ==> S[x] == SumOver(S, P[x])
  }

  /** The entries of a sequence are pairwise distinct. */
  ghost predicate Distinct(order: seq<int>) {
    forall k, l :: 0 <= k < l < |order| ==> order[k] != order[l]
  }

  lemma SumOverSkip(S: seq<nat>, ps: seq<int>, w: int, val: nat)
    requires 0 <= w < |S| && w !in ps
    ensures SumOver(S[w := val], ps) == SumOver(S, ps)
  {
    if |ps| > 0 {
      SumOverSkip(S, ps[..|ps| - 1], w, val);
    }
  }

  /** Labelling a node that had no label keeps the recorded predecessors sound. */
  lemma RelabelKeeps(g: Graph, D: seq<int>, P: seq<seq<int>>, w: int, val: int)
    requires |D| == |g| && PredsSound(g, D, P) && 0 <= w < |g| && D[w] == -1
    ensures PredsSound(g, D[w := val], P)
  {
    var D' := D[w := val];
    forall x, i | 0 <= x < |g| && 0 <= i < |P[x]|
      ensures D'[P[x][i]] >= 0 && D'[P[x][i]] + 1 == D'[x]
    {
      assert D[P[x][i]] >= 0;
    }
  }

  /** No recorded predecessor of any node lies beyond level D[v] while v is scanned. */
  lemma PredsBelow(g: Graph, D: seq<int>, P: seq<seq<int>>, v: int, w: int, x: int)
    requires |D| == |g| && PredsSound(g, D, P) && 0 <= v < |g| && 0 <= w < |g| && 0 <= x < |g|
    requires D[w] == D[v] + 1 && D[x] <= D[v] + 1
    ensures w !in P[x]
  {
    forall i | 0 <= i < |P[x]|
      ensures P[x][i] != w
    {
      assert D[P[x][i]] + 1 == D[x];
    }
  }

  /** Recording v as a predecessor of w one level beyond it, and adding v's count to w's,
      keeps the counts and the predecessor lists consistent. D is the labelling after w
      is labelled, S0 the counts before; only w's count may still disagree with D. */
  lemma SigmaAdd(g: Graph, s: int, D: seq<int>, S0: seq<nat>, P0: seq<seq<int>>, v: int, w: int,
                 S: seq<nat>, P: seq<seq<int>>)
    requires |D| == |g| && |S0| == |g| && PredsSound(g, D, P0) && SigmaSum(s, S0, P0) && D[s] == 0
    requires forall x :: 0 <= x < |g| && x != w ==> (S0[x] >= 1 <==> D[x] >= 0)
    requires 0 <= v < |g| && 0 <= w < |g| && w in g[v] && D[v] >= 0 && D[w] == D[v] + 1 && S0[v] >= 1
    requires forall x :: 0 <= x < |g| ==> D[x] <= D[v] + 1
    requires S == S0[w := S0[w] + S0[v]] && P == P0[w := P0[w] + [v]]
    ensures Counted(D, S) && PredsSound(g, D, P) && SigmaSum(s, S, P)
  {
    SigmaAddSum(g, s, D, S0, P0, v, w, S, P);
  }

  lemma SigmaAddSum(g: Graph, s: int, D: seq<int>, S0: seq<nat>, P0: seq<seq<int>>, v: int, w: int,
                    S: seq<nat>, P: seq<seq<int>>)
    requires |D| == |g| && |S0| == |g| && PredsSound(g, D, P0) && SigmaSum(s, S0, P0) && D[s] == 0
    requires 0 <= v < |g| && 0 <= w < |g| && D[v] >= 0 && D[w] == D[v] + 1
    requires forall x :: 0 <= x < |g| ==> D[x] <= D[v] + 1
    requires S == S0[w := S0[w] + S0[v]] && P == P0[w := P0[w] + [v]]
    ensures SigmaSum(s, S, P)
  {
    forall x | 0 <= x < |g| && x != s
      ensures S[x] == SumOver(S, P[x])
    {
      PredsBelow(g, D, P0, v, w, x);
      SigmaAddAt(s, S0, P0, v, w, x, S, P);
    }
  }

  /** SigmaAddSum at one node x, given that w is not among x's old predecessors. */
  lemma SigmaAddAt(s: int, S0: seq<nat>, P0: seq<seq<int>>, v: int, w: int, x: int, S: seq<nat>, P: seq<seq<int>>)
    requires |P0| == |S0| && SigmaSum(s, S0, P0) && 0 <= v < |S0| && 0 <= w < |S0| && 0 <= x < |S0| && x != s
    requires w !in P0[x] && v != w
    requires S == S0[w := S0[w] + S0[v]] && P == P0[w := P0[w] + [v]]
    ensures S[x] == SumOver(S, P[x])
  {
    SumOverSkip(S0, P0[x], w, S0[w] + S0[v]);
    if x == w {
      assert P[w][..|P[w]| - 1] == P0[w];
    }
  }

  lemma DistinctAppend(order: seq<int>, w: int)
    requires Distinct(order) && forall k :: 0 <= k < |order| ==> order[k] != w
    ensures Distinct(order + [w])
  {
  }

  /** During the scan of v, no label exceeds v's by more than one. */
  lemma Window(g: Graph, s: int, D: seq<int>, order: seq<int>, unseen: set<int>, head: int, v: int, j: int)
    requires WellFormed(g) && Queued(g, s, D, order, unseen) && Front(g, D, order, head, v, j)
    ensures forall x :: 0 <= x < |g| ==> D[x] <= D[v] + 1
  {
    forall x | 0 <= x < |g| && D[x] >= 0
      ensures D[x] <= D[v] + 1
    {
      var k :| 0 <= k < |order| && order[k] == x;
      assert D[order[k]] <= D[order[|order| - 1]];
    }
  }

  /** The counts and predecessor lists agree with the labels (an invariant of the pass). */
  ghost predicate PassState(g: Graph, s: int, D: seq<int>, S: seq<nat>, P: seq<seq<int>>)
    requires |D| == |g|
  {
    Counted(D, S) && PredsSound(g, D, P) && SigmaSum(s, S, P)
  }

  /** The stack left by the pass: every reached node once, in non-decreasing level order. */
  ghost predicate Stacked(D: seq<int>, stack: seq<int>) {
    NodesIn(stack, |D|) && Distinct(stack)
    && (forall x :: 0 <= x < |D| ==> (x in stack <==> D[x] >= 0))
    && forall k, l :: 0 <= k <= l < |stack| ==> D[stack[k]] <= D[stack[l]]
  }

  /** How many entries x of u's adjacency list the pass has scanned: all of them once u is
      in `done`, the first j while u is the node v under scan, none before. */
  ghost function Scanned(g: Graph, done: seq<int>, v: int, j: int, u: int, x: int): nat
    requires 0 <= u < |g|
  {
    if u in done then multiset(g[u])[x]
    else if u == v && 0 <= j <= |g[u]| then multiset(g[u][..j])[x]
    else 0
  }

  /** Each scanned adjacency entry u -> x with x one level beyond u has put one u into
      P[x], and nothing else is recorded (an invariant of the pass). */
  ghost predicate PredsSoFar(g: Graph, D: seq<int>, P: seq<seq<int>>, done: seq<int>, v: int, j: int)
    requires |D| == |g|
  {
    |P| == |g|
    && forall x, u :: 0 <= x < |g| && 0 <= u < |g| ==>
         multiset(P[x])[u] == (if D[u] >= 0 && D[u] + 1 == D[x] then Scanned(g, done, v, j, u, x) else 0)
  }

  /** The predecessor lists are complete: u occurs in P[x] once per entry x of u's
      adjacency list when u lies one level below x, and never otherwise. */
  ghost predicate PredsExact(g: Graph, D: seq<int>, P: seq<seq<int>>)
    requires |D| == |g|
  {
    |P| == |g|
    && forall x, u :: 0 <= x < |g| && 0 <= u < |g| ==>
         multiset(P[x])[u] == (if D[u] >= 0 && D[u] + 1 == D[x] then multiset(g[u])[x] else 0)
  }

  /** What one source's pass leaves behind: breadth-first levels, shortest-walk counts,
      sound and complete predecessor lists and the stack of reached nodes. */
  ghost predicate Passed(g: Graph, s: int, D: seq<int>, S: seq<nat>, P: seq<seq<int>>, stack: seq<int>)
    requires WellFormed(g)
  {
    BfsLabels(g, s, D) && PassState(g, s, D, S, P) && PredsExact(g, D, P) && Stacked(D, stack)
  }

  /** Before any scan, no list holds anything. */
  lemma SoFarStart(g: Graph, D: seq<int>, P: seq<seq<int>>)
    requires |D| == |g| && |P| == |g| && forall x :: 0 <= x < |g| ==> P[x] == []
    ensures PredsSoFar(g, D, P, [], -1, 0)
  {
  }

  /** Starting the scan of a node v not scanned before changes nothing. */
  lemma SoFarBegin(g: Graph, D: seq<int>, P: seq<seq<int>>, done: seq<int>, v: int)
    requires |D| == |g| && PredsSoFar(g, D, P, done, -1, 0) && 0 <= v < |g| && v !in done
    ensures PredsSoFar(g, D, P, done, v, 0)
  {
    assert g[v][..0] == [];
  }

  /** Once all of v's list is scanned, v joins the scanned nodes. */
  lemma SoFarEnd(g: Graph, D: seq<int>, P: seq<seq<int>>, done: seq<int>, v: int)
    requires |D| == |g| && 0 <= v < |g| && PredsSoFar(g, D, P, done, v, |g[v]|)
    ensures PredsSoFar(g, D, P, done + [v], -1, 0)
  {
    assert g[v][..|g[v]|] == g[v];
  }

  /** When every reached node has been scanned, the lists are complete. */
  lemma SoFarExact(g: Graph, D: seq<int>, P: seq<seq<int>>, done: seq<int>)
    requires |D| == |g| && PredsSoFar(g, D, P, done, -1, 0)
    requires forall u :: 0 <= u < |g| && D[u] >= 0 ==> u in done
    ensures PredsExact(g, D, P)
  {
  }

  /** Labelling a node w that no scanned entry names keeps the invariant: w has no
      predecessor yet, and w is nobody's predecessor yet. */
  lemma SoFarLabel(g: Graph, D: seq<int>, P: seq<seq<int>>, done: seq<int>, v: int, j: int, w: int, val: int)
    requires |D| == |g| && PredsSoFar(g, D, P, done, v, j) && 0 <= w < |g| && D[w] == -1 && val >= 0
    requires w !in done && w != v && (0 <= v < |g| && 0 <= j <= |g[v]| ==> w !in g[v][..j])
    requires forall u :: 0 <= u < |g| && u in done ==> w !in g[u]
    ensures PredsSoFar(g, D[w := val], P, done, v, j)
  {
    var D' := D[w := val];
    forall x, u | 0 <= x < |g| && 0 <= u < |g|
      ensures multiset(P[x])[u] == (if D'[u] >= 0 && D'[u] + 1 == D'[x] then Scanned(g, done, v, j, u, x) else 0)
    {
      if x == w {
        assert multiset(P[x])[u] == 0;
      } else if u == w {
        assert Scanned(g, done, v, j, u, x) == 0;
      }
    }
  }

  /** Scanning entry j of v's list, w, records v once in P[w] exactly when w lies one
      level beyond v. */
  lemma SoFarScan(g: Graph, D: seq<int>, P0: seq<seq<int>>, P: seq<seq<int>>, done: seq<int>, v: int, j: int)
    requires |D| == |g| && 0 <= v < |g| && 0 <= j < |g[v]| && v !in done && 0 <= g[v][j] < |g|
    requires PredsSoFar(g, D, P0, done, v, j)
    requires var w := g[v][j];
      if D[v] >= 0 && D[w] == D[v] + 1 then P == P0[w := P0[w] + [v]] else P == P0
    ensures PredsSoFar(g, D, P, done, v, j + 1)
  {
    var w := g[v][j];
    assert g[v][..j + 1] == g[v][..j] + [w];
    forall x, u | 0 <= x < |g| && 0 <= u < |g|
      ensures multiset(P[x])[u] == (if D[u] >= 0 && D[u] + 1 == D[x] then Scanned(g, done, v, j + 1, u, x) else 0)
    {
      if x == w && D[v] >= 0 && D[w] == D[v] + 1 {
        assert multiset(P[x]) == multiset(P0[x]) + multiset{v};
      }
    }
  }

  /** `sigma[w] += sigma[v]; predecessors[w].Add(v)`. */
  method AddPath(sigma: array<nat>, preds: array<seq<int>>, ghost S0: seq<nat>, ghost P0: seq<seq<int>>, v: int, w: int)
    requires 0 <= v < sigma.Length && 0 <= w < sigma.Length && preds.Length == sigma.Length
    requires sigma[..] == S0 && preds[..] == P0
    modifies sigma, preds
    ensures sigma[..] == S0[w := S0[w] + S0[v]] && preds[..] == P0[w := P0[w] + [v]]
  {
    sigma[w] := sigma[w] + sigma[v];
    preds[w] := preds[w] + [v];
  }

  /** Adding v's count to w's, with w one level beyond v, keeps the pass state; D0 is the
      labelling before the visit (w unlabelled in it, or already as now), D the labelling
      after, S0 and P0 the counts and lists before. */
  lemma PassAdd(g: Graph, s: int, D0: seq<int>, S0: seq<nat>, P0: seq<seq<int>>, D: seq<int>, v: int, w: int,
                S: seq<nat>, P: seq<seq<int>>)
    requires |D0| == |g| && PassState(g, s, D0, S0, P0) && D0[s] == 0
    requires 0 <= v < |g| && 0 <= w < |g| && w in g[v] && D0[v] >= 0
    requires (D0[w] == -1 && D == D0[w := D0[v] + 1]) || (D0[w] == D0[v] + 1 && D == D0)
    requires forall x :: 0 <= x < |g| ==> D[x] <= D[v] + 1
    requires S == S0[w := S0[w] + S0[v]] && P == P0[w := P0[w] + [v]]
    ensures PassState(g, s, D, S, P)
  {
    if D0[w] == -1 {
      RelabelKeeps(g, D0, P0, w, D0[v] + 1);
    }
    assert forall x :: 0 <= x < |g| && x != w ==> D[x] == D0[x];
    SigmaAdd(g, s, D, S0, P0, v, w, S, P);
  }

  /** The labelling half of a visit: an unlabelled w gets label dist[v] + 1 and is enqueued. */
  method LabelNew(g: Graph, s: int, dist: array<int>, ghost D0: seq<int>, q: seq<int>, ghost order: seq<int>,
                  ghost unseen: set<int>, ghost head: int, v: int, j: int)
    returns (q': seq<int>, ghost order': seq<int>, ghost unseen': set<int>)
    requires WellFormed(g) && dist.Length == |g| && 1 <= head <= |order| && q == order[head..] && D0 == dist[..]
    requires Queued(g, s, D0, order, unseen) && Front(g, D0, order, head, v, j) && j < |g[v]|
    requires Distinct(order)
    modifies dist
    ensures head <= |order'| && q' == order'[head..] && |unseen'| + |q'| == |unseen| + |q|
    ensures Queued(g, s, dist[..], order', unseen') && Front(g, dist[..], order', head, v, j + 1) && Distinct(order')
    ensures order <= order'
    ensures var w := g[v][j]; D0[w] == -1 ==> dist[..] == D0[w := D0[v] + 1]
    ensures var w := g[v][j]; D0[w] != -1 ==> dist[..] == D0
    ensures var w := g[v][j]; dist[w] != dist[v] + 1 ==> dist[..] == D0
  {
    q', order', unseen' := q, order, unseen;
    var w := g[v][j];
    if dist[w] < 0 {
      SetLabel(dist, w, dist[v] + 1);
      SliceSnoc(order', head, w);
      q' := q' + [w];
      order' := order' + [w];
      unseen' := unseen' - {w};
      LabelQueued(g, s, D0, order, unseen, head, v, j, dist[..], order', unseen');
      LabelFront(g, D0, order, head, v, j, dist[..], order');
      DistinctAppend(order, w);
    } else {
      SkipStep(g, s, dist[..], order', unseen', head, v, j);
    }
  }

  /** An unlabelled node is neither scanned nor named by any scanned entry. */
  lemma UnlabelledFresh(g: Graph, s: int, D: seq<int>, order: seq<int>, unseen: set<int>, head: int, v: int, j: int,
                        done: seq<int>, w: int)
    requires WellFormed(g) && Queued(g, s, D, order, unseen) && Front(g, D, order, head, v, j)
    requires done == order[..head - 1] && 0 <= w < |g| && D[w] == -1
    ensures w !in done && w != v && w !in g[v][..j]
    ensures forall u :: 0 <= u < |g| && u in done ==> w !in g[u]
  {
    forall i | 0 <= i < j
      ensures g[v][i] != w
    {
      assert 0 <= D[g[v][i]];
    }
    forall u, i | 0 <= u < |g| && u in done && 0 <= i < |g[u]|
      ensures g[u][i] != w
    {
      var k :| 0 <= k < head - 1 && order[k] == u;
      assert 0 <= D[g[order[k]][i]];
    }
  }

  /** The visit of entry j of v's list keeps the predecessor invariant: D0 and P0 are the
      labels and lists before it, D and P after. */
  lemma SoFarVisit(g: Graph, s: int, D0: seq<int>, P0: seq<seq<int>>, order: seq<int>, unseen: set<int>, head: int,
                   v: int, j: int, done: seq<int>, D: seq<int>, P: seq<seq<int>>)
    requires WellFormed(g) && Queued(g, s, D0, order, unseen) && Front(g, D0, order, head, v, j) && j < |g[v]|
    requires Distinct(order) && done == order[..head - 1] && PredsSoFar(g, D0, P0, done, v, j)
    requires var w := g[v][j]; if D0[w] == -1 then D == D0[w := D0[v] + 1] else D == D0
    requires var w := g[v][j]; if D[w] == D[v] + 1 then P == P0[w := P0[w] + [v]] else P == P0
    ensures |D| == |g| && PredsSoFar(g, D, P, done, v, j + 1)
  {
    var w := g[v][j];
    DequeuedFresh(order, head - 1);
    if D0[w] == -1 {
      UnlabelledFresh(g, s, D0, order, unseen, head, v, j, done, w);
      SoFarLabel(g, D0, P0, done, v, j, w, D0[v] + 1);
    }
    SoFarScan(g, D, P0, P, done, v, j);
  }

  /** The node at the head of the queue has not been dequeued before. */
  lemma DequeuedFresh(order: seq<int>, head: int)
    requires Distinct(order) && 0 <= head < |order|
    ensures order[head] !in order[..head]
  {
  }

  /** One entry w of v's adjacency list: label w if it has no label yet; then, if w lies
      one level beyond v, add v's walk count to w's and record v as a predecessor of w. */
  method Visit(g: Graph, s: int, dist: array<int>, sigma: array<nat>, preds: array<seq<int>>,
               q: seq<int>, ghost order: seq<int>, ghost unseen: set<int>, ghost head: int, ghost done: seq<int>,
               v: int, j: int)
    returns (q': seq<int>, ghost order': seq<int>, ghost unseen': set<int>)
    requires WellFormed(g) && dist.Length == |g| && sigma.Length == |g| && preds.Length == |g|
    requires 1 <= head <= |order| && q == order[head..] && done == order[..head - 1]
    requires Queued(g, s, dist[..], order, unseen) && Front(g, dist[..], order, head, v, j) && j < |g[v]|
    requires Distinct(order) && PassState(g, s, dist[..], sigma[..], preds[..])
    requires PredsSoFar(g, dist[..], preds[..], done, v, j)
    modifies dist, sigma, preds
    ensures head <= |order'| && q' == order'[head..] && |unseen'| + |q'| == |unseen| + |q|
    ensures Queued(g, s, dist[..], order', unseen') && Front(g, dist[..], order', head, v, j + 1)
    ensures Distinct(order') && PassState(g, s, dist[..], sigma[..], preds[..]) && order <= order'
    ensures PredsSoFar(g, dist[..], preds[..], done, v, j + 1)
  {
    var w := g[v][j];
    ghost var D0, S0, P0 := dist[..], sigma[..], preds[..];
    q', order', unseen' := LabelNew(g, s, dist, D0, q, order, unseen, head, v, j);
    if dist[w] == dist[v] + 1 {
      Window(g, s, dist[..], order', unseen', head, v, j + 1);
      AddPath(sigma, preds, S0, P0, v, w);
      PassAdd(g, s, D0, S0, P0, dist[..], v, w, sigma[..], preds[..]);
    }
    SoFarVisit(g, s, D0, P0, order, unseen, head, v, j, done, dist[..], preds[..]);
  }

  /** The `foreach (var w in adjacency[v])` loop of the pass. */
  method ScanPass(g: Graph, s: int, dist: array<int>, sigma: array<nat>, preds: array<seq<int>>,
                  q: seq<int>, ghost order: seq<int>, ghost unseen: set<int>, ghost head: int, ghost done: seq<int>,
                  v: int)
    returns (q': seq<int>, ghost order': seq<int>, ghost unseen': set<int>)
    requires WellFormed(g) && dist.Length == |g| && sigma.Length == |g| && preds.Length == |g|
    requires 1 <= head <= |order| && q == order[head..] && done == order[..head - 1]
    requires Queued(g, s, dist[..], order, unseen) && Front(g, dist[..], order, head, v, 0)
    requires Distinct(order) && PassState(g, s, dist[..], sigma[..], preds[..])
    requires PredsSoFar(g, dist[..], preds[..], done, v, 0)
    modifies dist, sigma, preds
    ensures head <= |order'| && q' == order'[head..] && |unseen'| + |q'| == |unseen| + |q|
    ensures Queued(g, s, dist[..], order', unseen') && Front(g, dist[..], order', head, v, |g[v]|)
    ensures Distinct(order') && PassState(g, s, dist[..], sigma[..], preds[..]) && order <= order'
    ensures PredsSoFar(g, dist[..], preds[..], done, v, |g[v]|)
  {
    q', order', unseen' := q, order, unseen;
    for j := 0 to |g[v]|
      invariant 1 <= head <= |order'| && q' == order'[head..] && |unseen'| + |q'| == |unseen| + |q|
      invariant Queued(g, s, dist[..], order', unseen') && Front(g, dist[..], order', head, v, j)
      invariant Distinct(order') && PassState(g, s, dist[..], sigma[..], preds[..]) && order <= order'
      invariant done == order'[..head - 1] && PredsSoFar(g, dist[..], preds[..], done, v, j)
    {
      q', order', unseen' := Visit(g, s, dist, sigma, preds, q', order', unseen', head, done, v, j);
    }
  }

  /** The initial state of a pass from s: every label -1 but dist[s] = 0, every count 0 but
      sigma[s] = 1, every predecessor list empty. */
  method PassStart(n: nat, s: int) returns (dist: array<int>, sigma: array<nat>, preds: array<seq<int>>)
    requires 0 <= s < n
    ensures fresh(dist) && fresh(sigma) && fresh(preds) && dist.Length == n && sigma.Length == n && preds.Length == n
    ensures dist[s] == 0 && sigma[s] == 1
    ensures forall x :: 0 <= x < n && x != s ==> dist[x] == -1 && sigma[x] == 0
    ensures forall x :: 0 <= x < n ==> preds[x] == []
  {
    dist, sigma, preds := new int[n], new nat[n], new seq<int>[n];
    for i := 0 to n
      invariant forall x :: 0 <= x < i ==> dist[x] == -1 && sigma[x] == 0 && preds[x] == []
    {
      preds[i] := [];
      sigma[i] := 0;
      dist[i] := -1;
    }
    sigma[s] := 1;
    dist[s] := 0;
  }

  lemma PassStartState(g: Graph, s: int, D: seq<int>, S: seq<nat>, P: seq<seq<int>>)
    requires 0 <= s < |g| && |D| == |g| && |S| == |g| && |P| == |g| && D[s] == 0 && S[s] == 1
    requires forall x :: 0 <= x < |g| && x != s ==> D[x] == -1 && S[x] == 0
    requires forall x :: 0 <= x < |g| ==> P[x] == []
    ensures PassState(g, s, D, S, P)
  {
  }

  /** Once the queue is empty, the stack holds every reached node once, by level. */
  lemma PassFinal(g: Graph, s: int, D: seq<int>, order: seq<int>, unseen: set<int>)
    requires WellFormed(g) && Queued(g, s, D, order, unseen) && Distinct(order)
    ensures Stacked(D, order)
  {
    forall x | 0 <= x < |D| && x in order
      ensures D[x] >= 0
    {
      var k :| 0 <= k < |order| && order[k] == x;
    }
  }

  lemma PrefixSlice(a: seq<int>, b: seq<int>, h: int)
    requires a <= b && 0 <= h <= |a|
    ensures b[..h] == a[..h]
  {
  }

  /** One round of the queue loop: dequeue v, push it on the stack, scan its neighbours. */
  method PassRound(g: Graph, s: int, dist: array<int>, sigma: array<nat>, preds: array<seq<int>>,
                   q: seq<int>, stack: seq<int>, ghost order: seq<int>, ghost unseen: set<int>, ghost head: int)
    returns (q': seq<int>, stack': seq<int>, ghost order': seq<int>, ghost unseen': set<int>, ghost head': int)
    requires WellFormed(g) && dist.Length == |g| && sigma.Length == |g| && preds.Length == |g|
    requires 0 <= head <= |order| && q == order[head..] && stack == order[..head] && |q| > 0
    requires Queued(g, s, dist[..], order, unseen) && Expanded(g, dist[..], order, head)
    requires dist[..][order[|order| - 1]] <= dist[..][order[head]] + 1
    requires Distinct(order) && PassState(g, s, dist[..], sigma[..], preds[..])
    requires PredsSoFar(g, dist[..], preds[..], stack, -1, 0)
    modifies dist, sigma, preds
    ensures 0 <= head' <= |order'| && q' == order'[head'..] && stack' == order'[..head']
    ensures PredsSoFar(g, dist[..], preds[..], stack', -1, 0)
    ensures Queued(g, s, dist[..], order', unseen') && Expanded(g, dist[..], order', head')
    ensures head' < |order'| ==> dist[..][order'[|order'| - 1]] <= dist[..][order'[head']] + 1
    ensures Distinct(order') && PassState(g, s, dist[..], sigma[..], preds[..])
    ensures |unseen'| + |q'| < |unseen| + |q|
  {
    DequeueStep(g, s, dist[..], order, unseen, head);
    SliceTail(order, head);
    var v := q[0];
    q' := q[1..];
    assert order[..head + 1] == order[..head] + [v];
    head' := head + 1;
    stack' := stack + [v];
    DequeuedFresh(order, head);
    SoFarBegin(g, dist[..], preds[..], stack, v);
    q', order', unseen' := ScanPass(g, s, dist, sigma, preds, q', order, unseen, head', stack, v);
    SoFarEnd(g, dist[..], preds[..], stack, v);
    PrefixSlice(order, order', head');
    ScannedStep(g, s, dist[..], order', unseen', head', v);
  }

  /** One source's breadth-first pass (the first half of the per-source body of both
      betweenness computations): the queue loop labels levels, counts shortest walks
      and records predecessors, and every dequeued node is pushed on the stack. */
  method SourcePass(n: nat, g: Graph, s: int) returns (dist: array<int>, sigma: array<nat>, preds: array<seq<int>>, stack: seq<int>)
    requires |g| == n && WellFormed(g) && 0 <= s < n
    ensures fresh(dist) && fresh(sigma) && fresh(preds) && dist.Length == n && sigma.Length == n && preds.Length == n
    ensures Passed(g, s, dist[..], sigma[..], preds[..], stack)
  {
    dist, sigma, preds := PassStart(n, s);
    PassStartState(g, s, dist[..], sigma[..], preds[..]);
    SoFarStart(g, dist[..], preds[..]);
    stack := [];
    var q := [s];
    ghost var order, head := [s], 0;
    ghost var unseen := SetFacts.Range(n) - {s};
    StartState(g, s, dist[..]);
    while |q| > 0
      invariant dist.Length == n && sigma.Length == n && preds.Length == n
      invariant 0 <= head <= |order| && q == order[head..] && stack == order[..head]
      invariant Queued(g, s, dist[..], order, unseen) && Expanded(g, dist[..], order, head)
      invariant head < |order| ==> dist[..][order[|order| - 1]] <= dist[..][order[head]] + 1
      invariant Distinct(order) && PassState(g, s, dist[..], sigma[..], preds[..])
      invariant PredsSoFar(g, dist[..], preds[..], stack, -1, 0)
      decreases |unseen| + |q|
    {
      q, stack, order, unseen, head := PassRound(g, s, dist, sigma, preds, q, stack, order, unseen, head);
    }
    FinalState(g, s, dist[..], order, unseen);
    assert stack == order;
    PassFinal(g, s, dist[..], order, unseen);
    SoFarExact(g, dist[..], preds[..], stack);
  }

  // ---------------------------------------------------------------------------
  // Dependency accumulation
  // ---------------------------------------------------------------------------

  /** v's share of w's dependency, sigma[v] / sigma[w] * (1 + delta[w]); 0 where it is
      undefined (sigma[w] = 0, or a node out of range). */
  function Share(S: seq<nat>, delta: seq<real>, v: int, w: int): real {
    if 0 <= v < |S| && 0 <= w < |S| && w < |delta| && S[w] != 0
    then (S[v] as real / S[w] as real) * (1.0 + delta[w])
    else 0.0
  }

  /** What w passes on to x through the predecessor list ps of w: one share per entry x. */
  function EntryCredit(S: seq<nat>, delta: seq<real>, x: int, w: int, ps: seq<int>): real {
    if |ps| == 0 then 0.0
    else EntryCredit(S, delta, x, w, ps[..|ps| - 1]) + (if ps[|ps| - 1] == x then Share(S, delta, x, w) else 0.0)
  }

  /** What the nodes ws pass on to x: x's Brandes dependency once ws is the whole stack. */
  function Credit(S: seq<nat>, P: seq<seq<int>>, delta: seq<real>, x: int, ws: seq<int>): real {
    if |ws| == 0 then 0.0
    else (if 0 <= ws[0] < |P| then EntryCredit(S, delta, x, ws[0], P[ws[0]]) else 0.0) + Credit(S, P, delta, x, ws[1..])
  }

  /** delta satisfies Brandes' dependency equation over the popped nodes ws:
      delta[x] = sum over popped w and each entry x of P[w] of sigma[x] / sigma[w] * (1 + delta[w]). */
  ghost predicate DeltaEq(S: seq<nat>, P: seq<seq<int>>, delta: seq<real>, ws: seq<int>) {
    |delta| == |S| && forall x :: 0 <= x < |S| ==> delta[x] == Credit(S, P, delta, x, ws)
  }

  lemma {:induction false} EntryCreditAbsent(S: seq<nat>, delta: seq<real>, x: int, w: int, ps: seq<int>)
    requires x !in ps
    ensures EntryCredit(S, delta, x, w, ps) == 0.0
  {
    if |ps| > 0 {
      EntryCreditAbsent(S, delta, x, w, ps[..|ps| - 1]);
    }
  }

  /** Shares from w depend on delta only at w. */
  lemma {:induction false} EntryCreditFrame(S: seq<nat>, delta: seq<real>, delta': seq<real>, x: int, w: int, ps: seq<int>)
    requires |delta| == |delta'| && (0 <= w < |delta| ==> delta[w] == delta'[w])
    ensures EntryCredit(S, delta, x, w, ps) == EntryCredit(S, delta', x, w, ps)
  {
    if |ps| > 0 {
      EntryCreditFrame(S, delta, delta', x, w, ps[..|ps| - 1]);
    }
  }

  lemma {:induction false} EntryCreditNonneg(S: seq<nat>, delta: seq<real>, x: int, w: int, ps: seq<int>)
    requires 0 <= w < |delta| ==> delta[w] >= 0.0
    ensures EntryCredit(S, delta, x, w, ps) >= 0.0
  {
    if |ps| > 0 {
      EntryCreditNonneg(S, delta, x, w, ps[..|ps| - 1]);
    }
  }

  /** Credits from ws depend on delta only at the nodes of ws. */
  lemma {:induction false} CreditFrame(S: seq<nat>, P: seq<seq<int>>, delta: seq<real>, delta': seq<real>, x: int, ws: seq<int>)
    requires |delta| == |delta'| && forall k :: 0 <= k < |ws| && 0 <= ws[k] < |delta| ==> delta[ws[k]] == delta'[ws[k]]
    ensures Credit(S, P, delta, x, ws) == Credit(S, P, delta', x, ws)
  {
    if |ws| > 0 {
      if 0 <= ws[0] < |P| {
        EntryCreditFrame(S, delta, delta', x, ws[0], P[ws[0]]);
      }
      assert forall k :: 0 <= k < |ws| - 1 ==> ws[1..][k] == ws[k + 1];
      CreditFrame(S, P, delta, delta', x, ws[1..]);
    }
  }

  /** Popping w = stack[k] and passing its shares to its predecessors extends the
      dependency equation from stack[k+1..] to stack[k..] and leaves every popped node's
      dependency as it was. */
  lemma PopStep(g: Graph, D: seq<int>, S: seq<nat>, P: seq<seq<int>>, stack: seq<int>, k: int,
                delta: seq<real>, delta': seq<real>)
    requires |D| == |g| && PredsSound(g, D, P) && Stacked(D, stack) && |S| == |g| && 0 <= k < |stack|
    requires DeltaEq(S, P, delta, stack[k + 1..]) && |delta'| == |g|
    requires forall x :: 0 <= x < |g| ==> delta'[x] == delta[x] + EntryCredit(S, delta, x, stack[k], P[stack[k]])
    ensures DeltaEq(S, P, delta', stack[k..])
    ensures forall l :: k <= l < |stack| ==> delta'[stack[l]] == delta[stack[l]]
  {
    var w := stack[k];
    forall l | k <= l < |stack|
      ensures delta'[stack[l]] == delta[stack[l]]
    {
      forall i | 0 <= i < |P[w]|
        ensures P[w][i] != stack[l]
      {
        assert D[P[w][i]] + 1 == D[w] <= D[stack[l]];
      }
      EntryCreditAbsent(S, delta, stack[l], w, P[w]);
    }
    forall x | 0 <= x < |g|
      ensures delta'[x] == Credit(S, P, delta', x, stack[k..])
    {
      EntryCreditFrame(S, delta, delta', x, w, P[w]);
      CreditFrame(S, P, delta, delta', x, stack[k + 1..]);
      assert stack[k..][1..] == stack[k + 1..];
    }
  }

  /** w = stack[k] may be popped: its count is positive (so the shares are defined) and
      none of its predecessors is w itself. */
  lemma PopReady(g: Graph, D: seq<int>, S: seq<nat>, P: seq<seq<int>>, stack: seq<int>, k: int)
    requires |D| == |g| && Counted(D, S) && PredsSound(g, D, P) && Stacked(D, stack) && 0 <= k < |stack|
    ensures S[stack[k]] >= 1
    ensures forall i :: 0 <= i < |P[stack[k]]| ==> 0 <= P[stack[k]][i] < |g| && P[stack[k]][i] != stack[k]
  {
    assert stack[k] in stack;
  }

  /** A completed pass from s with its dependencies: the labels, counts, predecessor
      lists and stack of `SourcePass`, and a delta solving the dependency equation. */
  ghost predicate Dependency(g: Graph, s: int, D: seq<int>, S: seq<nat>, P: seq<seq<int>>, stack: seq<int>, delta: seq<real>)
    requires WellFormed(g)
  {
    Passed(g, s, D, S, P, stack) && DeltaEq(S, P, delta, stack)
  }

  /** c is what the pass from s credits to x: x's dependency unless x is s itself or is
      not reached from s. */
  ghost predicate SourceCredit(g: Graph, s: int, x: int, c: real)
    requires WellFormed(g)
  {
    exists D, S, P, stack, delta :: Dependency(g, s, D, S, P, stack, delta)
      && c == (if x != s && 0 <= x < |g| && D[x] >= 0 then delta[x] else 0.0)
  }

  /** A completed pass with its dependencies witnesses the credit it gives x. */
  lemma CreditOfPass(g: Graph, s: int, x: int, D: seq<int>, S: seq<nat>, P: seq<seq<int>>, stack: seq<int>, delta: seq<real>)
    requires WellFormed(g) && Dependency(g, s, D, S, P, stack, delta)
    ensures SourceCredit(g, s, x, if x != s && 0 <= x < |g| && D[x] >= 0 then delta[x] else 0.0)
  {
  }

  /** x's dependency once x has been popped (and is not the source), else 0. */
  function NodeCredit(popped: seq<int>, s: int, x: int, delta: seq<real>): real {
    if x != s && x in popped && 0 <= x < |delta| then delta[x] else 0.0
  }

  /** The sum of a sequence of reals. */
  function SumReals(xs: seq<real>): real {
    if |xs| == 0 then 0.0 else SumReals(xs[..|xs| - 1]) + xs[|xs| - 1]
  }

  /** Popping stack[k] adds its dependency to the node's credit exactly when it is that
      node (and not the source); the dependencies of nodes popped earlier stay put. */
  lemma NodeCreditStep(stack: seq<int>, k: int, s: int, node: int, delta: seq<real>, delta': seq<real>)
    requires Distinct(stack) && 0 <= k < |stack| && |delta'| == |delta|
    requires forall l :: k <= l < |stack| ==> 0 <= stack[l] < |delta| && delta'[stack[l]] == delta[stack[l]]
    ensures NodeCredit(stack[k..], s, node, delta')
         == NodeCredit(stack[k + 1..], s, node, delta) + (if stack[k] != s && stack[k] == node then delta'[node] else 0.0)
  {
    assert stack[k..] == [stack[k]] + stack[k + 1..];
    if node in stack[k + 1..] {
      var l :| k + 1 <= l < |stack| && stack[l] == node;
      assert stack[k] != node;
    }
  }

  /** credits[s] is what the pass from source s credits to node x, for every source. */
  ghost predicate Credited(g: Graph, x: int, credits: seq<real>)
    requires WellFormed(g)
  {
    forall s :: 0 <= s < |credits| ==> SourceCredit(g, s, x, credits[s])
  }

  lemma CreditedSnoc(g: Graph, x: int, credits: seq<real>, c: real)
    requires WellFormed(g) && Credited(g, x, credits) && SourceCredit(g, |credits|, x, c)
    ensures Credited(g, x, credits + [c])
  {
    forall s | 0 <= s < |credits| + 1
      ensures SourceCredit(g, s, x, (credits + [c])[s])
    {
      if s < |credits| {
        assert (credits + [c])[s] == credits[s];
      }
    }
  }

  lemma {:induction false} CreditAbsent(S: seq<nat>, P: seq<seq<int>>, delta: seq<real>, x: int, ws: seq<int>)
    requires forall k :: 0 <= k < |ws| && 0 <= ws[k] < |P| ==> x !in P[ws[k]]
    ensures Credit(S, P, delta, x, ws) == 0.0
  {
    if |ws| > 0 {
      if 0 <= ws[0] < |P| {
        EntryCreditAbsent(S, delta, x, ws[0], P[ws[0]]);
      }
      assert forall k :: 0 <= k < |ws| - 1 ==> ws[1..][k] == ws[k + 1];
      CreditAbsent(S, P, delta, x, ws[1..]);
    }
  }

  /** A node without outgoing edges is nobody's predecessor, so no pass credits it. */
  lemma SinkNotCredited(g: Graph, s: int, x: int, c: real)
    requires WellFormed(g) && SourceCredit(g, s, x, c) && 0 <= x < |g| && g[x] == []
    ensures c == 0.0
  {
    var D, S, P, stack, delta :| Dependency(g, s, D, S, P, stack, delta)
      && c == (if x != s && 0 <= x < |g| && D[x] >= 0 then delta[x] else 0.0);
    forall k | 0 <= k < |stack| && 0 <= stack[k] < |P|
      ensures x !in P[stack[k]]
    {
      forall i | 0 <= i < |P[stack[k]]|
        ensures P[stack[k]][i] != x
      {
        assert stack[k] in g[P[stack[k]][i]];
      }
    }
    CreditAbsent(S, P, delta, x, stack);
  }

  /** A node without incoming edges is reached from no other source, so no pass credits it. */
  lemma UnenteredNotCredited(g: Graph, s: int, x: int, c: real)
    requires WellFormed(g) && SourceCredit(g, s, x, c) && 0 <= x < |g|
    requires forall y :: 0 <= y < |g| ==> x !in g[y]
    ensures c == 0.0
  {
    var D, S, P, stack, delta :| Dependency(g, s, D, S, P, stack, delta)
      && c == (if x != s && 0 <= x < |g| && D[x] >= 0 then delta[x] else 0.0);
    assert x != s && D[x] >= 0 ==> HasParent(g, D, x);
  }

  /** The sum of credits that are all 0. */
  lemma {:induction false} SumRealsZero(xs: seq<real>)
    requires forall k :: 0 <= k < |xs| ==> xs[k] == 0.0
    ensures SumReals(xs) == 0.0
  {
    if |xs| > 0 {
      SumRealsZero(xs[..|xs| - 1]);
    }
  }

  /** A node without outgoing edges, or without incoming edges, collects nothing. */
  lemma CreditedZero(g: Graph, x: int, credits: seq<real>)
    requires WellFormed(g) && Credited(g, x, credits) && 0 <= x < |g|
    requires g[x] == [] || forall y :: 0 <= y < |g| ==> x !in g[y]
    ensures SumReals(credits) == 0.0
  {
    forall k | 0 <= k < |credits|
      ensures credits[k] == 0.0
    {
      if g[x] == [] {
        SinkNotCredited(g, k, x, credits[k]);
      } else {
        UnenteredNotCredited(g, k, x, credits[k]);
      }
    }
    SumRealsZero(credits);
  }
}
