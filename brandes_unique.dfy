/** What a pass of Brandes' algorithm leaves behind is determined by the graph and the
    source: any two completed passes from s agree on the labels, on the walk counts, on
    the predecessor lists up to order, and on the dependency of every reached node. So
    the credit a source passes to a node is a single value, whatever order the
    adjacency lists and the stack put things in. */
module BrandesUnique {

  import opened GraphSearch
  import opened Brandes

  // ---------------------------------------------------------------------------
  // Labels and predecessor lists
  // ---------------------------------------------------------------------------

  /** Two breadth-first labellings from the same source are equal. */
  lemma LabelsUnique(g: Graph, s: int, D1: seq<int>, D2: seq<int>)
    requires WellFormed(g) && BfsLabels(g, s, D1) && BfsLabels(g, s, D2)
    ensures D1 == D2
  {
    forall v | 0 <= v < |g|
      ensures D1[v] == D2[v]
    {
      if D1[v] >= 0 {
        var p := PathOfLabel(g, s, D1, v);
        LabelBelowPath(g, s, D2, v, p);
      }
      if D2[v] >= 0 {
        var p := PathOfLabel(g, s, D2, v);
        LabelBelowPath(g, s, D1, v, p);
      }
    }
  }

  /** Complete and sound predecessor lists for the same labels hold the same entries,
      each as often. */
  lemma PredsUnique(g: Graph, D: seq<int>, P1: seq<seq<int>>, P2: seq<seq<int>>, x: int)
    requires |D| == |g| && PredsSound(g, D, P1) && PredsSound(g, D, P2)
    requires PredsExact(g, D, P1) && PredsExact(g, D, P2) && 0 <= x < |g|
    ensures multiset(P1[x]) == multiset(P2[x])
  {
    forall u
      ensures multiset(P1[x])[u] == multiset(P2[x])[u]
    {
      if !(0 <= u < |g|) {
        assert u !in P1[x] && u !in P2[x];
      }
    }
  }

  // ---------------------------------------------------------------------------
  // Walk counts
  // ---------------------------------------------------------------------------

  lemma {:induction false} SumOverAppend(S: seq<nat>, a: seq<int>, b: seq<int>)
    ensures SumOver(S, a + b) == SumOver(S, a) + SumOver(S, b)
    decreases |b|
  {
    if |b| == 0 {
      assert a + b == a;
    } else {
      assert (a + b)[..|a + b| - 1] == a + b[..|b| - 1];
      assert (a + b)[|a + b| - 1] == b[|b| - 1];
      SumOverAppend(S, a, b[..|b| - 1]);
    }
  }

  lemma Cancel(a: multiset<int>, b: multiset<int>, p: int)
    requires a + multiset{p} == b + multiset{p}
    ensures a == b
  {
    forall u
      ensures a[u] == b[u]
    {
      assert (a + multiset{p})[u] == (b + multiset{p})[u];
    }
  }

  /** SumOver depends on the entries only as a multiset, and on S only at the entries. */
  lemma {:induction false} SumOverPerm(S1: seq<nat>, S2: seq<nat>, ps: seq<int>, qs: seq<int>)
    requires |S1| == |S2| && multiset(ps) == multiset(qs)
    requires forall k :: 0 <= k < |ps| && 0 <= ps[k] < |S1| ==> S1[ps[k]] == S2[ps[k]]
    ensures SumOver(S1, ps) == SumOver(S2, qs)
    decreases |ps|
  {
    if |ps| == 0 {
      assert |qs| == |multiset(qs)| == 0;
    } else {
      var p := ps[|ps| - 1];
      var front := ps[..|ps| - 1];
      assert ps == front + [p];
      assert p in multiset(qs);
      var i :| 0 <= i < |qs| && qs[i] == p;
      var rest := qs[..i] + qs[i + 1..];
      assert qs == qs[..i] + [p] + qs[i + 1..];
      assert multiset(ps) == multiset(front) + multiset{p};
      assert multiset(qs) == multiset(qs[..i]) + multiset{p} + multiset(qs[i + 1..]);
      assert multiset(rest) == multiset(qs[..i]) + multiset(qs[i + 1..]);
      Cancel(multiset(front), multiset(rest), p);
      SumOverPerm(S1, S2, front, rest);
      SumOverAppend(S2, qs[..i] + [p], qs[i + 1..]);
      SumOverAppend(S2, qs[..i], [p]);
      SumOverAppend(S2, qs[..i], qs[i + 1..]);
    }
  }

  /** Two passes from s with the same labels and the same predecessor multisets have the
      same walk count at x. */
  lemma {:induction false} SigmaUnique(g: Graph, s: int, D: seq<int>, S1: seq<nat>, P1: seq<seq<int>>,
                                       S2: seq<nat>, P2: seq<seq<int>>, x: int)
    requires WellFormed(g) && BfsLabels(g, s, D) && PassState(g, s, D, S1, P1) && PassState(g, s, D, S2, P2)
    requires forall y :: 0 <= y < |g| ==> multiset(P1[y]) == multiset(P2[y])
    requires 0 <= x < |g|
    ensures S1[x] == S2[x]
    decreases if D[x] >= 0 then D[x] else 0
  {
    if D[x] >= 0 && x != s {
      forall k | 0 <= k < |P1[x]| && 0 <= P1[x][k] < |S1|
        ensures S1[P1[x][k]] == S2[P1[x][k]]
      {
        SigmaUnique(g, s, D, S1, P1, S2, P2, P1[x][k]);
      }
      SumOverPerm(S1, S2, P1[x], P2[x]);
    }
  }

  // ---------------------------------------------------------------------------
  // Dependencies
  // ---------------------------------------------------------------------------

  /** n copies of a share, added up. */
  function Copies(n: nat, sh: real): real {
    if n == 0 then 0.0 else Copies(n - 1, sh) + sh
  }

  /** What w passes on to x is one share per occurrence of x in w's list. */
  lemma {:induction false} EntryCreditCount(S: seq<nat>, delta: seq<real>, x: int, w: int, ps: seq<int>)
    ensures EntryCredit(S, delta, x, w, ps) == Copies(multiset(ps)[x], Share(S, delta, x, w))
  {
    if |ps| > 0 {
      var front, last := ps[..|ps| - 1], ps[|ps| - 1];
      assert ps == front + [last];
      assert multiset(ps) == multiset(front) + multiset{last};
      EntryCreditCount(S, delta, x, w, front);
    }
  }

  /** The credit x receives from w. */
  function Term(S: seq<nat>, P: seq<seq<int>>, delta: seq<real>, x: int, w: int): real {
    if 0 <= w < |P| then EntryCredit(S, delta, x, w, P[w]) else 0.0
  }

  lemma {:induction false} CreditAppend(S: seq<nat>, P: seq<seq<int>>, delta: seq<real>, x: int, a: seq<int>, b: seq<int>)
    ensures Credit(S, P, delta, x, a + b) == Credit(S, P, delta, x, a) + Credit(S, P, delta, x, b)
    decreases |a|
  {
    if |a| == 0 {
      assert a + b == b;
    } else {
      assert (a + b)[1..] == a[1..] + b;
      assert (a + b)[0] == a[0];
      CreditAppend(S, P, delta, x, a[1..], b);
    }
  }

  /** Credit depends on the nodes passing it on only as a multiset. */
  lemma {:induction false} CreditPerm(S: seq<nat>, P: seq<seq<int>>, delta: seq<real>, x: int, ws: seq<int>, vs: seq<int>)
    requires multiset(ws) == multiset(vs)
    ensures Credit(S, P, delta, x, ws) == Credit(S, P, delta, x, vs)
    decreases |ws|
  {
    if |ws| == 0 {
      assert |vs| == |multiset(vs)| == 0;
    } else {
      var w := ws[0];
      assert ws == [w] + ws[1..];
      assert w in multiset(vs);
      var i :| 0 <= i < |vs| && vs[i] == w;
      var rest := vs[..i] + vs[i + 1..];
      assert vs == vs[..i] + [w] + vs[i + 1..];
      assert multiset(ws) == multiset(ws[1..]) + multiset{w};
      assert multiset(vs) == multiset(vs[..i]) + multiset{w} + multiset(vs[i + 1..]);
      assert multiset(rest) == multiset(vs[..i]) + multiset(vs[i + 1..]);
      assert multiset(vs) == multiset(rest) + multiset{w};
      Cancel(multiset(ws[1..]), multiset(rest), w);
      CreditPerm(S, P, delta, x, ws[1..], rest);
      CreditAppend(S, P, delta, x, vs[..i] + [w], vs[i + 1..]);
      CreditAppend(S, P, delta, x, vs[..i], [w]);
      CreditAppend(S, P, delta, x, vs[..i], vs[i + 1..]);
    }
  }

  /** Credit sums the terms of its nodes, so equal terms give equal credit. */
  lemma {:induction false} CreditPointwise(S1: seq<nat>, P1: seq<seq<int>>, d1: seq<real>,
                                           S2: seq<nat>, P2: seq<seq<int>>, d2: seq<real>, x: int, ws: seq<int>)
    requires forall k :: 0 <= k < |ws| ==> Term(S1, P1, d1, x, ws[k]) == Term(S2, P2, d2, x, ws[k])
    ensures Credit(S1, P1, d1, x, ws) == Credit(S2, P2, d2, x, ws)
    decreases |ws|
  {
    if |ws| > 0 {
      assert Term(S1, P1, d1, x, ws[0]) == Term(S2, P2, d2, x, ws[0]);
      assert forall k :: 0 <= k < |ws| - 1 ==> ws[1..][k] == ws[k + 1];
      CreditPointwise(S1, P1, d1, S2, P2, d2, x, ws[1..]);
    }
  }

  /** A sequence without repeats holds each of its entries once. */
  lemma {:induction false} DistinctCount(ws: seq<int>, u: int)
    requires Distinct(ws)
    ensures multiset(ws)[u] == if u in ws then 1 else 0
    decreases |ws|
  {
    if |ws| > 0 {
      assert ws == [ws[0]] + ws[1..];
      assert Distinct(ws[1..]) by {
        forall k, l | 0 <= k < l < |ws| - 1
          ensures ws[1..][k] != ws[1..][l]
        {
          assert ws[k + 1] != ws[l + 1];
        }
      }
      DistinctCount(ws[1..], u);
      if u == ws[0] {
        assert u !in ws[1..] by {
          forall k | 0 <= k < |ws| - 1
            ensures ws[1..][k] != u
          {
            assert ws[0] != ws[k + 1];
          }
        }
      }
    }
  }

  /** Two stacks of the same labels hold the same nodes. */
  lemma StacksPerm(D: seq<int>, st1: seq<int>, st2: seq<int>)
    requires Stacked(D, st1) && Stacked(D, st2)
    ensures multiset(st1) == multiset(st2)
  {
    forall u
      ensures multiset(st1)[u] == multiset(st2)[u]
    {
      DistinctCount(st1, u);
      DistinctCount(st2, u);
      if !(0 <= u < |D|) {
        assert u !in st1 by {
          forall k | 0 <= k < |st1|
            ensures st1[k] != u
          {
          }
        }
        assert u !in st2 by {
          forall k | 0 <= k < |st2|
            ensures st2[k] != u
          {
          }
        }
      }
    }
  }

  /** x receives from w only if w lies one level beyond x, so further up the stack. */
  lemma ReceivesFromAbove(g: Graph, D: seq<int>, P: seq<seq<int>>, stack: seq<int>, k: int, l: int)
    requires |D| == |g| && PredsSound(g, D, P) && Stacked(D, stack)
    requires 0 <= k < |stack| && 0 <= l < |stack| && stack[k] in P[stack[l]]
    ensures k < l
  {
    var i :| 0 <= i < |P[stack[l]]| && P[stack[l]][i] == stack[k];
    assert D[stack[k]] + 1 == D[stack[l]];
  }

  /** The credit x receives from w is the same in two passes whose lists at w hold the
      same entries, when x receives nothing from w or the dependencies of w agree. */
  lemma TermAgree(S: seq<nat>, P1: seq<seq<int>>, d1: seq<real>, P2: seq<seq<int>>, d2: seq<real>, x: int, w: int)
    requires |P1| == |P2| && |d1| == |d2| && 0 <= w < |P1| && multiset(P1[w]) == multiset(P2[w])
    requires x in P1[w] ==> w < |d1| && d1[w] == d2[w]
    ensures Term(S, P1, d1, x, w) == Term(S, P2, d2, x, w)
  {
    EntryCreditCount(S, d1, x, w, P1[w]);
    EntryCreditCount(S, d2, x, w, P2[w]);
    assert multiset(P1[w])[x] == multiset(P2[w])[x];
    if x !in P1[w] {
      assert multiset(P1[w])[x] == 0;
    } else {
      assert Share(S, d1, x, w) == Share(S, d2, x, w);
    }
  }

  /** Two completed passes from s with their dependencies, already known to agree on the
      labels and the walk counts, agree on the dependency of the node st1[k]. The
      induction runs down the first stack: x only receives from nodes one level beyond
      it, and those lie further up the stack. */
  lemma {:induction false} DeltaUnique(g: Graph, s: int, D: seq<int>, S: seq<nat>,
                                       P1: seq<seq<int>>, st1: seq<int>, d1: seq<real>,
                                       P2: seq<seq<int>>, st2: seq<int>, d2: seq<real>, k: int)
    requires WellFormed(g) && Dependency(g, s, D, S, P1, st1, d1) && Dependency(g, s, D, S, P2, st2, d2)
    requires forall y :: 0 <= y < |g| ==> multiset(P1[y]) == multiset(P2[y])
    requires 0 <= k < |st1|
    ensures d1[st1[k]] == d2[st1[k]]
    decreases |st1| - k
  {
    var x := st1[k];
    forall l | 0 <= l < |st1|
      ensures Term(S, P1, d1, x, st1[l]) == Term(S, P2, d2, x, st1[l])
    {
      var w := st1[l];
      if x in P1[w] {
        ReceivesFromAbove(g, D, P1, st1, k, l);
        DeltaUnique(g, s, D, S, P1, st1, d1, P2, st2, d2, l);
      }
      TermAgree(S, P1, d1, P2, d2, x, w);
    }
    CreditPointwise(S, P1, d1, S, P2, d2, x, st1);
    StacksPerm(D, st1, st2);
    CreditPerm(S, P2, d2, x, st1, st2);
  }

  /** Any two completed passes from s agree on the labels, the walk counts and the
      multisets of predecessors, and on the dependency of every reached node. */
  lemma PassUnique(g: Graph, s: int,
                   D1: seq<int>, S1: seq<nat>, P1: seq<seq<int>>, st1: seq<int>, d1: seq<real>,
                   D2: seq<int>, S2: seq<nat>, P2: seq<seq<int>>, st2: seq<int>, d2: seq<real>)
    requires WellFormed(g) && Dependency(g, s, D1, S1, P1, st1, d1) && Dependency(g, s, D2, S2, P2, st2, d2)
    ensures D1 == D2 && S1 == S2
    ensures forall x :: 0 <= x < |g| ==> multiset(P1[x]) == multiset(P2[x])
    ensures forall x :: 0 <= x < |g| && D1[x] >= 0 ==> d1[x] == d2[x]
  {
    LabelsUnique(g, s, D1, D2);
    PredsAllUnique(g, D1, P1, P2);
    SigmasUnique(g, s, D1, S1, P1, S2, P2);
    forall x | 0 <= x < |g| && D1[x] >= 0
      ensures d1[x] == d2[x]
    {
      var k := StackIndex(D1, st1, x);
      DeltaUnique(g, s, D1, S1, P1, st1, d1, P2, st2, d2, k);
    }
  }

  lemma PredsAllUnique(g: Graph, D: seq<int>, P1: seq<seq<int>>, P2: seq<seq<int>>)
    requires |D| == |g| && PredsSound(g, D, P1) && PredsSound(g, D, P2)
    requires PredsExact(g, D, P1) && PredsExact(g, D, P2)
    ensures forall x :: 0 <= x < |g| ==> multiset(P1[x]) == multiset(P2[x])
  {
    forall x | 0 <= x < |g|
      ensures multiset(P1[x]) == multiset(P2[x])
    {
      PredsUnique(g, D, P1, P2, x);
    }
  }

  lemma SigmasUnique(g: Graph, s: int, D: seq<int>, S1: seq<nat>, P1: seq<seq<int>>, S2: seq<nat>, P2: seq<seq<int>>)
    requires WellFormed(g) && BfsLabels(g, s, D) && PassState(g, s, D, S1, P1) && PassState(g, s, D, S2, P2)
    requires forall y :: 0 <= y < |g| ==> multiset(P1[y]) == multiset(P2[y])
    ensures S1 == S2
  {
    forall x | 0 <= x < |g|
      ensures S1[x] == S2[x]
    {
      SigmaUnique(g, s, D, S1, P1, S2, P2, x);
    }
  }

  /** Where a reached node sits on the stack. */
  lemma StackIndex(D: seq<int>, stack: seq<int>, x: int) returns (k: int)
    requires Stacked(D, stack) && 0 <= x < |D| && D[x] >= 0
    ensures 0 <= k < |stack| && stack[k] == x
  {
    k :| 0 <= k < |stack| && stack[k] == x;
  }

  /** The credit a source passes to a node is a single value. */
  lemma SourceCreditUnique(g: Graph, s: int, x: int, a: real, b: real)
    requires WellFormed(g) && SourceCredit(g, s, x, a) && SourceCredit(g, s, x, b)
    ensures a == b
  {
    var D1, S1, P1, st1, d1 :| Dependency(g, s, D1, S1, P1, st1, d1)
      && a == (if x != s && 0 <= x < |g| && D1[x] >= 0 then d1[x] else 0.0);
    var D2, S2, P2, st2, d2 :| Dependency(g, s, D2, S2, P2, st2, d2)
      && b == (if x != s && 0 <= x < |g| && D2[x] >= 0 then d2[x] else 0.0);
    PassUnique(g, s, D1, S1, P1, st1, d1, D2, S2, P2, st2, d2);
  }

  /** Two credit sequences for the same node over the same sources are equal. */
  lemma CreditedUnique(g: Graph, x: int, c1: seq<real>, c2: seq<real>)
    requires WellFormed(g) && Credited(g, x, c1) && Credited(g, x, c2) && |c1| == |c2|
    ensures c1 == c2
  {
    forall s | 0 <= s < |c1|
      ensures c1[s] == c2[s]
    {
      SourceCreditUnique(g, s, x, c1[s], c2[s]);
    }
  }
}
