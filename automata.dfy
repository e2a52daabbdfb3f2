/** The labelled-DAG automaton of chapter 19: a graph whose edges carry characters is read
    as a nondeterministic finite automaton. `Accepts` simulates it on sets of states, and
    `DeterminizedSize` counts the states of the subset construction reachable from {start}.
    The three textually identical copies of these helpers are one model here. */
module Automata {

  import opened Wrappers
  import opened Formatting
  import SetFacts

  /** State -> its outgoing (label, target) edges, in list order. */
  type Graph = map<int, seq<(char, int)>>

  // ---------------------------------------------------------------------------
  // One step of the simulation
  // ---------------------------------------------------------------------------

  /** The targets of the edges in `edges` labelled ch. */
  function Targets(edges: seq<(char, int)>, ch: char): set<int> {
    if |edges| == 0 then {}
    else
      var last := edges[|edges| - 1];
      Targets(edges[..|edges| - 1], ch) + (if last.0 == ch then {last.1} else {})
  }

  lemma {:induction false} TargetsMeaning(edges: seq<(char, int)>, ch: char, to: int)
    ensures to in Targets(edges, ch) <==> exists k :: 0 <= k < |edges| && edges[k] == (ch, to)
  {
    if |edges| > 0 {
      var m := |edges| - 1;
      TargetsMeaning(edges[..m], ch, to);
      if exists k :: 0 <= k < m && edges[..m][k] == (ch, to) {
        var k :| 0 <= k < m && edges[..m][k] == (ch, to);
        assert edges[k] == (ch, to);
      }
      if exists k :: 0 <= k < |edges| && edges[k] == (ch, to) {
        var k :| 0 <= k < |edges| && edges[k] == (ch, to);
        if k < m {
          assert edges[..m][k] == (ch, to);
        }
      }
    }
  }

  /** The ch-successors of state q; a state that is not a key of g has none. */
  function Successors(g: Graph, q: int, ch: char): set<int> {
    if q in g then Targets(g[q], ch) else {}
  }

  /** The ch-successors of a set of states. */
  function Step(g: Graph, S: set<int>, ch: char): set<int> {
    set q, t | q in S && t in Successors(g, q, ch) :: t
  }

  lemma StepAddState(g: Graph, D: set<int>, q: int, ch: char)
    ensures Step(g, D + {q}, ch) == Step(g, D, ch) + Successors(g, q, ch)
  {
    forall t | t in Step(g, D + {q}, ch)
      ensures t in Step(g, D, ch) + Successors(g, q, ch)
    {
      var p :| p in D + {q} && t in Successors(g, p, ch);
    }
    forall t | t in Step(g, D, ch) + Successors(g, q, ch)
      ensures t in Step(g, D + {q}, ch)
    {
      if t in Successors(g, q, ch) {
        assert q in D + {q};
      } else {
        var p :| p in D && t in Successors(g, p, ch);
        assert p in D + {q};
      }
    }
  }

  /** Taking q out of the states still to visit adds its successors. */
  lemma StepNext(g: Graph, S: set<int>, rest: set<int>, q: int, ch: char)
    requires rest <= S && q in rest
    ensures Step(g, S - (rest - {q}), ch) == Step(g, S - rest, ch) + Successors(g, q, ch)
  {
    assert S - (rest - {q}) == (S - rest) + {q};
    StepAddState(g, S - rest, q, ch);
  }

  lemma StepOfEmpty(g: Graph, ch: char)
    ensures Step(g, {}, ch) == {}
  {
  }

  lemma StepSingleton(g: Graph, q: int, ch: char)
    ensures Step(g, {q}, ch) == Successors(g, q, ch)
  {
    StepAddState(g, {}, q, ch);
    assert {} + {q} == {q};
  }

  /** Some element of a non-empty set (a `foreach` over it takes them in some order). */
  method Pick(s: set<int>) returns (x: int)
    requires s != {}
    ensures x in s
  {
    SetFacts.NonEmptyHasInt(s);
    x :| x in s;
  }

  /** The inner loop of `StepStates`: the targets of the edges labelled ch, in order. */
  method EdgeTargets(edges: seq<(char, int)>, ch: char) returns (found: set<int>)
    ensures found == Targets(edges, ch)
  {
    found := {};
    for k := 0 to |edges|
      invariant found == Targets(edges[..k], ch)
    {
      assert edges[..k + 1][..k] == edges[..k];
      if edges[k].0 == ch {
        found := found + {edges[k].1};
      }
    }
    assert edges[..|edges|] == edges;
  }

  /** The inner loops of `Accepts` and `DeterminizedSize`: a new set, and for each state of S
      that g knows, every edge whose label is ch adds its target. */
  method StepStates(g: Graph, S: set<int>, ch: char) returns (next: set<int>)
    ensures next == Step(g, S, ch)
  {
    next := {};
    var rest := S;
    while rest != {}
      invariant rest <= S && next == Step(g, S - rest, ch)
      decreases |rest|
    {
      var q := Pick(rest);
      var found := {};
      if q in g {
        found := EdgeTargets(g[q], ch);
      }
      StepNext(g, S, rest, q, ch);
      next := next + found;
      rest := rest - {q};
    }
  }

  // ---------------------------------------------------------------------------
  // Runs and the language of the graph
  // ---------------------------------------------------------------------------

  /** The states reached from S by reading w. */
  function Run(g: Graph, S: set<int>, w: string): set<int> {
    if |w| == 0 then S else Step(g, Run(g, S, w[..|w| - 1]), w[|w| - 1])
  }

  /** Reading u then v is reading u + v. */
  lemma {:induction false} RunAppend(g: Graph, S: set<int>, u: string, v: string)
    ensures Run(g, S, u + v) == Run(g, Run(g, S, u), v)
  {
    if |v| == 0 {
      assert u + v == u;
    } else {
      RunAppend(g, S, u, v[..|v| - 1]);
      assert (u + v)[..|u + v| - 1] == u + v[..|v| - 1];
    }
  }

  /** Once no state is left, none ever comes back. */
  lemma {:induction false} RunOfEmpty(g: Graph, w: string)
    ensures Run(g, {}, w) == {}
  {
    if |w| > 0 {
      RunOfEmpty(g, w[..|w| - 1]);
    }
  }

  /** A path from s to t whose edge labels spell w. */
  ghost predicate Spells(g: Graph, s: int, w: string, t: int)
    decreases |w|
  {
    if |w| == 0 then s == t
    else
      var w', ch := w[..|w| - 1], w[|w| - 1];
      exists u :: Spells(g, s, w', u) && t in Successors(g, u, ch)
  }

  /** The simulation reaches exactly the ends of the labelled paths that spell the input. */
  lemma {:induction false} RunMeansPaths(g: Graph, S: set<int>, w: string, t: int)
    ensures t in Run(g, S, w) <==> exists s :: s in S && Spells(g, s, w, t)
    decreases |w|
  {
    if |w| > 0 {
      var w', ch := w[..|w| - 1], w[|w| - 1];
      if t in Run(g, S, w) {
        var u :| u in Run(g, S, w') && t in Successors(g, u, ch);
        RunMeansPaths(g, S, w', u);
        var s :| s in S && Spells(g, s, w', u);
        assert Spells(g, s, w, t);
      }
      if exists s :: s in S && Spells(g, s, w, t) {
        var s :| s in S && Spells(g, s, w, t);
        var u :| Spells(g, s, w', u) && t in Successors(g, u, ch);
        RunMeansPaths(g, S, w', u);
      }
    }
  }

  /** `Accepts`: starts from {start}, replaces the state set by its successors per character,
      stops early once the set is empty, and reports whether the final set meets `finals`. */
  method Accepts(g: Graph, start: int, finals: set<int>, input: string) returns (accepted: bool)
    ensures accepted <==> Run(g, {start}, input) * finals != {}
    ensures accepted <==> exists t :: t in finals && Spells(g, start, input, t)
  {
    var current := {start};
    var i := 0;
    while i < |input|
      invariant 0 <= i <= |input|
      invariant current == Run(g, {start}, input[..i])
    {
      assert input[..i + 1][..i] == input[..i];
      current := StepStates(g, current, input[i]);
      if |current| == 0 {
        RunOfEmpty(g, input[i + 1..]);
        RunAppend(g, {start}, input[..i + 1], input[i + 1..]);
        assert input[..i + 1] + input[i + 1..] == input;
        i := |input|;
        assert input[..i] == input;
        break;
      }
      i := i + 1;
    }
    assert input[..i] == input;
    accepted := current * finals != {};
    if accepted {
      SetFacts.NonEmptyHasInt(current * finals);
      var t :| t in current * finals;
      RunMeansPaths(g, {start}, input, t);
      ghost var s :| s in {start} && Spells(g, s, input, t);
      assert Spells(g, start, input, t);
    }
    if exists t :: t in finals && Spells(g, start, input, t) {
      ghost var t :| t in finals && Spells(g, start, input, t);
      RunMeansPaths(g, {start}, input, t);
      assert t in current * finals;
    }
  }

  /** The empty input is accepted exactly when the start state is final. */
  lemma EmptyInputAccepted(g: Graph, start: int, finals: set<int>)
    ensures Run(g, {start}, "") * finals != {} <==> start in finals
  {
    assert Run(g, {start}, "") == {start};
    if start in finals {
      assert start in {start} * finals;
    }
  }

  // ---------------------------------------------------------------------------
  // Subset construction
  // ---------------------------------------------------------------------------

  /** Every character of w is in sigma. */
  ghost predicate Over(w: string, sigma: seq<char>) {
    forall k :: 0 <= k < |w| ==> w[k] in sigma
  }

  /** S is the state set reached from {start} by some word over sigma. */
  ghost predicate Reached(g: Graph, sigma: seq<char>, start: int, S: set<int>) {
    exists w :: Over(w, sigma) && Run(g, {start}, w) == S
  }

  /** V holds {start}, only non-empty sets reached by words over sigma, and is closed under
      the non-empty successor sets: the states of the determinized automaton. */
  ghost predicate IsSubsetAutomaton(g: Graph, sigma: seq<char>, start: int, V: set<set<int>>) {
    {start} in V
    && (forall S :: S in V ==> S != {} && Reached(g, sigma, start, S))
    && (forall S, a :: S in V && a in sigma && Step(g, S, a) != {} ==> Step(g, S, a) in V)
  }

  /** Every non-empty set reached by a word over sigma is a state of the construction. */
  lemma {:induction false} ReachedInAutomaton(g: Graph, sigma: seq<char>, start: int, V: set<set<int>>, w: string)
    requires IsSubsetAutomaton(g, sigma, start, V)
    requires Over(w, sigma) && Run(g, {start}, w) != {}
    ensures Run(g, {start}, w) in V
  {
    if |w| > 0 {
      var w' := w[..|w| - 1];
      StepOfEmpty(g, w[|w| - 1]);
      ReachedInAutomaton(g, sigma, start, V, w');
    }
  }

  /** The states of the determinized automaton are determined by the graph, the alphabet
      and the start state, so the count `DeterminizedSize` returns is too. */
  lemma SubsetAutomatonUnique(g: Graph, sigma: seq<char>, start: int, V1: set<set<int>>, V2: set<set<int>>)
    requires IsSubsetAutomaton(g, sigma, start, V1) && IsSubsetAutomaton(g, sigma, start, V2)
    ensures V1 == V2
  {
    forall S | S in V1 ensures S in V2 {
      var w :| Over(w, sigma) && Run(g, {start}, w) == S;
      ReachedInAutomaton(g, sigma, start, V2, w);
    }
    forall S | S in V2 ensures S in V1 {
      var w :| Over(w, sigma) && Run(g, {start}, w) == S;
      ReachedInAutomaton(g, sigma, start, V1, w);
    }
  }

  /** Every target of an edge of g. */
  function AllTargets(g: Graph): set<int> {
    set q, k | q in g && 0 <= k < |g[q]| :: g[q][k].1
  }

  lemma StepWithinTargets(g: Graph, S: set<int>, ch: char)
    ensures Step(g, S, ch) <= AllTargets(g)
  {
    forall t | t in Step(g, S, ch) ensures t in AllTargets(g) {
      var q :| q in S && t in Successors(g, q, ch);
      TargetsMeaning(g[q], ch, t);
      var k :| 0 <= k < |g[q]| && g[q][k] == (ch, t);
      assert g[q][k].1 == t;
    }
  }

  /** All subsets of U. */
  ghost function PowerSet(U: set<int>): set<set<int>> {
    set S | S <= U
  }

  /** The states a visited set may contain: the start state and the edge targets. */
  ghost function Universe(g: Graph, start: int): set<int> {
    {start} + AllTargets(g)
  }

  /** Every set in V lies in the universe, is non-empty and is reached by a word over sigma. */
  ghost predicate Sound(g: Graph, sigma: seq<char>, start: int, V: set<set<int>>) {
    forall S :: S in V ==> S <= Universe(g, start) && S != {} && Reached(g, sigma, start, S)
  }

  /** The non-empty successor sets of the sets in D are in V. */
  ghost predicate ClosedFor(g: Graph, sigma: seq<char>, D: set<set<int>>, V: set<set<int>>) {
    forall S, a :: S in D && a in sigma && Step(g, S, a) != {} ==> Step(g, S, a) in V
  }

  lemma AddSuccessor(g: Graph, sigma: seq<char>, start: int, V: set<set<int>>, S: set<int>, w: string, a: char)
    requires Sound(g, sigma, start, V) && Over(w, sigma) && Run(g, {start}, w) == S
    requires a in sigma && Step(g, S, a) != {}
    ensures Sound(g, sigma, start, V + {Step(g, S, a)})
  {
    StepWithinTargets(g, S, a);
    var w' := w + [a];
    assert w'[..|w'| - 1] == w;
    assert Over(w', sigma) && Run(g, {start}, w') == Step(g, S, a);
  }

  /** The non-empty successor sets of S under the first j letters are in V. */
  ghost predicate LettersDone(g: Graph, sigma: seq<char>, S: set<int>, j: nat, V: set<set<int>>)
    requires j <= |sigma|
  {
    forall k :: 0 <= k < j && Step(g, S, sigma[k]) != {} ==> Step(g, S, sigma[k]) in V
  }

  lemma LettersDoneNext(g: Graph, sigma: seq<char>, S: set<int>, j: nat, V: set<set<int>>, V': set<set<int>>)
    requires j < |sigma| && LettersDone(g, sigma, S, j, V) && V <= V'
    requires Step(g, S, sigma[j]) != {} ==> Step(g, S, sigma[j]) in V'
    ensures LettersDone(g, sigma, S, j + 1, V')
  {
  }

  lemma ClosedGrow(g: Graph, sigma: seq<char>, D: set<set<int>>, V: set<set<int>>, V': set<set<int>>)
    requires ClosedFor(g, sigma, D, V) && V <= V'
    ensures ClosedFor(g, sigma, D, V')
  {
  }

  lemma ClosedAdd(g: Graph, sigma: seq<char>, D: set<set<int>>, S: set<int>, V: set<set<int>>)
    requires ClosedFor(g, sigma, D, V)
    requires LettersDone(g, sigma, S, |sigma|, V)
    ensures ClosedFor(g, sigma, D + {S}, V)
  {
    forall S', a | S' in D + {S} && a in sigma && Step(g, S', a) != {}
      ensures Step(g, S', a) in V
    {
      if S' == S {
        var k :| 0 <= k < |sigma| && sigma[k] == a;
      }
    }
  }

  /** The body of the worklist loop for one dequeued set S: for each letter of sigma in
      order, the non-empty successor set joins `visited` and the queue unless an equal set
      is already visited. `w` is a word over sigma that reaches S. */
  method ExploreLetters(g: Graph, sigma: seq<char>, start: int, S: set<int>, ghost w: string,
                        visited: set<set<int>>, queue: seq<set<int>>)
    returns (visited': set<set<int>>, queue': seq<set<int>>)
    requires Sound(g, sigma, start, visited) && Over(w, sigma) && Run(g, {start}, w) == S
    requires forall k :: 0 <= k < |queue| ==> queue[k] in visited
    ensures visited <= visited' && |queue'| == |queue| + |visited'| - |visited|
    ensures Sound(g, sigma, start, visited')
    ensures forall k :: 0 <= k < |queue'| ==> queue'[k] in visited'
    ensures forall S' :: S' in visited' ==> S' in visited || S' in queue'
    ensures forall S' :: S' in queue ==> S' in queue'
    ensures LettersDone(g, sigma, S, |sigma|, visited')
  {
    visited', queue' := visited, queue;
    for j := 0 to |sigma|
      invariant visited <= visited' && |queue'| == |queue| + |visited'| - |visited|
      invariant Sound(g, sigma, start, visited')
      invariant forall k :: 0 <= k < |queue'| ==> queue'[k] in visited'
      invariant forall S' :: S' in visited' ==> S' in visited || S' in queue'
      invariant forall S' :: S' in queue ==> S' in queue'
      invariant LettersDone(g, sigma, S, j, visited')
    {
      ghost var before := visited';
      var T := StepStates(g, S, sigma[j]);
      if |T| == 0 {
        LettersDoneNext(g, sigma, S, j, before, visited');
        continue;
      }
      if T !in visited' {
        AddSuccessor(g, sigma, start, visited', S, w, sigma[j]);
        visited' := visited' + {T};
        queue' := queue' + [T];
      }
      LettersDoneNext(g, sigma, S, j, before, visited');
    }
  }

  /** `DeterminizedSize`: breadth-first subset construction from {start}, counting the
      distinct sets visited. Every visited set lies within {start} and the edge targets,
      which bounds `visited` and makes the worklist finite. */
  method DeterminizedSize(g: Graph, sigma: seq<char>, start: int) returns (size: int)
    ensures exists V :: IsSubsetAutomaton(g, sigma, start, V) && size == |V|
    ensures size >= 1
  {
    ghost var U := Universe(g, start);
    var startSet := {start};
    var visited := {startSet};
    var queue := [startSet];
    ghost var done: set<set<int>> := {};
    assert Run(g, {start}, "") == startSet;
    assert Sound(g, sigma, start, visited);
    while |queue| > 0
      invariant startSet in visited && done <= visited
      invariant Sound(g, sigma, start, visited)
      invariant forall k :: 0 <= k < |queue| ==> queue[k] in visited
      invariant forall S :: S in visited ==> S in done || S in queue
      invariant ClosedFor(g, sigma, done, visited)
      invariant visited <= PowerSet(U)
      decreases |PowerSet(U)| - |visited|, |queue|
    {
      SetFacts.SubsetCount(visited, PowerSet(U));
      var S := queue[0];
      ghost var w :| Over(w, sigma) && Run(g, {start}, w) == S;
      ghost var visited0 := visited;
      var rest := queue[1..];
      assert forall S' :: S' in queue ==> S' == S || S' in rest;
      visited, queue := ExploreLetters(g, sigma, start, S, w, visited, rest);
      ClosedGrow(g, sigma, done, visited0, visited);
      ClosedAdd(g, sigma, done, S, visited);
      done := done + {S};
      SetFacts.SubsetCount(visited, PowerSet(U));
      SetFacts.SubsetCount(visited0, visited);
    }
    size := |visited|;
    assert IsSubsetAutomaton(g, sigma, start, visited);
  }

  // ---------------------------------------------------------------------------
  // HashSetComparer
  // ---------------------------------------------------------------------------

  /** `HashSetComparer.Equals` on nullable sets: the same reference (or both null) is equal,
      one null is not, otherwise `SetEquals`. */
  function SetEqualsComparer(x: Option<set<int>>, y: Option<set<int>>): (r: bool)
    ensures r <==> x == y
  {
    match (x, y)
    case (None, None) => true
    case (None, _) => false
    case (_, None) => false
    case (Some(a), Some(b)) => a == b
  }

  /** C#'s unchecked 32-bit int: the value modulo 2^32, in [-2^31, 2^31). */
  function Wrap32(x: int): (r: int)
    ensures -0x8000_0000 <= r < 0x8000_0000
    ensures -0x8000_0000 <= x < 0x8000_0000 ==> r == x
  {
    (x + 0x8000_0000) % 0x1_0000_0000 - 0x8000_0000
  }

  /** The hash of elements enumerated in the given order: 19, then h * 31 + v per element. */
  function HashOf(elems: seq<int>): int {
    if |elems| == 0 then 19 else Wrap32(HashOf(elems[..|elems| - 1]) * 31 + elems[|elems| - 1])
  }

  ghost predicate Sorted(s: seq<int>) {
    forall a, b :: 0 <= a < b < |s| ==> s[a] <= s[b]
  }

  /** Every element of s is at least m. */
  ghost predicate AtLeast(m: int, s: seq<int>) {
    forall k :: 0 <= k < |s| ==> m <= s[k]
  }

  /** x placed before the first element of the ascending s that is not smaller. */
  function Insert(x: int, s: seq<int>): seq<int> {
    if |s| == 0 then [x]
    else if x <= s[0] then [x] + s
    else [s[0]] + Insert(x, s[1..])
  }

  lemma {:induction false} InsertKeeps(x: int, s: seq<int>)
    ensures multiset(Insert(x, s)) == multiset(s) + multiset{x}
  {
    if |s| > 0 && x > s[0] {
      InsertKeeps(x, s[1..]);
      assert s == [s[0]] + s[1..];
      assert multiset([s[0]] + Insert(x, s[1..])) == multiset{s[0]} + multiset(Insert(x, s[1..]));
    }
  }

  lemma {:induction false} InsertBounded(x: int, s: seq<int>, m: int)
    requires AtLeast(m, s) && m <= x
    ensures AtLeast(m, Insert(x, s))
  {
    if |s| > 0 && x > s[0] {
      InsertBounded(x, s[1..], m);
    }
  }

  lemma {:induction false} InsertSorted(x: int, s: seq<int>)
    requires Sorted(s)
    ensures Sorted(Insert(x, s))
  {
    if |s| > 0 && x > s[0] {
      var rest := Insert(x, s[1..]);
      InsertSorted(x, s[1..]);
      InsertBounded(x, s[1..], s[0]);
      var r := [s[0]] + rest;
      forall a, b | 0 <= a < b < |r| ensures r[a] <= r[b] {
        if a > 0 {
          assert r[a] == rest[a - 1] && r[b] == rest[b - 1];
        }
      }
    } else if |s| > 0 {
      var r := [x] + s;
      forall a, b | 0 <= a < b < |r| ensures r[a] <= r[b] {
        if a > 0 {
          assert r[a] == s[a - 1] && r[b] == s[b - 1];
        }
      }
    }
  }

  /** `OrderBy(e => e)`: the elements in ascending order. */
  function SortAscending(s: seq<int>): (r: seq<int>)
    ensures Sorted(r) && multiset(r) == multiset(s)
  {
    if |s| == 0 then []
    else
      var init := SortAscending(s[..|s| - 1]);
      assert s == s[..|s| - 1] + [s[|s| - 1]];
      InsertKeeps(s[|s| - 1], init);
      InsertSorted(s[|s| - 1], init);
      Insert(s[|s| - 1], init)
  }

  /** The first element of a non-empty ascending sequence is its least. */
  lemma SortedHeadLeast(s: seq<int>, x: int)
    requires Sorted(s) && x in multiset(s)
    ensures |s| > 0 && s[0] <= x
  {
    var k :| 0 <= k < |s| && s[k] == x;
    assert s[0] <= s[k];
  }

  /** Two ascending sequences with the same elements are the same sequence. */
  lemma {:induction false} SortedUnique(a: seq<int>, b: seq<int>)
    requires Sorted(a) && Sorted(b) && multiset(a) == multiset(b)
    ensures a == b
    decreases |a|
  {
    if |a| == 0 {
      assert |b| == |multiset(b)| == 0;
    } else {
      assert a[0] in multiset(a);
      SortedHeadLeast(b, a[0]);
      assert b[0] in multiset(b);
      SortedHeadLeast(a, b[0]);
      assert a[0] == b[0];
      assert a == [a[0]] + a[1..] && b == [b[0]] + b[1..];
      assert multiset(a[1..]) == multiset(a) - multiset{a[0]};
      assert multiset(b[1..]) == multiset(b) - multiset{b[0]};
      assert Sorted(a[1..]) && Sorted(b[1..]);
      SortedUnique(a[1..], b[1..]);
    }
  }

  /** No element occurs twice (a HashSet's enumeration). */
  ghost predicate Distinct(s: seq<int>) {
    forall a, b :: 0 <= a < b < |s| ==> s[a] != s[b]
  }

  lemma {:induction false} DistinctMultiset(s: seq<int>, x: int)
    requires Distinct(s)
    ensures multiset(s)[x] == if x in s then 1 else 0
  {
    if |s| > 0 {
      var m := |s| - 1;
      DistinctMultiset(s[..m], x);
      assert s == s[..m] + [s[m]];
      assert s[m] !in s[..m];
    }
  }

  /** `HashSetComparer.GetHashCode`: folds the elements in ascending order. */
  method GetHashCode(elems: seq<int>) returns (h: int)
    ensures h == HashOf(SortAscending(elems))
  {
    var sorted := SortAscending(elems);
    h := 19;
    for i := 0 to |sorted|
      invariant h == HashOf(sorted[..i])
    {
      assert sorted[..i + 1][..i] == sorted[..i];
      h := Wrap32(h * 31 + sorted[i]);
    }
    assert sorted[..|sorted|] == sorted;
  }

  /** Two enumerations of the same set, in any insertion order, hash alike, so sets the
      comparer calls equal have equal hash codes. */
  lemma HashIgnoresOrder(e1: seq<int>, e2: seq<int>)
    requires Distinct(e1) && Distinct(e2) && (forall x :: x in e1 <==> x in e2)
    ensures HashOf(SortAscending(e1)) == HashOf(SortAscending(e2))
  {
    forall x ensures multiset(e1)[x] == multiset(e2)[x] {
      DistinctMultiset(e1, x);
      DistinctMultiset(e2, x);
    }
    assert multiset(e1) == multiset(e2);
    SortedUnique(SortAscending(e1), SortAscending(e2));
  }

  // ---------------------------------------------------------------------------
  // The fixed automaton and the pipeline
  // ---------------------------------------------------------------------------

  /** `BuildLabeledDag`: q0 -a-> q1, q0 -b-> q2, q1 -c-> q3, q2 -c-> q3; q3 has no edges. */
  function LabeledDag(): Graph {
    map[0 := [('a', 1), ('b', 2)], 1 := [('c', 3)], 2 := [('c', 3)], 3 := []]
  }

  const Sigma: seq<char> := ['a', 'b', 'c']
  const StartState: int := 0
  const Finals: set<int> := {3}

  lemma TargetsOfOne(e: (char, int), ch: char)
    ensures Targets([e], ch) == if e.0 == ch then {e.1} else {}
  {
    assert [e][..0] == [];
  }

  lemma TargetsOfTwo(e1: (char, int), e2: (char, int), ch: char)
    ensures Targets([e1, e2], ch) == (if e1.0 == ch then {e1.1} else {}) + (if e2.0 == ch then {e2.1} else {})
  {
    assert [e1, e2][..1] == [e1];
    TargetsOfOne(e1, ch);
  }

  /** The successor table of the fixed automaton. */
  function DagTable(q: int, ch: char): set<int> {
    if q == 0 && ch == 'a' then {1}
    else if q == 0 && ch == 'b' then {2}
    else if (q == 1 || q == 2) && ch == 'c' then {3}
    else {}
  }

  lemma DagStep(q: int, ch: char)
    requires 0 <= q < 4
    ensures Step(LabeledDag(), {q}, ch) == DagTable(q, ch)
  {
    var g := LabeledDag();
    StepSingleton(g, q, ch);
    if q == 0 {
      assert g[0] == [('a', 1), ('b', 2)];
      TargetsOfTwo(('a', 1), ('b', 2), ch);
    } else if q < 3 {
      assert g[q] == [('c', 3)];
      TargetsOfOne(('c', 3), ch);
    } else {
      assert g[3] == [];
    }
  }

  /** The four subsets the construction visits on the fixed automaton. */
  function DagStates(): set<set<int>> {
    {{0}, {1}, {2}, {3}}
  }

  lemma RunOne(g: Graph, S: set<int>, a: char)
    ensures Run(g, S, [a]) == Step(g, S, a)
  {
    assert [a][..0] == [];
  }

  lemma RunTwo(g: Graph, S: set<int>, a: char, b: char)
    ensures Run(g, S, [a, b]) == Step(g, Step(g, S, a), b)
  {
    assert [a, b][..1] == [a];
    RunOne(g, S, a);
  }

  /** {0}, {1}, {2} and {3} are reached by "", "a", "b" and "ac". */
  lemma DagSound()
    ensures forall S :: S in DagStates() ==> S != {} && Reached(LabeledDag(), Sigma, StartState, S)
  {
    var g := LabeledDag();
    DagStep(0, 'a');
    DagStep(0, 'b');
    DagStep(1, 'c');
    RunOne(g, {0}, 'a');
    RunOne(g, {0}, 'b');
    RunTwo(g, {0}, 'a', 'c');
    assert Over([], Sigma) && Run(g, {0}, []) == {0};
    assert Over(['a'], Sigma) && Over(['b'], Sigma) && Over(['a', 'c'], Sigma);
  }

  lemma DagClosed()
    ensures forall S, a :: S in DagStates() && a in Sigma && Step(LabeledDag(), S, a) != {} ==>
      Step(LabeledDag(), S, a) in DagStates()
  {
    forall S, a | S in DagStates() && a in Sigma && Step(LabeledDag(), S, a) != {}
      ensures Step(LabeledDag(), S, a) in DagStates()
    {
      if S == {0} {
        DagStep(0, a);
      } else if S == {1} {
        DagStep(1, a);
      } else if S == {2} {
        DagStep(2, a);
      } else {
        DagStep(3, a);
      }
    }
  }

  /** The reachable subsets of the fixed automaton are {0}, {1}, {2} and {3}. */
  lemma DagSubsets()
    ensures IsSubsetAutomaton(LabeledDag(), Sigma, StartState, DagStates())
  {
    DagSound();
    DagClosed();
  }

  lemma DagStatesCount()
    ensures |DagStates()| == 4
  {
    var A1: set<set<int>> := {{0}};
    assert {1} !in A1 by { assert 0 !in {1}; }
    var A2 := A1 + {{1}};
    assert {2} !in A2 by { assert 0 !in {2} && 1 !in {2}; }
    var A3 := A2 + {{2}};
    assert {3} !in A3 by { assert 0 !in {3} && 1 !in {3} && 2 !in {3}; }
    assert DagStates() == A3 + {{3}};
  }

  /** `DeterminizedSize` on the fixed automaton and alphabet {a, b, c} is 4. */
  lemma DagSize(V: set<set<int>>)
    requires IsSubsetAutomaton(LabeledDag(), Sigma, StartState, V)
    ensures |V| == 4
  {
    DagSubsets();
    SubsetAutomatonUnique(LabeledDag(), Sigma, StartState, V, DagStates());
    DagStatesCount();
  }

  lemma DagRuns()
    ensures Run(LabeledDag(), {StartState}, "ac") == {3}
    ensures Run(LabeledDag(), {StartState}, "bc") == {3}
    ensures Run(LabeledDag(), {StartState}, "a") == {1}
  {
    var g := LabeledDag();
    DagStep(0, 'a');
    DagStep(0, 'b');
    DagStep(1, 'c');
    DagStep(2, 'c');
    RunOne(g, {0}, 'a');
    RunTwo(g, {0}, 'a', 'c');
    RunTwo(g, {0}, 'b', 'c');
  }

  /** `WriteAutomataTheory`: the DFA of the fixed graph has 4 states; "ac" and "bc" are
      accepted and "a" is not. */
  method AutomataTheory() returns (dfaSize: int, acceptsAc: bool, acceptsBc: bool, acceptsA: bool)
    ensures dfaSize == 4 && acceptsAc && acceptsBc && !acceptsA
  {
    var g := LabeledDag();
    dfaSize := DeterminizedSize(g, Sigma, StartState);
    acceptsAc := Accepts(g, StartState, Finals, "ac");
    acceptsBc := Accepts(g, StartState, Finals, "bc");
    acceptsA := Accepts(g, StartState, Finals, "a");
    DagRuns();
    ghost var V :| IsSubsetAutomaton(g, Sigma, StartState, V) && dfaSize == |V|;
    DagSize(V);
    assert {1} * Finals == {};
  }

  /** Step "Merge": a missing acceptance flag reads as false and a missing size as -1. */
  function Merge(mode: string, accepted: Option<bool>, dfaStates: Option<int>): string {
    "answer(" + mode + "): accepted=" + BoolText(accepted.GetOr(false))
      + "; dfaStates=" + IntToString(dfaStates.GetOr(-1))
  }

  lemma MergeDefaults(mode: string, accepted: Option<bool>, dfaStates: Option<int>)
    ensures Merge(mode, None, dfaStates) == Merge(mode, Some(false), dfaStates)
    ensures Merge(mode, accepted, None) == Merge(mode, accepted, Some(-1))
  {
  }

  /** The chapter-19 run: build the graph, accept the input and size the DFA (in sequence in
      the chain, in parallel in the graph; the two steps write different keys), then merge. */
  method RunAutomata(mode: string, input: string) returns (answer: string)
    ensures answer == Merge(mode, Some(exists t :: t in Finals && Spells(LabeledDag(), StartState, input, t)), Some(4))
  {
    var g := LabeledDag();
    var accepted := Accepts(g, StartState, Finals, input);
    var size := DeterminizedSize(g, Sigma, StartState);
    ghost var V :| IsSubsetAutomaton(g, Sigma, StartState, V) && size == |V|;
    DagSize(V);
    answer := Merge(mode, Some(accepted), Some(size));
  }

  /** `GetAutomataInputs`: twenty words over {a, b, c}, the empty word among them. */
  function AutomataInputs(): (inputs: seq<string>)
    ensures |inputs| == 20 && "" in inputs
    ensures forall k :: 0 <= k < |inputs| ==> Over(inputs[k], Sigma)
  {
    ["ac", "bc", "a", "b", "c", "",
     "aa", "bb", "cc", "abc", "bac", "cab",
     "acc", "bcc", "ab", "ba", "ca", "cb", "aaa", "bbb"]
  }
}
