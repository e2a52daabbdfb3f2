/** Cardinality facts about finite sets used by the termination and counting arguments. */
module SetFacts {

  /** A set other than {} has an element. */
  lemma NonEmptyHasElement<T>(s: set<T>)
    requires s != {}
    ensures exists x :: x in s
  {
    if forall x :: x !in s {
      assert false;
    }
  }

  /** The same for a set of integers (the generic lemma's witness is boxed). */
  lemma NonEmptyHasInt(s: set<int>)
    requires s != {}
    ensures exists x :: x in s
  {
    if forall x :: x !in s {
      assert false;
    }
  }

  /** A subset is no larger than the set containing it. */
  lemma {:induction false} SubsetCount<T>(a: set<T>, b: set<T>)
    requires a <= b
    ensures |a| <= |b|
    decreases b
  {
    if b != {} {
      NonEmptyHasElement(b);
      var x :| x in b;
      SubsetCount(a - {x}, b - {x});
    }
  }

  /** The integers 0 .. n-1, the node numbers of an n-node graph. */
  function Range(n: nat): (r: set<int>)
    ensures |r| == n && forall v :: v in r <==> 0 <= v < n
  {
    if n == 0 then {} else Range(n - 1) + {n - 1}
  }
}
