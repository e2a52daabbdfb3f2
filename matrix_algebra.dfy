/** The adjacency-matrix algebra of chapter 18: degree vectors as row and column sums,
    the integer matrix product, and the acyclicity test that looks for a non-zero
    diagonal entry in the powers A^1 .. A^(n-1). Matrices are `int[,]` in the source and
    `array2<int>` here; the specifications read them as sequences of rows. */
module MatrixAlgebra {

  import opened Wrappers
  import opened Formatting
  import SetFacts

  type Matrix = seq<seq<int>>

  /** The contents of a two-dimensional array, row by row. */
  function Mat(A: array2<int>): (M: Matrix)
    reads A
    ensures |M| == A.Length0
    ensures forall i :: 0 <= i < |M| ==> |M[i]| == A.Length1
    ensures forall i, j :: 0 <= i < A.Length0 && 0 <= j < A.Length1 ==> M[i][j] == A[i, j]
  {
    seq(A.Length0, i reads A requires 0 <= i < A.Length0 =>
      seq(A.Length1, j reads A requires 0 <= j < A.Length1 => A[i, j]))
  }

  /** M has at least n rows, and each of its first n rows at least n entries. */
  ghost predicate Covers(M: Matrix, n: nat) {
    |M| >= n && forall i :: 0 <= i < n ==> |M[i]| >= n
  }

  /** Every entry of the leading n-by-n block is 0 or more (an adjacency or walk-count matrix). */
  ghost predicate NonNegative(M: Matrix, n: nat)
    requires Covers(M, n)
  {
    forall i, j :: 0 <= i < n && 0 <= j < n ==> M[i][j] >= 0
  }

  // ---------------------------------------------------------------------------
  // Degrees
  // ---------------------------------------------------------------------------

  /** M[i][0] + ... + M[i][k-1]. */
  function RowSum(M: Matrix, i: nat, k: nat): int
    requires i < |M| && k <= |M[i]|
  {
    if k == 0 then 0 else RowSum(M, i, k - 1) + M[i][k - 1]
  }

  /** M[0][j] + ... + M[k-1][j]. */
  function ColSum(M: Matrix, j: nat, k: nat): int
    requires k <= |M| && forall r :: 0 <= r < k ==> j < |M[r]|
  {
    if k == 0 then 0 else ColSum(M, j, k - 1) + M[k - 1][j]
  }

  function Sum(s: seq<int>): int {
    if |s| == 0 then 0 else Sum(s[..|s| - 1]) + s[|s| - 1]
  }

  /** Out-degrees: the row sums of the leading n-by-n block. */
  function OutDegrees(M: Matrix, n: nat): (d: seq<int>)
    requires Covers(M, n)
    ensures |d| == n && forall i :: 0 <= i < n ==> d[i] == RowSum(M, i, n)
  {
    seq(n, i requires 0 <= i < n => RowSum(M, i, n))
  }

  /** In-degrees: the column sums of the leading n-by-n block. */
  function InDegrees(M: Matrix, n: nat): (d: seq<int>)
    requires Covers(M, n)
    ensures |d| == n && forall j :: 0 <= j < n ==> d[j] == ColSum(M, j, n)
  {
    seq(n, j requires 0 <= j < n => ColSum(M, j, n))
  }

  /** Summing the first `rows` rows over the first `cols` columns. */
  function SumByRows(M: Matrix, rows: nat, cols: nat): int
    requires rows <= |M| && forall r :: 0 <= r < rows ==> cols <= |M[r]|
  {
    if rows == 0 then 0 else SumByRows(M, rows - 1, cols) + RowSum(M, rows - 1, cols)
  }

  /** Summing the first `cols` columns over the first `rows` rows. */
  function SumByCols(M: Matrix, rows: nat, cols: nat): int
    requires rows <= |M| && forall r :: 0 <= r < rows ==> cols <= |M[r]|
  {
    if cols == 0 then 0 else SumByCols(M, rows, cols - 1) + ColSum(M, cols - 1, rows)
  }

  lemma {:induction false} SumByColsAddRow(M: Matrix, rows: nat, cols: nat)
    requires rows < |M| && forall r :: 0 <= r <= rows ==> cols <= |M[r]|
    ensures SumByCols(M, rows + 1, cols) == SumByCols(M, rows, cols) + RowSum(M, rows, cols)
  {
    if cols > 0 {
      SumByColsAddRow(M, rows, cols - 1);
    }
  }

  /** Counting the entries of a block by rows or by columns gives the same total. */
  lemma {:induction false} RowsColsSameTotal(M: Matrix, rows: nat, cols: nat)
    requires rows <= |M| && forall r :: 0 <= r < rows ==> cols <= |M[r]|
    ensures SumByRows(M, rows, cols) == SumByCols(M, rows, cols)
  {
    if rows > 0 {
      RowsColsSameTotal(M, rows - 1, cols);
      SumByColsAddRow(M, rows - 1, cols);
    } else {
      ZeroRows(M, cols);
    }
  }

  lemma {:induction false} ZeroRows(M: Matrix, cols: nat)
    ensures SumByCols(M, 0, cols) == 0
  {
    if cols > 0 {
      ZeroRows(M, cols - 1);
    }
  }

  lemma {:induction false} SumOutDegrees(M: Matrix, n: nat, k: nat)
    requires Covers(M, n) && k <= n
    ensures Sum(OutDegrees(M, n)[..k]) == SumByRows(M, k, n)
  {
    if k > 0 {
      SumOutDegrees(M, n, k - 1);
      assert OutDegrees(M, n)[..k][..k - 1] == OutDegrees(M, n)[..k - 1];
    }
  }

  lemma {:induction false} SumInDegrees(M: Matrix, n: nat, k: nat)
    requires Covers(M, n) && k <= n
    ensures Sum(InDegrees(M, n)[..k]) == SumByCols(M, n, k)
  {
    if k > 0 {
      SumInDegrees(M, n, k - 1);
      assert InDegrees(M, n)[..k][..k - 1] == InDegrees(M, n)[..k - 1];
    }
  }

  /** Every edge leaves one node and enters one node: total out-degree equals total in-degree. */
  lemma DegreeTotalsAgree(M: Matrix, n: nat)
    requires Covers(M, n)
    ensures Sum(OutDegrees(M, n)) == Sum(InDegrees(M, n))
  {
    SumOutDegrees(M, n, n);
    SumInDegrees(M, n, n);
    RowsColsSameTotal(M, n, n);
    assert OutDegrees(M, n)[..n] == OutDegrees(M, n);
    assert InDegrees(M, n)[..n] == InDegrees(M, n);
  }

  /** The inner loop of `ComputeDegrees`: row i and column i summed over the first n entries. */
  method LineSums(A: array2<int>, ghost M: Matrix, i: nat, n: nat) returns (o: int, ii: int)
    requires Covers(M, n) && Holds(A, M, n) && i < n
    ensures o == RowSum(M, i, n) && ii == ColSum(M, i, n)
  {
    o, ii := 0, 0;
    for j := 0 to n
      invariant o == RowSum(M, i, j) && ii == ColSum(M, i, j)
    {
      o := o + A[i, j];
      ii := ii + A[j, i];
    }
  }

  /** `ComputeDegrees`: n is the row count; entry [i, j] and [j, i] are read for i, j < n. */
  method ComputeDegrees(A: array2<int>) returns (outD: array<int>, inD: array<int>)
    requires A.Length1 >= A.Length0
    ensures outD[..] == OutDegrees(Mat(A), A.Length0)
    ensures inD[..] == InDegrees(Mat(A), A.Length0)
    ensures Sum(outD[..]) == Sum(inD[..])
  {
    var n := A.Length0;
    ghost var M := Mat(A);
    assert Holds(A, M, n);
    outD := new int[n];
    inD := new int[n];
    for i := 0 to n
      invariant Holds(A, M, n)
      invariant forall r :: 0 <= r < i ==> outD[r] == RowSum(M, r, n) && inD[r] == ColSum(M, r, n)
    {
      var o, ii := LineSums(A, M, i, n);
      label before:
      outD[i] := o;
      inD[i] := ii;
      forall r | 0 <= r < i ensures outD[r] == old@before(outD[r]) && inD[r] == old@before(inD[r]) {
      }
    }
    assert outD[..] == OutDegrees(M, n);
    assert inD[..] == InDegrees(M, n);
    DegreeTotalsAgree(M, n);
  }

  // ---------------------------------------------------------------------------
  // Product and powers
  // ---------------------------------------------------------------------------

  /** X[i][0]*Y[0][j] + ... + X[i][k-1]*Y[k-1][j]. */
  function Dot(X: Matrix, Y: Matrix, i: nat, j: nat, k: nat): int
    requires i < |X| && k <= |X[i]| && k <= |Y| && forall t :: 0 <= t < k ==> j < |Y[t]|
  {
    if k == 0 then 0 else Dot(X, Y, i, j, k - 1) + X[i][k - 1] * Y[k - 1][j]
  }

  /** The n-by-n product of the leading blocks. */
  function MatMul(X: Matrix, Y: Matrix, n: nat): (R: Matrix)
    requires Covers(X, n) && Covers(Y, n)
    ensures |R| == n && forall i :: 0 <= i < n ==> |R[i]| == n
    ensures forall i, j :: 0 <= i < n && 0 <= j < n ==> R[i][j] == Dot(X, Y, i, j, n)
  {
    seq(n, i requires 0 <= i < n => seq(n, j requires 0 <= j < n => Dot(X, Y, i, j, n)))
  }

  /** A^p for p >= 1, computed as the source does: A^p = A^(p-1) * A. */
  function Pow(A: Matrix, p: nat, n: nat): (P: Matrix)
    requires Covers(A, n) && p >= 1
    ensures Covers(P, n)
    decreases p
  {
    if p == 1 then A else MatMul(Pow(A, p - 1, n), A, n)
  }

  /** The innermost loop of `Multiply`: row i of X times column j of Y over the first n terms. */
  method RowTimesColumn(X: array2<int>, Y: array2<int>, ghost MX: Matrix, ghost MY: Matrix, i: nat, j: nat, n: nat)
    returns (s: int)
    requires Covers(MX, n) && Covers(MY, n) && Holds(X, MX, n) && Holds(Y, MY, n) && i < n && j < n
    ensures s == Dot(MX, MY, i, j, n)
  {
    s := 0;
    for k := 0 to n
      invariant s == Dot(MX, MY, i, j, k)
    {
      s := s + X[i, k] * Y[k, j];
    }
  }

  /** An n-by-n array whose entries are those of the n-by-n matrix Q reads as Q. */
  lemma HoldsMeansMat(R: array2<int>, Q: Matrix, n: nat)
    requires |Q| == n && (forall i :: 0 <= i < n ==> |Q[i]| == n)
    requires R.Length0 == n && R.Length1 == n && Holds(R, Q, n)
    ensures Mat(R) == Q
  {
    assert forall i | 0 <= i < n :: Mat(R)[i] == Q[i];
  }

  /** The middle loop of `Multiply`: row i of R receives row i of the product. */
  method FillRow(X: array2<int>, Y: array2<int>, R: array2<int>, ghost MX: Matrix, ghost MY: Matrix, i: nat, n: nat)
    requires Covers(MX, n) && Covers(MY, n) && Holds(X, MX, n) && Holds(Y, MY, n) && i < n
    requires R != X && R != Y && R.Length0 == n && R.Length1 == n
    requires forall r, c :: 0 <= r < i && 0 <= c < n ==> R[r, c] == MatMul(MX, MY, n)[r][c]
    modifies R
    ensures forall r, c :: 0 <= r <= i && 0 <= c < n ==> R[r, c] == MatMul(MX, MY, n)[r][c]
  {
    ghost var Q := MatMul(MX, MY, n);
    for j := 0 to n
      invariant Holds(X, MX, n) && Holds(Y, MY, n)
      invariant forall r, c :: 0 <= r <= i && 0 <= c < n && (r < i || c < j) ==> R[r, c] == Q[r][c]
    {
      var v := RowTimesColumn(X, Y, MX, MY, i, j, n);
      label before:
      R[i, j] := v;
      forall r, c | 0 <= r <= i && 0 <= c < n && (r < i || c <= j) ensures R[r, c] == Q[r][c] {
        if r != i || c != j {
          assert R[r, c] == old@before(R[r, c]);
        }
      }
    }
  }

  /** `Multiply`: the size n is X's row count, so X needs n columns and Y n rows and columns. */
  method Multiply(X: array2<int>, Y: array2<int>) returns (R: array2<int>)
    requires X.Length1 >= X.Length0 && Y.Length0 >= X.Length0 && Y.Length1 >= X.Length0
    ensures R.Length0 == X.Length0 && R.Length1 == X.Length0
    ensures Mat(R) == MatMul(Mat(X), Mat(Y), X.Length0)
  {
    var n := X.Length0;
    ghost var MX, MY := Mat(X), Mat(Y);
    assert Holds(X, MX, n) && Holds(Y, MY, n);
    R := new int[n, n];
    for i := 0 to n
      invariant Holds(X, MX, n) && Holds(Y, MY, n)
      invariant forall r, c :: 0 <= r < i && 0 <= c < n ==> R[r, c] == MatMul(MX, MY, n)[r][c]
    {
      FillRow(X, Y, R, MX, MY, i, n);
    }
    HoldsMeansMat(R, MatMul(MX, MY, n), n);
  }

  /** Some power A^p with 1 <= p < bound has a non-zero diagonal entry among the first n. */
  ghost predicate DiagonalBelow(M: Matrix, n: nat, bound: nat)
    requires Covers(M, n)
  {
    exists p, i :: 1 <= p < bound && 0 <= i < n && Pow(M, p, n)[i][i] != 0
  }

  /** Some power A^p with 1 <= p < n has a non-zero diagonal entry: what the source tests. */
  ghost predicate DiagonalOnSomePower(M: Matrix, n: nat)
    requires Covers(M, n)
  {
    DiagonalBelow(M, n, n)
  }

  /** The leading n-by-n blocks of X and Y agree. */
  ghost predicate SameBlock(X: Matrix, Y: Matrix, n: nat)
    requires Covers(X, n) && Covers(Y, n)
  {
    forall i, j :: 0 <= i < n && 0 <= j < n ==> X[i][j] == Y[i][j]
  }

  /** The leading n-by-n block of the array P holds the matrix Q. */
  ghost predicate Holds(P: array2<int>, Q: Matrix, n: nat)
    reads P
    requires Covers(Q, n)
  {
    n <= P.Length0 && n <= P.Length1
    && forall i, j :: 0 <= i < n && 0 <= j < n ==> P[i, j] == Q[i][j]
  }

  /** The diagonal check inside the power loop: is some P[i, i] with i < n non-zero? */
  method NonZeroDiagonal(P: array2<int>, n: nat) returns (found: bool)
    requires n <= P.Length0 && n <= P.Length1
    ensures found <==> exists i :: 0 <= i < n && P[i, i] != 0
  {
    for i := 0 to n
      invariant forall r :: 0 <= r < i ==> P[r, r] == 0
    {
      if P[i, i] != 0 {
        return true;
      }
    }
    return false;
  }

  /** No power below p has a non-zero diagonal entry, and neither has A^p: so none below p + 1. */
  lemma DiagonalBelowNext(M: Matrix, n: nat, p: nat)
    requires Covers(M, n) && p >= 1 && !DiagonalBelow(M, n, p)
    requires forall i :: 0 <= i < n ==> Pow(M, p, n)[i][i] == 0
    ensures !DiagonalBelow(M, n, p + 1)
  {
  }

  /** The power loop of `HasDiagonalOnAnyPower`, running p from 1 while p < bound, for an
      array A whose leading block is M; A itself is never written (the loop works on a clone). */
  method ScanPowers(A: array2<int>, ghost M: Matrix, bound: nat) returns (found: bool)
    requires A.Length1 >= A.Length0 && Covers(M, A.Length0) && Holds(A, M, A.Length0)
    ensures found <==> DiagonalBelow(M, A.Length0, bound)
  {
    var n := A.Length0;
    var P := Clone(A);
    var p := 1;
    while p < bound
      invariant 1 <= p && (bound >= 1 ==> p <= bound)
      invariant P.Length0 == n && P.Length1 >= n
      invariant Holds(P, Pow(M, p, n), n)
      invariant !DiagonalBelow(M, n, p)
    {
      var d := NonZeroDiagonal(P, n);
      if d {
        ghost var i :| 0 <= i < n && P[i, i] != 0;
        assert P[i, i] == Pow(M, p, n)[i][i];
        return true;
      }
      DiagonalBelowNext(M, n, p);
      P := NextPower(P, A, M, p);
      p := p + 1;
    }
    found := false;
  }

  /** `P = Multiply(P, A)` in the power loop: from A^p to A^(p+1). */
  method NextPower(P: array2<int>, A: array2<int>, ghost M: Matrix, ghost p: nat) returns (P': array2<int>)
    requires A.Length1 >= A.Length0 && p >= 1 && Covers(M, A.Length0) && Holds(A, M, A.Length0)
    requires P.Length0 == A.Length0 && P.Length1 >= A.Length0
    requires Holds(P, Pow(M, p, A.Length0), A.Length0)
    ensures P'.Length0 == A.Length0 && P'.Length1 == A.Length0
    ensures Holds(P', Pow(M, p + 1, A.Length0), A.Length0)
  {
    var n := A.Length0;
    ghost var MP, MA := Mat(P), Mat(A);
    assert SameBlock(MP, Pow(M, p, n), n) && SameBlock(MA, M, n);
    P' := Multiply(P, A);
    PowStep(MP, MA, M, p, n);
    assert forall i, j :: 0 <= i < n && 0 <= j < n ==> P'[i, j] == Mat(P')[i][j];
  }

  /** `HasDiagonalOnAnyPower`: scans A^1, ..., A^(n-1) and stops at the first non-zero
      diagonal entry. */
  method HasDiagonalOnAnyPower(A: array2<int>) returns (found: bool)
    requires A.Length1 >= A.Length0
    ensures found <==> DiagonalOnSomePower(Mat(A), A.Length0)
  {
    found := ScanPowers(A, Mat(A), A.Length0);
  }

  /** Multiplying a matrix whose leading block is A^p by one whose leading block is A gives
      A^(p+1): the product only looks at the leading n-by-n blocks of its factors. */
  lemma PowStep(MP: Matrix, MA: Matrix, M: Matrix, p: nat, n: nat)
    requires Covers(MP, n) && Covers(MA, n) && Covers(M, n) && p >= 1
    requires SameBlock(MP, Pow(M, p, n), n) && SameBlock(MA, M, n)
    ensures SameBlock(MatMul(MP, MA, n), Pow(M, p + 1, n), n)
  {
    forall i, j | 0 <= i < n && 0 <= j < n
      ensures Dot(MP, MA, i, j, n) == Dot(Pow(M, p, n), M, i, j, n)
    {
      DotLeading(MP, Pow(M, p, n), MA, M, i, j, n);
    }
  }

  /** A dot product reads only row i of its left and column j of its right factor. */
  lemma {:induction false} DotLeading(X: Matrix, X': Matrix, Y: Matrix, Y': Matrix, i: nat, j: nat, k: nat)
    requires i < |X| && k <= |X[i]| && i < |X'| && k <= |X'[i]|
    requires k <= |Y| && k <= |Y'| && forall t :: 0 <= t < k ==> j < |Y[t]| && j < |Y'[t]|
    requires forall t :: 0 <= t < k ==> X[i][t] == X'[i][t] && Y[t][j] == Y'[t][j]
    ensures Dot(X, Y, i, j, k) == Dot(X', Y', i, j, k)
  {
    if k > 0 {
      DotLeading(X, X', Y, Y', i, j, k - 1);
    }
  }

  /** `(int[,])A.Clone()`: a new array with the same shape and entries. */
  method Clone(A: array2<int>) returns (C: array2<int>)
    ensures fresh(C) && C.Length0 == A.Length0 && C.Length1 == A.Length1
    ensures forall i, j :: 0 <= i < A.Length0 && 0 <= j < A.Length1 ==> C[i, j] == A[i, j]
  {
    C := new int[A.Length0, A.Length1];
    for i := 0 to A.Length0
      invariant forall r, c :: 0 <= r < i && 0 <= c < A.Length1 ==> C[r, c] == A[r, c]
    {
      for j := 0 to A.Length1
        invariant forall r, c :: 0 <= r < i && 0 <= c < A.Length1 ==> C[r, c] == A[r, c]
        invariant forall c :: 0 <= c < j ==> C[i, c] == A[i, c]
      {
        C[i, j] := A[i, j];
      }
    }
  }

  // ---------------------------------------------------------------------------
  // What the powers count
  // ---------------------------------------------------------------------------

  /** There is a walk of exactly `len` >= 1 edges from i to j, an edge being a positive entry. */
  ghost predicate Walk(M: Matrix, n: nat, i: nat, j: nat, len: nat)
    requires Covers(M, n) && i < n && j < n
    decreases len
  {
    if len <= 1 then len == 1 && M[i][j] > 0
    else exists k :: 0 <= k < n && Walk(M, n, i, k, len - 1) && M[k][j] > 0
  }

  lemma ProductSign(a: int, b: int)
    requires a >= 0 && b >= 0
    ensures a * b >= 0
    ensures a * b > 0 <==> a > 0 && b > 0
  {
    if a > 0 && b > 0 {
      assert a * b >= b;
    }
  }

  lemma {:induction false} DotSign(X: Matrix, Y: Matrix, i: nat, j: nat, k: nat)
    requires i < |X| && k <= |X[i]| && k <= |Y| && forall t :: 0 <= t < k ==> j < |Y[t]|
    requires forall t :: 0 <= t < k ==> X[i][t] >= 0 && Y[t][j] >= 0
    ensures Dot(X, Y, i, j, k) >= 0
    ensures Dot(X, Y, i, j, k) > 0 <==> exists t :: 0 <= t < k && X[i][t] > 0 && Y[t][j] > 0
  {
    if k > 0 {
      DotSign(X, Y, i, j, k - 1);
      ProductSign(X[i][k - 1], Y[k - 1][j]);
    }
  }

  /** For a non-negative matrix, entry [i][j] of A^p is positive exactly when some walk of
      p edges leads from i to j (and it is never negative). */
  lemma {:induction false} PowCountsWalks(M: Matrix, n: nat, p: nat)
    requires Covers(M, n) && NonNegative(M, n) && p >= 1
    ensures forall i, j :: 0 <= i < n && 0 <= j < n ==>
      Pow(M, p, n)[i][j] >= 0 && (Pow(M, p, n)[i][j] > 0 <==> Walk(M, n, i, j, p))
    decreases p
  {
    if p > 1 {
      PowCountsWalks(M, n, p - 1);
      var Q := Pow(M, p - 1, n);
      forall i, j | 0 <= i < n && 0 <= j < n
        ensures Pow(M, p, n)[i][j] >= 0 && (Pow(M, p, n)[i][j] > 0 <==> Walk(M, n, i, j, p))
      {
        DotSign(Q, M, i, j, n);
        assert Pow(M, p, n)[i][j] == Dot(Q, M, i, j, n);
        if Dot(Q, M, i, j, n) > 0 {
          var t :| 0 <= t < n && Q[i][t] > 0 && M[t][j] > 0;
          assert Walk(M, n, i, t, p - 1);
        }
        if Walk(M, n, i, j, p) {
          var t :| 0 <= t < n && Walk(M, n, i, t, p - 1) && M[t][j] > 0;
          assert Q[i][t] > 0;
        }
      }
    }
  }

  /** Some node lies on a closed walk whose length is in [lo, hi). */
  ghost predicate ClosedWalkWithin(M: Matrix, n: nat, lo: nat, hi: nat)
    requires Covers(M, n)
  {
    exists p, i :: lo <= p < hi && 0 <= i < n && Walk(M, n, i, i, p)
  }

  /** On a non-negative matrix the diagonal test looks exactly for closed walks of 1 .. n-1 edges. */
  lemma DiagonalMeansClosedWalk(M: Matrix, n: nat)
    requires Covers(M, n) && NonNegative(M, n)
    ensures DiagonalOnSomePower(M, n) <==> ClosedWalkWithin(M, n, 1, n)
  {
    if DiagonalOnSomePower(M, n) {
      var p, i :| 1 <= p < n && 0 <= i < n && Pow(M, p, n)[i][i] != 0;
      PowCountsWalks(M, n, p);
      assert Walk(M, n, i, i, p);
    }
    if ClosedWalkWithin(M, n, 1, n) {
      var p, i :| 1 <= p < n && 0 <= i < n && Walk(M, n, i, i, p);
      PowCountsWalks(M, n, p);
      assert Pow(M, p, n)[i][i] != 0;
    }
  }

  /** Every edge goes from a lower to a higher index (a DAG numbered in topological order). */
  ghost predicate StrictlyUpper(M: Matrix, n: nat)
    requires Covers(M, n)
  {
    forall i, j :: 0 <= i < n && 0 <= j < n && M[i][j] != 0 ==> i < j
  }

  lemma {:induction false} WalkGoesForward(M: Matrix, n: nat, i: nat, j: nat, len: nat)
    requires Covers(M, n) && StrictlyUpper(M, n) && i < n && j < n
    requires Walk(M, n, i, j, len)
    ensures i < j
    decreases len
  {
    if len > 1 {
      var k :| 0 <= k < n && Walk(M, n, i, k, len - 1) && M[k][j] > 0;
      WalkGoesForward(M, n, i, k, len - 1);
    }
  }

  /** A matrix with edges only from lower to higher indices passes the test: it is reported acyclic. */
  lemma UpperTriangularPasses(M: Matrix, n: nat)
    requires Covers(M, n) && NonNegative(M, n) && StrictlyUpper(M, n)
    ensures !DiagonalOnSomePower(M, n)
  {
    DiagonalMeansClosedWalk(M, n);
    if ClosedWalkWithin(M, n, 1, n) {
      var p, i :| 1 <= p < n && 0 <= i < n && Walk(M, n, i, i, p);
      WalkGoesForward(M, n, i, i, p);
    }
  }

  // ---------------------------------------------------------------------------
  // The pipeline steps over the fixed diamond
  // ---------------------------------------------------------------------------

  /** The diamond 1->2, 1->3, 2->4, 3->4, numbered from 0. */
  function Diamond(): (D: Matrix)
    ensures Covers(D, 4) && NonNegative(D, 4) && StrictlyUpper(D, 4)
  {
    [[0, 1, 1, 0], [0, 0, 0, 1], [0, 0, 0, 1], [0, 0, 0, 0]]
  }

  /** Step "BuildAdjacency": a zero 4-by-4 array with the four diamond edges set to 1. */
  method BuildAdjacency() returns (A: array2<int>)
    ensures A.Length0 == 4 && A.Length1 == 4
    ensures Mat(A) == Diamond()
  {
    A := new int[4, 4]((i, j) => 0);
    A[0, 1] := 1;
    A[0, 2] := 1;
    A[1, 3] := 1;
    A[2, 3] := 1;
    assert forall i, j | 0 <= i < 4 && 0 <= j < 4 :: A[i, j] == Diamond()[i][j];
    DiamondFromEntries(A);
  }

  lemma DiamondFromEntries(A: array2<int>)
    requires A.Length0 == 4 && A.Length1 == 4
    requires forall i, j | 0 <= i < 4 && 0 <= j < 4 :: A[i, j] == Diamond()[i][j]
    ensures Mat(A) == Diamond()
  {
    assert forall r | 0 <= r < 4 :: Mat(A)[r] == Diamond()[r];
  }

  /** Step "Reachability": A^2 and the flag r(1->4), which holds exactly when node 3 can be
      reached from node 0 in one or two edges. The source indexes [0, 3], so n >= 4. */
  method Reachability(A: array2<int>) returns (A2: array2<int>, r14: bool)
    requires A.Length0 >= 4 && A.Length1 >= A.Length0
    ensures Mat(A2) == Pow(Mat(A), 2, A.Length0)
    ensures NonNegative(Mat(A), A.Length0) ==>
      (r14 <==> Walk(Mat(A), A.Length0, 0, 3, 1) || Walk(Mat(A), A.Length0, 0, 3, 2))
  {
    ghost var M := Mat(A);
    A2 := Multiply(A, A);
    r14 := A2[0, 3] > 0 || A[0, 3] > 0;
    if NonNegative(M, A.Length0) {
      PowCountsWalks(M, A.Length0, 2);
    }
  }

  /** Two walks of length 2 lead from node 0 to node 3 of the diamond. */
  lemma DiamondTwoPaths()
    ensures Pow(Diamond(), 2, 4)[0][3] == 2
  {
    var D := Diamond();
    assert Pow(D, 2, 4)[0][3] == Dot(D, D, 0, 3, 4);
  }

  /** Step "Merge": a flag missing from the arguments (or not a bool) reads as false. */
  function Merge(mode: string, outD: seq<int>, inD: seq<int>, r14: Option<bool>, acyclic: Option<bool>): string {
    "answer(" + mode + "): out=[" + JoinInts(outD) + "]; in=[" + JoinInts(inD) + "]; r(1->4)="
      + BoolText(r14.GetOr(false)) + "; acyclic=" + BoolText(acyclic.GetOr(false))
  }

  /** A missing flag and a false flag give the same answer. */
  lemma MergeDefaults(mode: string, outD: seq<int>, inD: seq<int>, r14: Option<bool>, acyclic: Option<bool>)
    ensures Merge(mode, outD, inD, None, acyclic) == Merge(mode, outD, inD, Some(false), acyclic)
    ensures Merge(mode, outD, inD, r14, None) == Merge(mode, outD, inD, r14, Some(false))
  {
  }

  /** The diamond's degree vectors. */
  lemma DiamondDegrees()
    ensures OutDegrees(Diamond(), 4) == [2, 1, 1, 0]
    ensures InDegrees(Diamond(), 4) == [0, 1, 1, 2]
  {
    var D := Diamond();
    assert RowSum(D, 0, 4) == 2 && RowSum(D, 1, 4) == 1 && RowSum(D, 2, 4) == 1 && RowSum(D, 3, 4) == 0;
    assert ColSum(D, 0, 4) == 0 && ColSum(D, 1, 4) == 1 && ColSum(D, 2, 4) == 1 && ColSum(D, 3, 4) == 2;
  }

  /** The whole chapter-18 run (chain: the steps in sequence; graph: degrees, reachability and
      acyclicity in parallel after the build, all feeding the merge). The steps touch disjoint
      keys, so both orders give this answer, with `mode` "chain" or "graph". */
  method RunAnalysis(mode: string) returns (answer: string)
    ensures answer == Merge(mode, [2, 1, 1, 0], [0, 1, 1, 2], Some(true), Some(true))
  {
    var A := BuildAdjacency();
    var outD, inD := ComputeDegrees(A);
    var A2, r14 := Reachability(A);
    var hasCycle := HasDiagonalOnAnyPower(A);
    DiamondTwoPaths();
    UpperTriangularPasses(Diamond(), 4);
    DiamondDegrees();
    assert r14 by {
      assert A2[0, 3] == Mat(A2)[0][3];
    }
    answer := Merge(mode, outD[..], inD[..], Some(r14), Some(!hasCycle));
  }

  // ---------------------------------------------------------------------------
  // Powers up to n: the test as the acyclicity claim needs it
  // ---------------------------------------------------------------------------

  /** There is a closed walk of some length >= 1: the graph has a cycle. */
  ghost predicate HasClosedWalk(M: Matrix, n: nat)
    requires Covers(M, n)
  {
    exists p, i :: 1 <= p && 0 <= i < n && Walk(M, n, i, i, p)
  }

  /** The source's test reports a DAG for the two-node cycle 0 -> 1 -> 0: with n = 2 only A^1
      is inspected, and a cycle through both nodes needs A^2. */
  lemma TwoCycleReportedAcyclic()
    ensures !DiagonalOnSomePower([[0, 1], [1, 0]], 2)
    ensures Walk([[0, 1], [1, 0]], 2, 0, 0, 2)
  {
    var M: Matrix := [[0, 1], [1, 0]];
    assert Walk(M, 2, 0, 1, 1) && M[1][0] > 0;
    assert Walk(M, 2, 0, 0, 2);
  }

  /** ... and for a self-loop on a single node, where no power at all is inspected. */
  lemma SelfLoopReportedAcyclic()
    ensures !DiagonalOnSomePower([[1]], 1)
    ensures Walk([[1]], 1, 0, 0, 1)
  {
  }

  /** Some power A^p with 1 <= p <= n has a non-zero diagonal entry. */
  ghost predicate DiagonalUpToN(M: Matrix, n: nat)
    requires Covers(M, n)
  {
    DiagonalBelow(M, n, n + 1)
  }

  /** The diagonal test with the power loop running up to n inclusive. */
  method HasDiagonalUpToN(A: array2<int>) returns (found: bool)
    requires A.Length1 >= A.Length0
    ensures found <==> DiagonalUpToN(Mat(A), A.Length0)
  {
    found := ScanPowers(A, Mat(A), A.Length0 + 1);
  }

  /** For a non-negative matrix the corrected test answers exactly "the graph has a cycle". */
  lemma DiagonalUpToNMeansCycle(M: Matrix, n: nat)
    requires Covers(M, n) && NonNegative(M, n)
    ensures DiagonalUpToN(M, n) <==> HasClosedWalk(M, n)
  {
    if DiagonalUpToN(M, n) {
      var p, i :| 1 <= p <= n && 0 <= i < n && Pow(M, p, n)[i][i] != 0;
      PowCountsWalks(M, n, p);
      assert Walk(M, n, i, i, p);
    }
    if HasClosedWalk(M, n) {
      var p, i :| 1 <= p && 0 <= i < n && Walk(M, n, i, i, p);
      var q, j := ShortenClosedWalk(M, n, i, p);
      PowCountsWalks(M, n, q);
      assert Pow(M, q, n)[j][j] != 0;
    }
  }

  /** A walk written out node by node: w[0] -> w[1] -> ... -> w[|w|-1]. */
  ghost predicate IsWalkSeq(M: Matrix, n: nat, w: seq<nat>)
    requires Covers(M, n)
  {
    (forall k :: 0 <= k < |w| ==> w[k] < n)
    && forall k :: 0 <= k < |w| - 1 ==> M[w[k]][w[k + 1]] > 0
  }

  lemma {:induction false} WalkToSeq(M: Matrix, n: nat, i: nat, j: nat, len: nat) returns (w: seq<nat>)
    requires Covers(M, n) && i < n && j < n && Walk(M, n, i, j, len)
    ensures IsWalkSeq(M, n, w) && |w| == len + 1 && w[0] == i && w[len] == j
    decreases len
  {
    if len == 1 {
      w := [i, j];
    } else {
      var k :| 0 <= k < n && Walk(M, n, i, k, len - 1) && M[k][j] > 0;
      var w' := WalkToSeq(M, n, i, k, len - 1);
      w := w' + [j];
    }
  }

  lemma {:induction false} SeqToWalk(M: Matrix, n: nat, w: seq<nat>)
    requires Covers(M, n) && IsWalkSeq(M, n, w) && |w| >= 2
    ensures Walk(M, n, w[0], w[|w| - 1], |w| - 1)
    decreases |w|
  {
    if |w| > 2 {
      var w' := w[..|w| - 1];
      SeqToWalk(M, n, w');
      assert Walk(M, n, w[0], w[|w| - 2], |w| - 2);
    }
  }

  /** A closed walk longer than n repeats a node before returning, and the loop between the two
      visits is a shorter closed walk; so some closed walk has at most n edges. */
  lemma {:induction false} ShortenClosedWalk(M: Matrix, n: nat, i: nat, p: nat) returns (q: nat, j: nat)
    requires Covers(M, n) && i < n && p >= 1 && Walk(M, n, i, i, p)
    ensures 1 <= q <= n && j < n && Walk(M, n, j, j, q)
    decreases p
  {
    if p <= n {
      return p, i;
    }
    var w := WalkToSeq(M, n, i, i, p);
    var s, t := Pigeonhole(w[..p], n);
    var loop := w[s..t + 1];
    assert IsWalkSeq(M, n, loop);
    SeqToWalk(M, n, loop);
    q, j := ShortenClosedWalk(M, n, w[s], t - s);
  }

  /** More than n values below n cannot all be different. */
  lemma Pigeonhole(u: seq<nat>, n: nat) returns (s: nat, t: nat)
    requires |u| > n && forall k :: 0 <= k < |u| ==> u[k] < n
    ensures s < t < |u| && u[s] == u[t]
  {
    if forall a, b :: 0 <= a < b < |u| ==> u[a] != u[b] {
      DistinctValuesCount(u);
      var values := set k | 0 <= k < |u| :: u[k];
      var below := Below(n);
      assert values <= below;
      SetFacts.SubsetCount(values, below);
      assert false;
    }
    s, t :| 0 <= s < t < |u| && u[s] == u[t];
  }

  lemma {:induction false} DistinctValuesCount(u: seq<nat>)
    requires forall a, b :: 0 <= a < b < |u| ==> u[a] != u[b]
    ensures |set k | 0 <= k < |u| :: u[k]| == |u|
  {
    if |u| > 0 {
      var m := |u| - 1;
      DistinctValuesCount(u[..m]);
      var front := set k | 0 <= k < m :: u[..m][k];
      assert (set k | 0 <= k < |u| :: u[k]) == front + {u[m]};
      assert u[m] !in front;
    }
  }

  /** The numbers 0 .. n-1. */
  function Below(n: nat): (r: set<nat>)
    ensures |r| == n && forall v: nat :: v in r <==> v < n
  {
    if n == 0 then {} else Below(n - 1) + {n - 1}
  }
}
