/**
  Exact, real-valued linear algebra on matrices held as sequences of rows.
  It is the specification side of the Gaussian elimination in
  ZMethodsMathAdvanced: an augmented system with `cols` unknowns has rows of
  width cols + 1 whose last entry is the right-hand side.
*/
module LinearAlgebra {

  type Matrix = seq<seq<real>>

  /** Every row of M has `width` entries. */
  ghost predicate IsShape(M: Matrix, width: nat) {
    forall r :: 0 <= r < |M| ==> |M[r]| == width
  }

  /** The sum of row[j] * x[j] over lo <= j < hi. */
  function DotRange(row: seq<real>, x: seq<real>, lo: nat, hi: nat): real
    requires lo <= hi <= |row| && hi <= |x|
    decreases hi - lo
  {
    if lo == hi then 0.0 else DotRange(row, x, lo, hi - 1) + row[hi - 1] * x[hi - 1]
  }

  /** The equation held by `row` (coefficients, then right-hand side) is satisfied by x. */
  ghost predicate RowHolds(row: seq<real>, x: seq<real>, cols: nat) {
    |row| == cols + 1 && |x| == cols && DotRange(row, x, 0, cols) == row[cols]
  }

  /** x satisfies every equation of the augmented system M. */
  ghost predicate SolvesAll(M: Matrix, x: seq<real>, cols: nat) {
    forall r :: 0 <= r < |M| ==> RowHolds(M[r], x, cols)
  }

  /** A and B have exactly the same solutions. */
  ghost predicate SameSolutions(A: Matrix, B: Matrix, cols: nat) {
    forall x :: |x| == cols ==> (SolvesAll(A, x, cols) <==> SolvesAll(B, x, cols))
  }

  lemma SameSolutionsTrans(A: Matrix, B: Matrix, C: Matrix, cols: nat)
    requires SameSolutions(A, B, cols) && SameSolutions(B, C, cols)
    ensures SameSolutions(A, C, cols)
  {
  }

  /** Every exact solution of M (with cols unknowns) is sol. */
  ghost predicate OnlySolution(M: Matrix, cols: nat, sol: seq<real>) {
    forall x :: |x| == cols && SolvesAll(M, x, cols) ==> x == sol
  }

  /** Below the diagonal, the first n columns are zero. */
  ghost predicate ZerosBelow(M: Matrix, n: nat) {
    forall r, c :: 0 <= c < n && c < r < |M| && c < |M[r]| ==> M[r][c] == 0.0
  }

  /** The first n diagonal entries are non-zero. */
  ghost predicate PivotsNonzero(M: Matrix, n: nat) {
    forall c :: 0 <= c < n && c < |M| && c < |M[c]| ==> M[c][c] != 0.0
  }

  /** Rows i and p exchanged. */
  function SwapRows(M: Matrix, i: nat, p: nat): (S: Matrix)
    requires i < |M| && p < |M|
    ensures |S| == |M| && S[i] == M[p] && S[p] == M[i]
    ensures forall r :: 0 <= r < |M| && r != i && r != p ==> S[r] == M[r]
  {
    M[i := M[p]][p := M[i]]
  }

  /** Row `rowJ` after subtracting the multiple of `rowI` that clears column i;
      the entries left of column i are not touched. */
  function EliminatedRow(rowJ: seq<real>, rowI: seq<real>, i: nat): seq<real>
    requires i < |rowI| == |rowJ| && rowI[i] != 0.0
  {
    seq(|rowJ|, k requires 0 <= k < |rowJ| =>
      if k < i then rowJ[k] else rowJ[k] - (rowJ[i] / rowI[i]) * rowI[k])
  }

  /** Every row below row i with column i cleared by row i. */
  function EliminateBelow(M: Matrix, i: nat): (E: Matrix)
    requires i < |M| && IsShape(M, |M[i]|) && i < |M[i]| && M[i][i] != 0.0
    ensures |E| == |M| && IsShape(E, |M[i]|)
  {
    seq(|M|, r requires 0 <= r < |M| =>
      if r <= i then M[r] else EliminatedRow(M[r], M[i], i))
  }

  lemma EliminateBelowAt(M: Matrix, i: nat, r: nat, c: nat)
    requires i < |M| && IsShape(M, |M[i]|) && i < |M[i]| && M[i][i] != 0.0
    requires r < |M| && c < |M[i]|
    ensures EliminateBelow(M, i)[r][c] ==
      if i < r && i <= c then M[r][c] - (M[r][i] / M[i][i]) * M[i][c] else M[r][c]
  {
  }

  /** One pivoting step (swap row p into place i, then clear column i below it)
      extends the zero region below the diagonal by one column and keeps rows 0..i-1. */
  lemma StepExtendsZerosBelow(B: Matrix, i: nat, p: nat, width: nat)
    requires IsShape(B, width) && i <= p < |B| && i < width && B[p][i] != 0.0
    requires ZerosBelow(B, i)
    ensures var S := SwapRows(B, i, p);
      && ZerosBelow(EliminateBelow(S, i), i + 1)
      && forall r :: 0 <= r < i ==> EliminateBelow(S, i)[r] == B[r]
  {
    var S := SwapRows(B, i, p);
    var E := EliminateBelow(S, i);
    assert ZerosBelow(S, i);
    forall r, c | 0 <= c < i + 1 && c < r < |E| && c < |E[r]| ensures E[r][c] == 0.0 {
      EliminateBelowAt(S, i, r, c);
    }
  }

  lemma {:induction false} DotRangeLow(row: seq<real>, x: seq<real>, lo: nat, hi: nat)
    requires lo < hi <= |row| && hi <= |x|
    ensures DotRange(row, x, lo, hi) == row[lo] * x[lo] + DotRange(row, x, lo + 1, hi)
    decreases hi - lo
  {
    if lo + 1 < hi {
      DotRangeLow(row, x, lo, hi - 1);
    }
  }

  /** Entries of x facing a zero coefficient do not matter. */
  lemma {:induction false} DotRangeFrame(row: seq<real>, x: seq<real>, y: seq<real>, lo: nat, hi: nat)
    requires lo <= hi <= |row| && hi <= |x| && hi <= |y|
    requires forall j :: lo <= j < hi ==> row[j] == 0.0 || x[j] == y[j]
    ensures DotRange(row, x, lo, hi) == DotRange(row, y, lo, hi)
    decreases hi - lo
  {
    if lo < hi {
      DotRangeFrame(row, x, y, lo, hi - 1);
    }
  }

  /** Leading zero coefficients contribute nothing. */
  lemma {:induction false} DotRangeZeroPrefix(row: seq<real>, x: seq<real>, k: nat, hi: nat)
    requires k <= hi <= |row| && hi <= |x|
    requires forall j :: 0 <= j < k ==> row[j] == 0.0
    ensures DotRange(row, x, 0, hi) == DotRange(row, x, k, hi)
    decreases k
  {
    if 0 < k {
      DotRangeLow(row, x, k - 1, hi);
      DotRangeZeroPrefix(row, x, k - 1, hi);
    }
  }

  /** DotRange is linear in the row. */
  lemma {:induction false} DotRangeCombine(a: seq<real>, b: seq<real>, c: seq<real>, f: real, x: seq<real>, hi: nat)
    requires hi <= |a| && hi <= |b| && hi <= |c| && hi <= |x|
    requires forall k :: 0 <= k < hi ==> c[k] == a[k] - f * b[k]
    ensures DotRange(c, x, 0, hi) == DotRange(a, x, 0, hi) - f * DotRange(b, x, 0, hi)
  {
    if 0 < hi {
      DotRangeCombine(a, b, c, f, x, hi - 1);
      var h := hi - 1;
      calc {
        c[h] * x[h];
        (a[h] - f * b[h]) * x[h];
        a[h] * x[h] - f * (b[h] * x[h]);
      }
    }
  }

  /** DotRange of a difference of rows is the difference of their DotRanges. */
  lemma {:induction false} DotRangeDifference(a: seq<real>, b: seq<real>, c: seq<real>, x: seq<real>, hi: nat)
    requires hi <= |a| && hi <= |b| && hi <= |c| && hi <= |x|
    requires forall k :: 0 <= k < hi ==> c[k] == a[k] - b[k]
    ensures DotRange(c, x, 0, hi) == DotRange(a, x, 0, hi) - DotRange(b, x, 0, hi)
  {
    if 0 < hi {
      DotRangeDifference(a, b, c, x, hi - 1);
      var h := hi - 1;
      assert c[h] * x[h] == a[h] * x[h] - b[h] * x[h];
    }
  }

  /** Exchanging two equations does not change the solutions. */
  lemma SwapKeepsSolutions(M: Matrix, i: nat, p: nat, cols: nat)
    requires i < |M| && p < |M|
    ensures SameSolutions(M, SwapRows(M, i, p), cols)
  {
    var S := SwapRows(M, i, p);
    forall x | |x| == cols
      ensures SolvesAll(M, x, cols) <==> SolvesAll(S, x, cols)
    {
      if SolvesAll(M, x, cols) {
        forall r | 0 <= r < |S| ensures RowHolds(S[r], x, cols) {
          assert S[r] == M[if r == i then p else if r == p then i else r];
        }
      }
      if SolvesAll(S, x, cols) {
        forall r | 0 <= r < |M| ensures RowHolds(M[r], x, cols) {
          assert M[r] == S[if r == i then p else if r == p then i else r];
        }
      }
    }
  }

  /** One eliminated row, as a linear combination of the two rows it came from. */
  lemma EliminatedRowIsCombination(rowJ: seq<real>, rowI: seq<real>, i: nat, cols: nat, x: seq<real>)
    requires |rowJ| == |rowI| == cols + 1 && i < cols && rowI[i] != 0.0 && |x| == cols
    requires forall c :: 0 <= c < i ==> rowJ[c] == 0.0 && rowI[c] == 0.0
    ensures var e, f := EliminatedRow(rowJ, rowI, i), rowJ[i] / rowI[i];
      && DotRange(e, x, 0, cols) == DotRange(rowJ, x, 0, cols) - f * DotRange(rowI, x, 0, cols)
      && e[cols] == rowJ[cols] - f * rowI[cols]
  {
    var e, f := EliminatedRow(rowJ, rowI, i), rowJ[i] / rowI[i];
    forall k | 0 <= k < cols + 1 ensures e[k] == rowJ[k] - f * rowI[k] {
      if k < i {
        assert rowJ[k] == 0.0 && rowI[k] == 0.0;
      }
    }
    DotRangeCombine(rowJ, rowI, e, f, x, cols);
  }

  /** Clearing column i below row i, when the columns left of i are already clear
      from row i down, does not change the solutions. */
  lemma EliminateKeepsSolutions(M: Matrix, i: nat, cols: nat)
    requires IsShape(M, cols + 1) && i < |M| && i < cols && M[i][i] != 0.0
    requires forall r, c :: i <= r < |M| && 0 <= c < i ==> M[r][c] == 0.0
    ensures SameSolutions(M, EliminateBelow(M, i), cols)
  {
    forall x | |x| == cols
      ensures SolvesAll(M, x, cols) <==> SolvesAll(EliminateBelow(M, i), x, cols)
    {
      EliminateKeepsSolution(M, i, cols, x);
    }
  }

  /** The same for one vector x. */
  lemma EliminateKeepsSolution(M: Matrix, i: nat, cols: nat, x: seq<real>)
    requires IsShape(M, cols + 1) && i < |M| && i < cols && M[i][i] != 0.0 && |x| == cols
    requires forall r, c :: i <= r < |M| && 0 <= c < i ==> M[r][c] == 0.0
    ensures SolvesAll(M, x, cols) <==> SolvesAll(EliminateBelow(M, i), x, cols)
  {
    var E := EliminateBelow(M, i);
    forall r | i < r < |M|
      ensures RowHolds(M[i], x, cols) ==> (RowHolds(M[r], x, cols) <==> RowHolds(E[r], x, cols))
    {
      EliminatedRowIsCombination(M[r], M[i], i, cols, x);
    }
    if SolvesAll(M, x, cols) {
      forall r | 0 <= r < |E| ensures RowHolds(E[r], x, cols) {
        assert RowHolds(M[i], x, cols) && RowHolds(M[r], x, cols);
      }
    }
    if SolvesAll(E, x, cols) {
      assert RowHolds(M[i], x, cols) by { assert E[i] == M[i]; }
      forall r | 0 <= r < |M| ensures RowHolds(M[r], x, cols) {
        assert RowHolds(E[r], x, cols);
      }
    }
  }

  /** One pivoting step on matrices: swapping row p into place i and clearing column i
      below it keeps the solutions, extends the zero region by one column, puts B[p][i]
      on the diagonal and leaves rows 0..i-1 alone. */
  lemma PivotStep(B: Matrix, i: nat, p: nat, cols: nat)
    requires IsShape(B, cols + 1) && i <= p < |B| && i < cols && B[p][i] != 0.0
    requires ZerosBelow(B, i)
    ensures SameSolutions(B, EliminateBelow(SwapRows(B, i, p), i), cols)
    ensures ZerosBelow(EliminateBelow(SwapRows(B, i, p), i), i + 1)
    ensures EliminateBelow(SwapRows(B, i, p), i)[i][i] == B[p][i]
    ensures forall r :: 0 <= r < i ==> EliminateBelow(SwapRows(B, i, p), i)[r] == B[r]
  {
    var S := SwapRows(B, i, p);
    StepExtendsZerosBelow(B, i, p, cols + 1);
    SwapKeepsSolutions(B, i, p, cols);
    forall r, c | i <= r < |S| && 0 <= c < i ensures S[r][c] == 0.0 {
      if r == i {
        assert S[r] == B[p];
      } else if r == p {
        assert S[r] == B[i];
      } else {
        assert S[r] == B[r];
      }
    }
    EliminateKeepsSolutions(S, i, cols);
    SameSolutionsTrans(B, S, EliminateBelow(S, i), cols);
  }

  /** Row r, with zeros left of column r, holds for x once its pivot term balances the
      rest of the row against the right-hand side. */
  lemma BackSubstitutionRow(row: seq<real>, x: seq<real>, r: nat, cols: nat)
    requires |row| == cols + 1 && |x| == cols && r < cols
    requires forall j :: 0 <= j < r ==> row[j] == 0.0
    requires row[r] * x[r] + DotRange(row, x, r + 1, cols) == row[cols]
    ensures RowHolds(row, x, cols)
  {
    DotRangeZeroPrefix(row, x, r, cols);
    DotRangeLow(row, x, r, cols);
  }

  /** a * v + d == b when v is (b - d) / a. */
  lemma SolveForPivot(a: real, b: real, d: real, v: real)
    requires a != 0.0 && v == (b - d) / a
    ensures a * v + d == b
  {
  }

  /** A reduced (upper-triangular, non-zero pivots) system of cols equations has at most one solution. */
  lemma {:induction false} TriangularAgreeFrom(M: Matrix, cols: nat, x: seq<real>, y: seq<real>, k: nat)
    requires cols <= |M| && IsShape(M, cols + 1) && ZerosBelow(M, cols) && PivotsNonzero(M, cols)
    requires |x| == cols && |y| == cols && k <= cols
    requires forall r :: 0 <= r < cols ==> RowHolds(M[r], x, cols) && RowHolds(M[r], y, cols)
    ensures forall j :: k <= j < cols ==> x[j] == y[j]
    decreases cols - k
  {
    if k < cols {
      TriangularAgreeFrom(M, cols, x, y, k + 1);
      var row := M[k];
      assert RowHolds(row, x, cols) && RowHolds(row, y, cols);
      assert forall j :: 0 <= j < k ==> row[j] == 0.0;
      DotRangeZeroPrefix(row, x, k, cols);
      DotRangeZeroPrefix(row, y, k, cols);
      DotRangeLow(row, x, k, cols);
      DotRangeLow(row, y, k, cols);
      DotRangeFrame(row, x, y, k + 1, cols);
      var tail := DotRange(row, x, k + 1, cols);
      assert DotRange(row, y, k + 1, cols) == tail;
      CancelPivot(row[k], x[k], y[k], tail, row[cols]);
    }
  }

  /** A non-zero pivot a fixes the unknown of an equation a * u + t == b. */
  lemma CancelPivot(a: real, u: real, v: real, t: real, b: real)
    requires a != 0.0 && a * u + t == b && a * v + t == b
    ensures u == v
  {
    assert a * (u - v) == a * u - a * v;
  }

  /** A row whose coefficients are all zero holds exactly when its right-hand side is zero. */
  lemma ZeroRowHolds(row: seq<real>, x: seq<real>, cols: nat)
    requires |row| == cols + 1 && |x| == cols
    requires forall j :: 0 <= j < cols ==> row[j] == 0.0
    ensures RowHolds(row, x, cols) <==> row[cols] == 0.0
  {
    DotRangeZeroPrefix(row, x, cols, cols);
  }

  /**
    The outcome of forward elimination. M has the same solutions as the input M0,
    is reduced in its first cols columns, and sol satisfies its first cols equations.
    Then every exact solution of M0 equals sol, and sol solves M0 exactly when the
    surplus equations (rows cols and beyond, reduced to 0 = rhs) have right-hand side 0.
  */
  lemma ReducedSystemSolution(M0: Matrix, M: Matrix, cols: nat, sol: seq<real>)
    requires IsShape(M, cols + 1) && cols <= |M| && |sol| == cols
    requires SameSolutions(M0, M, cols) && ZerosBelow(M, cols) && PivotsNonzero(M, cols)
    requires forall r :: 0 <= r < cols ==> RowHolds(M[r], sol, cols)
    ensures forall x :: |x| == cols && SolvesAll(M0, x, cols) ==> x == sol
    ensures SolvesAll(M0, sol, cols) <==> forall r :: cols <= r < |M| ==> M[r][cols] == 0.0
  {
    forall x | |x| == cols && SolvesAll(M0, x, cols) ensures x == sol {
      assert SolvesAll(M, x, cols);
      TriangularAgreeFrom(M, cols, x, sol, 0);
    }
    forall r | cols <= r < |M|
      ensures RowHolds(M[r], sol, cols) <==> M[r][cols] == 0.0
    {
      ZeroRowHolds(M[r], sol, cols);
    }
    if forall r :: cols <= r < |M| ==> M[r][cols] == 0.0 {
      assert SolvesAll(M, sol, cols);
    }
  }

  /** The sum of the entries of x. */
  function Sum(x: seq<real>): real {
    if x == [] then 0.0 else Sum(x[..|x| - 1]) + x[|x| - 1]
  }

  /** The sum of column j over rows 0..k-1. */
  function ColumnSum(M: Matrix, j: nat, k: nat): real
    requires k <= |M| && forall r :: 0 <= r < k ==> j < |M[r]|
  {
    if k == 0 then 0.0 else ColumnSum(M, j, k - 1) + M[k - 1][j]
  }

  /** Two rows that agree on [lo, hi) give the same DotRange there. */
  lemma {:induction false} DotRangeSameEntries(a: seq<real>, b: seq<real>, x: seq<real>, lo: nat, hi: nat)
    requires lo <= hi <= |a| && hi <= |b| && hi <= |x|
    requires forall j :: lo <= j < hi ==> a[j] == b[j]
    ensures DotRange(a, x, lo, hi) == DotRange(b, x, lo, hi)
    decreases hi - lo
  {
    if lo < hi {
      DotRangeSameEntries(a, b, x, lo, hi - 1);
    }
  }

  /** A row of ones sums x. */
  lemma {:induction false} DotRangeOnes(row: seq<real>, x: seq<real>, k: nat)
    requires k <= |row| && k <= |x|
    requires forall j :: 0 <= j < k ==> row[j] == 1.0
    ensures DotRange(row, x, 0, k) == Sum(x[..k])
  {
    if 0 < k {
      DotRangeOnes(row, x, k - 1);
      assert x[..k][..k - 1] == x[..k - 1];
    }
  }

  /** A row with a single non-zero coefficient, at i, picks out row[i] * x[i]. */
  lemma DotRangeSingle(row: seq<real>, x: seq<real>, i: nat, n: nat)
    requires i < n <= |row| && n <= |x|
    requires forall j :: 0 <= j < n && j != i ==> row[j] == 0.0
    ensures DotRange(row, x, 0, n) == row[i] * x[i]
  {
    DotRangeZeroPrefix(row, x, i, n);
    DotRangeLow(row, x, i, n);
    var zero := seq(|x|, _ => 0.0);
    DotRangeFrame(row, x, zero, i + 1, n);
    DotRangeZeroVector(row, zero, i + 1, n);
  }

  lemma {:induction false} DotRangeZeroVector(row: seq<real>, x: seq<real>, lo: nat, hi: nat)
    requires lo <= hi <= |row| && hi <= |x|
    requires forall j :: lo <= j < hi ==> x[j] == 0.0
    ensures DotRange(row, x, lo, hi) == 0.0
    decreases hi - lo
  {
    if lo < hi {
      DotRangeZeroVector(row, x, lo, hi - 1);
    }
  }

  /** A vector of zeros sums to 0. */
  lemma {:induction false} SumOfZeros(x: seq<real>)
    requires forall j :: 0 <= j < |x| ==> x[j] == 0.0
    ensures Sum(x) == 0.0
  {
    if x != [] {
      SumOfZeros(x[..|x| - 1]);
    }
  }

  // ---------------------------------------------------------------- back-substitution

  /** The values back-substitution assigns to the unknowns i..cols-1 of a reduced system,
      from the last unknown upwards; the unknowns before i are still 0. */
  function BackValues(M: Matrix, cols: nat, i: nat): (x: seq<real>)
    requires IsShape(M, cols + 1) && cols <= |M| && i <= cols
    requires forall c :: i <= c < cols ==> M[c][c] != 0.0
    ensures |x| == cols
    decreases cols - i
  {
    if i == cols then seq(cols, _ => 0.0)
    else
      var y := BackValues(M, cols, i + 1);
      y[i := (M[i][cols] - DotRange(M[i], y, i + 1, cols)) / M[i][i]]
  }

  /** On an upper-triangular system the back-substituted values satisfy equations i..cols-1. */
  lemma {:induction false} BackValuesSolve(M: Matrix, cols: nat, i: nat)
    requires IsShape(M, cols + 1) && cols <= |M| && i <= cols && ZerosBelow(M, cols)
    requires forall c :: i <= c < cols ==> M[c][c] != 0.0
    ensures forall r :: i <= r < cols ==> RowHolds(M[r], BackValues(M, cols, i), cols)
    decreases cols - i
  {
    if i < cols {
      var y := BackValues(M, cols, i + 1);
      var x := BackValues(M, cols, i);
      BackValuesSolve(M, cols, i + 1);
      forall r | i < r < cols ensures RowHolds(M[r], x, cols) {
        assert RowHolds(M[r], y, cols);
        DotRangeFrame(M[r], y, x, 0, cols);
      }
      DotRangeFrame(M[i], y, x, i + 1, cols);
      SolveForPivot(M[i][i], M[i][cols], DotRange(M[i], x, i + 1, cols), x[i]);
      BackSubstitutionRow(M[i], x, i, cols);
    }
  }

  // ---------------------------------------------------------------- dependent rows

  /** Column c of M. */
  function Column(M: Matrix, c: nat): (col: seq<real>)
    requires forall r :: 0 <= r < |M| ==> c < |M[r]|
    ensures |col| == |M| && forall r :: 0 <= r < |M| ==> col[r] == M[r][c]
  {
    seq(|M|, r requires 0 <= r < |M| => M[r][c])
  }

  /** The weights w, not all zero, combine the rows of M (every one of the `width` entries,
      right-hand side included) to the zero row. */
  ghost predicate DependentRows(M: Matrix, w: seq<real>, width: nat) {
    && IsShape(M, width) && |w| == |M|
    && (exists r :: 0 <= r < |w| && w[r] != 0.0)
    && forall c :: 0 <= c < width ==> DotRange(Column(M, c), w, 0, |M|) == 0.0
  }

  /** Changing entry k of both the row and the vector changes one term of the sum. */
  lemma {:induction false} DotRangeUpdate(a: seq<real>, x: seq<real>, k: nat, u: real, v: real, hi: nat)
    requires k < hi <= |a| && hi <= |x|
    ensures DotRange(a[k := u], x[k := v], 0, hi) == DotRange(a, x, 0, hi) - a[k] * x[k] + u * v
    decreases hi
  {
    if k < hi - 1 {
      DotRangeUpdate(a, x, k, u, v, hi - 1);
    } else {
      DotRangeSameEntries(a[k := u], a, x[k := v], 0, k);
      DotRangeFrame(a, x[k := v], x, 0, k);
    }
  }

  /** Exchanging entries i and p of both the row and the vector keeps the sum. */
  lemma DotRangeSwap(a: seq<real>, x: seq<real>, i: nat, p: nat, n: nat)
    requires i < n && p < n && n == |a| == |x|
    ensures DotRange(a[i := a[p]][p := a[i]], x[i := x[p]][p := x[i]], 0, n) == DotRange(a, x, 0, n)
  {
    if i == p {
      assert a[i := a[p]][p := a[i]] == a && x[i := x[p]][p := x[i]] == x;
    } else {
      DotRangeUpdate(a, x, i, a[p], x[p], n);
      DotRangeUpdate(a[i := a[p]], x[i := x[p]], p, a[i], x[i], n);
    }
  }

  /** A sum whose every term has a zero factor is 0. */
  lemma {:induction false} DotRangeAllZero(a: seq<real>, x: seq<real>, hi: nat)
    requires hi <= |a| && hi <= |x|
    requires forall j :: 0 <= j < hi ==> a[j] == 0.0 || x[j] == 0.0
    ensures DotRange(a, x, 0, hi) == 0.0
  {
    if 0 < hi {
      DotRangeAllZero(a, x, hi - 1);
    }
  }

  /** A sum whose terms other than term k have a zero factor is term k. */
  lemma {:induction false} DotRangeOnly(a: seq<real>, x: seq<real>, k: nat, hi: nat)
    requires k < hi <= |a| && hi <= |x|
    requires forall j :: 0 <= j < hi && j != k ==> a[j] == 0.0 || x[j] == 0.0
    ensures DotRange(a, x, 0, hi) == a[k] * x[k]
  {
    if hi == k + 1 {
      DotRangeAllZero(a, x, k);
    } else {
      DotRangeOnly(a, x, k, hi - 1);
    }
  }

  /** Exchanging two rows keeps a dependency, with the two weights exchanged. */
  lemma SwapKeepsDependency(M: Matrix, w: seq<real>, i: nat, p: nat, width: nat) returns (w': seq<real>)
    requires DependentRows(M, w, width) && i < |M| && p < |M|
    ensures w' == w[i := w[p]][p := w[i]]
    ensures DependentRows(SwapRows(M, i, p), w', width)
  {
    w' := w[i := w[p]][p := w[i]];
    var S := SwapRows(M, i, p);
    forall c | 0 <= c < width ensures DotRange(Column(S, c), w', 0, |S|) == 0.0 {
      var col := Column(M, c);
      assert Column(S, c) == col[i := col[p]][p := col[i]];
      DotRangeSwap(col, w, i, p, |M|);
    }
    var r :| 0 <= r < |w| && w[r] != 0.0;
    var r' := if r == i then p else if r == p then i else r;
    assert w'[r'] == w[r];
  }

  /** Clearing column i below row i keeps a dependency: the weight of row i absorbs the
      multiples of row i subtracted from the rows below it. */
  lemma EliminateKeepsDependency(S: Matrix, w: seq<real>, i: nat, width: nat) returns (w': seq<real>)
    requires DependentRows(S, w, width) && i < |S| && i < width && S[i][i] != 0.0
    requires forall c :: 0 <= c < i ==> S[i][c] == 0.0
    ensures DependentRows(EliminateBelow(S, i), w', width)
  {
    var n := |S|;
    var g := EliminationFactors(S, i);
    var d := DotRange(g, w, 0, n);
    w' := w[i := w[i] + d];
    forall c | 0 <= c < width ensures DotRange(Column(EliminateBelow(S, i), c), w', 0, n) == 0.0 {
      EliminatedColumnEntries(S, i, c, width);
      ColumnStaysBalanced(Column(S, c), g, Column(EliminateBelow(S, i), c), S[i][c], w, i);
    }
    var _ := WeightsStayNonzero(w, g, i, d);
  }

  /** The multiples of row i that the elimination subtracts from each row (0 for rows 0..i). */
  function EliminationFactors(S: Matrix, i: nat): (g: seq<real>)
    requires i < |S| && i < |S[i]| && S[i][i] != 0.0 && forall r :: 0 <= r < |S| ==> i < |S[r]|
    ensures |g| == |S| && g[i] == 0.0
  {
    seq(|S|, r requires 0 <= r < |S| => if r > i then S[r][i] / S[i][i] else 0.0)
  }

  /** A column balanced by w, minus f times g, is balanced by w with the weighted sum of g
      moved into weight i, provided its entry i is f. */
  lemma ColumnStaysBalanced(colS: seq<real>, g: seq<real>, colE: seq<real>, f: real, w: seq<real>, i: nat)
    requires |colE| == |w| && ScaledDifference(colE, colS, f, g) && i < |w| && colE[i] == f
    requires DotRange(colS, w, 0, |w|) == 0.0
    ensures DotRange(colE, w[i := w[i] + DotRange(g, w, 0, |w|)], 0, |w|) == 0.0
  {
    var _ := CombinedSum(colS, g, colE, f, w);
    AdjustedWeightsCancel(colE, g, f, w, i);
  }

  /** When the weighted sum of colE is minus f times that of g, and entry i of colE is f,
      moving the weighted sum of g into weight i makes the weighted sum of colE vanish. */
  lemma AdjustedWeightsCancel(colE: seq<real>, g: seq<real>, f: real, w: seq<real>, i: nat)
    requires |g| == |colE| == |w| && i < |w| && colE[i] == f
    requires DotRange(colE, w, 0, |w|) == -(f * DotRange(g, w, 0, |w|))
    ensures DotRange(colE, w[i := w[i] + DotRange(g, w, 0, |w|)], 0, |w|) == 0.0
  {
    var d := DotRange(g, w, 0, |w|);
    DotRangeUpdateWeight(colE, w, i, w[i] + d);
    CancelTerms(DotRange(colE, w, 0, |w|), f, w[i], d);
  }

  /** Changing one weight changes the weighted sum by that term alone. */
  lemma DotRangeUpdateWeight(a: seq<real>, x: seq<real>, k: nat, v: real)
    requires |a| == |x| && k < |x|
    ensures DotRange(a, x[k := v], 0, |x|) == DotRange(a, x, 0, |x|) - a[k] * x[k] + a[k] * v
  {
    DotRangeUpdate(a, x, k, a[k], v, |x|);
    assert a[k := a[k]] == a;
  }

  /** The weighted sum of colE, when that of colS vanishes. */
  lemma CombinedSum(colS: seq<real>, g: seq<real>, colE: seq<real>, f: real, w: seq<real>) returns (e: real)
    requires |colE| == |w| && ScaledDifference(colE, colS, f, g)
    requires DotRange(colS, w, 0, |w|) == 0.0
    ensures e == DotRange(colE, w, 0, |w|) && e == -(f * DotRange(g, w, 0, |w|))
  {
    DotRangeCombine(colS, g, colE, f, w, |w|);
    e := DotRange(colE, w, 0, |w|);
  }

  lemma CancelTerms(e: real, f: real, wi: real, d: real)
    requires e == -(f * d)
    ensures e - f * wi + f * (wi + d) == 0.0
  {
    assert f * (wi + d) == f * wi + f * d;
  }

  /** Entry by entry, colE is colS minus f times g. */
  ghost predicate ScaledDifference(colE: seq<real>, colS: seq<real>, f: real, g: seq<real>) {
    |colE| == |colS| == |g| && forall k :: 0 <= k < |colE| ==> colE[k] == colS[k] - f * g[k]
  }

  /** Entry k of column c after the elimination: the old entry minus factor k times row i's. */
  lemma EliminatedColumnEntries(S: Matrix, i: nat, c: nat, width: nat)
    requires IsShape(S, width) && i < |S| && i < width && S[i][i] != 0.0 && c < width
    requires forall c :: 0 <= c < i ==> S[i][c] == 0.0
    ensures ScaledDifference(Column(EliminateBelow(S, i), c), Column(S, c), S[i][c], EliminationFactors(S, i))
  {
    forall k | 0 <= k < |S|
      ensures Column(EliminateBelow(S, i), c)[k] == Column(S, c)[k] - S[i][c] * EliminationFactors(S, i)[k]
    {
      EliminateBelowAt(S, i, k, c);
    }
  }

  /** Adding to weight i a combination d of the other weights (g[i] == 0) keeps some weight non-zero. */
  lemma WeightsStayNonzero(w: seq<real>, g: seq<real>, i: nat, d: real) returns (w': seq<real>)
    requires i < |w| == |g| && g[i] == 0.0 && d == DotRange(g, w, 0, |w|)
    requires exists r :: 0 <= r < |w| && w[r] != 0.0
    ensures w' == w[i := w[i] + d] && exists r :: 0 <= r < |w'| && w'[r] != 0.0
  {
    w' := w[i := w[i] + d];
    if forall k :: 0 <= k < |w| && k != i ==> w[k] == 0.0 {
      DotRangeAllZero(g, w, |w|);
      var r :| 0 <= r < |w| && w[r] != 0.0;
      assert w'[r] != 0.0;
    } else {
      var k :| 0 <= k < |w| && k != i && w[k] != 0.0;
      assert w'[k] != 0.0;
    }
  }

  /** In a dependency among the rows of an upper-triangular system whose first n pivots are
      non-zero, the weights of rows 0..k-1 are 0. */
  lemma {:induction false} LeadingWeightsZero(R: Matrix, w: seq<real>, n: nat, k: nat)
    requires |R| == n + 1 && DependentRows(R, w, n + 1) && ZerosBelow(R, n) && PivotsNonzero(R, n)
    requires k <= n
    ensures forall j :: 0 <= j < k ==> w[j] == 0.0
  {
    if 0 < k {
      LeadingWeightsZero(R, w, n, k - 1);
      var col := Column(R, k - 1);
      DotRangeOnly(col, w, k - 1, n + 1);
      assert col[k - 1] * w[k - 1] == 0.0 && col[k - 1] != 0.0;
    }
  }

  /** n + 1 dependent equations in n unknowns, reduced to upper-triangular form with
      non-zero pivots: the last equation has reduced to 0 = 0. */
  lemma ReducedDependencyForcesZero(R: Matrix, w: seq<real>, n: nat)
    requires |R| == n + 1 && DependentRows(R, w, n + 1) && ZerosBelow(R, n) && PivotsNonzero(R, n)
    ensures R[n][n] == 0.0
  {
    LeadingWeightsZero(R, w, n, n);
    assert w[n] != 0.0;
    var col := Column(R, n);
    DotRangeOnly(col, w, n, n + 1);
  }

  /** Against a vector of ones, a column sums to its column sum. */
  lemma {:induction false} DotRangeColumnSum(M: Matrix, c: nat, col: seq<real>, w: seq<real>, k: nat)
    requires k <= |M| && k <= |col| && k <= |w| && forall r :: 0 <= r < k ==> c < |M[r]|
    requires forall r :: 0 <= r < k ==> col[r] == M[r][c] && w[r] == 1.0
    ensures DotRange(col, w, 0, k) == ColumnSum(M, c, k)
  {
    if 0 < k {
      DotRangeColumnSum(M, c, col, w, k - 1);
    }
  }
}
