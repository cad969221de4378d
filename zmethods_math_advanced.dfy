/**
  Runtime/ZMethodsMathAdvanced.cs: Gaussian elimination with partial pivoting,
  done in place on an augmented matrix, followed by back-substitution, and the
  builders of the Markov steady-state systems that are handed to it.
  Matrix entries are exact reals; the zero-pivot test is the float tolerance
  test of ZMethods evaluated in exact arithmetic.
*/
module ZMethodsMathAdvanced {
  import opened Wrappers
  import opened LinearAlgebra
  import ZMethods

  /** The contents of an array2 as a sequence of rows. */
  ghost function Snapshot(m: array2<real>): (M: Matrix)
    reads m
    ensures |M| == m.Length0 && IsShape(M, m.Length1)
    ensures forall r, c :: 0 <= r < m.Length0 && 0 <= c < m.Length1 ==> M[r][c] == m[r, c]
  {
    seq(m.Length0, r requires 0 <= r < m.Length0 reads m =>
      seq(m.Length1, c requires 0 <= c < m.Length1 reads m => m[r, c]))
  }

  lemma SnapshotIs(m: array2<real>, M: Matrix)
    requires |M| == m.Length0 && IsShape(M, m.Length1)
    requires forall r, c :: 0 <= r < m.Length0 && 0 <= c < m.Length1 ==> M[r][c] == m[r, c]
    ensures Snapshot(m) == M
  {
    var S := Snapshot(m);
    forall r | 0 <= r < |M| ensures S[r] == M[r] {
    }
  }

  /** The pivot test of the source: |a| compared with 0 under the float tolerance. */
  predicate IsZeroPivot(a: real) {
    ZMethods.IsSameFloatValue(ZMethods.Abs(a), 0.0)
  }

  /** Every entry of column c from row c down failed the pivot test. */
  ghost predicate ColumnNegligible(M: Matrix, c: nat) {
    forall r :: c <= r < |M| && c < |M[r]| ==> IsZeroPivot(M[r][c])
  }

  /** The surplus equations, rows cols and beyond, have right-hand side 0. */
  ghost predicate SurplusVanishes(M: Matrix, cols: nat) {
    forall r :: cols <= r < |M| && cols < |M[r]| ==> M[r][cols] == 0.0
  }

  /** The row among i..j-1 that FindPivot settles on: the largest |M[r][i]|, the first on ties. */
  function PivotAmong(M: Matrix, i: nat, j: nat): (p: nat)
    requires i < j <= |M| && forall r :: i <= r < j ==> i < |M[r]|
    ensures i <= p < j
    ensures forall r :: i <= r < j ==> ZMethods.Abs(M[r][i]) <= ZMethods.Abs(M[p][i])
    ensures forall r :: i <= r < p ==> ZMethods.Abs(M[r][i]) < ZMethods.Abs(M[p][i])
    decreases j
  {
    if j == i + 1 then i
    else
      var best := PivotAmong(M, i, j - 1);
      if ZMethods.Abs(M[j - 1][i]) > ZMethods.Abs(M[best][i]) then j - 1 else best
  }

  /** Where forward elimination stops: the matrix it leaves behind, and whether it went
      through every column (false when a pivot failed the zero test). */
  datatype Reduction = Reduction(matrix: Matrix, complete: bool)

  /** Forward elimination from column i on, as the loop of TrySolveLinearEquation runs it:
      pick the pivot, stop on a negligible one, otherwise swap it into place and clear the
      column below it. */
  function ReduceFrom(M: Matrix, cols: nat, i: nat): (R: Reduction)
    requires IsShape(M, cols + 1) && cols <= |M| && i <= cols
    ensures |R.matrix| == |M| && IsShape(R.matrix, cols + 1)
    ensures forall r :: 0 <= r < i ==> R.matrix[r] == M[r]
    ensures R.complete ==> forall c :: i <= c < cols ==> !IsZeroPivot(R.matrix[c][c]) && R.matrix[c][c] != 0.0
    decreases cols - i
  {
    if i == cols then Reduction(M, true)
    else
      var p := PivotAmong(M, i, |M|);
      if IsZeroPivot(M[p][i]) then Reduction(M, false)
      else
        ZMethods.SameAsZeroIffSmall(M[p][i]);
        ReduceFrom(EliminateBelow(SwapRows(M, i, p), i), cols, i + 1)
  }

  /** TrySolveLinearEquation on an augmented matrix, as a value: None when there are more
      unknowns than equations or elimination stops early, else the back-substituted values. */
  function GaussSolve(M: Matrix, cols: nat): (s: Option<seq<real>>)
    requires IsShape(M, cols + 1)
    ensures s.Some? ==> cols <= |M| && |s.value| == cols
  {
    if cols > |M| then None
    else
      var R := ReduceFrom(M, cols, 0);
      if R.complete then Some(BackValues(R.matrix, cols, 0)) else None
  }

  /** Elimination keeps the solutions; when it completes the matrix is upper-triangular,
      and when it stops some column has only negligible entries from the diagonal down. */
  lemma {:induction false} ReduceFromMeaning(M: Matrix, cols: nat, i: nat)
    requires IsShape(M, cols + 1) && cols <= |M| && i <= cols && ZerosBelow(M, i)
    ensures SameSolutions(M, ReduceFrom(M, cols, i).matrix, cols)
    ensures ReduceFrom(M, cols, i).complete ==> ZerosBelow(ReduceFrom(M, cols, i).matrix, cols)
    ensures !ReduceFrom(M, cols, i).complete ==>
      exists c :: i <= c < cols && ColumnNegligible(ReduceFrom(M, cols, i).matrix, c)
    decreases cols - i
  {
    if i < cols {
      var p := PivotAmong(M, i, |M|);
      ZMethods.SameAsZeroIffSmall(M[p][i]);
      if IsZeroPivot(M[p][i]) {
        forall r | i <= r < |M| && i < |M[r]| ensures IsZeroPivot(M[r][i]) {
          ZMethods.SameAsZeroIffSmall(M[r][i]);
        }
        assert ColumnNegligible(M, i);
      } else {
        var E := EliminateBelow(SwapRows(M, i, p), i);
        PivotStep(M, i, p, cols);
        ReduceFromMeaning(E, cols, i + 1);
        SameSolutionsTrans(M, E, ReduceFrom(E, cols, i + 1).matrix, cols);
      }
    }
  }

  /** What GaussSolve returns: a vector that every exact solution equals and that solves
      the system exactly when the surplus rows reduced to 0 = 0; None only when there are
      too many unknowns or a pivot column was negligible. */
  lemma GaussSolveMeaning(M: Matrix, cols: nat)
    requires IsShape(M, cols + 1)
    ensures GaussSolve(M, cols).Some? ==> OnlySolution(M, cols, GaussSolve(M, cols).value)
    ensures GaussSolve(M, cols).Some? ==> (SolvesAll(M, GaussSolve(M, cols).value, cols) <==>
      SurplusVanishes(ReduceFrom(M, cols, 0).matrix, cols))
    ensures cols <= |M| && GaussSolve(M, cols).None? ==>
      exists c :: 0 <= c < cols && ColumnNegligible(ReduceFrom(M, cols, 0).matrix, c)
  {
    if cols <= |M| {
      var R := ReduceFrom(M, cols, 0);
      ReduceFromMeaning(M, cols, 0);
      if R.complete {
        var x := BackValues(R.matrix, cols, 0);
        BackValuesSolve(R.matrix, cols, 0);
        ReducedSystemSolution(M, R.matrix, cols, x);
      }
    }
  }

  /** The identity system x0 = 3, x1 = 5 is solved. */
  lemma IdentitySystemSolved()
    ensures GaussSolve([[1.0, 0.0, 3.0], [0.0, 1.0, 5.0]], 2) == Some([3.0, 5.0])
  {
    var M := [[1.0, 0.0, 3.0], [0.0, 1.0, 5.0]];
    IdentityReduction(M);
    assert RowHolds(M[0], [3.0, 5.0], 2) && RowHolds(M[1], [3.0, 5.0], 2);
    SolvedByUniqueness(M, 2, [3.0, 5.0]);
  }

  lemma IdentityReduction(M: Matrix)
    requires M == [[1.0, 0.0, 3.0], [0.0, 1.0, 5.0]]
    ensures GaussSolve(M, 2).Some?
  {
    assert PivotAmong(M, 0, 2) == 0;
    ZMethods.SameAsZeroIffSmall(1.0);
    var row := EliminatedRow(M[1], M[0], 0);
    assert |row| == 3 && row[0] == 0.0 && row[1] == 1.0 && row[2] == 5.0;
    assert row == M[1];
    assert EliminateBelow(SwapRows(M, 0, 0), 0) == [M[0], row] == M;
    assert PivotAmong(M, 1, 2) == 1;
    assert EliminateBelow(SwapRows(M, 1, 1), 1) == M;
    assert ReduceFrom(M, 2, 0) == Reduction(M, true);
  }

  /** A pivot inside the float tolerance band stops the solver, although the exact
      system 0.000001 * x0 = 0.000001 has the unique solution 1. */
  lemma TinyPivotRejected()
    ensures GaussSolve([[0.000001, 0.000001]], 1) == None
    ensures OnlySolution([[0.000001, 0.000001]], 1, [1.0])
  {
    var M := [[0.000001, 0.000001]];
    assert PivotAmong(M, 0, 1) == 0;
    ZMethods.SameAsZeroIffSmall(0.000001);
    forall x | |x| == 1 && SolvesAll(M, x, 1) ensures x == [1.0] {
      assert RowHolds(M[0], x, 1);
      assert x[0] == 1.0;
    }
  }

  /** The system x0 + x1 = 2, x0 + x1 = 4 is singular, and the solver rejects it. */
  lemma SingularSystemRejected()
    ensures GaussSolve([[1.0, 1.0, 2.0], [1.0, 1.0, 4.0]], 2) == None
  {
    var M := [[1.0, 1.0, 2.0], [1.0, 1.0, 4.0]];
    var z := [1.0, -1.0];
    if GaussSolve(M, 2).Some? {
      assert DotRange(M[0], z, 0, 2) == 0.0 && DotRange(M[1], z, 0, 2) == 0.0;
      SolvedSystemIsNonsingular(M, 2, z);
      assert false;
    }
  }

  /** A system the solver accepts has independent coefficient columns: the only vector the
      coefficients send to zero is the zero vector. So a singular system is always rejected,
      whatever its right-hand sides. */
  lemma SolvedSystemIsNonsingular(M: Matrix, cols: nat, z: seq<real>)
    requires IsShape(M, cols + 1) && GaussSolve(M, cols).Some? && |z| == cols
    requires forall r :: 0 <= r < |M| ==> DotRange(M[r], z, 0, cols) == 0.0
    ensures forall c :: 0 <= c < cols ==> z[c] == 0.0
  {
    ReduceFromCoefficients(M, Homogeneous(M, cols), cols, 0);
    assert GaussSolve(Homogeneous(M, cols), cols).Some?;
    GaussSolveMeaning(Homogeneous(M, cols), cols);
    HomogeneousSolutions(M, cols, z);
    OnlySolutionMeets(Homogeneous(M, cols), cols, GaussSolve(Homogeneous(M, cols), cols).value,
                      seq(cols, _ => 0.0), z);
  }

  /** The zero vector solves the homogeneous system, and so does every z that the
      coefficients send to zero. */
  lemma HomogeneousSolutions(M: Matrix, cols: nat, z: seq<real>)
    requires IsShape(M, cols + 1) && |z| == cols
    requires forall r :: 0 <= r < |M| ==> DotRange(M[r], z, 0, cols) == 0.0
    ensures SolvesAll(Homogeneous(M, cols), seq(cols, _ => 0.0), cols)
    ensures SolvesAll(Homogeneous(M, cols), z, cols)
  {
    var Z := Homogeneous(M, cols);
    var zero := seq(cols, _ => 0.0);
    forall r | 0 <= r < |Z| ensures RowHolds(Z[r], zero, cols) && RowHolds(Z[r], z, cols) {
      DotRangeZeroVector(Z[r], zero, 0, cols);
      DotRangeSameEntries(M[r], Z[r], z, 0, cols);
    }
  }

  /** Two solutions of a system with only one solution are equal. */
  lemma OnlySolutionMeets(Z: Matrix, cols: nat, v: seq<real>, x: seq<real>, y: seq<real>)
    requires OnlySolution(Z, cols, v) && |x| == |y| == cols
    requires SolvesAll(Z, x, cols) && SolvesAll(Z, y, cols)
    ensures x == y
  {
  }

  /** A and B have the same coefficients, the first cols columns; the right-hand sides may differ. */
  ghost predicate SameCoefficients(A: Matrix, B: Matrix, cols: nat) {
    && |A| == |B| && IsShape(A, cols + 1) && IsShape(B, cols + 1)
    && forall r, c :: 0 <= r < |A| && 0 <= c < cols ==> A[r][c] == B[r][c]
  }

  /** The coefficients of M with every right-hand side replaced by 0. */
  function Homogeneous(M: Matrix, cols: nat): (Z: Matrix)
    requires IsShape(M, cols + 1)
    ensures SameCoefficients(M, Z, cols)
    ensures forall r :: 0 <= r < |Z| ==> Z[r][cols] == 0.0
  {
    seq(|M|, r requires 0 <= r < |M| => M[r][..cols] + [0.0])
  }

  /** The pivot choice reads only the coefficient column it works on. */
  lemma {:induction false} PivotAmongCoefficients(A: Matrix, B: Matrix, cols: nat, i: nat, j: nat)
    requires SameCoefficients(A, B, cols) && i < cols && i < j <= |A|
    ensures PivotAmong(A, i, j) == PivotAmong(B, i, j)
    decreases j
  {
    if j > i + 1 {
      PivotAmongCoefficients(A, B, cols, i, j - 1);
      assert A[j - 1][i] == B[j - 1][i];
      assert A[PivotAmong(A, i, j - 1)][i] == B[PivotAmong(A, i, j - 1)][i];
    }
  }

  /** Whether elimination goes through every column depends on the coefficients alone. */
  lemma {:induction false} ReduceFromCoefficients(A: Matrix, B: Matrix, cols: nat, i: nat)
    requires SameCoefficients(A, B, cols) && cols <= |A| && i <= cols
    ensures ReduceFrom(A, cols, i).complete == ReduceFrom(B, cols, i).complete
    decreases cols - i
  {
    if i < cols {
      var p := PivotAmong(A, i, |A|);
      PivotAmongCoefficients(A, B, cols, i, |A|);
      assert A[p][i] == B[p][i];
      if !IsZeroPivot(A[p][i]) {
        ZMethods.SameAsZeroIffSmall(A[p][i]);
        SwapKeepsCoefficients(A, B, cols, i, p);
        EliminateKeepsCoefficients(SwapRows(A, i, p), SwapRows(B, i, p), cols, i);
        ReduceFromCoefficients(EliminateBelow(SwapRows(A, i, p), i), EliminateBelow(SwapRows(B, i, p), i), cols, i + 1);
      }
    }
  }

  lemma SwapKeepsCoefficients(A: Matrix, B: Matrix, cols: nat, i: nat, p: nat)
    requires SameCoefficients(A, B, cols) && i < |A| && p < |A|
    ensures SameCoefficients(SwapRows(A, i, p), SwapRows(B, i, p), cols)
  {
    var SA, SB := SwapRows(A, i, p), SwapRows(B, i, p);
    forall r, c | 0 <= r < |SA| && 0 <= c < cols ensures SA[r][c] == SB[r][c] {
      var q := if r == i then p else if r == p then i else r;
      assert SA[r] == A[q] && SB[r] == B[q];
    }
  }

  lemma EliminateKeepsCoefficients(A: Matrix, B: Matrix, cols: nat, i: nat)
    requires SameCoefficients(A, B, cols) && i < cols && i < |A| && A[i][i] != 0.0
    ensures SameCoefficients(EliminateBelow(A, i), EliminateBelow(B, i), cols)
  {
    forall r, c | 0 <= r < |A| && 0 <= c < cols ensures EliminateBelow(A, i)[r][c] == EliminateBelow(B, i)[r][c] {
      EliminateBelowAt(A, i, r, c);
      EliminateBelowAt(B, i, r, c);
    }
  }

  /** Elimination keeps a linear dependency among the rows (with adjusted weights). */
  lemma {:induction false} ReduceFromKeepsDependency(M: Matrix, cols: nat, i: nat, w: seq<real>) returns (w': seq<real>)
    requires IsShape(M, cols + 1) && cols <= |M| && i <= cols && ZerosBelow(M, i)
    requires DependentRows(M, w, cols + 1)
    ensures DependentRows(ReduceFrom(M, cols, i).matrix, w', cols + 1)
    decreases cols - i
  {
    w' := w;
    if i < cols {
      var p := PivotAmong(M, i, |M|);
      ZMethods.SameAsZeroIffSmall(M[p][i]);
      if !IsZeroPivot(M[p][i]) {
        var w2 := PivotStepKeepsDependency(M, cols, i, p, w);
        PivotStep(M, i, p, cols);
        assert ReduceFrom(M, cols, i) == ReduceFrom(EliminateBelow(SwapRows(M, i, p), i), cols, i + 1);
        w' := ReduceFromKeepsDependency(EliminateBelow(SwapRows(M, i, p), i), cols, i + 1, w2);
      }
    }
  }

  /** One exchange-and-eliminate step keeps a linear dependency among the rows. */
  lemma PivotStepKeepsDependency(M: Matrix, cols: nat, i: nat, p: nat, w: seq<real>) returns (w': seq<real>)
    requires IsShape(M, cols + 1) && i <= p < |M| && i < cols && M[p][i] != 0.0
    requires ZerosBelow(M, i) && DependentRows(M, w, cols + 1)
    ensures DependentRows(EliminateBelow(SwapRows(M, i, p), i), w', cols + 1)
  {
    var S := SwapRows(M, i, p);
    var w1 := SwapKeepsDependency(M, w, i, p, cols + 1);
    assert S[i] == M[p];
    w' := EliminateKeepsDependency(S, w1, i, cols + 1);
  }

  /** The row, at or below row i, holding the largest |m[row, i]|; the first such row on ties. */
  method FindPivot(m: array2<real>, i: nat) returns (pivotRow: nat)
    requires i < m.Length0 && i < m.Length1
    ensures i <= pivotRow < m.Length0
    ensures forall r :: i <= r < m.Length0 ==> ZMethods.Abs(m[r, i]) <= ZMethods.Abs(m[pivotRow, i])
    ensures forall r :: i <= r < pivotRow ==> ZMethods.Abs(m[r, i]) < ZMethods.Abs(m[pivotRow, i])
    ensures pivotRow == PivotAmong(Snapshot(m), i, m.Length0)
  {
    ghost var M := Snapshot(m);
    pivotRow := i;
    for j := i + 1 to m.Length0
      invariant i <= pivotRow < j
      invariant pivotRow == PivotAmong(M, i, j)
    {
      assert m[j, i] == M[j][i] && m[pivotRow, i] == M[pivotRow][i];
      PivotAmongStep(M, i, j);
      if ZMethods.Abs(m[j, i]) > ZMethods.Abs(m[pivotRow, i]) {
        pivotRow := j;
      }
    }
  }

  /** Extending the candidate rows by row j keeps the pivot unless row j is strictly larger. */
  lemma PivotAmongStep(M: Matrix, i: nat, j: nat)
    requires i < j < |M| && forall r :: i <= r <= j ==> i < |M[r]|
    ensures var p := PivotAmong(M, i, j);
      PivotAmong(M, i, j + 1) == if ZMethods.Abs(M[j][i]) > ZMethods.Abs(M[p][i]) then j else p
  {
  }

  /** Exchanges rows i and p across every column; no other entry changes. */
  method ExchangeRows(m: array2<real>, i: nat, p: nat)
    requires i < m.Length0 && p < m.Length0
    modifies m
    ensures Snapshot(m) == SwapRows(old(Snapshot(m)), i, p)
  {
    ghost var M := Snapshot(m);
    for j := 0 to m.Length1
      invariant forall r, c :: 0 <= r < m.Length0 && 0 <= c < m.Length1 ==>
        m[r, c] == (if c < j && r == i then M[p][c] else if c < j && r == p then M[i][c] else M[r][c])
    {
      m[i, j], m[p, j] := m[p, j], m[i, j];
    }
    SnapshotIs(m, SwapRows(M, i, p));
  }

  /** Row j minus factor times row i, written from column i rightwards (the inner loop
      of the elimination); every other entry is left as it was. */
  method SubtractRowMultiple(m: array2<real>, i: nat, j: nat, factor: real)
    requires i < m.Length1 && i < m.Length0 && j < m.Length0 && i != j
    modifies m
    ensures forall r, c :: 0 <= r < m.Length0 && 0 <= c < m.Length1 ==>
      m[r, c] == if r == j && i <= c then old(m[j, c]) - factor * old(m[i, c]) else old(m[r, c])
  {
    for k := i to m.Length1
      invariant forall r, c :: 0 <= r < m.Length0 && 0 <= c < m.Length1 ==>
        m[r, c] == if r == j && i <= c < k then old(m[j, c]) - factor * old(m[i, c]) else old(m[r, c])
    {
      m[j, k] := m[j, k] - factor * m[i, k];
    }
  }

  /** Subtracts from each row below row i the multiple of row i that clears column i;
      only columns i and right of it are written, and rows 0..i are not touched. */
  method EliminateColumn(m: array2<real>, i: nat)
    requires i < m.Length0 && i < m.Length1 && m[i, i] != 0.0
    modifies m
    ensures Snapshot(m) == EliminateBelow(old(Snapshot(m)), i)
  {
    ghost var M := Snapshot(m);
    for j := i + 1 to m.Length0
      invariant forall r, c :: 0 <= r < m.Length0 && 0 <= c < m.Length1 ==>
        m[r, c] == if i < r < j && i <= c then M[r][c] - (M[r][i] / M[i][i]) * M[i][c] else M[r][c]
    {
      var factor := m[j, i] / m[i, i];
      SubtractRowMultiple(m, i, j, factor);
    }
    ghost var E := EliminateBelow(M, i);
    forall r, c | 0 <= r < m.Length0 && 0 <= c < m.Length1 ensures E[r][c] == m[r, c] {
      EliminateBelowAt(M, i, r, c);
    }
    SnapshotIs(m, E);
  }

  /** Back-substitution over the reduced first cols rows: solution[i] is computed for
      i = cols-1 down to 0 into a fresh vector of zeros; rows cols and beyond are never read. */
  method BackSubstitute(m: array2<real>) returns (solution: seq<real>)
    requires 1 <= m.Length1 && m.Length1 - 1 <= m.Length0
    requires ZerosBelow(Snapshot(m), m.Length1 - 1) && PivotsNonzero(Snapshot(m), m.Length1 - 1)
    ensures solution == BackValues(Snapshot(m), m.Length1 - 1, 0)
    ensures forall r :: 0 <= r < m.Length1 - 1 ==> RowHolds(Snapshot(m)[r], solution, m.Length1 - 1)
  {
    var cols := m.Length1 - 1;
    ghost var M := Snapshot(m);
    var x := new real[cols](_ => 0.0);
    var i := cols;
    while i > 0
      invariant 0 <= i <= cols
      invariant x[..] == BackValues(M, cols, i)
    {
      i := i - 1;
      var sum := RowRemainder(m, x, i);
      x[i] := sum / m[i, i];
    }
    solution := x[..];
    BackValuesSolve(M, cols, 0);
  }

  /** One elimination step: row pivotRow is exchanged into place i (when it is not
      already there) and the entries below the pivot are cleared. */
  method ReduceColumn(m: array2<real>, i: nat, pivotRow: nat)
    requires i < m.Length0 && i < m.Length1 && i <= pivotRow < m.Length0
    requires m[pivotRow, i] != 0.0
    modifies m
    ensures Snapshot(m) == EliminateBelow(SwapRows(old(Snapshot(m)), i, pivotRow), i)
  {
    ghost var B := Snapshot(m);
    if pivotRow != i {
      ExchangeRows(m, i, pivotRow);
    }
    assert Snapshot(m) == SwapRows(B, i, pivotRow);
    EliminateColumn(m, i);
  }

  /** The right-hand side of row i minus the terms of the unknowns after i. */
  method RowRemainder(m: array2<real>, x: array<real>, i: nat) returns (sum: real)
    requires i < m.Length0 && m.Length1 == x.Length + 1 && i < x.Length
    ensures sum == Snapshot(m)[i][x.Length] - DotRange(Snapshot(m)[i], x[..], i + 1, x.Length)
  {
    var cols := x.Length;
    ghost var row := Snapshot(m)[i];
    sum := m[i, cols];
    for j := i + 1 to cols
      invariant sum == row[cols] - DotRange(row, x[..], i + 1, j)
    {
      sum := sum - m[i, j] * x[j];
    }
  }

  /**
    TrySolveLinearEquation on an augmented matrix (coefficients, then the result
    column), changed in place. With cols = m.Length1 - 1 unknowns the returned value
    is GaussSolve of the input and, when cols <= rows, the matrix is left as forward
    elimination leaves it (the input itself when cols > rows). On success the
    returned vector solves the reduced equations 0..cols-1, every exact solution
    of the input system equals it, and it solves the input system exactly when the
    surplus equations (which are never checked) reduced to 0 = 0.
  */
  method TrySolveAugmented(m: array2<real>) returns (solution: Option<seq<real>>)
    requires 1 <= m.Length1
    modifies m
    ensures solution == GaussSolve(old(Snapshot(m)), m.Length1 - 1)
    ensures m.Length1 - 1 > m.Length0 ==> solution == None && Snapshot(m) == old(Snapshot(m))
    ensures m.Length1 - 1 <= m.Length0 ==> Snapshot(m) == ReduceFrom(old(Snapshot(m)), m.Length1 - 1, 0).matrix
    ensures SameSolutions(old(Snapshot(m)), Snapshot(m), m.Length1 - 1)
    ensures solution.None? && m.Length1 - 1 <= m.Length0 ==>
      exists c :: 0 <= c < m.Length1 - 1 && ColumnNegligible(Snapshot(m), c)
    ensures solution.Some? ==> |solution.value| == m.Length1 - 1
    ensures solution.Some? ==> forall c :: 0 <= c < m.Length1 - 1 ==> !IsZeroPivot(Snapshot(m)[c][c])
    ensures solution.Some? ==> ZerosBelow(Snapshot(m), m.Length1 - 1) && PivotsNonzero(Snapshot(m), m.Length1 - 1)
    ensures solution.Some? ==> forall r :: 0 <= r < m.Length1 - 1 ==> RowHolds(Snapshot(m)[r], solution.value, m.Length1 - 1)
    ensures solution.Some? ==> OnlySolution(old(Snapshot(m)), m.Length1 - 1, solution.value)
    ensures solution.Some? ==> (SolvesAll(old(Snapshot(m)), solution.value, m.Length1 - 1) <==>
      SurplusVanishes(Snapshot(m), m.Length1 - 1))
  {
    var rows := m.Length0;
    var cols := m.Length1 - 1;
    if cols > rows {
      return None;
    }
    ghost var M0 := Snapshot(m);
    ReduceFromMeaning(M0, cols, 0);
    GaussSolveMeaning(M0, cols);
    var steps := if rows < cols then rows else cols;
    for i := 0 to steps
      invariant ReduceFrom(Snapshot(m), cols, i) == ReduceFrom(M0, cols, 0)
    {
      var pivotRow := FindPivot(m, i);
      if IsZeroPivot(m[pivotRow, i]) {
        return None;
      }
      ZMethods.SameAsZeroIffSmall(m[pivotRow, i]);
      ReduceColumn(m, i, pivotRow);
    }
    var x := BackSubstitute(m);
    solution := Some(x);
  }

  /** The coefficient matrix with the result vector appended as its last column. */
  function Augment(C: Matrix, b: seq<real>, cols: nat): (A: Matrix)
    requires |C| == |b| && IsShape(C, cols)
    ensures |A| == |C| && IsShape(A, cols + 1)
    ensures forall r :: 0 <= r < |A| ==> A[r][..cols] == C[r] && A[r][cols] == b[r]
  {
    seq(|C|, r requires 0 <= r < |C| => C[r] + [b[r]])
  }

  /**
    TrySolveLinearEquation on a coefficient matrix and a result vector. It fails
    when rows != result.Length or cols > rows; otherwise it solves the augmented
    matrix, a fresh copy, so the caller's arrays are not changed. The returned value
    is GaussSolve of the augmented system; every exact solution of the system equals
    it, and for a square system it is a solution.
  */
  method TrySolveLinearEquation(coefficients: array2<real>, result: array<real>) returns (solution: Option<seq<real>>)
    ensures coefficients.Length0 != result.Length || coefficients.Length1 > coefficients.Length0 ==> solution == None
    ensures coefficients.Length0 == result.Length ==>
      solution == GaussSolve(Augment(Snapshot(coefficients), result[..], coefficients.Length1), coefficients.Length1)
    ensures solution.Some? ==> coefficients.Length0 == result.Length && |solution.value| == coefficients.Length1
    ensures solution.Some? ==>
      OnlySolution(Augment(Snapshot(coefficients), result[..], coefficients.Length1), coefficients.Length1, solution.value)
    ensures solution.Some? && coefficients.Length0 == coefficients.Length1 ==>
      SolvesAll(Augment(Snapshot(coefficients), result[..], coefficients.Length1), solution.value, coefficients.Length1)
  {
    var rows := coefficients.Length0;
    var cols := coefficients.Length1;
    if rows != result.Length || cols > rows {
      return None;
    }
    var augmented := new real[rows, cols + 1];
    for i := 0 to rows
      invariant forall r, c :: 0 <= r < i && 0 <= c <= cols ==>
        augmented[r, c] == if c < cols then coefficients[r, c] else result[r]
    {
      for j := 0 to cols
        invariant forall r, c :: 0 <= r < i && 0 <= c <= cols ==>
          augmented[r, c] == if c < cols then coefficients[r, c] else result[r]
        invariant forall c :: 0 <= c < j ==> augmented[i, c] == coefficients[i, c]
      {
        augmented[i, j] := coefficients[i, j];
      }
      augmented[i, cols] := result[i];
    }
    ghost var A := Augment(Snapshot(coefficients), result[..], cols);
    SnapshotIs(augmented, A);
    solution := TrySolveAugmented(augmented);
  }

  /** The continuous-time generator: off-diagonal p[i,j] / h[j], diagonal -(1 - p[i,i]) / h[i]. */
  function TimeGenerator(h: seq<real>, P: Matrix): (G: Matrix)
    requires |P| == |h| && IsShape(P, |h|) && forall j :: 0 <= j < |h| ==> h[j] != 0.0
    ensures |G| == |h| && IsShape(G, |h|)
  {
    seq(|h|, i requires 0 <= i < |h| =>
      seq(|h|, j requires 0 <= j < |h| => TimeRate(i, j, P[i][j], h[j])))
  }

  /** Entry (i, j) of the time-weighted generator from p[i,j] and the holding time h[j]. */
  function TimeRate(i: nat, j: nat, pij: real, hj: real): real
    requires hj != 0.0
  {
    if i == j then -1.0 * (1.0 - pij) / hj else pij / hj
  }

  /** The matrix the simple form builds: only the diagonal -(1 - p[i,i]); every other entry 0. */
  function DiagonalGenerator(P: Matrix): (G: Matrix)
    requires IsShape(P, |P|)
    ensures |G| == |P| && IsShape(G, |P|)
    ensures forall i, j :: 0 <= i < |P| && 0 <= j < |P| ==> G[i][j] == if i == j then P[i][i] - 1.0 else 0.0
  {
    seq(|P|, i requires 0 <= i < |P| =>
      seq(|P|, j requires 0 <= j < |P| => if i == j then -1.0 * (1.0 - P[i][i]) else 0.0))
  }

  /** The (n+1) x (n+1) augmented system of the common builder: the n x n matrix top-left,
      0 as right-hand side of rows 0..n-1, and an appended row of ones, right-hand side included. */
  function SteadyStateSystem(G: Matrix): (A: Matrix)
    requires IsShape(G, |G|)
    ensures |A| == |G| + 1 && IsShape(A, |G| + 1)
    ensures forall r :: 0 <= r < |G| ==> A[r][..|G|] == G[r] && A[r][|G|] == 0.0
    ensures forall c :: 0 <= c <= |G| ==> A[|G|][c] == 1.0
  {
    seq(|G| + 1, r requires 0 <= r <= |G| =>
      if r < |G| then G[r] + [0.0] else seq(|G| + 1, _ => 1.0))
  }

  /** A vector solves the steady-state system exactly when it sums to 1 and every
      balance equation (row i of the generator against x) is 0. */
  lemma SteadyStateMeaning(G: Matrix, x: seq<real>)
    requires IsShape(G, |G|) && |x| == |G|
    ensures SolvesAll(SteadyStateSystem(G), x, |G|) <==>
      Sum(x) == 1.0 && forall i :: 0 <= i < |G| ==> DotRange(G[i], x, 0, |G|) == 0.0
  {
    var n := |G|;
    var A := SteadyStateSystem(G);
    forall i | 0 <= i < n ensures RowHolds(A[i], x, n) <==> DotRange(G[i], x, 0, n) == 0.0 {
      DotRangeSameEntries(A[i], G[i], x, 0, n);
    }
    DotRangeOnes(A[n], x, n);
    assert x[..n] == x;
  }

  /** When every column of G sums to 0, the n balance rows of the steady-state system add
      up to the zero row: weight 1 on each of them and 0 on the normalisation row. */
  lemma SteadyDependency(G: Matrix) returns (w: seq<real>)
    requires IsShape(G, |G|) && 1 <= |G|
    requires forall j :: 0 <= j < |G| ==> ColumnSum(G, j, |G|) == 0.0
    ensures DependentRows(SteadyStateSystem(G), w, |G| + 1)
  {
    var n := |G|;
    var A := SteadyStateSystem(G);
    w := seq(n + 1, r requires 0 <= r <= n => if r < n then 1.0 else 0.0);
    forall c | 0 <= c < n + 1 ensures DotRange(Column(A, c), w, 0, n + 1) == 0.0 {
      var col := Column(A, c);
      if c < n {
        forall r | 0 <= r < n ensures col[r] == G[r][c] {
          assert A[r] == G[r] + [0.0];
        }
        DotRangeColumnSum(G, c, col, w, n);
      } else {
        forall r | 0 <= r < n ensures col[r] == 0.0 {
          assert A[r] == G[r] + [0.0];
        }
        DotRangeAllZero(col, w, n + 1);
      }
    }
    assert w[0] != 0.0;
  }

  /** When every column of G sums to 0 (at least one state), a vector that the solver
      returns for the steady-state system solves it: the normalisation row, or whichever
      row elimination leaves last, necessarily reduces to 0 = 0. */
  lemma BalancedSystemSolved(G: Matrix)
    requires IsShape(G, |G|) && 1 <= |G|
    requires forall j :: 0 <= j < |G| ==> ColumnSum(G, j, |G|) == 0.0
    ensures GaussSolve(SteadyStateSystem(G), |G|).Some? ==>
      SolvesAll(SteadyStateSystem(G), GaussSolve(SteadyStateSystem(G), |G|).value, |G|)
  {
    var n := |G|;
    var A := SteadyStateSystem(G);
    var w := SteadyDependency(G);
    var R := ReduceFrom(A, n, 0);
    if R.complete {
      ReduceFromMeaning(A, n, 0);
      var w' := ReduceFromKeepsDependency(A, n, 0, w);
      ReducedDependencyForcesZero(R.matrix, w', n);
      LastRowSurplus(R.matrix, n);
      GaussSolveMeaning(A, n);
    }
  }

  /** With n + 1 rows, the only surplus row is row n. */
  lemma LastRowSurplus(R: Matrix, n: nat)
    requires |R| == n + 1 && n < |R[n]| && R[n][n] == 0.0
    ensures SurplusVanishes(R, n)
  {
  }

  /** The augmented system of the common builder, filled by its three loops. */
  method BuildSteadyStateSystem(t: array2<real>) returns (a: array2<real>)
    requires t.Length0 == t.Length1
    ensures fresh(a) && a.Length0 == a.Length1 == t.Length0 + 1
    ensures Snapshot(a) == SteadyStateSystem(Snapshot(t))
  {
    var n := t.Length0;
    a := new real[n + 1, n + 1];
    for i := 0 to n
      invariant forall r, c :: 0 <= r < i && 0 <= c < n ==> a[r, c] == t[r, c]
    {
      for j := 0 to n
        invariant forall r, c :: 0 <= r < i && 0 <= c < n ==> a[r, c] == t[r, c]
        invariant forall c :: 0 <= c < j ==> a[i, c] == t[i, c]
      {
        a[i, j] := t[i, j];
      }
    }
    for i := 0 to n + 1
      invariant forall r, c :: 0 <= r < n && 0 <= c < n ==> a[r, c] == t[r, c]
      invariant forall r :: 0 <= r < i ==> a[r, n] == 0.0
    {
      a[i, n] := 0.0;
    }
    for j := 0 to n + 1
      invariant forall r, c :: 0 <= r < n && 0 <= c < n ==> a[r, c] == t[r, c]
      invariant forall r :: 0 <= r < n ==> a[r, n] == 0.0
      invariant forall c :: 0 <= c < j ==> a[n, c] == 1.0
    {
      a[n, j] := 1.0;
    }
    SnapshotIs(a, SteadyStateSystem(Snapshot(t)));
  }

  /** CalculateMarkovSteadyStateProbabilitiesCommon: solves the (n+1)-equation system
      for n unknowns, with GaussSolve's outcome. Every exact solution of that system is
      the returned vector. */
  method CalculateMarkovSteadyStateProbabilitiesCommon(t: array2<real>) returns (r: Option<seq<real>>)
    requires t.Length0 == t.Length1
    ensures r == GaussSolve(SteadyStateSystem(Snapshot(t)), t.Length0)
    ensures r.Some? ==> |r.value| == t.Length0
    ensures r.Some? ==> OnlySolution(SteadyStateSystem(Snapshot(t)), t.Length0, r.value)
    ensures r.Some? && 1 <= t.Length0 && (forall j :: 0 <= j < t.Length0 ==> ColumnSum(Snapshot(t), j, t.Length0) == 0.0) ==>
      SolvesAll(SteadyStateSystem(Snapshot(t)), r.value, t.Length0)
  {
    var a := BuildSteadyStateSystem(t);
    r := TrySolveAugmented(a);
    if 1 <= t.Length0 && forall j :: 0 <= j < t.Length0 ==> ColumnSum(Snapshot(t), j, t.Length0) == 0.0 {
      BalancedSystemSolved(Snapshot(t));
    }
  }

  /** The generator loop of CalculateTimeMarkovSteadyStateProbabilities. */
  method FillTimeGenerator(holdingTimes: array<real>, p: array2<real>) returns (g: array2<real>)
    requires holdingTimes.Length == p.Length0 == p.Length1
    requires forall j :: 0 <= j < holdingTimes.Length ==> holdingTimes[j] != 0.0
    ensures fresh(g) && g.Length0 == g.Length1 == holdingTimes.Length
    ensures Snapshot(g) == TimeGenerator(holdingTimes[..], Snapshot(p))
  {
    var n := holdingTimes.Length;
    g := new real[n, n];
    for i := 0 to n
      invariant forall r, c :: 0 <= r < i && 0 <= c < n ==> g[r, c] == TimeRate(r, c, p[r, c], holdingTimes[c])
    {
      for j := 0 to n
        invariant forall r, c :: 0 <= r < i && 0 <= c < n ==> g[r, c] == TimeRate(r, c, p[r, c], holdingTimes[c])
        invariant forall c :: 0 <= c < j ==> g[i, c] == TimeRate(i, c, p[i, c], holdingTimes[c])
      {
        if i == j {
          g[i, i] := -1.0 * (1.0 - p[i, i]) / holdingTimes[j];
        } else {
          g[i, j] := p[i, j] / holdingTimes[j];
        }
      }
    }
    SnapshotIs(g, TimeGenerator(holdingTimes[..], Snapshot(p)));
  }

  /**
    CalculateTimeMarkovSteadyStateProbabilities: null when the matrix is not n x n for
    n = holdingTimes.Length or when a holding time is 0; otherwise the solution of the
    steady-state system of the continuous-time generator.
  */
  method CalculateTimeMarkovSteadyStateProbabilities(holdingTimes: array<real>, p: array2<real>) returns (r: Option<seq<real>>)
    ensures holdingTimes.Length != p.Length0 || holdingTimes.Length != p.Length1 ==> r == None
    ensures (exists j :: 0 <= j < holdingTimes.Length && holdingTimes[j] == 0.0) ==> r == None
    ensures r.Some? ==> holdingTimes.Length == p.Length0 == p.Length1 && |r.value| == holdingTimes.Length
    ensures r.Some? ==> forall j :: 0 <= j < holdingTimes.Length ==> holdingTimes[j] != 0.0
    ensures r.Some? ==>
      OnlySolution(SteadyStateSystem(TimeGenerator(holdingTimes[..], Snapshot(p))), holdingTimes.Length, r.value)
    ensures holdingTimes.Length == p.Length0 == p.Length1 && (forall j :: 0 <= j < holdingTimes.Length ==> holdingTimes[j] != 0.0) ==>
      r == GaussSolve(SteadyStateSystem(TimeGenerator(holdingTimes[..], Snapshot(p))), holdingTimes.Length)
    ensures r.Some? && 1 <= holdingTimes.Length && ColumnsSumToOne(Snapshot(p), holdingTimes.Length) ==>
      SolvesAll(SteadyStateSystem(TimeGenerator(holdingTimes[..], Snapshot(p))), r.value, holdingTimes.Length)
  {
    var n := holdingTimes.Length;
    if n != p.Length0 || n != p.Length1 {
      return None;
    }
    if exists j :: 0 <= j < n && holdingTimes[j] == 0.0 {
      return None;
    }
    var g := FillTimeGenerator(holdingTimes, p);
    r := CalculateMarkovSteadyStateProbabilitiesCommon(g);
    if ColumnsSumToOne(Snapshot(p), n) {
      TimeColumnsBalanced(holdingTimes[..], Snapshot(p));
    }
  }

  /** Every column j < n of P sums to 1 over its first n rows. */
  ghost predicate ColumnsSumToOne(P: Matrix, n: nat)
    requires n <= |P| && forall r :: 0 <= r < n ==> n <= |P[r]|
  {
    forall j :: 0 <= j < n ==> ColumnSum(P, j, n) == 1.0
  }

  /** When every column of P sums to 1, every column of the time-weighted generator sums to 0. */
  lemma TimeColumnsBalanced(h: seq<real>, P: Matrix)
    requires |P| == |h| && IsShape(P, |h|) && forall i :: 0 <= i < |h| ==> h[i] != 0.0
    requires ColumnsSumToOne(P, |h|)
    ensures forall j :: 0 <= j < |h| ==> ColumnSum(TimeGenerator(h, P), j, |h|) == 0.0
  {
    forall j | 0 <= j < |h| ensures ColumnSum(TimeGenerator(h, P), j, |h|) == 0.0 {
      TimeGeneratorColumnSum(h, P, j, |h|);
      ZeroProductFactor(ColumnSum(TimeGenerator(h, P), j, |h|), h[j]);
    }
  }

  /** Column j of the time-weighted generator, scaled by h[j], sums to the column sum of P
      minus 1: the outflow of state j balances its inflows when that column sums to 1. */
  lemma {:induction false} TimeGeneratorColumnSum(h: seq<real>, P: Matrix, j: nat, k: nat)
    requires |P| == |h| && IsShape(P, |h|) && forall i :: 0 <= i < |h| ==> h[i] != 0.0
    requires j < |h| && k <= |h|
    ensures ColumnSum(TimeGenerator(h, P), j, k) * h[j] == ColumnSum(P, j, k) - (if j < k then 1.0 else 0.0)
  {
    if 0 < k {
      var T := TimeGenerator(h, P);
      TimeGeneratorColumnSum(h, P, j, k - 1);
      assert T[k - 1][j] == TimeRate(k - 1, j, P[k - 1][j], h[j]);
      TimeRateScaled(k - 1, j, P[k - 1][j], h[j]);
      Distribute(ColumnSum(T, j, k - 1), T[k - 1][j], h[j]);
    }
  }

  /** Every time-weighted rate times its holding time is the transition probability, less 1
      on the diagonal. */
  lemma TimeGeneratorEntries(h: seq<real>, P: Matrix)
    requires |P| == |h| && IsShape(P, |h|) && forall j :: 0 <= j < |h| ==> h[j] != 0.0
    ensures forall i, j :: 0 <= i < |h| && 0 <= j < |h| ==>
      TimeGenerator(h, P)[i][j] * h[j] == P[i][j] - (if i == j then 1.0 else 0.0)
  {
    forall i, j | 0 <= i < |h| && 0 <= j < |h|
      ensures TimeGenerator(h, P)[i][j] * h[j] == P[i][j] - (if i == j then 1.0 else 0.0)
    {
      TimeRateScaled(i, j, P[i][j], h[j]);
    }
  }

  /** A time-weighted rate times the holding time is the transition probability, less 1 on the diagonal. */
  lemma TimeRateScaled(i: nat, j: nat, pij: real, hj: real)
    requires hj != 0.0
    ensures TimeRate(i, j, pij, hj) * hj == pij - (if i == j then 1.0 else 0.0)
  {
  }

  lemma Distribute(a: real, b: real, c: real)
    ensures (a + b) * c == a * c + b * c
  {
  }

  /** A product with a non-zero factor is 0 only when the other factor is. */
  lemma ZeroProductFactor(a: real, b: real)
    requires b != 0.0 && a * b == 0.0
    ensures a == 0.0
  {
  }

  /**
    CalculateMarkovSteadyStateProbabilities, as written: null for a non-square matrix;
    otherwise only the diagonal -(1 - p[i,i]) is filled and the off-diagonal entries stay 0.
    When no p[i,i] is 1 that system has no solution at all, so whatever vector is
    returned does not satisfy it.
  */
  method CalculateMarkovSteadyStateProbabilities(p: array2<real>) returns (r: Option<seq<real>>)
    ensures p.Length0 != p.Length1 ==> r == None
    ensures r.Some? ==> p.Length0 == p.Length1 && |r.value| == p.Length0
    ensures p.Length0 == p.Length1 ==> r == GaussSolve(SteadyStateSystem(DiagonalGenerator(Snapshot(p))), p.Length0)
    ensures r.Some? ==> OnlySolution(SteadyStateSystem(DiagonalGenerator(Snapshot(p))), p.Length0, r.value)
    ensures r.Some? && (forall i :: 0 <= i < p.Length0 ==> p[i, i] != 1.0) ==>
      !SolvesAll(SteadyStateSystem(DiagonalGenerator(Snapshot(p))), r.value, p.Length0)
  {
    var n := p.Length0;
    if n != p.Length1 {
      return None;
    }
    var t := FillDiagonalGenerator(p);
    r := CalculateMarkovSteadyStateProbabilitiesCommon(t);
    if r.Some? && (forall i :: 0 <= i < n ==> p[i, i] != 1.0) {
      DiagonalSystemHasNoSolution(Snapshot(p), r.value);
    }
  }

  /** The generator loop of CalculateMarkovSteadyStateProbabilities as written: only the diagonal is set. */
  method FillDiagonalGenerator(p: array2<real>) returns (t: array2<real>)
    requires p.Length0 == p.Length1
    ensures fresh(t) && t.Length0 == t.Length1 == p.Length0
    ensures Snapshot(t) == DiagonalGenerator(Snapshot(p))
  {
    var n := p.Length0;
    t := new real[n, n]((_, _) => 0.0);
    for i := 0 to n
      invariant forall r, c :: 0 <= r < n && 0 <= c < n ==>
        t[r, c] == if r == c && r < i then -1.0 * (1.0 - p[r, r]) else 0.0
    {
      t[i, i] := -1.0 * (1.0 - p[i, i]);
    }
    SnapshotIs(t, DiagonalGenerator(Snapshot(p)));
  }

  /** With every p[i,i] != 1 the diagonal-only balance equations force x = 0,
      which contradicts the normalisation row. */
  lemma DiagonalSystemHasNoSolution(P: Matrix, x: seq<real>)
    requires IsShape(P, |P|) && |x| == |P|
    requires forall i :: 0 <= i < |P| ==> P[i][i] != 1.0
    ensures !SolvesAll(SteadyStateSystem(DiagonalGenerator(P)), x, |P|)
  {
    var n := |P|;
    var D := DiagonalGenerator(P);
    if SolvesAll(SteadyStateSystem(D), x, n) {
      SteadyStateMeaning(D, x);
      forall i | 0 <= i < n ensures x[i] == 0.0 {
        DotRangeSingle(D[i], x, i, n);
        assert D[i][i] * x[i] == 0.0;
        assert D[i][i] != 0.0;
      }
      SumOfZeros(x);
    }
  }

  /** The full generator of a transition matrix whose column j holds the transitions
      out of state j: off-diagonal p[i,j], diagonal -(1 - p[i,i]). */
  function FullGenerator(P: Matrix): (G: Matrix)
    requires IsShape(P, |P|)
    ensures |G| == |P| && IsShape(G, |P|)
    ensures forall i, j :: 0 <= i < |P| && 0 <= j < |P| ==> G[i][j] == P[i][j] - (if i == j then 1.0 else 0.0)
  {
    seq(|P|, i requires 0 <= i < |P| =>
      seq(|P|, j requires 0 <= j < |P| => if i == j then -1.0 * (1.0 - P[i][i]) else P[i][j]))
  }

  /** x is a stationary distribution of P: its entries sum to 1 and P x = x. */
  ghost predicate IsStationary(P: Matrix, x: seq<real>)
    requires IsShape(P, |P|)
  {
    |x| == |P| && Sum(x) == 1.0 && forall i :: 0 <= i < |P| ==> DotRange(P[i], x, 0, |P|) == x[i]
  }

  /** The full generator is the continuous-time generator with every holding time 1. */
  lemma FullGeneratorIsUnitTimeGenerator(P: Matrix)
    requires IsShape(P, |P|)
    ensures FullGenerator(P) == TimeGenerator(seq(|P|, _ => 1.0), P)
  {
    var n := |P|;
    var F, T := FullGenerator(P), TimeGenerator(seq(n, _ => 1.0), P);
    forall i | 0 <= i < n ensures F[i] == T[i] {
      forall j | 0 <= j < n ensures F[i][j] == T[i][j] {
        if i == j {
          assert T[i][i] == -1.0 * (1.0 - P[i][i]) / 1.0;
        } else {
          assert T[i][j] == P[i][j] / 1.0;
        }
      }
    }
  }

  /** Row i of the full generator against x is the inflow (P x)[i] minus x[i]. */
  lemma FullGeneratorRow(P: Matrix, x: seq<real>, i: nat)
    requires IsShape(P, |P|) && |x| == |P| && i < |P|
    ensures DotRange(FullGenerator(P)[i], x, 0, |P|) == DotRange(P[i], x, 0, |P|) - x[i]
  {
    var n := |P|;
    var unit := seq(n, j requires 0 <= j < n => if j == i then 1.0 else 0.0);
    var g := FullGenerator(P)[i];
    forall k | 0 <= k < n ensures g[k] == P[i][k] - unit[k] {
      assert unit[k] == if k == i then 1.0 else 0.0;
    }
    DotRangeDifference(P[i], unit, g, x, n);
    DotRangeSingle(unit, x, i, n);
    assert unit[i] == 1.0;
  }

  /** The steady-state system built on the full generator is solved exactly by the
      stationary distributions of P. */
  lemma FullSystemMeaning(P: Matrix, x: seq<real>)
    requires IsShape(P, |P|) && |x| == |P|
    ensures SolvesAll(SteadyStateSystem(FullGenerator(P)), x, |P|) <==> IsStationary(P, x)
  {
    SteadyStateMeaning(FullGenerator(P), x);
    forall i | 0 <= i < |P|
      ensures DotRange(FullGenerator(P)[i], x, 0, |P|) == DotRange(P[i], x, 0, |P|) - x[i]
    {
      FullGeneratorRow(P, x, i);
    }
  }

  /** Column j of the full generator sums to the column sum of P minus 1, so when every
      column of P sums to 1 the balance equations are dependent and the appended
      normalisation row is what pins the solution down. */
  lemma {:induction false} FullGeneratorColumnSum(P: Matrix, j: nat, k: nat)
    requires IsShape(P, |P|) && j < |P| && k <= |P|
    ensures ColumnSum(FullGenerator(P), j, k) == ColumnSum(P, j, k) - (if j < k then 1.0 else 0.0)
  {
    if 0 < k {
      FullGeneratorColumnSum(P, j, k - 1);
    }
  }

  /**
    CalculateMarkovSteadyStateProbabilities as its documentation describes it: the full
    generator, off-diagonal transitions included. Any stationary distribution of p is
    the returned vector.
  */
  method CalculateMarkovSteadyStateProbabilitiesCorrected(p: array2<real>) returns (r: Option<seq<real>>)
    ensures p.Length0 != p.Length1 ==> r == None
    ensures r.Some? ==> p.Length0 == p.Length1 && |r.value| == p.Length0
    ensures p.Length0 == p.Length1 ==> r == GaussSolve(SteadyStateSystem(FullGenerator(Snapshot(p))), p.Length0)
    ensures r.Some? ==> forall x :: IsStationary(Snapshot(p), x) ==> x == r.value
    ensures r.Some? && 1 <= p.Length0 && ColumnsSumToOne(Snapshot(p), p.Length0) ==>
      IsStationary(Snapshot(p), r.value)
  {
    var n := p.Length0;
    if n != p.Length1 {
      return None;
    }
    var t := FillFullGenerator(p);
    r := CalculateMarkovSteadyStateProbabilitiesCommon(t);
    if r.Some? {
      forall x | IsStationary(Snapshot(p), x) ensures x == r.value {
        FullSystemMeaning(Snapshot(p), x);
      }
      if 1 <= n && ColumnsSumToOne(Snapshot(p), n) {
        StochasticResultIsStationary(Snapshot(p));
      }
    }
  }

  /** The generator loop of the corrected steady-state method: p with 1 taken off the diagonal. */
  method FillFullGenerator(p: array2<real>) returns (t: array2<real>)
    requires p.Length0 == p.Length1
    ensures fresh(t) && t.Length0 == t.Length1 == p.Length0
    ensures Snapshot(t) == FullGenerator(Snapshot(p))
  {
    var n := p.Length0;
    t := new real[n, n];
    for i := 0 to n
      invariant forall r, c :: 0 <= r < i && 0 <= c < n ==>
        t[r, c] == if r == c then -1.0 * (1.0 - p[r, r]) else p[r, c]
    {
      for j := 0 to n
        invariant forall r, c :: 0 <= r < i && 0 <= c < n ==>
          t[r, c] == if r == c then -1.0 * (1.0 - p[r, r]) else p[r, c]
        invariant forall c :: 0 <= c < j ==> t[i, c] == if i == c then -1.0 * (1.0 - p[i, i]) else p[i, c]
      {
        if i == j {
          t[i, i] := -1.0 * (1.0 - p[i, i]);
        } else {
          t[i, j] := p[i, j];
        }
      }
    }
    SnapshotIs(t, FullGenerator(Snapshot(p)));
  }

  /** When every column of P sums to 1 (P is column-stochastic, at least one state), a vector
      the corrected solver returns is a stationary distribution of P. */
  lemma StochasticResultIsStationary(P: Matrix)
    requires IsShape(P, |P|) && 1 <= |P| && ColumnsSumToOne(P, |P|)
    ensures GaussSolve(SteadyStateSystem(FullGenerator(P)), |P|).Some? ==>
      IsStationary(P, GaussSolve(SteadyStateSystem(FullGenerator(P)), |P|).value)
  {
    var n := |P|;
    var G := FullGenerator(P);
    forall j | 0 <= j < n ensures ColumnSum(G, j, n) == 0.0 {
      FullGeneratorColumnSum(P, j, n);
    }
    BalancedSystemSolved(G);
    var s := GaussSolve(SteadyStateSystem(G), n);
    if s.Some? {
      FullSystemMeaning(P, s.value);
    }
  }

  /** A two-state chain whose stationary distribution is (2/3, 1/3): the corrected system
      accepts it, the diagonal-only system rejects it. */
  lemma TwoStateExample()
    ensures var P := [[0.9, 0.2], [0.1, 0.8]];
      var x := [2.0 / 3.0, 1.0 / 3.0];
      IsStationary(P, x) &&
      SolvesAll(SteadyStateSystem(FullGenerator(P)), x, 2) &&
      !SolvesAll(SteadyStateSystem(DiagonalGenerator(P)), x, 2)
  {
    var P := [[0.9, 0.2], [0.1, 0.8]];
    var x := [2.0 / 3.0, 1.0 / 3.0];
    assert x[..2] == x;
    assert x[..1] == [2.0 / 3.0];
    assert [2.0 / 3.0][..0] == [];
    assert Sum(x) == 1.0;
    assert DotRange(P[0], x, 0, 2) == x[0];
    assert DotRange(P[1], x, 0, 2) == x[1];
    FullSystemMeaning(P, x);
    DiagonalSystemHasNoSolution(P, x);
  }

  /** On the same chain the corrected solver succeeds and returns (2/3, 1/3): the
      normalisation row is the first pivot row, and the row left last reduces to 0 = 0. */
  lemma TwoStateSolved()
    ensures GaussSolve(SteadyStateSystem(FullGenerator([[0.9, 0.2], [0.1, 0.8]])), 2) == Some([2.0 / 3.0, 1.0 / 3.0])
  {
    var A := SteadyStateSystem(FullGenerator([[0.9, 0.2], [0.1, 0.8]]));
    TwoStateSystem();
    TwoStateReduction(A);
    TwoStateExample();
    SolvedByUniqueness(A, 2, [2.0 / 3.0, 1.0 / 3.0]);
  }

  /** When the solver succeeds on a system that x solves exactly, it returns x. */
  lemma SolvedByUniqueness(A: Matrix, cols: nat, x: seq<real>)
    requires IsShape(A, cols + 1) && |x| == cols && GaussSolve(A, cols).Some? && SolvesAll(A, x, cols)
    ensures GaussSolve(A, cols) == Some(x)
  {
    GaussSolveMeaning(A, cols);
  }

  lemma TwoStateSystem()
    ensures SteadyStateSystem(FullGenerator([[0.9, 0.2], [0.1, 0.8]])) ==
      [[-0.1, 0.2, 0.0], [0.1, -0.2, 0.0], [1.0, 1.0, 1.0]]
  {
    var G := FullGenerator([[0.9, 0.2], [0.1, 0.8]]);
    assert G[0] == [-0.1, 0.2] && G[1] == [0.1, -0.2];
    var A := SteadyStateSystem(G);
    assert A[0] == G[0] + [0.0] && A[1] == G[1] + [0.0];
    assert A[0] == [-0.1, 0.2, 0.0] && A[1] == [0.1, -0.2, 0.0];
    assert A[2] == [1.0, 1.0, 1.0];
  }

  lemma TwoStateReduction(A: Matrix)
    requires A == [[-0.1, 0.2, 0.0], [0.1, -0.2, 0.0], [1.0, 1.0, 1.0]]
    ensures ReduceFrom(A, 2, 0).complete && GaussSolve(A, 2).Some?
  {
    assert PivotAmong(A, 0, 3) == 2;
    ZMethods.SameAsZeroIffSmall(1.0);
    var E := [[1.0, 1.0, 1.0], [0.0, -0.3, -0.1], [0.0, 0.3, 0.1]];
    TwoStateFirstStep(A, E);
    assert PivotAmong(E, 1, 3) == 1;
    ZMethods.SameAsZeroIffSmall(-0.3);
    assert ReduceFrom(A, 2, 0) == ReduceFrom(E, 2, 1);
  }

  lemma TwoStateFirstStep(A: Matrix, E: Matrix)
    requires A == [[-0.1, 0.2, 0.0], [0.1, -0.2, 0.0], [1.0, 1.0, 1.0]]
    requires E == [[1.0, 1.0, 1.0], [0.0, -0.3, -0.1], [0.0, 0.3, 0.1]]
    ensures EliminateBelow(SwapRows(A, 0, 2), 0) == E
  {
    var S := SwapRows(A, 0, 2);
    assert S == [[1.0, 1.0, 1.0], [0.1, -0.2, 0.0], [-0.1, 0.2, 0.0]];
    var e1, e2 := EliminatedRow(S[1], S[0], 0), EliminatedRow(S[2], S[0], 0);
    assert e1 == E[1] && e2 == E[2];
    assert EliminateBelow(S, 0) == [S[0], e1, e2];
  }
}
