/**
 * Gaussian elimination to row echelon form (rowReductionToEchelonForm).
 *
 * The reducer walks a current row and a current column from the top left.
 * If the entry at (row, col) is zero it swaps up the first row below with a
 * non-zero entry in that column and counts the swap. If the column still
 * has no non-zero entry at or below `row`, only the column advances.
 * Otherwise the pivot row is divided by its pivot, every row below with a
 * non-zero entry in the column has the right multiple of the pivot row
 * subtracted, and both row and column advance. It stops when either runs out.
 */
module RowEchelonForm {
  import opened Options
  import opened Matrices
  import opened RowOperations
  import opened RowEquivalence

  /** The top-most row at or below `row` whose entry in column `col` is non-zero. */
  function FirstNonZero(M: Mat, row: nat, col: nat): (p: Option<nat>)
    requires IsMatrix(M) && col < Cols(M)
    ensures p.Some? ==> row <= p.value < |M| && M[p.value][col] != 0.0
    ensures p.Some? ==> forall i :: row <= i < p.value ==> M[i][col] == 0.0
    ensures p.None? ==> forall i :: row <= i < |M| ==> M[i][col] == 0.0
    decreases |M| - row
  {
    if row >= |M| then None
    else if M[row][col] != 0.0 then Some(row)
    else FirstNonZero(M, row + 1, col)
  }

  /** Subtracts from every row below `row` with a non-zero entry in column `col` that entry times row `row`. */
  function EliminateBelow(M: Mat, row: nat, col: nat): (E: Mat)
    requires IsMatrix(M) && row < |M| && col < Cols(M)
    ensures SameShape(M, E)
    ensures forall i :: 0 <= i <= row ==> E[i] == M[i]
    ensures forall i :: row < i < |M| ==> E[i] == Minus(M[i], M[i][col], M[row])
    ensures M[row][col] == 1.0 ==> forall i :: row < i < |M| ==> E[i][col] == 0.0
  {
    var E := seq(|M|, i requires 0 <= i < |M| =>
      if row < i && M[i][col] != 0.0 then Minus(M[i], M[i][col], M[row]) else M[i]);
    forall i | row < i < |M| && M[i][col] == 0.0 ensures E[i] == Minus(M[i], M[i][col], M[row]) {
      MinusZero(M[i], M[row]);
    }
    E
  }

  /**
   * One elimination step with pivot row p: p is swapped into place, divided
   * by its pivot, and the pivot column is cleared below it. Rows above `row`
   * are untouched; the row displaced from `row` continues at p.
   */
  function PivotStep(M: Mat, row: nat, col: nat, p: nat): (E: Mat)
    requires IsMatrix(M) && row <= p < |M| && col < Cols(M) && M[p][col] != 0.0
    ensures SameShape(M, E)
    ensures forall i :: 0 <= i < row ==> E[i] == M[i]
    ensures E[row] == Divided(M[p], M[p][col])
    ensures E[row][col] == 1.0
    ensures forall i :: row < i < |M| ==> E[i][col] == 0.0
    ensures p != row ==> E[p] == Minus(M[row], M[row][col], E[row])
    ensures forall i :: row < i < |M| && i != p ==> E[i] == Minus(M[i], M[i][col], E[row])
  {
    var S := if p == row then M else SwapRows(M, row, p);
    DividedByEntry(S[row], col);
    var T := S[row := Divided(S[row], S[row][col])];
    assert forall i :: row < i < |M| && i != p ==> T[i] == M[i];
    assert p != row ==> T[p] == M[row];
    EliminateBelow(T, row, col)
  }

  /**
   * The result of the reducer started at (row, col) with `swaps` swaps so
   * far: the final matrix and the final swap count. Finished rows above
   * `row` are never touched again, and at most one swap happens per row.
   */
  function RefFrom(M: Mat, row: nat, col: nat, swaps: nat): (r: (Mat, nat))
    requires IsMatrix(M) && row <= |M| && col <= Cols(M)
    ensures SameShape(M, r.0)
    ensures forall i :: 0 <= i < row ==> r.0[i] == M[i]
    ensures swaps <= r.1 <= swaps + (|M| - row)
    decreases Cols(M) - col
  {
    if row == |M| || col == Cols(M) then (M, swaps)
    else match FirstNonZero(M, row, col)
      case None => RefFrom(M, row, col + 1, swaps)
      case Some(p) =>
        RefFrom(PivotStep(M, row, col, p), row + 1, col + 1, if p == row then swaps else swaps + 1)
  }

  /** Row echelon form of M and the number of row swaps performed. */
  function RefOf(M: Mat): (r: (Mat, nat))
    requires IsMatrix(M)
    ensures SameShape(M, r.0) && r.1 <= |M|
  {
    RefFrom(M, 0, 0, 0)
  }

  /**
   * What holds when the reducer is at (row, col): the rows above `row` are
   * finished (pivot 1, left of `col`, pivots moving right), and the rows
   * from `row` down are zero left of `col`.
   */
  ghost predicate Staged(M: Mat, row: nat, col: nat)
    requires IsMatrix(M) && row <= |M| && col <= Cols(M)
  {
    && (forall i :: 0 <= i < row ==> LeadingCol(M[i]) < col && M[i][LeadingCol(M[i])] == 1.0)
    && (forall i, j :: 0 <= i < j < row ==> LeadingCol(M[i]) < LeadingCol(M[j]))
    && (forall i, k :: row <= i < |M| && 0 <= k < col ==> M[i][k] == 0.0)
  }

  /** Rows from `row` down that are zero left of `col` stay so when the column is cleared below `row`. */
  lemma EliminateBelowZeroLeft(T: Mat, row: nat, col: nat)
    requires IsMatrix(T) && row < |T| && col < Cols(T)
    requires forall i, k :: row <= i < |T| && 0 <= k < col ==> T[i][k] == 0.0
    ensures forall i, k :: row < i < |T| && 0 <= k < col ==> EliminateBelow(T, row, col)[i][k] == 0.0
  {
    var E := EliminateBelow(T, row, col);
    forall i, k | row < i < |T| && 0 <= k < col ensures E[i][k] == 0.0 {
      if T[i][col] != 0.0 {
        var f := T[i][col];
        assert E[i] == Minus(T[i], f, T[row]);
        assert T[row][k] == 0.0 && f * T[row][k] == 0.0;
        assert E[i][k] + f * T[row][k] == T[i][k];
      }
    }
  }

  /** The pivot step keeps the rows below the new pivot row zero left of col + 1. */
  lemma PivotStepZeroLeft(M: Mat, row: nat, col: nat, p: nat)
    requires IsMatrix(M) && row <= p < |M| && col < Cols(M) && M[p][col] != 0.0
    requires forall i, k :: row <= i < |M| && 0 <= k < col ==> M[i][k] == 0.0
    ensures forall k :: 0 <= k < col ==> PivotStep(M, row, col, p)[row][k] == 0.0
    ensures forall i, k :: row < i < |M| && 0 <= k <= col ==> PivotStep(M, row, col, p)[i][k] == 0.0
  {
    var S := if p == row then M else SwapRows(M, row, p);
    var piv := S[row][col];
    var T := S[row := Divided(S[row], piv)];
    forall k | 0 <= k < col ensures T[row][k] == 0.0 {
      assert T[row][k] * piv == S[row][k];
    }
    assert forall i, k :: row <= i < |T| && 0 <= k < col ==> T[i][k] == 0.0;
    EliminateBelowZeroLeft(T, row, col);
  }

  lemma PivotStepStaged(M: Mat, row: nat, col: nat, p: nat)
    requires IsMatrix(M) && row < |M| && col < Cols(M) && Staged(M, row, col)
    requires FirstNonZero(M, row, col) == Some(p)
    ensures Staged(PivotStep(M, row, col, p), row + 1, col + 1)
  {
    var E := PivotStep(M, row, col, p);
    PivotStepZeroLeft(M, row, col, p);
    LeadingColAt(E[row], col);
    assert forall i :: 0 <= i < row ==> E[i] == M[i];
  }

  /** When the reducer stops, a staged matrix is in row echelon form with pivots 1. */
  lemma StagedFinished(M: Mat, row: nat, col: nat)
    requires IsMatrix(M) && row <= |M| && col <= Cols(M) && Staged(M, row, col)
    requires row == |M| || col == Cols(M)
    ensures IsRef(M) && LeadingOnes(M)
  {
    forall i | row <= i < |M| ensures IsZeroRow(M[i]) {
      LeadingColAt(M[i], Cols(M));
    }
  }

  /** The reducer ends in row echelon form with every pivot equal to 1. */
  lemma {:induction false} RefFromEchelon(M: Mat, row: nat, col: nat, swaps: nat)
    requires IsMatrix(M) && row <= |M| && col <= Cols(M) && Staged(M, row, col)
    ensures IsRef(RefFrom(M, row, col, swaps).0) && LeadingOnes(RefFrom(M, row, col, swaps).0)
    decreases Cols(M) - col, 1
  {
    if row == |M| || col == Cols(M) {
      StagedFinished(M, row, col);
    } else {
      match FirstNonZero(M, row, col)
      case None =>
        assert Staged(M, row, col + 1);
        RefFromEchelon(M, row, col + 1, swaps);
      case Some(p) =>
        RefFromEchelonPivot(M, row, col, swaps, p);
    }
  }

  lemma {:induction false} RefFromEchelonPivot(M: Mat, row: nat, col: nat, swaps: nat, p: nat)
    requires IsMatrix(M) && row < |M| && col < Cols(M) && Staged(M, row, col)
    requires FirstNonZero(M, row, col) == Some(p)
    ensures IsRef(RefFrom(M, row, col, swaps).0) && LeadingOnes(RefFrom(M, row, col, swaps).0)
    decreases Cols(M) - col, 0
  {
    var E := PivotStep(M, row, col, p);
    var s := if p == row then swaps else swaps + 1;
    assert RefFrom(M, row, col, swaps) == RefFrom(E, row + 1, col + 1, s);
    PivotStepStaged(M, row, col, p);
    RefFromEchelon(E, row + 1, col + 1, s);
  }

  /** Every output of the reducer passes isRef, has pivots equal to 1, and has the input's dimensions. */
  lemma RefIsRef(M: Mat)
    requires IsMatrix(M)
    ensures SameShape(M, RefOf(M).0)
    ensures IsRef(RefOf(M).0) && LeadingOnes(RefOf(M).0)
  {
    RefFromEchelon(M, 0, 0, 0);
  }

  /** A column with no non-zero entry at or below `row` is skipped without consuming a row. */
  lemma {:induction false} RefFromSkipsEmptyColumns(M: Mat, row: nat, col: nat, c: nat, swaps: nat)
    requires IsMatrix(M) && row < |M| && col <= c <= Cols(M)
    requires forall i, k :: row <= i < |M| && col <= k < c ==> M[i][k] == 0.0
    ensures RefFrom(M, row, col, swaps) == RefFrom(M, row, c, swaps)
    decreases c - col
  {
    if col < c {
      assert FirstNonZero(M, row, col) == None;
      RefFromSkipsEmptyColumns(M, row, col + 1, c, swaps);
    }
  }

  /**
   * Pivot choice: if column c is the first column with a non-zero entry and
   * p is the top-most row with a non-zero entry in it, the first row of the
   * result is row p divided by that entry, whatever the other rows hold.
   */
  lemma RefPivotIsTopMost(M: Mat, c: nat, p: nat)
    requires IsMatrix(M) && c < Cols(M) && p < |M|
    requires forall i, k :: 0 <= i < |M| && 0 <= k < c ==> M[i][k] == 0.0
    requires M[p][c] != 0.0 && forall i :: 0 <= i < p ==> M[i][c] == 0.0
    ensures RefOf(M).0[0] == Divided(M[p], M[p][c])
  {
    RefFromSkipsEmptyColumns(M, 0, 0, c, 0);
    var q := FirstNonZero(M, 0, c);
    assert q == Some(p) by {
      if q.Some? {
        assert !(q.value < p) && !(p < q.value);
      }
    }
    var E := PivotStep(M, 0, c, p);
    var r := RefFrom(E, 1, c + 1, if p == 0 then 0 else 1);
    assert RefOf(M) == r;
    assert r.0[0] == E[0];
  }

  /** In an echelon form with leading ones, a pivot step on a row whose pivot is at col changes nothing. */
  lemma PivotStepKeepsEchelon(M: Mat, row: nat, col: nat)
    requires IsMatrix(M) && row < |M| && col < Cols(M)
    requires IsRef(M) && LeadingOnes(M) && LeadingCol(M[row]) == col
    ensures FirstNonZero(M, row, col) == Some(row)
    ensures PivotStep(M, row, col, row) == M
  {
    forall i | row < i < |M| ensures M[i][col] == 0.0 {
      assert IsZeroRow(M[i]) || LeadingCol(M[row]) < LeadingCol(M[i]);
    }
    assert Divided(M[row], 1.0) == M[row];
    assert M[row := Divided(M[row], M[row][col])] == M;
    assert EliminateBelow(M, row, col) == M;
  }

  /**
   * A matrix already in row echelon form with pivots equal to 1 is a fixed
   * point of the reducer from any (row, col) that has not passed the pivot
   * of `row`: nothing is swapped, scaled or eliminated.
   */
  lemma {:induction false} RefFromKeepsEchelon(M: Mat, row: nat, col: nat, swaps: nat)
    requires IsMatrix(M) && row <= |M| && col <= Cols(M)
    requires IsRef(M) && LeadingOnes(M)
    requires row < |M| ==> col <= LeadingCol(M[row])
    ensures RefFrom(M, row, col, swaps) == (M, swaps)
    decreases Cols(M) - col
  {
    if row < |M| && col < Cols(M) {
      if M[row][col] == 0.0 {
        assert FirstNonZero(M, row, col) == None by {
          forall i | row < i < |M| ensures M[i][col] == 0.0 {
            assert IsZeroRow(M[i]) || LeadingCol(M[row]) < LeadingCol(M[i]);
          }
        }
        RefFromKeepsEchelon(M, row, col + 1, swaps);
      } else {
        PivotStepKeepsEchelon(M, row, col);
        assert row + 1 < |M| ==> IsZeroRow(M[row + 1]) || col < LeadingCol(M[row + 1]);
        RefFromKeepsEchelon(M, row + 1, col + 1, swaps);
      }
    }
  }

  /** A matrix in row echelon form with pivots 1 comes back unchanged, with no swaps. */
  lemma RefOfEchelonUnchanged(M: Mat)
    requires IsMatrix(M) && IsRef(M) && LeadingOnes(M)
    ensures RefOf(M) == (M, 0)
  {
    RefFromKeepsEchelon(M, 0, 0, 0);
  }

  /** The zero matrix comes back unchanged, with no swaps. */
  lemma RefOfZeroMatrix(M: Mat)
    requires IsMatrix(M)
    requires forall i, k :: 0 <= i < |M| && 0 <= k < Cols(M) ==> M[i][k] == 0.0
    ensures RefOf(M) == (M, 0)
  {
    forall i | 0 <= i < |M| ensures IsZeroRow(M[i]) {
      LeadingColAt(M[i], Cols(M));
    }
    RefOfEchelonUnchanged(M);
  }

  /** Reducing a reduced matrix again changes nothing and swaps nothing. */
  lemma RefIdempotent(M: Mat)
    requires IsMatrix(M)
    ensures RefOf(RefOf(M).0) == (RefOf(M).0, 0)
  {
    RefIsRef(M);
    RefOfEchelonUnchanged(RefOf(M).0);
  }

  /** Clearing the column below a pivot is a sequence of row operations. */
  lemma EliminateBelowEquivalent(M: Mat, row: nat, col: nat)
    requires IsMatrix(M) && row < |M| && col < Cols(M)
    ensures RowEquivalent(M, EliminateBelow(M, row, col))
  {
    SubtractedRangeEquivalent(M, row, col, row + 1, |M|);
    assert SubtractedRange(M, row, col, row + 1, |M|) == EliminateBelow(M, row, col);
  }

  /** A pivot step is a swap (when the pivot row is not the current row), a division and subtractions. */
  lemma PivotStepEquivalent(M: Mat, row: nat, col: nat, p: nat)
    requires IsMatrix(M) && row <= p < |M| && col < Cols(M) && M[p][col] != 0.0
    ensures RowEquivalent(M, PivotStep(M, row, col, p))
  {
    var S := if p == row then M else SwapRows(M, row, p);
    if p == row {
      RowEquivalentRefl(M);
    } else {
      RowEquivalentByOp(M, Swap(row, p));
    }
    var T := S[row := Divided(S[row], S[row][col])];
    RowEquivalentByOp(S, Divide(row, S[row][col]));
    RowEquivalentTrans(M, S, T);
    EliminateBelowEquivalent(T, row, col);
    RowEquivalentTrans(M, T, EliminateBelow(T, row, col));
  }

  /** The reducer from (row, col) ends in a matrix row-equivalent to the one it started from. */
  lemma {:induction false} RefFromEquivalent(M: Mat, row: nat, col: nat, swaps: nat)
    requires IsMatrix(M) && row <= |M| && col <= Cols(M)
    ensures RowEquivalent(M, RefFrom(M, row, col, swaps).0)
    decreases Cols(M) - col, 1
  {
    if row == |M| || col == Cols(M) {
      RowEquivalentRefl(M);
    } else {
      match FirstNonZero(M, row, col)
      case None =>
        RefFromEquivalent(M, row, col + 1, swaps);
      case Some(p) =>
        RefFromEquivalentPivot(M, row, col, swaps, p);
    }
  }

  lemma {:induction false} RefFromEquivalentPivot(M: Mat, row: nat, col: nat, swaps: nat, p: nat)
    requires IsMatrix(M) && row < |M| && col < Cols(M)
    requires FirstNonZero(M, row, col) == Some(p)
    ensures RowEquivalent(M, RefFrom(M, row, col, swaps).0)
    decreases Cols(M) - col, 0
  {
    var E := PivotStep(M, row, col, p);
    var s := if p == row then swaps else swaps + 1;
    RefFromPivotUnfold(M, row, col, swaps, p);
    PivotStepEquivalent(M, row, col, p);
    RefFromEquivalent(E, row + 1, col + 1, s);
    RowEquivalentTrans(M, E, RefFrom(E, row + 1, col + 1, s).0);
  }

  /** With a pivot in row p, the reducer takes one pivot step and moves on to (row + 1, col + 1). */
  lemma RefFromPivotUnfold(M: Mat, row: nat, col: nat, swaps: nat, p: nat)
    requires IsMatrix(M) && row < |M| && col < Cols(M)
    requires FirstNonZero(M, row, col) == Some(p)
    ensures RefFrom(M, row, col, swaps) ==
      RefFrom(PivotStep(M, row, col, p), row + 1, col + 1, if p == row then swaps else swaps + 1)
  {
  }

  /**
   * The row echelon form is row-equivalent to the input, both ways: each is
   * reached from the other by elementary row operations.
   */
  lemma RefRowEquivalent(M: Mat)
    requires IsMatrix(M)
    ensures RowEquivalent(M, RefOf(M).0) && RowEquivalent(RefOf(M).0, M)
  {
    RefFromEquivalent(M, 0, 0, 0);
    RowEquivalentSymmetric(M, RefOf(M).0);
  }

  /**
   * If the entry at (row, col) is zero, swaps up the first row below it
   * with a non-zero entry in column `col`, if there is one.
   */
  method BringPivotUp(R: Mat, row: nat, col: nat) returns (S: Mat, swapped: bool)
    requires IsMatrix(R) && row < |R| && col < Cols(R)
    ensures FirstNonZero(R, row, col).None? ==> S == R && !swapped
    ensures FirstNonZero(R, row, col).Some? ==>
      var p := FirstNonZero(R, row, col).value;
      swapped == (p != row) && S == if p == row then R else SwapRows(R, row, p)
  {
    S, swapped := R, false;
    if R[row][col] == 0.0 {
      var j := row + 1;
      while j < |R| && R[j][col] == 0.0
        invariant row < j <= |R|
        invariant forall i :: row <= i < j ==> R[i][col] == 0.0
      {
        j := j + 1;
      }
      if j < |R| {
        S := R[row := R[j]][j := R[row]];
        swapped := true;
        assert FirstNonZero(R, row, col) == Some(j);
      }
    }
  }

  /** Clears column `col` below the pivot row `row`, one row at a time. */
  method EliminateColumnBelow(R: Mat, row: nat, col: nat) returns (E: Mat)
    requires IsMatrix(R) && row < |R| && col < Cols(R)
    ensures E == EliminateBelow(R, row, col)
  {
    E := R;
    var i := row + 1;
    while i < |R|
      invariant row < i <= |R|
      invariant |E| == |R|
      invariant forall k :: 0 <= k < |R| ==> E[k] == if k < i then EliminateBelow(R, row, col)[k] else R[k]
    {
      var factor := E[i][col];
      if factor != 0.0 {
        E := SubtractRow(E, i, factor, row);
      }
      i := i + 1;
    }
    assert E == EliminateBelow(R, row, col);
  }

  /**
   * The work on one column: bring a pivot up if needed, divide the pivot
   * row by it and clear the column below. Reports whether a pivot was found
   * and whether rows were swapped.
   */
  method ReduceColumn(R: Mat, row: nat, col: nat) returns (E: Mat, found: bool, swapped: bool)
    requires IsMatrix(R) && row < |R| && col < Cols(R)
    ensures found == FirstNonZero(R, row, col).Some?
    ensures !found ==> E == R && !swapped
    ensures found ==>
      var p := FirstNonZero(R, row, col).value;
      swapped == (p != row) && E == PivotStep(R, row, col, p)
  {
    var S;
    S, swapped := BringPivotUp(R, row, col);
    found := S[row][col] != 0.0;
    if !found {
      E := S;
    } else {
      ghost var p := FirstNonZero(R, row, col).value;
      // Divide the pivot row by its pivot, then clear the column below it
      var T := DivideRow(S, row, S[row][col]);
      E := EliminateColumnBelow(T, row, col);
      assert E == PivotStep(R, row, col, p);
    }
  }

  /** What ReduceColumn reports is one step of RefFrom. */
  lemma ReduceColumnStep(R: Mat, row: nat, col: nat, swaps: nat, E: Mat, found: bool, swapped: bool)
    requires IsMatrix(R) && row < |R| && col < Cols(R)
    requires found == FirstNonZero(R, row, col).Some?
    requires !found ==> E == R && !swapped
    requires found ==>
      var p := FirstNonZero(R, row, col).value;
      swapped == (p != row) && E == PivotStep(R, row, col, p)
    ensures IsMatrix(E) && (if found then row + 1 else row) <= |E| && col + 1 <= Cols(E)
    ensures RefFrom(R, row, col, swaps) ==
      RefFrom(E, if found then row + 1 else row, col + 1, if swapped then swaps + 1 else swaps)
  {
  }

  /**
   * rowReductionToEchelonForm: reduces a working copy of A to row echelon
   * form and counts the row swaps.
   */
  method RowReductionToEchelonForm(A: Mat) returns (R: Mat, swaps: nat)
    requires IsMatrix(A)
    ensures (R, swaps) == RefOf(A)
    ensures SameShape(A, R) && IsRef(R) && LeadingOnes(R)
  {
    var m, n := |A|, |A[0]|;
    R, swaps := A, 0;
    var row, col := 0, 0;
    while row < m && col < n
      invariant SameShape(A, R) && row <= m && col <= n
      invariant RefFrom(R, row, col, swaps) == RefOf(A)
      decreases n - col
    {
      var found, swapped;
      ghost var R0 := R;
      R, found, swapped := ReduceColumn(R, row, col);
      ReduceColumnStep(R0, row, col, swaps, R, found, swapped);
      if swapped {
        swaps := swaps + 1;
      }
      if found {
        row := row + 1;
      }
      col := col + 1;
    }
    assert RefFrom(R, row, col, swaps) == (R, swaps);
    RefIsRef(A);
  }
}
