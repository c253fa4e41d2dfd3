/**
 * Gauss-Jordan elimination to reduced row echelon form (reduce / rref).
 *
 * The model starts from the row echelon form and walks the rows from the
 * bottom up; this order is a choice of the model. For each row with a pivot
 * it divides the row by the pivot unless the pivot is already 1, then
 * subtracts the right multiple of the row from every other row with a
 * non-zero entry in the pivot column.
 */
module ReducedRowEchelonForm {
  import opened Matrices
  import opened RowOperations
  import opened RowEquivalence
  import opened RowEchelonForm

  /** Row r scaled so that its entry in column c is 1; left alone when it already is. */
  function Normalize(M: Mat, r: nat, c: nat): (N: Mat)
    requires IsMatrix(M) && r < |M| && c < Cols(M) && M[r][c] != 0.0
    ensures SameShape(M, N)
    ensures forall k :: 0 <= k < |M| && k != r ==> N[k] == M[k]
    ensures N[r] == Divided(M[r], M[r][c])
    ensures N[r][c] == 1.0
    ensures LeadingCol(N[r]) == LeadingCol(M[r])
    ensures forall k :: 0 <= k < Cols(M) ==> (N[r][k] == 0.0 <==> M[r][k] == 0.0)
  {
    if M[r][c] == 1.0 then
      DividedByOne(M[r]);
      M
    else
      var d := Divided(M[r], M[r][c]);
      assert d[c] * M[r][c] == M[r][c];
      DividedLeadingCol(M[r], M[r][c]);
      forall k | 0 <= k < Cols(M) ensures (d[k] == 0.0 <==> M[r][k] == 0.0) {
        assert d[k] * M[r][c] == M[r][k];
      }
      M[r := d]
  }

  /**
   * Column c cleared in every row but r, whose entry there is 1: a row with a
   * non-zero entry f in column c has f times row r subtracted; a row whose
   * entry is already zero is left alone.
   */
  function ClearColumn(M: Mat, r: nat, c: nat): (E: Mat)
    requires IsMatrix(M) && r < |M| && c < Cols(M) && M[r][c] == 1.0
    ensures SameShape(M, E)
    ensures E[r] == M[r]
    ensures forall k :: 0 <= k < |M| && k != r ==> E[k][c] == 0.0
    ensures forall k :: 0 <= k < |M| && M[k][c] == 0.0 ==> E[k] == M[k]
    ensures forall k :: 0 <= k < |M| && k != r ==> E[k] == Minus(M[k], M[k][c], M[r])
  {
    var E := seq(|M|, k requires 0 <= k < |M| =>
      if k != r && M[k][c] != 0.0 then Minus(M[k], M[k][c], M[r]) else M[k]);
    forall k | 0 <= k < |M| && k != r && M[k][c] == 0.0 ensures E[k] == Minus(M[k], M[k][c], M[r]) {
      MinusZero(M[k], M[r]);
    }
    E
  }

  /**
   * Back substitution over rows 0 .. i-1, from row i-1 upwards: a row without
   * a pivot is skipped, a row with one is normalised and its pivot column
   * cleared everywhere else.
   */
  function BackSubstitute(M: Mat, i: nat): (R: Mat)
    requires IsMatrix(M) && i <= |M|
    ensures SameShape(M, R)
    decreases i
  {
    if i == 0 then M
    else
      var r := i - 1;
      var c := LeadingCol(M[r]);
      if c == Cols(M) then BackSubstitute(M, r)
      else BackSubstitute(ClearColumn(Normalize(M, r, c), r, c), r)
  }

  /** Reduced row echelon form of M: back substitution on its row echelon form. */
  function RrefOf(M: Mat): (R: Mat)
    requires IsMatrix(M)
    ensures SameShape(M, R)
  {
    BackSubstitute(RefOf(M).0, |M|)
  }

  /**
   * Rows from i down are done: each has pivot 1 and its pivot column is
   * zero in every other row of the matrix.
   */
  ghost predicate ReducedFrom(M: Mat, i: nat)
    requires IsMatrix(M) && i <= |M|
  {
    && (forall t :: i <= t < |M| && !IsZeroRow(M[t]) ==> M[t][LeadingCol(M[t])] == 1.0)
    && (forall t, k :: i <= t < |M| && 0 <= k < |M| && k != t && !IsZeroRow(M[t]) ==>
          M[k][LeadingCol(M[t])] == 0.0)
  }

  /** In row echelon form every row below a pivot row is zero in that pivot column. */
  lemma BelowPivotIsZero(M: Mat, r: nat, k: nat)
    requires IsMatrix(M) && IsRef(M) && r < k < |M| && !IsZeroRow(M[r])
    ensures M[k][LeadingCol(M[r])] == 0.0
  {
    assert |M[k]| == |M[r]|;
  }

  /** One back-substitution step on row r moves no pivot of any row. */
  lemma BackStepKeepsPivots(M: Mat, r: nat)
    requires IsMatrix(M) && IsRef(M) && r < |M| && !IsZeroRow(M[r])
    ensures
      var c := LeadingCol(M[r]);
      var E := ClearColumn(Normalize(M, r, c), r, c);
      forall k :: 0 <= k < |M| ==> LeadingCol(E[k]) == LeadingCol(M[k])
  {
    var c := LeadingCol(M[r]);
    var N := Normalize(M, r, c);
    var E := ClearColumn(N, r, c);
    forall k | 0 <= k < |M| ensures LeadingCol(E[k]) == LeadingCol(M[k]) {
      if k > r {
        BelowPivotIsZero(M, r, k);
      } else if k < r && M[k][c] != 0.0 {
        assert |M[k]| == |M[r]|;
        assert E[k] == Minus(M[k], M[k][c], N[r]);
        MinusLeadingCol(M[k], M[k][c], N[r]);
      }
    }
  }

  /** One back-substitution step on row r keeps the rows below it done. */
  lemma BackStepKeepsDoneRows(M: Mat, r: nat)
    requires IsMatrix(M) && IsRef(M) && r < |M| && ReducedFrom(M, r + 1)
    requires !IsZeroRow(M[r])
    ensures
      var c := LeadingCol(M[r]);
      var E := ClearColumn(Normalize(M, r, c), r, c);
      forall t, k :: r < t < |M| && 0 <= k < |M| && k != t && !IsZeroRow(M[t]) ==>
        E[k][LeadingCol(M[t])] == 0.0
  {
    var c := LeadingCol(M[r]);
    var N := Normalize(M, r, c);
    var E := ClearColumn(N, r, c);
    forall t, k | r < t < |M| && 0 <= k < |M| && k != t && !IsZeroRow(M[t])
      ensures E[k][LeadingCol(M[t])] == 0.0
    {
      var ct := LeadingCol(M[t]);
      assert M[k][ct] == 0.0 && M[r][ct] == 0.0;
      if k < r && N[k][c] != 0.0 {
        var f := N[k][c];
        assert E[k] == Minus(N[k], f, N[r]);
        assert N[r][ct] == 0.0 && f * N[r][ct] == 0.0;
        assert E[k][ct] + f * N[r][ct] == N[k][ct];
      }
    }
  }

  /** One back-substitution step keeps row echelon form and finishes row r. */
  lemma BackStepReduces(M: Mat, r: nat)
    requires IsMatrix(M) && IsRef(M) && r < |M| && ReducedFrom(M, r + 1)
    requires !IsZeroRow(M[r])
    ensures
      var c := LeadingCol(M[r]);
      var E := ClearColumn(Normalize(M, r, c), r, c);
      IsRef(E) && ReducedFrom(E, r)
  {
    var c := LeadingCol(M[r]);
    var E := ClearColumn(Normalize(M, r, c), r, c);
    BackStepKeepsPivots(M, r);
    BackStepKeepsDoneRows(M, r);
    assert forall k :: 0 <= k < |M| ==> (IsZeroRow(E[k]) <==> IsZeroRow(M[k]));
    assert E[r][c] == 1.0;
  }

  /** Back substitution turns a row echelon form whose rows from i down are done into reduced form. */
  lemma {:induction false} BackSubstituteReduces(M: Mat, i: nat)
    requires IsMatrix(M) && i <= |M| && IsRef(M) && ReducedFrom(M, i)
    ensures IsRref(BackSubstitute(M, i))
    decreases i
  {
    if i > 0 {
      var r := i - 1;
      var c := LeadingCol(M[r]);
      if c == Cols(M) {
        BackSubstituteReduces(M, r);
      } else {
        BackStepReduces(M, r);
        BackSubstituteReduces(ClearColumn(Normalize(M, r, c), r, c), r);
      }
    }
  }

  /** The reduced form passes both isRref and isRef and keeps the dimensions. */
  lemma RrefIsRref(M: Mat)
    requires IsMatrix(M)
    ensures SameShape(M, RrefOf(M))
    ensures IsRref(RrefOf(M)) && IsRef(RrefOf(M))
  {
    RefIsRef(M);
    BackSubstituteReduces(RefOf(M).0, |M|);
  }

  /** On a matrix in reduced form, one back-substitution step changes nothing. */
  lemma BackStepFixesRref(M: Mat, r: nat)
    requires IsMatrix(M) && r < |M| && IsRref(M) && !IsZeroRow(M[r])
    ensures
      var c := LeadingCol(M[r]);
      ClearColumn(Normalize(M, r, c), r, c) == M
  {
    var c := LeadingCol(M[r]);
    assert Normalize(M, r, c) == M;
    assert forall k :: 0 <= k < |M| && k != r ==> M[k][c] == 0.0;
  }

  /** Back substitution leaves a matrix already in reduced form unchanged. */
  lemma {:induction false} BackSubstituteFixesRref(M: Mat, i: nat)
    requires IsMatrix(M) && i <= |M| && IsRref(M)
    ensures BackSubstitute(M, i) == M
    decreases i
  {
    if i > 0 {
      if !IsZeroRow(M[i - 1]) {
        BackStepFixesRref(M, i - 1);
      }
      BackSubstituteFixesRref(M, i - 1);
    }
  }

  /** A matrix already in reduced row echelon form is its own reduced form. */
  lemma RrefOfRref(M: Mat)
    requires IsMatrix(M) && IsRref(M)
    ensures RrefOf(M) == M
  {
    RefOfEchelonUnchanged(M);
    BackSubstituteFixesRref(M, |M|);
  }

  /** rref(rref(A)) == rref(A). */
  lemma RrefIdempotent(M: Mat)
    requires IsMatrix(M)
    ensures RrefOf(RrefOf(M)) == RrefOf(M)
  {
    RrefIsRref(M);
    RrefOfRref(RrefOf(M));
  }

  /** Normalising a row is at most one division of that row by a non-zero number. */
  lemma NormalizeEquivalent(M: Mat, r: nat, c: nat)
    requires IsMatrix(M) && r < |M| && c < Cols(M) && M[r][c] != 0.0
    ensures RowEquivalent(M, Normalize(M, r, c))
  {
    if M[r][c] == 1.0 {
      RowEquivalentRefl(M);
    } else {
      RowEquivalentByOp(M, Divide(r, M[r][c]));
    }
  }

  /** Clearing a pivot column is a sequence of subtractions of the pivot row. */
  lemma ClearColumnEquivalent(M: Mat, r: nat, c: nat)
    requires IsMatrix(M) && r < |M| && c < Cols(M) && M[r][c] == 1.0
    ensures RowEquivalent(M, ClearColumn(M, r, c))
  {
    SubtractedRangeEquivalent(M, r, c, 0, |M|);
    assert SubtractedRange(M, r, c, 0, |M|) == ClearColumn(M, r, c);
  }

  /** Back substitution ends in a matrix row-equivalent to the one it started from. */
  lemma {:induction false} BackSubstituteEquivalent(M: Mat, i: nat)
    requires IsMatrix(M) && i <= |M|
    ensures RowEquivalent(M, BackSubstitute(M, i))
    decreases i
  {
    if i == 0 {
      RowEquivalentRefl(M);
    } else {
      var r := i - 1;
      var c := LeadingCol(M[r]);
      if c == Cols(M) {
        BackSubstituteEquivalent(M, r);
      } else {
        var N := Normalize(M, r, c);
        var E := ClearColumn(N, r, c);
        NormalizeEquivalent(M, r, c);
        ClearColumnEquivalent(N, r, c);
        RowEquivalentTrans(M, N, E);
        BackSubstituteEquivalent(E, r);
        RowEquivalentTrans(M, E, BackSubstitute(E, r));
      }
    }
  }

  /**
   * The reduced row echelon form is row-equivalent to the input, both ways:
   * each is reached from the other by elementary row operations.
   */
  lemma RrefRowEquivalent(M: Mat)
    requires IsMatrix(M)
    ensures RowEquivalent(M, RrefOf(M)) && RowEquivalent(RrefOf(M), M)
  {
    var E := RefOf(M).0;
    RefFromEquivalent(M, 0, 0, 0);
    BackSubstituteEquivalent(E, |M|);
    RowEquivalentTrans(M, E, RrefOf(M));
    RowEquivalentSymmetric(M, RrefOf(M));
  }

  /** Clears column c in every row but r, one row at a time. */
  method ClearPivotColumn(R: Mat, r: nat, c: nat) returns (E: Mat)
    requires IsMatrix(R) && r < |R| && c < Cols(R) && R[r][c] == 1.0
    ensures E == ClearColumn(R, r, c)
  {
    E := R;
    var k := 0;
    while k < |R|
      invariant 0 <= k <= |R| && |E| == |R|
      invariant forall t :: 0 <= t < |R| ==> E[t] == if t < k then ClearColumn(R, r, c)[t] else R[t]
    {
      var factor := E[k][c];
      if k != r && factor != 0.0 {
        E := SubtractRow(E, k, factor, r);
      }
      k := k + 1;
    }
    assert E == ClearColumn(R, r, c);
  }

  /** Normalises row r at its pivot column c and clears that column in every other row. */
  method EliminateAroundPivot(R: Mat, r: nat, c: nat) returns (E: Mat)
    requires IsMatrix(R) && r < |R| && c < Cols(R) && R[r][c] != 0.0
    ensures E == ClearColumn(Normalize(R, r, c), r, c)
  {
    E := R;
    if R[r][c] != 1.0 {
      E := DivideRow(R, r, R[r][c]);
    }
    assert E == Normalize(R, r, c);
    E := ClearPivotColumn(E, r, c);
  }

  /** Back substitution on a matrix in row echelon form, bottom row first. */
  method BackSubstitution(E: Mat) returns (R: Mat)
    requires IsMatrix(E)
    ensures R == BackSubstitute(E, |E|)
  {
    R := E;
    var i := |E|;
    while i > 0
      invariant 0 <= i <= |E| && SameShape(E, R)
      invariant BackSubstitute(R, i) == BackSubstitute(E, |E|)
    {
      var r := i - 1;
      var c := FindLeadingCol(R[r]);
      if c < |R[r]| {
        R := EliminateAroundPivot(R, r, c);
      }
      i := r;
    }
  }

  /**
   * reduce: row echelon form first, then back substitution. The result is
   * in reduced row echelon form, hence also in row echelon form.
   */
  method Reduce(A: Mat) returns (R: Mat)
    requires IsMatrix(A)
    ensures R == RrefOf(A)
    ensures SameShape(A, R) && IsRref(R) && IsRef(R)
  {
    var E, swaps := RowReductionToEchelonForm(A);
    R := BackSubstitution(E);
    RrefIsRref(A);
  }
}
