/**
 * Worked cases of the two reducers, stated on the specification functions
 * RefOf and RrefOf: the 1 x 1 cases, a skipped zero column, a swap, the
 * top-most pivot choice, and full 3 x 3 reductions.
 */
module WorkedCases {
  import opened Options
  import opened Matrices
  import opened RowOperations
  import opened RowEchelonForm
  import opened ReducedRowEchelonForm

  /** Dividing a row of three entries, entry by entry. */
  lemma DividedThree(x: real, y: real, z: real, p: real)
    requires p != 0.0
    ensures Divided([x, y, z], p) == [x / p, y / p, z / p]
  {
  }

  /** Subtracting a multiple of a row of three entries, entry by entry. */
  lemma MinusThree(x: real, y: real, z: real, f: real, u: real, v: real, w: real)
    ensures Minus([x, y, z], f, [u, v, w]) == [x - f * u, y - f * v, z - f * w]
  {
    var d := Minus([x, y, z], f, [u, v, w]);
    assert d[0] == x - f * u && d[1] == y - f * v && d[2] == z - f * w;
  }

  /** [[5]] has row echelon form [[1]], reached without swaps. */
  lemma RefOfFive()
    ensures RefOf([[5.0]]) == ([[1.0]], 0)
  {
    var M := [[5.0]];
    assert FirstNonZero(M, 0, 0) == Some(0);
    var d := Divided(M[0], 5.0);
    assert d[0] == 1.0;
    assert d == [1.0];
    assert EliminateBelow([[1.0]], 0, 0) == [[1.0]];
    assert PivotStep(M, 0, 0, 0) == [[1.0]];
  }

  /** [[0]] is left as it is. */
  lemma RefOfZeroOneByOne()
    ensures RefOf([[0.0]]) == ([[0.0]], 0)
  {
    RefOfZeroMatrix([[0.0]]);
  }

  /** A zero column is skipped without using up a row: [[0,1],[0,1]] gives [[0,1],[0,0]]. */
  lemma RefOfSkipsZeroColumn()
    ensures RefOf([[0.0, 1.0], [0.0, 1.0]]) == ([[0.0, 1.0], [0.0, 0.0]], 0)
  {
    var M := [[0.0, 1.0], [0.0, 1.0]];
    assert FirstNonZero(M, 0, 0) == None;
    assert FirstNonZero(M, 0, 1) == Some(0);
    assert Divided(M[0], 1.0) == M[0];
    assert M[0 := Divided(M[0], 1.0)] == M;
    assert Minus(M[1], 1.0, M[0]) == [0.0, 0.0];
    assert EliminateBelow(M, 0, 1) == [[0.0, 1.0], [0.0, 0.0]];
    assert PivotStep(M, 0, 1, 0) == [[0.0, 1.0], [0.0, 0.0]];
  }

  /** [[0,0],[0,1]]: the second row is swapped up, counted as one swap. */
  lemma RefOfSwapsUp()
    ensures RefOf([[0.0, 0.0], [0.0, 1.0]]) == ([[0.0, 1.0], [0.0, 0.0]], 1)
  {
    var M := [[0.0, 0.0], [0.0, 1.0]];
    assert FirstNonZero(M, 0, 0) == None;
    assert FirstNonZero(M, 0, 1) == Some(1);
    var S := [[0.0, 1.0], [0.0, 0.0]];
    assert SwapRows(M, 0, 1) == S;
    assert Divided(S[0], 1.0) == S[0];
    assert S[0 := Divided(S[0], 1.0)] == S;
    assert EliminateBelow(S, 0, 1) == S;
    assert PivotStep(M, 0, 1, 1) == S;
  }

  /** The top-most non-zero entry is the pivot even when a larger one lies below: [2,5,4] over [8,7,5]. */
  lemma RefKeepsTopMostPivot()
    ensures RefOf([[2.0, 5.0, 4.0], [2.0, 4.0, 6.0], [8.0, 7.0, 5.0], [6.0, 4.0, 5.0], [6.0, 2.0, 3.0]]).0[0]
         == [1.0, 5.0 / 2.0, 2.0]
  {
    var M := [[2.0, 5.0, 4.0], [2.0, 4.0, 6.0], [8.0, 7.0, 5.0], [6.0, 4.0, 5.0], [6.0, 2.0, 3.0]];
    RefPivotIsTopMost(M, 0, 0);
    DividedThree(2.0, 5.0, 4.0, 2.0);
  }

  /** A zero in the pivot position is replaced by the first row below with a non-zero entry there: [-1,1,1]. */
  lemma RefSwapsInFirstNonZeroRow()
    ensures RefOf([[0.0, 2.0, 0.0], [-1.0, 1.0, 1.0], [1.0, 2.0, 3.0]]).0[0] == [1.0, -1.0, -1.0]
  {
    var M := [[0.0, 2.0, 0.0], [-1.0, 1.0, 1.0], [1.0, 2.0, 3.0]];
    RefPivotIsTopMost(M, 0, 1);
    DividedThree(-1.0, 1.0, 1.0, -1.0);
  }

  /** [[1,2,0],[-1,1,1],[1,2,3]] has row echelon form [[1,2,0],[0,1,1/3],[0,0,1]]. */
  lemma RefOfThreeByThree()
    ensures RefOf([[1.0, 2.0, 0.0], [-1.0, 1.0, 1.0], [1.0, 2.0, 3.0]])
         == ([[1.0, 2.0, 0.0], [0.0, 1.0, 1.0 / 3.0], [0.0, 0.0, 1.0]], 0)
  {
    var M := [[1.0, 2.0, 0.0], [-1.0, 1.0, 1.0], [1.0, 2.0, 3.0]];
    // Column 0: pivot 1 in row 0
    assert FirstNonZero(M, 0, 0) == Some(0);
    DividedThree(1.0, 2.0, 0.0, 1.0);
    assert M[0 := Divided(M[0], 1.0)] == M;
    MinusThree(-1.0, 1.0, 1.0, -1.0, 1.0, 2.0, 0.0);
    MinusThree(1.0, 2.0, 3.0, 1.0, 1.0, 2.0, 0.0);
    var E1 := [[1.0, 2.0, 0.0], [0.0, 3.0, 1.0], [0.0, 0.0, 3.0]];
    assert EliminateBelow(M, 0, 0) == E1;
    assert PivotStep(M, 0, 0, 0) == E1;
    // Column 1: pivot 3 in row 1
    assert FirstNonZero(E1, 1, 1) == Some(1);
    DividedThree(0.0, 3.0, 1.0, 3.0);
    var E2 := [[1.0, 2.0, 0.0], [0.0, 1.0, 1.0 / 3.0], [0.0, 0.0, 3.0]];
    assert E1[1 := Divided(E1[1], 3.0)] == E2;
    assert EliminateBelow(E2, 1, 1) == E2;
    assert PivotStep(E1, 1, 1, 1) == E2;
    // Column 2: pivot 3 in row 2
    assert FirstNonZero(E2, 2, 2) == Some(2);
    DividedThree(0.0, 0.0, 3.0, 3.0);
    var E3 := [[1.0, 2.0, 0.0], [0.0, 1.0, 1.0 / 3.0], [0.0, 0.0, 1.0]];
    assert E2[2 := Divided(E2[2], 3.0)] == E3;
    assert EliminateBelow(E3, 2, 2) == E3;
    assert PivotStep(E2, 2, 2, 2) == E3;
  }

  /** [[1,2,3],[2,3,4],[3,4,5]] has row echelon form [[1,2,3],[0,1,2],[0,0,0]]. */
  lemma RefOfSingular()
    ensures RefOf([[1.0, 2.0, 3.0], [2.0, 3.0, 4.0], [3.0, 4.0, 5.0]])
         == ([[1.0, 2.0, 3.0], [0.0, 1.0, 2.0], [0.0, 0.0, 0.0]], 0)
  {
    var M := [[1.0, 2.0, 3.0], [2.0, 3.0, 4.0], [3.0, 4.0, 5.0]];
    // Column 0: pivot 1 in row 0
    assert FirstNonZero(M, 0, 0) == Some(0);
    DividedThree(1.0, 2.0, 3.0, 1.0);
    assert M[0 := Divided(M[0], 1.0)] == M;
    MinusThree(2.0, 3.0, 4.0, 2.0, 1.0, 2.0, 3.0);
    MinusThree(3.0, 4.0, 5.0, 3.0, 1.0, 2.0, 3.0);
    var E1 := [[1.0, 2.0, 3.0], [0.0, -1.0, -2.0], [0.0, -2.0, -4.0]];
    assert EliminateBelow(M, 0, 0) == E1;
    assert PivotStep(M, 0, 0, 0) == E1;
    // Column 1: pivot -1 in row 1
    assert FirstNonZero(E1, 1, 1) == Some(1);
    DividedThree(0.0, -1.0, -2.0, -1.0);
    var T := [[1.0, 2.0, 3.0], [0.0, 1.0, 2.0], [0.0, -2.0, -4.0]];
    assert E1[1 := Divided(E1[1], -1.0)] == T;
    MinusThree(0.0, -2.0, -4.0, -2.0, 0.0, 1.0, 2.0);
    var E2 := [[1.0, 2.0, 3.0], [0.0, 1.0, 2.0], [0.0, 0.0, 0.0]];
    assert EliminateBelow(T, 1, 1) == E2;
    assert PivotStep(E1, 1, 1, 1) == E2;
    // Column 2: nothing left at or below row 2
    assert FirstNonZero(E2, 2, 2) == None;
  }

  /** Back substitution turns [[1,2,3],[0,1,2],[0,0,0]] into [[1,0,-1],[0,1,2],[0,0,0]]. */
  lemma BackSubstituteSingular()
    ensures BackSubstitute([[1.0, 2.0, 3.0], [0.0, 1.0, 2.0], [0.0, 0.0, 0.0]], 3)
         == [[1.0, 0.0, -1.0], [0.0, 1.0, 2.0], [0.0, 0.0, 0.0]]
  {
    var E := [[1.0, 2.0, 3.0], [0.0, 1.0, 2.0], [0.0, 0.0, 0.0]];
    // Row 2 has no pivot
    LeadingColAt(E[2], 3);
    assert BackSubstitute(E, 3) == BackSubstitute(E, 2);
    // Row 1: pivot 1 in column 1; clear it from row 0
    LeadingColAt(E[1], 1);
    assert Normalize(E, 1, 1) == E;
    MinusThree(1.0, 2.0, 3.0, 2.0, 0.0, 1.0, 2.0);
    var F := [[1.0, 0.0, -1.0], [0.0, 1.0, 2.0], [0.0, 0.0, 0.0]];
    assert ClearColumn(E, 1, 1) == F;
    assert BackSubstitute(E, 2) == BackSubstitute(F, 1);
    // Row 0: pivot 1 in column 0, nothing to clear
    LeadingColAt(F[0], 0);
    assert Normalize(F, 0, 0) == F;
    assert ClearColumn(F, 0, 0) == F;
  }

  /** [[1,2,3],[2,3,4],[3,4,5]] has reduced row echelon form [[1,0,-1],[0,1,2],[0,0,0]]. */
  lemma RrefOfSingular()
    ensures RrefOf([[1.0, 2.0, 3.0], [2.0, 3.0, 4.0], [3.0, 4.0, 5.0]])
         == [[1.0, 0.0, -1.0], [0.0, 1.0, 2.0], [0.0, 0.0, 0.0]]
  {
    RefOfSingular();
    BackSubstituteSingular();
  }

  /** [[0,0],[0,1]] has reduced row echelon form [[0,1],[0,0]]: its row echelon form is already reduced. */
  lemma RrefOfSwapsUp()
    ensures RrefOf([[0.0, 0.0], [0.0, 1.0]]) == [[0.0, 1.0], [0.0, 0.0]]
  {
    RefOfSwapsUp();
    var E := [[0.0, 1.0], [0.0, 0.0]];
    LeadingColAt(E[0], 1);
    LeadingColAt(E[1], 2);
    assert IsRref(E);
    BackSubstituteFixesRref(E, 2);
  }
}
