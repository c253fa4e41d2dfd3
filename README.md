# Row reduction in math-php, modelled in Dafny

This project models the row-reduction engine of the math-php linear algebra library:

- Gaussian elimination to row echelon form (REF), `RowEchelonForm::rowReductionToEchelonForm`, which returns the reduced matrix and the number of row swaps.
- Gauss-Jordan elimination to reduced row echelon form (RREF), `ReducedRowEchelonForm::reduce` and `Matrix::rref`.
- The two shape checks `isRef` and `isRref`.
- The memoised getters `Matrix::ref()` and `Matrix::rref()`.

Matrices are rectangular lists of rows of exact reals (`seq<seq<real>>`). An entry counts as zero exactly when it is `0.0`.

The behaviour is pinned down by the expectations in `tests/LinearAlgebra/MatrixReductionsTest.php`:

- **Pivot choice.** The pivot of a column is the top-most row, at or below the current row, with a non-zero entry in that column.
- **Swap.** That row is swapped (not rotated) into place, and the swap is counted.
- **Scaling.** The pivot row is divided by its pivot.
- **Elimination.** Every row below with a non-zero entry in the column has the right multiple of the pivot row subtracted.
- **Empty columns.** A column with no pivot is skipped without using up a row.

The RREF starts from the REF, divides each pivot row by its pivot and clears the pivot column in every other row. The tests do not fix the order of the rows or whether a pivot of 1 is divided again. The model walks the rows from the bottom up and skips the division when the pivot is already 1.

Each algorithm has two parts:

- a specification function: `RefFrom`/`RefOf` and `BackSubstitute`/`RrefOf`, recursive over the reducer's state;
- a method with loops that works entry by entry on a local copy of the matrix. Each method is proved equal to its specification function.

The properties the tests check are proved about the specification functions:

- the outputs pass `isRef` and `isRref`;
- each output is row-equivalent to its input, both ways: it is reached by elementary row operations (swap, division by a non-zero number, subtraction of a multiple of another row), and so is the input from it;
- dimensions are kept;
- pivots are 1;
- the top-most row is the pivot;
- empty columns are skipped;
- echelon matrices with pivots 1 and reduced matrices are fixed points, so both forms are idempotent;
- worked 1 x 1, 2 x 2 and 3 x 3 cases hold.

`Matrix` is a class with two cache fields. Its getters compute a form on the first call and return the cached value afterwards.

Files:
- `matrices.dfy`: matrices, pivot position, `IsRef`, `IsRref`.
- `row_operations.dfy`: swapping, dividing and subtracting rows; elementary row operations and row equivalence.
- `row_echelon_form.dfy`: the REF reducer.
- `reduced_row_echelon_form.dfy`: the RREF reducer.
- `matrix_object.dfy`: the `Matrix` object and its caches.
- `worked_cases.dfy`: worked cases from the tests.

## Model

| member | source | states |
|---|---|---|
| Matrices.LeadingCol | tests/LinearAlgebra/MatrixReductionsTest.php:30-31 | the pivot column of a row is its first non-zero entry: every entry before it is zero, the entry there is not, and the row length means the row has no pivot |
| Matrices.FindLeadingCol | tests/LinearAlgebra/MatrixReductionsTest.php:30-31 | scanning a row left to right for its first non-zero entry yields exactly its pivot column |
| Matrices.IsRef | tests/LinearAlgebra/MatrixReductionsTest.php:960-970 | isRef: every non-zero row has its pivot strictly right of the pivot of every row above; hence every row below a zero row is zero |
| Matrices.IsRref | tests/LinearAlgebra/MatrixReductionsTest.php:941-952 | isRref: isRef holds, and the column of each pivot holds 1 in the pivot's row and 0 in every other row |
| Matrices.IsRefIffNeighbours | tests/LinearAlgebra/MatrixReductionsTest.php:966-969 | isRef holds exactly when, scanning rows top to bottom, a zero row is followed only by a zero row and each pivot lies strictly right of the one above (both directions) |
| RowOperations.SwapRows | tests/LinearAlgebra/MatrixReductionsTest.php:1056-1079 | exchanging rows i and j puts each in the other's place, leaves every other row where it was, and keeps the multiset of rows |
| RowOperations.Divided | tests/LinearAlgebra/MatrixReductionsTest.php:1044-1055 | dividing a row by its pivot gives a row of the same length that multiplies back to the original |
| RowOperations.Minus | tests/LinearAlgebra/MatrixReductionsTest.php:1044-1055 | subtracting f times row b gives a row to which adding f times b restores the original |
| RowOperations.DividedLeadingCol | tests/LinearAlgebra/MatrixReductionsTest.php:1044-1055 | dividing a row by a non-zero number keeps its pivot column |
| RowOperations.MinusLeadingCol | tests/LinearAlgebra/MatrixReductionsTest.php:1044-1055 | subtracting a row that is zero up to and including a row's pivot column keeps that pivot column |
| RowEquivalence.ApplyOpInverse | tests/LinearAlgebra/MatrixReductionsTest.php:1044-1079 | each elementary row operation (swap, division by a non-zero number, subtraction of a multiple of another row) is undone by its inverse |
| RowEquivalence.ApplyUndo | tests/LinearAlgebra/MatrixReductionsTest.php:1044-1079 | a whole sequence of row operations is undone by the inverses in reverse order |
| RowEquivalence.RowEquivalentSymmetric | tests/LinearAlgebra/MatrixReductionsTest.php:1044-1079 | if N is reached from M by row operations, M is reached from N |
| RowEquivalence.RowEquivalentTrans | tests/LinearAlgebra/MatrixReductionsTest.php:1044-1079 | row equivalence chains: operations from A to B followed by operations from B to C lead from A to C |
| RowEquivalence.SubtractedRange | tests/LinearAlgebra/MatrixReductionsTest.php:1044-1055 | subtracting multiples of row s from a range of other rows makes each of those rows M[k] - M[k][c] * M[s] and leaves every other row unchanged |
| RowEquivalence.SubtractedRangeEquivalent | tests/LinearAlgebra/MatrixReductionsTest.php:1044-1055 | those subtractions are a sequence of elementary row operations |
| RowOperations.DivideRow | tests/LinearAlgebra/MatrixReductionsTest.php:1044-1055 | dividing row i entry by entry gives the matrix with row i replaced by its division and all other rows unchanged |
| RowOperations.SubtractRow | tests/LinearAlgebra/MatrixReductionsTest.php:1044-1055 | subtracting f times row s from row t entry by entry changes row t only |
| RowEchelonForm.FirstNonZero | tests/LinearAlgebra/MatrixReductionsTest.php:1092-1107 | the chosen pivot row is the top-most row at or below the current one with a non-zero entry in the column; none means every such entry is zero |
| RowEchelonForm.EliminateBelow | tests/LinearAlgebra/MatrixReductionsTest.php:1044-1055 | clearing below the pivot row leaves the rows up to it unchanged and makes each row below M[i] - M[i][col] * M[row]; with a pivot of 1 every entry below the pivot is then zero |
| RowEchelonForm.EliminateBelowEquivalent | tests/LinearAlgebra/MatrixReductionsTest.php:1044-1055 | clearing below a pivot is a sequence of elementary row operations |
| RowEchelonForm.PivotStep | tests/LinearAlgebra/MatrixReductionsTest.php:1056-1067 | one pivot step leaves the finished rows alone, puts the chosen row p divided by its pivot in the pivot row (pivot 1), zeroes the column below, moves the displaced row to p, and makes every row below its old row minus its column entry times the new pivot row |
| RowEchelonForm.PivotStepEquivalent | tests/LinearAlgebra/MatrixReductionsTest.php:1056-1067 | a pivot step is a swap (only when the pivot row is not the current row), one division and subtractions |
| RowEchelonForm.RefFrom | tests/LinearAlgebra/MatrixReductionsTest.php:1023-1036 | the reducer keeps the dimensions and the finished rows, and swaps at most once per remaining row |
| RowEchelonForm.RefOf | tests/LinearAlgebra/MatrixReductionsTest.php:1023-1036 | the REF has the input's dimensions and at most one swap per row |
| RowEchelonForm.RefFromEquivalent | tests/LinearAlgebra/MatrixReductionsTest.php:1023-1036 | the reducer from any state ends in a matrix row-equivalent to the one it started from |
| RowEchelonForm.RefRowEquivalent | tests/LinearAlgebra/MatrixReductionsTest.php:1023-1036 | the REF is reached from the input by elementary row operations, and the input from the REF |
| RowEchelonForm.RefIsRef | tests/LinearAlgebra/MatrixReductionsTest.php:1023-1036 | the REF of every matrix passes isRef, keeps the dimensions, and every pivot is 1 |
| RowEchelonForm.RefFromSkipsEmptyColumns | tests/LinearAlgebra/MatrixReductionsTest.php:1246-1255 | columns with no non-zero entry at or below the current row are skipped without using up a row |
| RowEchelonForm.RefPivotIsTopMost | tests/LinearAlgebra/MatrixReductionsTest.php:1122-1133 | after empty leading columns, the first REF row is the top-most row with a non-zero entry in the first non-empty column, divided by that entry, even when a larger entry lies below |
| RowEchelonForm.RefFromKeepsEchelon | tests/LinearAlgebra/MatrixReductionsTest.php:1216-1225 | started at or left of the next pivot, the reducer leaves a matrix in REF with pivots 1 unchanged, with no swaps |
| RowEchelonForm.RefOfEchelonUnchanged | tests/LinearAlgebra/MatrixReductionsTest.php:1180-1187 | a matrix already in REF with pivots 1 is its own REF, with zero swaps |
| RowEchelonForm.RefOfZeroMatrix | tests/LinearAlgebra/MatrixReductionsTest.php:1196-1205 | a zero matrix is its own REF, with zero swaps |
| RowEchelonForm.RefIdempotent | tests/LinearAlgebra/MatrixReductionsTest.php:960-970 | reducing a REF again changes nothing and swaps nothing |
| RowEchelonForm.BringPivotUp | tests/LinearAlgebra/MatrixReductionsTest.php:1226-1235 | when the current entry is zero, the first row below with a non-zero entry is swapped into place and the swap is reported; with no such row nothing changes |
| RowEchelonForm.EliminateColumnBelow | tests/LinearAlgebra/MatrixReductionsTest.php:1044-1055 | the row-by-row elimination loop computes EliminateBelow |
| RowEchelonForm.ReduceColumn | tests/LinearAlgebra/MatrixReductionsTest.php:1056-1079 | the work on one column reports a pivot exactly when one exists, reports a swap exactly when the pivot row was not the current row, and yields PivotStep |
| RowEchelonForm.RowReductionToEchelonForm | tests/LinearAlgebra/MatrixReductionsTest.php:1023-1036 | the method returns RefOf(A), matrix and swap count; the matrix passes isRef, has pivots 1 and the input's dimensions |
| ReducedRowEchelonForm.Normalize | tests/LinearAlgebra/MatrixReductionsTest.php:62-73 | the pivot row becomes itself divided by its pivot, so the pivot is 1, the pivot does not move and the zero pattern and other rows stay |
| ReducedRowEchelonForm.ClearColumn | tests/LinearAlgebra/MatrixReductionsTest.php:62-73 | every other row k becomes M[k] - M[k][c] * M[r], so column c is zero outside the pivot row; the pivot row and rows already zero there stay |
| ReducedRowEchelonForm.BackSubstitute | tests/LinearAlgebra/MatrixReductionsTest.php:62-73 | back substitution keeps the dimensions; what it produces is stated by BackSubstituteReduces, BackSubstituteFixesRref and BackSubstituteEquivalent |
| ReducedRowEchelonForm.RrefOf | tests/LinearAlgebra/MatrixReductionsTest.php:19-54 | reduce/rref keep the dimensions; the RREF and row-equivalence facts are stated by RrefIsRref and RrefRowEquivalent |
| ReducedRowEchelonForm.NormalizeEquivalent | tests/LinearAlgebra/MatrixReductionsTest.php:62-73 | normalising a row is at most one division by a non-zero number |
| ReducedRowEchelonForm.ClearColumnEquivalent | tests/LinearAlgebra/MatrixReductionsTest.php:62-73 | clearing a pivot column is a sequence of subtractions of the pivot row |
| ReducedRowEchelonForm.BackSubstituteEquivalent | tests/LinearAlgebra/MatrixReductionsTest.php:62-73 | back substitution ends in a matrix row-equivalent to the one it started from |
| ReducedRowEchelonForm.RrefRowEquivalent | tests/LinearAlgebra/MatrixReductionsTest.php:19-54 | the RREF is reached from the input by elementary row operations, and the input from the RREF |
| ReducedRowEchelonForm.BackStepKeepsPivots | tests/LinearAlgebra/MatrixReductionsTest.php:62-73 | on a REF, one back-substitution step moves no pivot of any row |
| ReducedRowEchelonForm.BackStepReduces | tests/LinearAlgebra/MatrixReductionsTest.php:62-73 | one back-substitution step keeps REF and finishes its row without undoing the rows below |
| ReducedRowEchelonForm.BackSubstituteReduces | tests/LinearAlgebra/MatrixReductionsTest.php:19-31 | back substitution over all rows turns any REF into a matrix passing isRref |
| ReducedRowEchelonForm.RrefIsRref | tests/LinearAlgebra/MatrixReductionsTest.php:941-952 | the RREF of every matrix passes isRref and isRef and keeps the dimensions |
| ReducedRowEchelonForm.BackSubstituteFixesRref | tests/LinearAlgebra/MatrixReductionsTest.php:19-31 | back substitution leaves a matrix already in RREF unchanged |
| ReducedRowEchelonForm.RrefOfRref | tests/LinearAlgebra/MatrixReductionsTest.php:19-31 | a matrix already in RREF is its own RREF |
| ReducedRowEchelonForm.RrefIdempotent | tests/LinearAlgebra/MatrixReductionsTest.php:19-31 | rref(rref(A)) == rref(A) |
| ReducedRowEchelonForm.ClearPivotColumn | tests/LinearAlgebra/MatrixReductionsTest.php:62-73 | the row-by-row loop over every other row computes ClearColumn |
| ReducedRowEchelonForm.EliminateAroundPivot | tests/LinearAlgebra/MatrixReductionsTest.php:62-73 | dividing the pivot row only when its pivot is not 1, then clearing the column, computes one back-substitution step |
| ReducedRowEchelonForm.BackSubstitution | tests/LinearAlgebra/MatrixReductionsTest.php:62-73 | the bottom-up loop computes BackSubstitute over all rows |
| ReducedRowEchelonForm.Reduce | tests/LinearAlgebra/MatrixReductionsTest.php:41-54 | reduce(A) returns RrefOf(A), which passes isRref and isRef and has the input's dimensions |
| MatrixObject.Matrix.constructor | tests/LinearAlgebra/MatrixReductionsTest.php:979-984 | a new matrix starts with both caches empty |
| MatrixObject.Matrix.IsRefMatrix | tests/LinearAlgebra/MatrixReductionsTest.php:960-970 | $m->isRef(): the top-to-bottom scan comparing each pivot with the one above answers exactly IsRef |
| MatrixObject.Matrix.IsRrefMatrix | tests/LinearAlgebra/MatrixReductionsTest.php:941-952 | $m->isRref(): isRef, then the scan of each pivot and its column answers exactly IsRref |
| MatrixObject.Matrix.Ref | tests/LinearAlgebra/MatrixReductionsTest.php:998-1014 | ref() returns the REF of the matrix and caches it; a filled cache is never overwritten |
| MatrixObject.Matrix.Rref | tests/LinearAlgebra/MatrixReductionsTest.php:976-993 | rref() returns the RREF of the matrix and caches it; a first call also leaves the REF cached, and once the RREF is cached neither cache changes |
| MatrixObject.RefTwice | tests/LinearAlgebra/MatrixReductionsTest.php:998-1014 | two calls of ref() on one matrix return equal matrices, in REF with pivots 1 |
| MatrixObject.RrefTwice | tests/LinearAlgebra/MatrixReductionsTest.php:976-993 | two calls of rref() on one matrix return equal matrices, in RREF |
| MatrixObject.RrefRoutesAgree | tests/LinearAlgebra/MatrixReductionsTest.php:19-54 | $A->rref() and ReducedRowEchelonForm::reduce($A) return the same matrix, which passes isRref and isRef |
| WorkedCases.RefOfFive | tests/LinearAlgebra/MatrixReductionsTest.php:1188-1195 | [[5]] reduces to [[1]] with no swap |
| WorkedCases.RefOfZeroOneByOne | tests/LinearAlgebra/MatrixReductionsTest.php:1172-1179 | [[0]] reduces to [[0]] |
| WorkedCases.RefOfSkipsZeroColumn | tests/LinearAlgebra/MatrixReductionsTest.php:1246-1255 | [[0,1],[0,1]] reduces to [[0,1],[0,0]] |
| WorkedCases.RefOfSwapsUp | tests/LinearAlgebra/MatrixReductionsTest.php:1206-1215 | [[0,0],[0,1]] reduces to [[0,1],[0,0]] with one swap |
| WorkedCases.RefKeepsTopMostPivot | tests/LinearAlgebra/MatrixReductionsTest.php:1092-1107 | the first REF row of the 5 x 3 case is [1,5/2,2]: row [2,5,4] is the pivot over [8,7,5] |
| WorkedCases.RefSwapsInFirstNonZeroRow | tests/LinearAlgebra/MatrixReductionsTest.php:1056-1067 | the first REF row of [[0,2,0],[-1,1,1],[1,2,3]] is [1,-1,-1]: the first row with a non-zero entry is swapped up |
| WorkedCases.RefOfThreeByThree | tests/LinearAlgebra/MatrixReductionsTest.php:1044-1055 | [[1,2,0],[-1,1,1],[1,2,3]] reduces to [[1,2,0],[0,1,1/3],[0,0,1]] |
| WorkedCases.RefOfSingular | tests/LinearAlgebra/MatrixReductionsTest.php:1306-1317 | [[1,2,3],[2,3,4],[3,4,5]] has REF [[1,2,3],[0,1,2],[0,0,0]], the zero row last |
| WorkedCases.BackSubstituteSingular | tests/LinearAlgebra/MatrixReductionsTest.php:62-73 | back substitution turns [[1,2,3],[0,1,2],[0,0,0]] into [[1,0,-1],[0,1,2],[0,0,0]] |
| WorkedCases.RrefOfSingular | tests/LinearAlgebra/MatrixReductionsTest.php:62-73 | [[1,2,3],[2,3,4],[3,4,5]] has RREF [[1,0,-1],[0,1,2],[0,0,0]] |
| WorkedCases.RrefOfSwapsUp | tests/LinearAlgebra/MatrixReductionsTest.php:272-281 | [[0,0],[0,1]] has RREF [[0,1],[0,0]] |

## Left out

- Floating-point tolerance. Entries are exact reals and "zero" means `== 0.0`. The case with minuscule values at tests/LinearAlgebra/MatrixReductionsTest.php:1394-1418 only matters with round-off, so it is not modelled.
- The approximate comparisons of the tests (a delta of 0.000001). Results are stated with exact equality.
- The value of the swap count. It is computed and returned, and bounded by the number of rows, but no parity or determinant-sign fact is stated about it.
- The source of the reducer classes. The code of `Reduction\RowEchelonForm`, `Reduction\ReducedRowEchelonForm` and `Matrix` is not available, so their behaviour is rebuilt from the test expectations.
- RREF row order. The model clears pivot columns from the bottom row up. The order in the real reducer is not visible.
- `ref()` and `rowReductionToEchelonForm`. `Matrix::ref()` is modelled as returning the matrix that `rowReductionToEchelonForm` computes. The tests fix only that `ref()` passes isRef (tests/LinearAlgebra/MatrixReductionsTest.php:966-969). An elimination that does not scale pivots, giving `[[5]]` for `[[5]]`, would pass them too. So the pivots of 1 that `Matrix.Ref` and `RefTwice` state are an assumption of the model.
- Uniqueness of the RREF across pivoting strategies. It is not stated; only the top-most-row strategy of the tests is modelled.
- `MatrixFactory::create`, matrix validation, `getMatrix` and the PHPUnit data-provider plumbing. The requirement that the input is a rectangular matrix of at least 1 x 1 stands in for the validation done at construction.
- In-place updates of the PHP 2-D array. PHP arrays are values copied on write, so the reducer's working array is modelled as a local `seq` variable updated entry by entry. There is no aliasing to capture.
- Thread safety of the lazy caches. The model is sequential.
- Large worked cases. The 8 x 8 cases (for example tests/LinearAlgebra/MatrixReductionsTest.php:1150-1171) and the other multi-step vectors have no concrete lemma. The general lemmas state their dimensions, the echelon and reduced shapes and row equivalence to the input, not their values.
