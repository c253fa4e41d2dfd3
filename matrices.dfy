/** Optional values, used for "no pivot in this column". */
module Options {
  datatype Option<T> = None | Some(value: T)
}

/**
 * Dense real matrices as lists of rows, the leading-entry (pivot) position
 * of a row, and the two shape checks isRef and isRref.
 *
 * Entries are exact reals: an entry is zero exactly when it is `0.0`.
 */
module Matrices {

  type Mat = seq<seq<real>>

  /** A matrix as the library constructs it: rectangular, at least 1 x 1. */
  predicate IsMatrix(M: Mat) {
    |M| >= 1 && |M[0]| >= 1 && forall i :: 0 <= i < |M| ==> |M[i]| == |M[0]|
  }

  /** Number of columns. */
  function Cols(M: Mat): nat
    requires |M| >= 1
  {
    |M[0]|
  }

  /** N is a matrix with the same dimensions as M. */
  predicate SameShape(M: Mat, N: Mat)
    requires IsMatrix(M)
  {
    IsMatrix(N) && |N| == |M| && Cols(N) == Cols(M)
  }

  /**
   * Column of the first non-zero entry of a row (its pivot position);
   * the row length when the row is all zero.
   */
  function LeadingCol(r: seq<real>): (c: nat)
    ensures c <= |r|
    ensures forall k :: 0 <= k < c ==> r[k] == 0.0
    ensures c < |r| ==> r[c] != 0.0
  {
    LeadingColFrom(r, 0)
  }

  /** Column of the first non-zero entry of r at or after column k; |r| if there is none. */
  function LeadingColFrom(r: seq<real>, k: nat): (c: nat)
    requires k <= |r|
    ensures k <= c <= |r|
    ensures forall t :: k <= t < c ==> r[t] == 0.0
    ensures c < |r| ==> r[c] != 0.0
    decreases |r| - k
  {
    if k == |r| then |r|
    else if r[k] != 0.0 then k
    else LeadingColFrom(r, k + 1)
  }

  /** Scans a row left to right for its first non-zero entry. */
  method FindLeadingCol(r: seq<real>) returns (c: nat)
    ensures c == LeadingCol(r)
  {
    c := 0;
    while c < |r| && r[c] == 0.0
      invariant c <= |r|
      invariant forall k :: 0 <= k < c ==> r[k] == 0.0
    {
      c := c + 1;
    }
    LeadingColAt(r, c);
  }

  /** A row without a pivot. */
  predicate IsZeroRow(r: seq<real>) {
    LeadingCol(r) == |r|
  }

  /**
   * Row echelon form: every non-zero row has its pivot strictly right of
   * the pivot of every row above it. A zero row has its "pivot" at the row
   * length, so nothing but zero rows can follow it.
   */
  predicate IsRef(M: Mat)
    requires IsMatrix(M)
    ensures IsRef(M) ==> forall i, j :: 0 <= i < j < |M| && IsZeroRow(M[i]) ==> IsZeroRow(M[j])
  {
    forall i, j :: 0 <= i < j < |M| ==> IsZeroRow(M[j]) || LeadingCol(M[i]) < LeadingCol(M[j])
  }

  /**
   * The condition as a top-to-bottom scan states it for neighbouring rows:
   * a zero row is followed by a zero row, and a non-zero row has its pivot
   * right of the pivot of the row just above.
   */
  predicate NeighboursInEchelon(M: Mat, i: nat)
    requires IsMatrix(M) && 0 < i < |M|
  {
    (IsZeroRow(M[i - 1]) ==> IsZeroRow(M[i])) &&
    (!IsZeroRow(M[i]) ==> LeadingCol(M[i - 1]) < LeadingCol(M[i]))
  }

  /** Every pivot equals 1. */
  predicate LeadingOnes(M: Mat)
    requires IsMatrix(M)
  {
    forall i :: 0 <= i < |M| && !IsZeroRow(M[i]) ==> M[i][LeadingCol(M[i])] == 1.0
  }

  /** Every pivot is the only non-zero entry of its column. */
  predicate PivotColumnsClear(M: Mat)
    requires IsMatrix(M)
  {
    forall i, k :: 0 <= i < |M| && 0 <= k < |M| && k != i && !IsZeroRow(M[i]) ==>
      M[k][LeadingCol(M[i])] == 0.0
  }

  /**
   * Reduced row echelon form: row echelon form in which the column of each
   * pivot holds 1 in the pivot's row and 0 everywhere else.
   */
  predicate IsRref(M: Mat)
    requires IsMatrix(M)
    ensures IsRref(M) ==> IsRef(M)
    ensures IsRref(M) ==> forall i, k :: 0 <= i < |M| && 0 <= k < |M| && !IsZeroRow(M[i]) ==>
      M[k][LeadingCol(M[i])] == (if k == i then 1.0 else 0.0)
  {
    IsRef(M) && LeadingOnes(M) && PivotColumnsClear(M)
  }

  /** The first non-zero entry of a row is at column c exactly when c has the characterising properties. */
  lemma LeadingColAt(r: seq<real>, c: nat)
    requires c <= |r|
    requires forall k :: 0 <= k < c ==> r[k] == 0.0
    requires c < |r| ==> r[c] != 0.0
    ensures LeadingCol(r) == c
  {
  }

  /** Two rows of one length with the same zero pattern have the same pivot position. */
  lemma LeadingColSamePattern(a: seq<real>, b: seq<real>)
    requires |a| == |b|
    requires forall k :: 0 <= k < |a| ==> (a[k] == 0.0 <==> b[k] == 0.0)
    ensures LeadingCol(a) == LeadingCol(b)
  {
    LeadingColAt(b, LeadingCol(a));
  }

  /** Checking neighbouring rows alone decides row echelon form, in both directions. */
  lemma IsRefIffNeighbours(M: Mat)
    requires IsMatrix(M)
    ensures IsRef(M) <==> forall i :: 0 < i < |M| ==> NeighboursInEchelon(M, i)
  {
    if forall i :: 0 < i < |M| ==> NeighboursInEchelon(M, i) {
      forall i, j | 0 <= i < j < |M| ensures IsZeroRow(M[j]) || LeadingCol(M[i]) < LeadingCol(M[j]) {
        NeighboursChain(M, i, j);
      }
    }
    if IsRef(M) {
      forall i | 0 < i < |M| ensures NeighboursInEchelon(M, i) {
        assert |M[i - 1]| == |M[i]|;
      }
    }
  }

  lemma {:induction false} NeighboursChain(M: Mat, i: nat, j: nat)
    requires IsMatrix(M) && i < j < |M|
    requires forall t :: 0 < t < |M| ==> NeighboursInEchelon(M, t)
    ensures IsZeroRow(M[j]) || LeadingCol(M[i]) < LeadingCol(M[j])
    decreases j - i
  {
    assert NeighboursInEchelon(M, j);
    assert |M[i]| == |M[j]| == |M[j - 1]|;
    if i + 1 < j {
      NeighboursChain(M, i, j - 1);
    }
  }
}
