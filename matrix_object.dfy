/**
 * The Matrix object's ref() and rref() getters. A matrix never changes
 * after construction; each getter computes its form on the first call,
 * keeps it in a cache slot of the object, and hands back the cached form
 * on every later call. rref() reuses the cached row echelon form.
 */
module MatrixObject {
  import opened Options
  import opened Matrices
  import opened RowEchelonForm
  import opened ReducedRowEchelonForm

  class Matrix {
    const A: Mat
    var refCache: Option<Mat>
    var rrefCache: Option<Mat>

    /** A cache slot is either empty or holds the form of A. */
    ghost predicate Valid()
      reads this
    {
      && IsMatrix(A)
      && (refCache.Some? ==> refCache.value == RefOf(A).0)
      && (rrefCache.Some? ==> rrefCache.value == RrefOf(A))
    }

    constructor (M: Mat)
      requires IsMatrix(M)
      ensures Valid() && A == M
      ensures refCache == None && rrefCache == None
    {
      A := M;
      refCache := None;
      rrefCache := None;
    }

    /** isRef(): compares each row's pivot with the pivot of the row above, top to bottom. */
    method IsRefMatrix() returns (b: bool)
      requires Valid()
      ensures b == IsRef(A)
    {
      IsRefIffNeighbours(A);
      var i := 1;
      while i < |A|
        invariant 1 <= i <= |A|
        invariant forall t :: 0 < t < i ==> NeighboursInEchelon(A, t)
      {
        var above := FindLeadingCol(A[i - 1]);
        var here := FindLeadingCol(A[i]);
        assert |A[i - 1]| == |A[i]|;
        if here < |A[i]| && above >= here {
          return false;
        }
        i := i + 1;
      }
      return true;
    }

    /** isRref(): isRef(), then each pivot must be 1 and the only non-zero entry of its column. */
    method IsRrefMatrix() returns (b: bool)
      requires Valid()
      ensures b == IsRref(A)
    {
      b := IsRefMatrix();
      if !b {
        return;
      }
      var i := 0;
      while i < |A|
        invariant 0 <= i <= |A|
        invariant forall t :: 0 <= t < i && !IsZeroRow(A[t]) ==> A[t][LeadingCol(A[t])] == 1.0
        invariant forall t, k :: 0 <= t < i && 0 <= k < |A| && k != t && !IsZeroRow(A[t]) ==>
          A[k][LeadingCol(A[t])] == 0.0
      {
        var c := FindLeadingCol(A[i]);
        if c < |A[i]| {
          if A[i][c] != 1.0 {
            return false;
          }
          var k := 0;
          while k < |A|
            invariant 0 <= k <= |A|
            invariant forall u :: 0 <= u < k && u != i ==> A[u][c] == 0.0
          {
            assert |A[k]| == |A[i]|;
            if k != i && A[k][c] != 0.0 {
              return false;
            }
            k := k + 1;
          }
        }
        i := i + 1;
      }
      return true;
    }

    /** ref(): the row echelon form, computed on the first call only. */
    method Ref() returns (R: Mat)
      requires Valid()
      modifies this`refCache
      ensures Valid()
      ensures R == RefOf(A).0 && refCache == Some(R)
      ensures old(refCache).Some? ==> refCache == old(refCache)
    {
      if refCache.None? {
        var E, swaps := RowReductionToEchelonForm(A);
        refCache := Some(E);
      }
      R := refCache.value;
    }

    /** rref(): the reduced row echelon form, computed on the first call only. */
    method Rref() returns (R: Mat)
      requires Valid()
      modifies this`refCache, this`rrefCache
      ensures Valid()
      ensures R == RrefOf(A) && rrefCache == Some(R)
      ensures old(rrefCache).Some? ==> rrefCache == old(rrefCache) && refCache == old(refCache)
      ensures old(rrefCache).None? ==> refCache == Some(RefOf(A).0)
    {
      if rrefCache.None? {
        var E := Ref();
        var F := BackSubstitution(E);
        rrefCache := Some(F);
      }
      R := rrefCache.value;
    }
  }

  /** Two calls of ref() on one matrix give equal results, in row echelon form. */
  method RefTwice(M: Mat) returns (ref1: Mat, ref2: Mat)
    requires IsMatrix(M)
    ensures ref1 == ref2
    ensures SameShape(M, ref1) && IsRef(ref1) && LeadingOnes(ref1)
  {
    var a := new Matrix(M);
    ref1 := a.Ref();
    ref2 := a.Ref();
    RefIsRef(M);
  }

  /** Two calls of rref() on one matrix give equal results, in reduced row echelon form. */
  method RrefTwice(M: Mat) returns (rref1: Mat, rref2: Mat)
    requires IsMatrix(M)
    ensures rref1 == rref2
    ensures SameShape(M, rref1) && IsRref(rref1) && IsRef(rref1)
  {
    var a := new Matrix(M);
    rref1 := a.Rref();
    rref2 := a.Rref();
    RrefIsRref(M);
  }

  /**
   * The getter rref() and the reducer reduce() give the same matrix, and it
   * passes both isRref() and isRef().
   */
  method RrefRoutesAgree(M: Mat) returns (viaGetter: Mat, viaReducer: Mat)
    requires IsMatrix(M)
    ensures viaGetter == viaReducer
    ensures SameShape(M, viaGetter) && IsRref(viaGetter) && IsRef(viaGetter)
  {
    var a := new Matrix(M);
    viaGetter := a.Rref();
    viaReducer := Reduce(M);
  }
}
