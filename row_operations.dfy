/**
 * The three elementary row operations the reducers use: exchanging two
 * rows, dividing a row by its pivot, and subtracting a multiple of one row
 * from another. Each has a specification function and a method that
 * carries it out entry by entry on a local copy of the matrix.
 */
module RowOperations {
  import opened Matrices

  /** Rows i and j exchanged; every other row keeps its place. */
  function SwapRows(M: Mat, i: nat, j: nat): (S: Mat)
    requires IsMatrix(M) && i < |M| && j < |M|
    ensures SameShape(M, S)
    ensures S[i] == M[j] && S[j] == M[i]
    ensures forall k :: 0 <= k < |M| && k != i && k != j ==> S[k] == M[k]
    ensures multiset(S) == multiset(M)
  {
    M[i := M[j]][j := M[i]]
  }

  /** The row divided entry by entry by p; multiplying back by p gives the row again. */
  function Divided(r: seq<real>, p: real): (d: seq<real>)
    requires p != 0.0
    ensures |d| == |r|
    ensures forall k :: 0 <= k < |r| ==> d[k] * p == r[k]
  {
    seq(|r|, k requires 0 <= k < |r| => r[k] / p)
  }

  /** a - f * b entry by entry; adding f * b back gives a again. */
  function Minus(a: seq<real>, f: real, b: seq<real>): (d: seq<real>)
    requires |a| == |b|
    ensures |d| == |a|
    ensures forall k :: 0 <= k < |a| ==> d[k] + f * b[k] == a[k]
  {
    seq(|a|, k requires 0 <= k < |a| => a[k] - f * b[k])
  }

  /** Dividing a row by one of its entries makes that entry 1. */
  lemma DividedByEntry(r: seq<real>, c: nat)
    requires c < |r| && r[c] != 0.0
    ensures Divided(r, r[c])[c] == 1.0
  {
  }

  /** Dividing by 1 changes nothing. */
  lemma DividedByOne(r: seq<real>)
    ensures Divided(r, 1.0) == r
  {
  }

  /** Subtracting zero times a row changes nothing. */
  lemma MinusZero(a: seq<real>, b: seq<real>)
    requires |a| == |b|
    ensures Minus(a, 0.0, b) == a
  {
  }

  /** Dividing by 1/p undoes dividing by p. */
  lemma DividedInverse(r: seq<real>, p: real)
    requires p != 0.0
    ensures Divided(Divided(r, p), 1.0 / p) == r
  {
    var d := Divided(r, p);
    var back := Divided(d, 1.0 / p);
    forall k | 0 <= k < |r| ensures back[k] == r[k] {
      assert d[k] == r[k] / p;
      assert back[k] == d[k] / (1.0 / p);
    }
  }

  /** Adding f times b back undoes subtracting it. */
  lemma MinusInverse(a: seq<real>, f: real, b: seq<real>)
    requires |a| == |b|
    ensures Minus(Minus(a, f, b), -f, b) == a
  {
    var d := Minus(a, f, b);
    var back := Minus(d, -f, b);
    forall k | 0 <= k < |a| ensures back[k] == a[k] {
      assert back[k] + (-f) * b[k] == d[k];
      assert d[k] + f * b[k] == a[k];
    }
  }

  /** Dividing by a non-zero number keeps the zero pattern, hence the pivot position. */
  lemma DividedLeadingCol(r: seq<real>, p: real)
    requires p != 0.0
    ensures LeadingCol(Divided(r, p)) == LeadingCol(r)
  {
    var d := Divided(r, p);
    forall k | 0 <= k < |r| ensures (r[k] == 0.0 <==> d[k] == 0.0) {
      assert d[k] * p == r[k];
    }
    LeadingColSamePattern(r, d);
  }

  /** Subtracting a row that is zero up to and including a's pivot leaves a's pivot where it was. */
  lemma MinusLeadingCol(a: seq<real>, f: real, b: seq<real>)
    requires |a| == |b|
    requires forall k :: 0 <= k < |a| && k <= LeadingCol(a) ==> b[k] == 0.0
    ensures LeadingCol(Minus(a, f, b)) == LeadingCol(a)
  {
    var d := Minus(a, f, b);
    var c := LeadingCol(a);
    forall k | 0 <= k < |a| && k <= c ensures d[k] == a[k] {
      assert b[k] == 0.0 && f * b[k] == 0.0;
    }
    LeadingColAt(d, c);
  }

  /** Divides row i of R by p, one entry at a time. */
  method DivideRow(R: Mat, i: nat, p: real) returns (S: Mat)
    requires IsMatrix(R) && i < |R| && p != 0.0
    ensures S == R[i := Divided(R[i], p)]
  {
    S := R;
    var k := 0;
    while k < |R[i]|
      invariant 0 <= k <= |R[i]|
      invariant |S| == |R| && |S[i]| == |R[i]|
      invariant forall t :: 0 <= t < |R| && t != i ==> S[t] == R[t]
      invariant forall t :: 0 <= t < k ==> S[i][t] == R[i][t] / p
      invariant forall t :: k <= t < |R[i]| ==> S[i][t] == R[i][t]
    {
      S := S[i := S[i][k := S[i][k] / p]];
      k := k + 1;
    }
    assert S[i] == Divided(R[i], p);
  }

  /** Subtracts f times row s from row t of R, one entry at a time. */
  method SubtractRow(R: Mat, t: nat, f: real, s: nat) returns (S: Mat)
    requires IsMatrix(R) && t < |R| && s < |R| && t != s
    ensures S == R[t := Minus(R[t], f, R[s])]
  {
    S := R;
    var k := 0;
    while k < |R[t]|
      invariant 0 <= k <= |R[t]|
      invariant |S| == |R| && |S[t]| == |R[t]|
      invariant forall u :: 0 <= u < |R| && u != t ==> S[u] == R[u]
      invariant forall u :: 0 <= u < k ==> S[t][u] == R[t][u] - f * R[s][u]
      invariant forall u :: k <= u < |R[t]| ==> S[t][u] == R[t][u]
    {
      S := S[t := S[t][k := S[t][k] - f * S[s][k]]];
      k := k + 1;
    }
    assert S[t] == Minus(R[t], f, R[s]);
  }
}

/**
 * Row equivalence: a matrix reached from another by a sequence of
 * elementary row operations, each of which can be undone.
 */
module RowEquivalence {
  import opened Matrices
  import opened RowOperations

  /**
   * An elementary row operation: exchange rows i and j, divide row i by p,
   * or subtract f times row s from row t.
   */
  datatype RowOp =
    | Swap(i: nat, j: nat)
    | Divide(i: nat, p: real)
    | Subtract(t: nat, f: real, s: nat)

  /** The operation names rows of an n-row matrix and can be undone: no division by zero, no row subtracted from itself. */
  predicate Applicable(op: RowOp, n: nat) {
    match op
    case Swap(i, j) => i < n && j < n
    case Divide(i, p) => i < n && p != 0.0
    case Subtract(t, _, s) => t < n && s < n && t != s
  }

  predicate AllApplicable(ops: seq<RowOp>, n: nat) {
    forall k :: 0 <= k < |ops| ==> Applicable(ops[k], n)
  }

  /** The matrix after one operation. */
  function ApplyOp(M: Mat, op: RowOp): (N: Mat)
    requires IsMatrix(M) && Applicable(op, |M|)
    ensures SameShape(M, N)
  {
    match op
    case Swap(i, j) => SwapRows(M, i, j)
    case Divide(i, p) => M[i := Divided(M[i], p)]
    case Subtract(t, f, s) => M[t := Minus(M[t], f, M[s])]
  }

  /** The matrix after the operations, first to last. */
  function Apply(M: Mat, ops: seq<RowOp>): (N: Mat)
    requires IsMatrix(M) && AllApplicable(ops, |M|)
    ensures SameShape(M, N)
    decreases |ops|
  {
    if ops == [] then M else Apply(ApplyOp(M, ops[0]), ops[1..])
  }

  /** The operation that undoes op: the same swap, division by 1/p, adding f times the row back. */
  function Inverse(op: RowOp): RowOp
    requires !op.Divide? || op.p != 0.0
  {
    match op
    case Swap(i, j) => Swap(i, j)
    case Divide(i, p) => Divide(i, 1.0 / p)
    case Subtract(t, f, s) => Subtract(t, -f, s)
  }

  /** The inverses of the operations, last to first. */
  function Undo(ops: seq<RowOp>): (u: seq<RowOp>)
    requires forall k :: 0 <= k < |ops| ==> !ops[k].Divide? || ops[k].p != 0.0
    ensures |u| == |ops|
    decreases |ops|
  {
    if ops == [] then [] else Undo(ops[1..]) + [Inverse(ops[0])]
  }

  /** N arises from M by elementary row operations. */
  ghost predicate RowEquivalent(M: Mat, N: Mat)
    requires IsMatrix(M)
  {
    exists ops :: AllApplicable(ops, |M|) && Apply(M, ops) == N
  }

  /** Applying the inverse of an operation right after it gives the matrix back. */
  lemma ApplyOpInverse(M: Mat, op: RowOp)
    requires IsMatrix(M) && Applicable(op, |M|)
    ensures Applicable(Inverse(op), |M|)
    ensures ApplyOp(ApplyOp(M, op), Inverse(op)) == M
  {
    match op
    case Swap(i, j) =>
    case Divide(i, p) =>
      DividedInverse(M[i], p);
    case Subtract(t, f, s) =>
      MinusInverse(M[t], f, M[s]);
  }

  /** Applying a + b is applying a, then b. */
  lemma {:induction false} ApplyConcat(M: Mat, a: seq<RowOp>, b: seq<RowOp>)
    requires IsMatrix(M) && AllApplicable(a, |M|) && AllApplicable(b, |M|)
    ensures AllApplicable(a + b, |M|)
    ensures Apply(M, a + b) == Apply(Apply(M, a), b)
    decreases |a|
  {
    if a == [] {
      assert a + b == b;
    } else {
      assert (a + b)[0] == a[0] && (a + b)[1..] == a[1..] + b;
      ApplyConcat(ApplyOp(M, a[0]), a[1..], b);
    }
  }

  /** Undo(ops) applied after ops gives the matrix back. */
  lemma {:induction false} ApplyUndo(M: Mat, ops: seq<RowOp>)
    requires IsMatrix(M) && AllApplicable(ops, |M|)
    ensures AllApplicable(Undo(ops), |M|)
    ensures Apply(Apply(M, ops), Undo(ops)) == M
    decreases |ops|
  {
    if ops != [] {
      var M1 := ApplyOp(M, ops[0]);
      var inv := [Inverse(ops[0])];
      ApplyOpInverse(M, ops[0]);
      ApplyUndo(M1, ops[1..]);
      ApplyConcat(Apply(M1, ops[1..]), Undo(ops[1..]), inv);
      assert Apply(M1, inv) == ApplyOp(M1, inv[0]);
    }
  }

  /** Every matrix is row-equivalent to itself. */
  lemma RowEquivalentRefl(M: Mat)
    requires IsMatrix(M)
    ensures RowEquivalent(M, M)
  {
    var none: seq<RowOp> := [];
    assert Apply(M, none) == M;
  }

  /** One operation gives a row-equivalent matrix. */
  lemma RowEquivalentByOp(M: Mat, op: RowOp)
    requires IsMatrix(M) && Applicable(op, |M|)
    ensures RowEquivalent(M, ApplyOp(M, op))
  {
    assert Apply(ApplyOp(M, op), []) == ApplyOp(M, op);
    assert Apply(M, [op]) == ApplyOp(M, op);
  }

  /** Row equivalence runs both ways: the operations can be undone. */
  lemma RowEquivalentSymmetric(M: Mat, N: Mat)
    requires IsMatrix(M) && RowEquivalent(M, N)
    ensures IsMatrix(N) && RowEquivalent(N, M)
  {
    var ops :| AllApplicable(ops, |M|) && Apply(M, ops) == N;
    ApplyUndo(M, ops);
  }

  /** Row equivalence chains. */
  lemma RowEquivalentTrans(A: Mat, B: Mat, C: Mat)
    requires IsMatrix(A) && RowEquivalent(A, B)
    requires IsMatrix(B) && RowEquivalent(B, C)
    ensures RowEquivalent(A, C)
  {
    var a :| AllApplicable(a, |A|) && Apply(A, a) == B;
    var b :| AllApplicable(b, |B|) && Apply(B, b) == C;
    ApplyConcat(A, a, b);
  }

  /**
   * Rows lo .. hi-1 other than s that have a non-zero entry in column c
   * get that entry times row s subtracted; all other rows stay.
   */
  function SubtractedRange(M: Mat, s: nat, c: nat, lo: nat, hi: nat): (E: Mat)
    requires IsMatrix(M) && s < |M| && c < Cols(M) && hi <= |M|
    ensures SameShape(M, E)
    ensures forall k :: 0 <= k < |M| && !(lo <= k < hi && k != s) ==> E[k] == M[k]
    ensures forall k :: lo <= k < hi && k != s ==> E[k] == Minus(M[k], M[k][c], M[s])
  {
    var E := seq(|M|, k requires 0 <= k < |M| =>
      if lo <= k < hi && k != s && M[k][c] != 0.0 then Minus(M[k], M[k][c], M[s]) else M[k]);
    forall k | lo <= k < hi && k != s && M[k][c] == 0.0 ensures E[k] == Minus(M[k], M[k][c], M[s]) {
      MinusZero(M[k], M[s]);
    }
    E
  }

  /** Subtracting multiples of one row from a range of other rows is a sequence of row operations. */
  lemma {:induction false} SubtractedRangeEquivalent(M: Mat, s: nat, c: nat, lo: nat, hi: nat)
    requires IsMatrix(M) && s < |M| && c < Cols(M) && hi <= |M|
    ensures RowEquivalent(M, SubtractedRange(M, s, c, lo, hi))
    decreases hi
  {
    if hi <= lo {
      assert SubtractedRange(M, s, c, lo, hi) == M;
      RowEquivalentRefl(M);
    } else {
      var t := hi - 1;
      var P := SubtractedRange(M, s, c, lo, t);
      var E := SubtractedRange(M, s, c, lo, hi);
      SubtractedRangeEquivalent(M, s, c, lo, t);
      if t != s && M[t][c] != 0.0 {
        var op := Subtract(t, M[t][c], s);
        assert P[t] == M[t] && P[s] == M[s];
        assert ApplyOp(P, op) == E;
        RowEquivalentByOp(P, op);
        RowEquivalentTrans(M, P, E);
      } else {
        assert P == E;
      }
    }
  }
}
