/** matrix_sum of lectures/5and6-threads/matrix_ops.c: C[i][j] := A[i][j] +
    B[i][j] over the n-by-n square, on C ints. */
module Matrix {

  /** A C int: 32 bits, two's complement. */
  type Int32 = x: int | -0x8000_0000 <= x < 0x8000_0000

  /** The square [0, n) x [0, n) lies inside M. */
  predicate Covers(M: array2<Int32>, n: int) {
    n <= M.Length0 && n <= M.Length1
  }

  /** Every sum of the square fits a C int (the C addition would otherwise
      overflow, which C leaves undefined). */
  predicate SumsFit(A: array2<Int32>, B: array2<Int32>, n: int)
    requires Covers(A, n) && Covers(B, n)
    reads A, B
  {
    forall i, j :: 0 <= i < n && 0 <= j < n ==> -0x8000_0000 <= A[i, j] + B[i, j] < 0x8000_0000
  }

  /** matrix_sum: row by row, column by column, C[i][j] becomes A[i][j] +
      B[i][j]. Each cell of C is written once from the same cell of A and B,
      so the sums hold even when C is A or B; no cell outside the square is
      written, so n <= 0 leaves C as it was. */
  method MatrixSum(A: array2<Int32>, B: array2<Int32>, C: array2<Int32>, n: int)
    requires Covers(A, n) && Covers(B, n) && Covers(C, n)
    requires SumsFit(A, B, n)
    modifies C
    ensures forall i, j :: 0 <= i < n && 0 <= j < n ==> C[i, j] == old(A[i, j]) + old(B[i, j])
    ensures forall i, j :: 0 <= i < C.Length0 && 0 <= j < C.Length1 && !(i < n && j < n) ==>
      C[i, j] == old(C[i, j])
  {
    var i := 0;
    while i < n
      invariant 0 <= i && (i == 0 || i <= n)
      invariant forall r, c :: 0 <= r < i && 0 <= c < n ==> C[r, c] == old(A[r, c]) + old(B[r, c])
      invariant forall r, c :: 0 <= r < C.Length0 && 0 <= c < C.Length1 && !(r < i && c < n) ==>
        C[r, c] == old(C[r, c])
      invariant forall r, c :: i <= r < n && 0 <= c < n ==> A[r, c] == old(A[r, c]) && B[r, c] == old(B[r, c])
    {
      var j := 0;
      while j < n
        invariant 0 <= j <= n
        invariant forall r, c :: 0 <= r < i && 0 <= c < n ==> C[r, c] == old(A[r, c]) + old(B[r, c])
        invariant forall c :: 0 <= c < j ==> C[i, c] == old(A[i, c]) + old(B[i, c])
        invariant forall r, c :: 0 <= r < C.Length0 && 0 <= c < C.Length1 && !(r < i && c < n) && !(r == i && c < j) ==>
          C[r, c] == old(C[r, c])
        invariant forall r, c :: i <= r < n && 0 <= c < n && !(r == i && c < j) ==>
          A[r, c] == old(A[r, c]) && B[r, c] == old(B[r, c])
      {
        C[i, j] := A[i, j] + B[i, j];
        j := j + 1;
      }
      i := i + 1;
    }
  }

  /** Swapping A and B gives the same C: matrix_sum is symmetric in its
      inputs. */
  method SumSymmetric(A: array2<Int32>, B: array2<Int32>, C1: array2<Int32>, C2: array2<Int32>, n: int)
    requires Covers(A, n) && Covers(B, n) && Covers(C1, n) && Covers(C2, n)
    requires SumsFit(A, B, n)
    requires C1 != A && C1 != B && C2 != A && C2 != B && C1 != C2
    modifies C1, C2
    ensures forall i, j :: 0 <= i < n && 0 <= j < n ==> C1[i, j] == C2[i, j]
  {
    MatrixSum(A, B, C1, n);
    MatrixSum(B, A, C2, n);
  }
}
