/**
 * get_error_norm_2d: the root-mean-square difference of two nx-by-ny
 * arrays. The model computes the mean square (the value under the square
 * root); a caller compares it with tol*tol instead of comparing the root
 * with tol.
 */
module ErrorNorm {
  import opened Common

  /** Sum of (u[j] - v[j])^2 over the first m entries of a row. */
  function RowSquares(u: seq<real>, v: seq<real>, m: nat): real
    requires m <= |u| && m <= |v|
  {
    if m == 0 then 0.0
    else RowSquares(u, v, m - 1) + Product(u[m - 1] - v[m - 1], u[m - 1] - v[m - 1])
  }

  /** Sum of squared differences over the first n rows, m columns each, in row-major order. */
  function SumSquares(a: Field, b: Field, n: nat, m: nat): real
    requires n <= |a| && n <= |b|
    requires forall i :: 0 <= i < n ==> m <= |a[i]| && m <= |b[i]|
  {
    if n == 0 then 0.0
    else SumSquares(a, b, n - 1, m) + RowSquares(a[n - 1], b[n - 1], m)
  }

  /** The mean square difference of two nx-by-ny fields. */
  function MeanSquare(a: Field, b: Field, nx: nat, ny: nat): real
    requires IsGrid(a, nx, ny) && IsGrid(b, nx, ny) && nx > 0 && ny > 0
  {
    ProductOfPositives(nx, ny);
    SumSquares(a, b, nx, ny) / ((nx * ny) as real)
  }

  /**
   * get_error_norm_2d without the final sqrt: accumulate the squared
   * differences cell by cell and divide by nx*ny.
   */
  method ErrorNormSquared(nx: nat, ny: nat, arr1: array2<real>, arr2: array2<real>) returns (ms: real)
    requires nx > 0 && ny > 0
    requires arr1.Length0 == nx && arr1.Length1 == ny && arr2.Length0 == nx && arr2.Length1 == ny
    ensures ms == MeanSquare(Cells(arr1), Cells(arr2), nx, ny)
  {
    ghost var a, b := Cells(arr1), Cells(arr2);
    var normDiff := 0.0;
    for i := 0 to nx
      invariant normDiff == SumSquares(a, b, i, ny)
    {
      for j := 0 to ny
        invariant normDiff == SumSquares(a, b, i, ny) + RowSquares(a[i], b[i], j)
      {
        var localDiff := arr1[i, j] - arr2[i, j];
        assert localDiff == a[i][j] - b[i][j];
        normDiff := normDiff + localDiff * localDiff;
      }
    }
    assert nx * ny > 0 by {
      ProductOfPositives(nx, ny);
    }
    ms := normDiff / ((nx * ny) as real);
  }

  /** The product of two positive naturals is positive. */
  lemma ProductOfPositives(n: nat, m: nat)
    requires n > 0 && m > 0
    ensures n * m > 0
  {
  }

  /** A row sum of squares is never negative, and is zero exactly when the rows agree. */
  lemma {:induction false} RowSquaresZero(u: seq<real>, v: seq<real>, m: nat)
    requires m <= |u| && m <= |v|
    ensures RowSquares(u, v, m) >= 0.0
    ensures RowSquares(u, v, m) == 0.0 <==> forall j :: 0 <= j < m ==> u[j] == v[j]
  {
    if m > 0 {
      RowSquaresZero(u, v, m - 1);
      AddSquare(RowSquares(u, v, m - 1), u[m - 1] - v[m - 1]);
      assert (forall j :: 0 <= j < m ==> u[j] == v[j]) <==>
             (forall j :: 0 <= j < m - 1 ==> u[j] == v[j]) && u[m - 1] == v[m - 1];
    }
  }

  /** The sum of squares is never negative, and is zero exactly when the fields agree. */
  lemma {:induction false} SumSquaresZero(a: Field, b: Field, n: nat, m: nat)
    requires n <= |a| && n <= |b|
    requires forall i :: 0 <= i < n ==> m <= |a[i]| && m <= |b[i]|
    ensures SumSquares(a, b, n, m) >= 0.0
    ensures SumSquares(a, b, n, m) == 0.0 <==> forall i, j :: 0 <= i < n && 0 <= j < m ==> a[i][j] == b[i][j]
  {
    if n > 0 {
      SumSquaresZero(a, b, n - 1, m);
      RowSquaresZero(a[n - 1], b[n - 1], m);
    }
  }

  /** The row sum of squares does not depend on the order of its arguments. */
  lemma {:induction false} RowSquaresSymmetric(u: seq<real>, v: seq<real>, m: nat)
    requires m <= |u| && m <= |v|
    ensures RowSquares(u, v, m) == RowSquares(v, u, m)
  {
    if m > 0 {
      RowSquaresSymmetric(u, v, m - 1);
      assert Product(u[m - 1] - v[m - 1], u[m - 1] - v[m - 1]) == Product(v[m - 1] - u[m - 1], v[m - 1] - u[m - 1]);
    }
  }

  /** The sum of squares does not depend on the order of its arguments. */
  lemma {:induction false} SumSquaresSymmetric(a: Field, b: Field, n: nat, m: nat)
    requires n <= |a| && n <= |b|
    requires forall i :: 0 <= i < n ==> m <= |a[i]| && m <= |b[i]|
    ensures SumSquares(a, b, n, m) == SumSquares(b, a, n, m)
  {
    if n > 0 {
      SumSquaresSymmetric(a, b, n - 1, m);
      RowSquaresSymmetric(a[n - 1], b[n - 1], m);
    }
  }

  /**
   * The mean square is symmetric, never negative, and zero exactly when
   * the two fields are equal.
   */
  lemma MeanSquareProperties(a: Field, b: Field, nx: nat, ny: nat)
    requires IsGrid(a, nx, ny) && IsGrid(b, nx, ny) && nx > 0 && ny > 0
    ensures MeanSquare(a, b, nx, ny) == MeanSquare(b, a, nx, ny)
    ensures MeanSquare(a, b, nx, ny) >= 0.0
    ensures MeanSquare(a, b, nx, ny) == 0.0 <==> a == b
  {
    SumSquaresSymmetric(a, b, nx, ny);
    SumSquaresZero(a, b, nx, ny);
    var d := (nx * ny) as real;
    var ms := MeanSquare(a, b, nx, ny);
    assert ms * d == SumSquares(a, b, nx, ny);
    if a == b {
      assert forall i, j :: 0 <= i < nx && 0 <= j < ny ==> a[i][j] == b[i][j];
    }
    if ms == 0.0 {
      FieldExt(a, b, nx, ny);
    }
  }
}
