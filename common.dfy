/**
 * Shared vocabulary of the heat solver model: optional neighbour ranks,
 * C integer division, temperature fields as values, and the 5-point
 * diffusion operator that both solvers evaluate.
 */
module Common {

  /** A neighbour rank, or `None` where the source passes MPI_PROC_NULL. */
  datatype Option<T> = None | Some(value: T)

  /** C's `/` on `int`: the quotient truncated toward zero. */
  function CDiv(a: int, b: int): (q: int)
    requires b != 0
    ensures a >= 0 && b > 0 ==> q == a / b
    ensures a >= 0 && b > 0 ==> q * b <= a < q * b + b
  {
    var n := if a < 0 then -a else a;
    var d := if b < 0 then -b else b;
    if (a < 0) == (b < 0) then n / d else -(n / d)
  }

  /** A 2-D temperature (or workspace) field as a value, indexed [i][j]. */
  type Field = seq<seq<real>>

  /** `f` has `nx` rows of `ny` values, like `double **T` allocated nx by ny. */
  ghost predicate IsGrid(f: Field, nx: int, ny: int) {
    |f| == nx && ny >= 0 && forall i :: 0 <= i < nx ==> |f[i]| == ny
  }

  /** The current contents of a 2-D array, as a field value. */
  ghost function Cells(a: array2<real>): (f: Field)
    reads a
    ensures IsGrid(f, a.Length0, a.Length1)
    ensures forall i, j :: 0 <= i < a.Length0 && 0 <= j < a.Length1 ==> f[i][j] == a[i, j]
  {
    seq(a.Length0, i requires 0 <= i < a.Length0 reads a =>
      seq(a.Length1, j requires 0 <= j < a.Length1 reads a => a[i, j]))
  }

  /** Two fields of the same shape that agree cell by cell are equal. */
  lemma FieldExt(f: Field, g: Field, nx: int, ny: int)
    requires IsGrid(f, nx, ny) && IsGrid(g, nx, ny)
    requires forall i, j :: 0 <= i < nx && 0 <= j < ny ==> f[i][j] == g[i][j]
    ensures f == g
  {
    forall i | 0 <= i < nx
      ensures f[i] == g[i]
    {
      assert forall j :: 0 <= j < ny ==> f[i][j] == g[i][j];
    }
  }

  /** The square of a non-zero real is positive, so dx*dx may divide. */
  lemma SquarePositive(x: real)
    requires x != 0.0
    ensures x * x > 0.0
  {
    if x < 0.0 {
      assert x * x == (-x) * (-x);
    }
  }

  /** a*b, named so that facts about squares can be stated once and reused. */
  function Product(a: real, b: real): real {
    a * b
  }

  /** The product of two positive reals is positive. */
  lemma ProductPositive(a: real, b: real)
    requires a > 0.0 && b > 0.0
    ensures Product(a, b) > 0.0
  {
  }

  /** The product of two non-negative reals is non-negative. */
  lemma ProductNonNegative(a: real, b: real)
    requires a >= 0.0 && b >= 0.0
    ensures Product(a, b) >= 0.0
  {
    if a > 0.0 && b > 0.0 {
      ProductPositive(a, b);
    }
  }

  /** A product with a positive factor d is non-negative only when the other factor is. */
  lemma ProductSign(a: real, d: real)
    requires d > 0.0
    ensures Product(a, d) >= 0.0 ==> a >= 0.0
  {
    if a < 0.0 {
      ProductPositive(-a, d);
      assert Product(a, d) == -Product(-a, d);
    }
  }

  /** A non-negative real divided by the square of a non-zero one is non-negative. */
  lemma QuotientBySquare(a: real, h: real)
    requires h != 0.0
    ensures a >= 0.0 ==> a / (h * h) >= 0.0
  {
    SquarePositive(h);
    var inv := 1.0 / (h * h);
    assert inv * (h * h) == 1.0;
    assert inv > 0.0;
    assert a / (h * h) == a * inv;
    if a > 0.0 {
      ProductPositive(a, inv);
    }
  }

  /** Adding the square of d to a non-negative p never decreases it, and increases it when d != 0. */
  lemma AddSquare(p: real, d: real)
    requires p >= 0.0
    ensures p + Product(d, d) >= p
    ensures d != 0.0 ==> p + Product(d, d) > p
  {
    if d > 0.0 {
      ProductPositive(d, d);
    } else if d < 0.0 {
      ProductPositive(-d, -d);
      assert Product(d, d) == Product(-d, -d);
    }
  }

  /**
   * k*(east + west - 2c)/dxsq + k*(north + south - 2c)/dysq with dxsq = dx*dx
   * and dysq = dy*dy: the 5-point Laplacian scaled by the diffusivity, with
   * the x-neighbours (east, west) and the y-neighbours (north, south) of the
   * centre value c given explicitly, so that a caller can supply local,
   * ghost or zero values.
   */
  function FivePoint(k: real, east: real, west: real, north: real, south: real, c: real,
                     dx: real, dy: real): real
    requires dx != 0.0 && dy != 0.0
  {
    SquarePositive(dx);
    SquarePositive(dy);
    k * (east + west - 2.0 * c) / (dx * dx) + k * (north + south - 2.0 * c) / (dy * dy)
  }
}
