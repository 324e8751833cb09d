/**
 * linsolve_hc2d_jacobi and linsolve_hc2d_gs: iterative solvers for the
 * implicit system of timestep_BwdEuler,
 *   (1 + 2rx + 2ry) T[i][j] - rx (T[i-1][j] + T[i+1][j]) - ry (T[i][j-1] + T[i][j+1]) = rhs[i][j]
 * at every interior point. Each iteration sweeps the interior into Tnew,
 * compares T and Tnew, stops when they are close, and otherwise copies
 * Tnew into T; at most 1000 iterations are made.
 */
module IterativeSolvers {
  import opened Common
  import opened ErrorNorm
  import opened SerialExplicit

  /** max_iter in both solvers. */
  const MaxIter: int := 1000
  /** tol in both solvers; the model compares the mean square with Tol*Tol. */
  const Tol: real := 0.000001

  /** denom = 1 + 2rx + 2ry. */
  function Denom(rx: real, ry: real): real {
    1.0 + 2.0 * rx + 2.0 * ry
  }

  /** One point update: (b + rx*west + rx*east + ry*south + ry*north) / denom. */
  function Relax(b: real, west: real, east: real, south: real, north: real, rx: real, ry: real): real
    requires Denom(rx, ry) != 0.0
  {
    (b + rx * west + rx * east + ry * south + ry * north) / Denom(rx, ry)
  }

  /** The sizes and coefficients every solver needs. */
  ghost predicate SolverInputs(t: Field, tn: Field, r: Field, nx: int, ny: int, rx: real, ry: real) {
    IsGrid(t, nx, ny) && IsGrid(tn, nx, ny) && IsGrid(r, nx, ny) && Denom(rx, ry) != 0.0
  }

  /** The implicit equation at the interior point (i, j). */
  ghost predicate ImplicitAt(t: Field, r: Field, nx: int, ny: int, rx: real, ry: real, i: int, j: int)
    requires IsGrid(t, nx, ny) && IsGrid(r, nx, ny) && IsInterior(i, j, nx, ny)
  {
    Denom(rx, ry) * t[i][j] - rx * t[i - 1][j] - rx * t[i + 1][j] - ry * t[i][j - 1] - ry * t[i][j + 1] == r[i][j]
  }

  /** t solves the implicit system at every interior point. */
  ghost predicate SolvesImplicit(t: Field, r: Field, nx: int, ny: int, rx: real, ry: real)
    requires IsGrid(t, nx, ny) && IsGrid(r, nx, ny)
  {
    forall i, j :: IsInterior(i, j, nx, ny) ==> ImplicitAt(t, r, nx, ny, rx, ry, i, j)
  }

  // ---------------------------------------------------------------- Jacobi

  /**
   * The Jacobi sweep: every interior point from the previous iterate t
   * only; edge points keep what tn held.
   */
  ghost function JacobiSweep(t: Field, tn: Field, r: Field, nx: int, ny: int, rx: real, ry: real): (g: Field)
    requires SolverInputs(t, tn, r, nx, ny, rx, ry)
    ensures IsGrid(g, nx, ny)
    ensures forall i, j :: 0 <= i < nx && 0 <= j < ny && !IsInterior(i, j, nx, ny) ==> g[i][j] == tn[i][j]
    ensures forall i, j :: 0 <= i < nx && 0 <= j < ny ==> g[i][j] == JacobiAt(t, tn, r, nx, ny, rx, ry, i, j)
  {
    seq(nx, i requires 0 <= i < nx => seq(ny, j requires 0 <= j < ny => JacobiAt(t, tn, r, nx, ny, rx, ry, i, j)))
  }

  /** The value the Jacobi sweep leaves at (i, j). */
  ghost function JacobiAt(t: Field, tn: Field, r: Field, nx: int, ny: int, rx: real, ry: real, i: int, j: int): real
    requires SolverInputs(t, tn, r, nx, ny, rx, ry)
    requires 0 <= i < nx && 0 <= j < ny
  {
    if IsInterior(i, j, nx, ny) then Relax(r[i][j], t[i - 1][j], t[i + 1][j], t[i][j - 1], t[i][j + 1], rx, ry)
    else tn[i][j]
  }

  /** The Jacobi sweep loop: Tnew's interior from T and rhs, in any order. */
  method JacobiSweepLoop(nx: int, ny: int, rx: real, ry: real, rhs: array2<real>, T: array2<real>, Tnew: array2<real>)
    requires T.Length0 == nx && T.Length1 == ny && Tnew.Length0 == nx && Tnew.Length1 == ny
    requires rhs.Length0 == nx && rhs.Length1 == ny
    requires Tnew != T && Tnew != rhs && nx >= 0 && ny >= 0 && Denom(rx, ry) != 0.0
    modifies Tnew
    ensures Cells(Tnew) == JacobiSweep(Cells(T), old(Cells(Tnew)), Cells(rhs), nx, ny, rx, ry)
  {
    ghost var t, tn, r := Cells(T), Cells(Tnew), Cells(rhs);
    ghost var g := JacobiSweep(t, tn, r, nx, ny, rx, ry);
    for i := 1 to if nx - 1 < 1 then 1 else nx - 1
      invariant forall a, b :: 0 <= a < nx && 0 <= b < ny ==>
        Tnew[a, b] == if a < i then g[a][b] else tn[a][b]
    {
      JacobiRow(i, nx, ny, rx, ry, rhs, T, Tnew, tn);
    }
    FieldExt(Cells(Tnew), g, nx, ny);
  }

  /** One row i of the Jacobi sweep loop: the inner loop over j. */
  method JacobiRow(i: int, nx: int, ny: int, rx: real, ry: real, rhs: array2<real>, T: array2<real>, Tnew: array2<real>,
                   ghost tn: Field)
    requires T.Length0 == nx && T.Length1 == ny && Tnew.Length0 == nx && Tnew.Length1 == ny
    requires rhs.Length0 == nx && rhs.Length1 == ny
    requires Tnew != T && Tnew != rhs && 0 < i < nx - 1 && ny >= 0 && Denom(rx, ry) != 0.0 && IsGrid(tn, nx, ny)
    modifies Tnew
    ensures forall a, b :: 0 <= a < nx && 0 <= b < ny ==>
      Tnew[a, b] == if a == i && 0 < b < ny - 1 then JacobiAt(Cells(T), tn, Cells(rhs), nx, ny, rx, ry, a, b)
                    else old(Tnew[a, b])
  {
    ghost var t, r := Cells(T), Cells(rhs);
    for j := 1 to if ny - 1 < 1 then 1 else ny - 1
      invariant forall a, b :: 0 <= a < nx && 0 <= b < ny ==>
        Tnew[a, b] == if a == i && 0 < b < j then JacobiAt(t, tn, r, nx, ny, rx, ry, a, b) else old(Tnew[a, b])
    {
      Tnew[i, j] := Relax(rhs[i, j], T[i - 1, j], T[i + 1, j], T[i, j - 1], T[i, j + 1], rx, ry);
    }
  }

  // ---------------------------------------------------------- Gauss-Seidel

  /**
   * The value the row-major Gauss-Seidel sweep leaves at (i, j): west and
   * south neighbours are this sweep's own new values, east and north
   * neighbours come from the previous iterate t; edge points keep tn.
   */
  ghost function GsValue(t: Field, tn: Field, r: Field, nx: int, ny: int, rx: real, ry: real, i: int, j: int): real
    requires SolverInputs(t, tn, r, nx, ny, rx, ry)
    requires 0 <= i < nx && 0 <= j < ny
    decreases i, j
  {
    if !IsInterior(i, j, nx, ny) then tn[i][j]
    else Relax(r[i][j], GsValue(t, tn, r, nx, ny, rx, ry, i - 1, j), t[i + 1][j],
               GsValue(t, tn, r, nx, ny, rx, ry, i, j - 1), t[i][j + 1], rx, ry)
  }

  /** The whole Gauss-Seidel sweep as a field. */
  ghost function GsSweep(t: Field, tn: Field, r: Field, nx: int, ny: int, rx: real, ry: real): (g: Field)
    requires SolverInputs(t, tn, r, nx, ny, rx, ry)
    ensures IsGrid(g, nx, ny)
    ensures forall i, j :: 0 <= i < nx && 0 <= j < ny ==> g[i][j] == GsValue(t, tn, r, nx, ny, rx, ry, i, j)
  {
    seq(nx, i requires 0 <= i < nx => seq(ny, j requires 0 <= j < ny => GsValue(t, tn, r, nx, ny, rx, ry, i, j)))
  }

  /**
   * The equations an in-place Gauss-Seidel sweep satisfies: edge points
   * keep tn, and every interior point is the update of its already-updated
   * west and south neighbours in g and its east and north neighbours in t.
   */
  ghost predicate GsEquations(g: Field, t: Field, tn: Field, r: Field, nx: int, ny: int, rx: real, ry: real)
    requires SolverInputs(t, tn, r, nx, ny, rx, ry) && IsGrid(g, nx, ny)
  {
    forall i, j :: 0 <= i < nx && 0 <= j < ny ==> GsEquationAt(g, t, tn, r, nx, ny, rx, ry, i, j)
  }

  /** The Gauss-Seidel equation of the point (i, j). */
  ghost predicate GsEquationAt(g: Field, t: Field, tn: Field, r: Field, nx: int, ny: int, rx: real, ry: real,
                               i: int, j: int)
    requires SolverInputs(t, tn, r, nx, ny, rx, ry) && IsGrid(g, nx, ny)
    requires 0 <= i < nx && 0 <= j < ny
  {
    g[i][j] == if IsInterior(i, j, nx, ny)
               then Relax(r[i][j], g[i - 1][j], t[i + 1][j], g[i][j - 1], t[i][j + 1], rx, ry)
               else tn[i][j]
  }

  /** The Gauss-Seidel sweep loop: Tnew[i-1][j] and Tnew[i][j-1] are this sweep's values. */
  method GsSweepLoop(nx: int, ny: int, rx: real, ry: real, rhs: array2<real>, T: array2<real>, Tnew: array2<real>)
    requires T.Length0 == nx && T.Length1 == ny && Tnew.Length0 == nx && Tnew.Length1 == ny
    requires rhs.Length0 == nx && rhs.Length1 == ny
    requires Tnew != T && Tnew != rhs && nx >= 0 && ny >= 0 && Denom(rx, ry) != 0.0
    modifies Tnew
    ensures Cells(Tnew) == GsSweep(Cells(T), old(Cells(Tnew)), Cells(rhs), nx, ny, rx, ry)
  {
    ghost var t, tn, r := Cells(T), Cells(Tnew), Cells(rhs);
    ghost var g := GsSweep(t, tn, r, nx, ny, rx, ry);
    for i := 1 to if nx - 1 < 1 then 1 else nx - 1
      invariant forall a, b :: 0 <= a < nx && 0 <= b < ny ==>
        Tnew[a, b] == if a < i then g[a][b] else tn[a][b]
    {
      for j := 1 to if ny - 1 < 1 then 1 else ny - 1
        invariant forall a, b :: 0 <= a < nx && 0 <= b < ny ==>
          Tnew[a, b] == if a < i || (a == i && b < j) then g[a][b] else tn[a][b]
      {
        assert Tnew[i - 1, j] == g[i - 1][j] && Tnew[i, j - 1] == g[i][j - 1];
        Tnew[i, j] := Relax(rhs[i, j], Tnew[i - 1, j], T[i + 1, j], Tnew[i, j - 1], T[i, j + 1], rx, ry);
      }
    }
    FieldExt(Cells(Tnew), g, nx, ny);
  }

  /** The Gauss-Seidel sweep satisfies the in-place equations. */
  lemma GsSweepSatisfies(t: Field, tn: Field, r: Field, nx: int, ny: int, rx: real, ry: real)
    requires SolverInputs(t, tn, r, nx, ny, rx, ry)
    ensures GsEquations(GsSweep(t, tn, r, nx, ny, rx, ry), t, tn, r, nx, ny, rx, ry)
  {
    var g := GsSweep(t, tn, r, nx, ny, rx, ry);
    forall i, j | 0 <= i < nx && 0 <= j < ny
      ensures GsEquationAt(g, t, tn, r, nx, ny, rx, ry, i, j)
    {
    }
  }

  /**
   * The in-place equations have exactly one solution: any g that satisfies
   * them is the Gauss-Seidel sweep, so the sweep is determined by t, the
   * edges of tn and rhs alone.
   */
  lemma GsEquationsUnique(g: Field, t: Field, tn: Field, r: Field, nx: int, ny: int, rx: real, ry: real)
    requires SolverInputs(t, tn, r, nx, ny, rx, ry) && IsGrid(g, nx, ny)
    requires GsEquations(g, t, tn, r, nx, ny, rx, ry)
    ensures g == GsSweep(t, tn, r, nx, ny, rx, ry)
  {
    forall i, j | 0 <= i < nx && 0 <= j < ny
      ensures g[i][j] == GsValue(t, tn, r, nx, ny, rx, ry, i, j)
    {
      GsAgreesAt(g, t, tn, r, nx, ny, rx, ry, i, j);
    }
    FieldExt(g, GsSweep(t, tn, r, nx, ny, rx, ry), nx, ny);
  }

  /** Induction in row-major order behind GsEquationsUnique. */
  lemma {:induction false} GsAgreesAt(g: Field, t: Field, tn: Field, r: Field, nx: int, ny: int, rx: real, ry: real,
                                      i: int, j: int)
    requires SolverInputs(t, tn, r, nx, ny, rx, ry) && IsGrid(g, nx, ny)
    requires GsEquations(g, t, tn, r, nx, ny, rx, ry)
    requires 0 <= i < nx && 0 <= j < ny
    ensures g[i][j] == GsValue(t, tn, r, nx, ny, rx, ry, i, j)
    decreases i, j
  {
    assert GsEquationAt(g, t, tn, r, nx, ny, rx, ry, i, j);
    if IsInterior(i, j, nx, ny) {
      GsAgreesAt(g, t, tn, r, nx, ny, rx, ry, i - 1, j);
      GsAgreesAt(g, t, tn, r, nx, ny, rx, ry, i, j - 1);
    }
  }

  // ------------------------------------------------------- fixed points

  /** A point is its own update exactly when it satisfies its implicit equation. */
  lemma RelaxFixedPoint(x: real, b: real, west: real, east: real, south: real, north: real, rx: real, ry: real)
    requires Denom(rx, ry) != 0.0
    ensures Relax(b, west, east, south, north, rx, ry) == x <==>
      Denom(rx, ry) * x - rx * west - rx * east - ry * south - ry * north == b
  {
    var d := Denom(rx, ry);
    var s := b + rx * west + rx * east + ry * south + ry * north;
    assert Relax(b, west, east, south, north, rx, ry) == s / d;
    assert (s / d == x) <==> (s == d * x);
  }

  /**
   * t is left unchanged by a Jacobi sweep (with tn = t) exactly when t
   * solves the implicit system.
   */
  lemma JacobiFixedPoints(t: Field, r: Field, nx: int, ny: int, rx: real, ry: real)
    requires SolverInputs(t, t, r, nx, ny, rx, ry)
    ensures JacobiSweep(t, t, r, nx, ny, rx, ry) == t <==> SolvesImplicit(t, r, nx, ny, rx, ry)
  {
    var g := JacobiSweep(t, t, r, nx, ny, rx, ry);
    forall i, j | IsInterior(i, j, nx, ny)
      ensures g[i][j] == t[i][j] <==> ImplicitAt(t, r, nx, ny, rx, ry, i, j)
    {
      JacobiFixedAt(t, r, nx, ny, rx, ry, i, j);
    }
    if SolvesImplicit(t, r, nx, ny, rx, ry) {
      FieldExt(g, t, nx, ny);
    }
  }

  /** One interior cell of JacobiFixedPoints. */
  lemma JacobiFixedAt(t: Field, r: Field, nx: int, ny: int, rx: real, ry: real, i: int, j: int)
    requires SolverInputs(t, t, r, nx, ny, rx, ry) && IsInterior(i, j, nx, ny)
    ensures JacobiAt(t, t, r, nx, ny, rx, ry, i, j) == t[i][j] <==> ImplicitAt(t, r, nx, ny, rx, ry, i, j)
  {
    RelaxFixedPoint(t[i][j], r[i][j], t[i - 1][j], t[i + 1][j], t[i][j - 1], t[i][j + 1], rx, ry);
  }

  /**
   * t satisfies the Gauss-Seidel equations with itself as both iterates
   * exactly when t solves the implicit system: Jacobi and Gauss-Seidel have
   * the same fixed points.
   */
  lemma GsFixedPoints(t: Field, r: Field, nx: int, ny: int, rx: real, ry: real)
    requires SolverInputs(t, t, r, nx, ny, rx, ry)
    ensures GsEquations(t, t, t, r, nx, ny, rx, ry) <==> SolvesImplicit(t, r, nx, ny, rx, ry)
  {
    forall i, j | 0 <= i < nx && 0 <= j < ny
      ensures GsEquationAt(t, t, t, r, nx, ny, rx, ry, i, j) <==>
        (IsInterior(i, j, nx, ny) ==> ImplicitAt(t, r, nx, ny, rx, ry, i, j))
    {
      if IsInterior(i, j, nx, ny) {
        RelaxFixedPoint(t[i][j], r[i][j], t[i - 1][j], t[i + 1][j], t[i][j - 1], t[i][j + 1], rx, ry);
      }
    }
  }

  /**
   * Neither sweep writes an edge cell of Tnew, and both read Tnew only at
   * its edge cells: two starting Tnew that agree on the edges give the same
   * sweep, so the Jacobi interior depends on T and rhs alone.
   */
  lemma SweepFrame(m: Scheme, t: Field, tn1: Field, tn2: Field, r: Field, nx: int, ny: int, rx: real, ry: real)
    requires SolverInputs(t, tn1, r, nx, ny, rx, ry) && IsGrid(tn2, nx, ny)
    requires forall i, j :: 0 <= i < nx && 0 <= j < ny && !IsInterior(i, j, nx, ny) ==> tn1[i][j] == tn2[i][j]
    ensures forall i, j :: 0 <= i < nx && 0 <= j < ny && !IsInterior(i, j, nx, ny) ==>
      Sweep(m, t, tn1, r, nx, ny, rx, ry)[i][j] == tn1[i][j]
    ensures Sweep(m, t, tn1, r, nx, ny, rx, ry) == Sweep(m, t, tn2, r, nx, ny, rx, ry)
  {
    var g1, g2 := Sweep(m, t, tn1, r, nx, ny, rx, ry), Sweep(m, t, tn2, r, nx, ny, rx, ry);
    forall i, j | 0 <= i < nx && 0 <= j < ny
      ensures g1[i][j] == g2[i][j]
      ensures !IsInterior(i, j, nx, ny) ==> g1[i][j] == tn1[i][j]
    {
      if m == GaussSeidel {
        GsValueFrame(t, tn1, tn2, r, nx, ny, rx, ry, i, j);
      }
    }
    FieldExt(g1, g2, nx, ny);
  }

  /** GsValue reads tn only at edge cells. */
  lemma {:induction false} GsValueFrame(t: Field, tn1: Field, tn2: Field, r: Field, nx: int, ny: int, rx: real, ry: real,
                                        i: int, j: int)
    requires SolverInputs(t, tn1, r, nx, ny, rx, ry) && IsGrid(tn2, nx, ny)
    requires forall i, j :: 0 <= i < nx && 0 <= j < ny && !IsInterior(i, j, nx, ny) ==> tn1[i][j] == tn2[i][j]
    requires 0 <= i < nx && 0 <= j < ny
    ensures GsValue(t, tn1, r, nx, ny, rx, ry, i, j) == GsValue(t, tn2, r, nx, ny, rx, ry, i, j)
    decreases i, j
  {
    if IsInterior(i, j, nx, ny) {
      GsValueFrame(t, tn1, tn2, r, nx, ny, rx, ry, i - 1, j);
      GsValueFrame(t, tn1, tn2, r, nx, ny, rx, ry, i, j - 1);
    }
  }

  // ------------------------------------------------------------ iteration

  /** Which sweep a solver repeats. */
  datatype Scheme = Jacobi | GaussSeidel

  /** One sweep of the given scheme into a copy of tn. */
  ghost function Sweep(m: Scheme, t: Field, tn: Field, r: Field, nx: int, ny: int, rx: real, ry: real): (g: Field)
    requires SolverInputs(t, tn, r, nx, ny, rx, ry)
    ensures IsGrid(g, nx, ny)
  {
    match m
    case Jacobi => JacobiSweep(t, tn, r, nx, ny, rx, ry)
    case GaussSeidel => GsSweep(t, tn, r, nx, ny, rx, ry)
  }

  /** The contents of T and Tnew at the start of an iteration. */
  datatype Iterates = Iterates(t: Field, tn: Field)

  /**
   * The contents of T and Tnew after n sweep-and-copy iterations from
   * (t0, tn0): each iteration sweeps into Tnew and copies all of Tnew into T.
   */
  ghost function IterateState(m: Scheme, t0: Field, tn0: Field, r: Field, nx: int, ny: int, rx: real, ry: real,
                              n: nat): (p: Iterates)
    requires SolverInputs(t0, tn0, r, nx, ny, rx, ry)
    ensures SolverInputs(p.t, p.tn, r, nx, ny, rx, ry)
    ensures n > 0 ==> p.t == p.tn
  {
    if n == 0 then Iterates(t0, tn0)
    else
      var p := IterateState(m, t0, tn0, r, nx, ny, rx, ry, n - 1);
      var g := Sweep(m, p.t, p.tn, r, nx, ny, rx, ry);
      Iterates(g, g)
  }

  /**
   * The convergence test of iteration n: the mean square difference between
   * T and the freshly swept Tnew is below Tol*Tol.
   */
  ghost predicate ConvergedAt(m: Scheme, t0: Field, tn0: Field, r: Field, nx: nat, ny: nat, rx: real, ry: real, n: nat)
    requires SolverInputs(t0, tn0, r, nx, ny, rx, ry) && nx > 0 && ny > 0
  {
    var p := IterateState(m, t0, tn0, r, nx, ny, rx, ry, n);
    MeanSquare(p.t, Sweep(m, p.t, p.tn, r, nx, ny, rx, ry), nx, ny) < Tol * Tol
  }

  /**
   * What a solver leaves behind after returning (k, meanSq): no earlier
   * iteration converged; if iteration k converged (k < MaxIter), T holds the
   * iterate it started from and Tnew the sweep of it, whose mean square
   * difference from T is meanSq; otherwise both hold the MaxIter-th iterate.
   */
  ghost predicate SolverOutcome(m: Scheme, t0: Field, tn0: Field, r: Field, nx: nat, ny: nat, rx: real, ry: real,
                                k: int, meanSq: real, t: Field, tn: Field)
    requires SolverInputs(t0, tn0, r, nx, ny, rx, ry) && nx > 0 && ny > 0
  {
    && 0 <= k <= MaxIter
    && (forall n: nat :: n < k ==> !ConvergedAt(m, t0, tn0, r, nx, ny, rx, ry, n))
    && (k < MaxIter ==>
         var p := IterateState(m, t0, tn0, r, nx, ny, rx, ry, k);
         && ConvergedAt(m, t0, tn0, r, nx, ny, rx, ry, k)
         && t == p.t && tn == Sweep(m, p.t, p.tn, r, nx, ny, rx, ry)
         && meanSq == MeanSquare(t, tn, nx, ny) && meanSq < Tol * Tol)
    && (k == MaxIter ==>
         var p := IterateState(m, t0, tn0, r, nx, ny, rx, ry, k);
         t == p.t && tn == p.tn && meanSq >= Tol * Tol)
  }

  /** The copy loop `T[i][j] = Tnew[i][j]` over the whole grid. */
  method CopyInto(T: array2<real>, Tnew: array2<real>)
    requires T != Tnew && T.Length0 == Tnew.Length0 && T.Length1 == Tnew.Length1
    modifies T
    ensures Cells(T) == Cells(Tnew)
  {
    for i := 0 to T.Length0
      invariant forall a, b :: 0 <= a < T.Length0 && 0 <= b < T.Length1 ==>
        T[a, b] == if a < i then Tnew[a, b] else old(T[a, b])
    {
      for j := 0 to T.Length1
        invariant forall a, b :: 0 <= a < T.Length0 && 0 <= b < T.Length1 ==>
          T[a, b] == if a < i || (a == i && b < j) then Tnew[a, b] else old(T[a, b])
      {
        T[i, j] := Tnew[i, j];
      }
    }
    FieldExt(Cells(T), Cells(Tnew), T.Length0, T.Length1);
  }

  /**
   * linsolve_hc2d_jacobi: repeat the Jacobi sweep until the root-mean-square
   * difference between T and Tnew is below Tol, for at most MaxIter
   * iterations; returns the iteration count k and the last mean square.
   */
  method LinsolveJacobi(nx: nat, ny: nat, rx: real, ry: real, rhs: array2<real>, T: array2<real>, Tnew: array2<real>)
    returns (k: int, meanSq: real)
    requires T.Length0 == nx && T.Length1 == ny && Tnew.Length0 == nx && Tnew.Length1 == ny
    requires rhs.Length0 == nx && rhs.Length1 == ny
    requires Tnew != T && Tnew != rhs && T != rhs && nx > 0 && ny > 0 && Denom(rx, ry) != 0.0
    modifies T, Tnew
    ensures SolverOutcome(Jacobi, old(Cells(T)), old(Cells(Tnew)), Cells(rhs), nx, ny, rx, ry,
                          k, meanSq, Cells(T), Cells(Tnew))
  {
    ghost var t0, tn0, r := Cells(T), Cells(Tnew), Cells(rhs);
    k := 0;
    meanSq := 0.0;
    while k < MaxIter
      invariant 0 <= k <= MaxIter
      invariant Cells(rhs) == r
      invariant Iterates(Cells(T), Cells(Tnew)) == IterateState(Jacobi, t0, tn0, r, nx, ny, rx, ry, k)
      invariant forall n: nat :: n < k ==> !ConvergedAt(Jacobi, t0, tn0, r, nx, ny, rx, ry, n)
      invariant k > 0 ==> meanSq >= Tol * Tol
    {
      ghost var p := IterateState(Jacobi, t0, tn0, r, nx, ny, rx, ry, k);
      JacobiSweepLoop(nx, ny, rx, ry, rhs, T, Tnew);
      assert Cells(Tnew) == Sweep(Jacobi, p.t, p.tn, r, nx, ny, rx, ry);
      meanSq := ErrorNormSquared(nx, ny, T, Tnew);
      assert ConvergedAt(Jacobi, t0, tn0, r, nx, ny, rx, ry, k) <==> meanSq < Tol * Tol;
      if meanSq < Tol * Tol {
        break;
      }
      CopyInto(T, Tnew);
      k := k + 1;
    }
  }

  /**
   * linsolve_hc2d_gs: the same iteration with the Gauss-Seidel sweep.
   */
  method LinsolveGs(nx: nat, ny: nat, rx: real, ry: real, rhs: array2<real>, T: array2<real>, Tnew: array2<real>)
    returns (k: int, meanSq: real)
    requires T.Length0 == nx && T.Length1 == ny && Tnew.Length0 == nx && Tnew.Length1 == ny
    requires rhs.Length0 == nx && rhs.Length1 == ny
    requires Tnew != T && Tnew != rhs && T != rhs && nx > 0 && ny > 0 && Denom(rx, ry) != 0.0
    modifies T, Tnew
    ensures SolverOutcome(GaussSeidel, old(Cells(T)), old(Cells(Tnew)), Cells(rhs), nx, ny, rx, ry,
                          k, meanSq, Cells(T), Cells(Tnew))
  {
    ghost var t0, tn0, r := Cells(T), Cells(Tnew), Cells(rhs);
    k := 0;
    meanSq := 0.0;
    while k < MaxIter
      invariant 0 <= k <= MaxIter
      invariant Cells(rhs) == r
      invariant Iterates(Cells(T), Cells(Tnew)) == IterateState(GaussSeidel, t0, tn0, r, nx, ny, rx, ry, k)
      invariant forall n: nat :: n < k ==> !ConvergedAt(GaussSeidel, t0, tn0, r, nx, ny, rx, ry, n)
      invariant k > 0 ==> meanSq >= Tol * Tol
    {
      ghost var p := IterateState(GaussSeidel, t0, tn0, r, nx, ny, rx, ry, k);
      GsSweepLoop(nx, ny, rx, ry, rhs, T, Tnew);
      assert Cells(Tnew) == Sweep(GaussSeidel, p.t, p.tn, r, nx, ny, rx, ry);
      meanSq := ErrorNormSquared(nx, ny, T, Tnew);
      assert ConvergedAt(GaussSeidel, t0, tn0, r, nx, ny, rx, ry, k) <==> meanSq < Tol * Tol;
      if meanSq < Tol * Tol {
        break;
      }
      CopyInto(T, Tnew);
      k := k + 1;
    }
  }

  // ------------------------------------------------ iteration and solutions

  /**
   * If a sweep leaves t unchanged, whatever Tnew held before, then t solves
   * the implicit system.
   */
  lemma StationarySolves(m: Scheme, t: Field, tn: Field, r: Field, nx: int, ny: int, rx: real, ry: real)
    requires SolverInputs(t, tn, r, nx, ny, rx, ry)
    requires Sweep(m, t, tn, r, nx, ny, rx, ry) == t
    ensures SolvesImplicit(t, r, nx, ny, rx, ry)
  {
    forall i, j | IsInterior(i, j, nx, ny)
      ensures ImplicitAt(t, r, nx, ny, rx, ry, i, j)
    {
      StationaryAt(m, t, tn, r, nx, ny, rx, ry, i, j);
      ImplicitFromRelax(t, r, nx, ny, rx, ry, i, j);
    }
  }

  /** An interior point that is its own update satisfies its implicit equation. */
  lemma ImplicitFromRelax(t: Field, r: Field, nx: int, ny: int, rx: real, ry: real, i: int, j: int)
    requires IsGrid(t, nx, ny) && IsGrid(r, nx, ny) && Denom(rx, ry) != 0.0 && IsInterior(i, j, nx, ny)
    requires Relax(r[i][j], t[i - 1][j], t[i + 1][j], t[i][j - 1], t[i][j + 1], rx, ry) == t[i][j]
    ensures ImplicitAt(t, r, nx, ny, rx, ry, i, j)
  {
    RelaxFixedPoint(t[i][j], r[i][j], t[i - 1][j], t[i + 1][j], t[i][j - 1], t[i][j + 1], rx, ry);
  }

  /** At an interior point of a field a sweep leaves unchanged, the point is its own update. */
  lemma StationaryAt(m: Scheme, t: Field, tn: Field, r: Field, nx: int, ny: int, rx: real, ry: real, i: int, j: int)
    requires SolverInputs(t, tn, r, nx, ny, rx, ry)
    requires Sweep(m, t, tn, r, nx, ny, rx, ry) == t
    requires IsInterior(i, j, nx, ny)
    ensures Relax(r[i][j], t[i - 1][j], t[i + 1][j], t[i][j - 1], t[i][j + 1], rx, ry) == t[i][j]
  {
    if m == GaussSeidel {
      GsSweepSatisfies(t, tn, r, nx, ny, rx, ry);
      assert GsEquationAt(t, t, tn, r, nx, ny, rx, ry, i, j);
    } else {
      assert JacobiSweep(t, tn, r, nx, ny, rx, ry)[i][j] == t[i][j];
    }
  }

  /**
   * Both schemes have exactly the solutions of the implicit system as fixed
   * points: a sweep with T = Tnew = t gives t back if and only if t solves it.
   */
  lemma SweepFixedPoints(m: Scheme, t: Field, r: Field, nx: int, ny: int, rx: real, ry: real)
    requires SolverInputs(t, t, r, nx, ny, rx, ry)
    ensures Sweep(m, t, t, r, nx, ny, rx, ry) == t <==> SolvesImplicit(t, r, nx, ny, rx, ry)
  {
    match m
    case Jacobi =>
      JacobiFixedPoints(t, r, nx, ny, rx, ry);
    case GaussSeidel =>
      if Sweep(m, t, t, r, nx, ny, rx, ry) == t {
        StationarySolves(m, t, t, r, nx, ny, rx, ry);
      }
      if SolvesImplicit(t, r, nx, ny, rx, ry) {
        GsFixedPoints(t, r, nx, ny, rx, ry);
        GsEquationsUnique(t, t, t, r, nx, ny, rx, ry);
      }
  }

  /**
   * A solver that stops with a mean square of exactly zero has found a
   * solution of the implicit system: T and Tnew agree and solve it.
   */
  lemma ExactStopSolves(m: Scheme, t0: Field, tn0: Field, r: Field, nx: nat, ny: nat, rx: real, ry: real,
                        k: int, meanSq: real, t: Field, tn: Field)
    requires SolverInputs(t0, tn0, r, nx, ny, rx, ry) && nx > 0 && ny > 0
    requires SolverOutcome(m, t0, tn0, r, nx, ny, rx, ry, k, meanSq, t, tn)
    requires k < MaxIter && meanSq == 0.0
    ensures tn == t && SolvesImplicit(t, r, nx, ny, rx, ry)
  {
    var p := IterateState(m, t0, tn0, r, nx, ny, rx, ry, k);
    MeanSquareProperties(t, tn, nx, ny);
    StationarySolves(m, p.t, p.tn, r, nx, ny, rx, ry);
  }

  /**
   * Started from a solution of the implicit system with Tnew = T, either
   * solver stops at the first convergence test with T unchanged.
   */
  lemma SolutionStopsAtOnce(m: Scheme, t0: Field, r: Field, nx: nat, ny: nat, rx: real, ry: real,
                            k: int, meanSq: real, t: Field, tn: Field)
    requires SolverInputs(t0, t0, r, nx, ny, rx, ry) && nx > 0 && ny > 0
    requires SolvesImplicit(t0, r, nx, ny, rx, ry)
    requires SolverOutcome(m, t0, t0, r, nx, ny, rx, ry, k, meanSq, t, tn)
    ensures k == 0 && meanSq == 0.0 && t == t0 && tn == t0
  {
    SweepFixedPoints(m, t0, r, nx, ny, rx, ry);
    MeanSquareProperties(t0, t0, nx, ny);
    assert ConvergedAt(m, t0, t0, r, nx, ny, rx, ry, 0);
  }
}
