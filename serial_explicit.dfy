/**
 * timestep_FwdEuler in the serial solver: compute rhs at every interior
 * point from the current T, then advance every interior point by dt*rhs,
 * then zero the edges.
 */
module SerialExplicit {
  import opened Common
  import opened SerialBoundary

  /** (i, j) is an interior point of the nx-by-ny grid. */
  predicate IsInterior(i: int, j: int, nx: int, ny: int) {
    0 < i < nx - 1 && 0 < j < ny - 1
  }

  /** The 5-point diffusion operator at interior point (i, j) of f. */
  ghost function LaplacianAt(f: Field, nx: int, ny: int, kdiff: real, dx: real, dy: real, i: int, j: int): real
    requires IsGrid(f, nx, ny) && IsInterior(i, j, nx, ny) && dx != 0.0 && dy != 0.0
  {
    FivePoint(kdiff, f[i + 1][j], f[i - 1][j], f[i][j + 1], f[i][j - 1], f[i][j], dx, dy)
  }

  /** rhs after the first loop: the operator of f inside, r0 (untouched) on the edges. */
  ghost function ExplicitRhs(r0: Field, f: Field, nx: int, ny: int, kdiff: real, dx: real, dy: real): (r: Field)
    requires IsGrid(r0, nx, ny) && IsGrid(f, nx, ny) && dx != 0.0 && dy != 0.0
    ensures IsGrid(r, nx, ny)
    ensures forall i, j :: 0 <= i < nx && 0 <= j < ny ==>
      r[i][j] == if IsInterior(i, j, nx, ny) then LaplacianAt(f, nx, ny, kdiff, dx, dy, i, j) else r0[i][j]
  {
    seq(nx, i requires 0 <= i < nx => seq(ny, j requires 0 <= j < ny =>
      if IsInterior(i, j, nx, ny) then LaplacianAt(f, nx, ny, kdiff, dx, dy, i, j) else r0[i][j]))
  }

  /** T after the second loop: interior cells advanced by dt*r, edges kept. */
  ghost function InteriorAdvanced(f: Field, r: Field, nx: int, ny: int, dt: real): (g: Field)
    requires IsGrid(f, nx, ny) && IsGrid(r, nx, ny)
    ensures IsGrid(g, nx, ny)
    ensures forall i, j :: 0 <= i < nx && 0 <= j < ny ==>
      g[i][j] == if IsInterior(i, j, nx, ny) then f[i][j] + dt * r[i][j] else f[i][j]
  {
    seq(nx, i requires 0 <= i < nx => seq(ny, j requires 0 <= j < ny =>
      if IsInterior(i, j, nx, ny) then f[i][j] + dt * r[i][j] else f[i][j]))
  }

  /**
   * One explicit step as a single formula: every interior point becomes
   * f + dt * (5-point operator of f), every edge point becomes 0.
   */
  ghost function ExplicitStep(f: Field, nx: int, ny: int, kdiff: real, dt: real, dx: real, dy: real): (g: Field)
    requires IsGrid(f, nx, ny) && dx != 0.0 && dy != 0.0
    ensures IsGrid(g, nx, ny)
    ensures forall i, j :: 0 <= i < nx && 0 <= j < ny ==> g[i][j] == StepAt(f, nx, ny, kdiff, dt, dx, dy, i, j)
  {
    seq(nx, i requires 0 <= i < nx => seq(ny, j requires 0 <= j < ny => StepAt(f, nx, ny, kdiff, dt, dx, dy, i, j)))
  }

  /** The value of cell (i, j) after one explicit step. */
  ghost function StepAt(f: Field, nx: int, ny: int, kdiff: real, dt: real, dx: real, dy: real, i: int, j: int): real
    requires IsGrid(f, nx, ny) && 0 <= i < nx && 0 <= j < ny && dx != 0.0 && dy != 0.0
  {
    if IsInterior(i, j, nx, ny) then f[i][j] + dt * LaplacianAt(f, nx, ny, kdiff, dx, dy, i, j) else 0.0
  }

  /** The rhs loop of timestep_FwdEuler: writes only interior cells, reads only T. */
  method ComputeRhs(nx: int, ny: int, kdiff: real, dx: real, dy: real, T: array2<real>, rhs: array2<real>)
    requires T.Length0 == nx && T.Length1 == ny && rhs.Length0 == nx && rhs.Length1 == ny && T != rhs
    requires nx >= 0 && ny >= 0 && dx != 0.0 && dy != 0.0
    modifies rhs
    ensures Cells(rhs) == ExplicitRhs(old(Cells(rhs)), Cells(T), nx, ny, kdiff, dx, dy)
  {
    ghost var f, r0 := Cells(T), Cells(rhs);
    for i := 1 to if nx - 1 < 1 then 1 else nx - 1
      invariant forall a, b :: 0 <= a < nx && 0 <= b < ny ==>
        rhs[a, b] == if IsInterior(a, b, nx, ny) && a < i then LaplacianAt(f, nx, ny, kdiff, dx, dy, a, b)
                     else r0[a][b]
    {
      for j := 1 to if ny - 1 < 1 then 1 else ny - 1
        invariant forall a, b :: 0 <= a < nx && 0 <= b < ny ==>
          rhs[a, b] == if IsInterior(a, b, nx, ny) && (a < i || (a == i && b < j))
                       then LaplacianAt(f, nx, ny, kdiff, dx, dy, a, b) else r0[a][b]
      {
        rhs[i, j] := FivePoint(kdiff, T[i + 1, j], T[i - 1, j], T[i, j + 1], T[i, j - 1], T[i, j], dx, dy);
      }
    }
    FieldExt(Cells(rhs), ExplicitRhs(r0, f, nx, ny, kdiff, dx, dy), nx, ny);
  }

  /** The update loop of timestep_FwdEuler: T = T + dt*rhs at interior cells only. */
  method AdvanceInterior(nx: int, ny: int, dt: real, T: array2<real>, rhs: array2<real>)
    requires T.Length0 == nx && T.Length1 == ny && rhs.Length0 == nx && rhs.Length1 == ny && T != rhs
    requires nx >= 0 && ny >= 0
    modifies T
    ensures Cells(T) == InteriorAdvanced(old(Cells(T)), Cells(rhs), nx, ny, dt)
  {
    ghost var f := Cells(T);
    for i := 1 to if nx - 1 < 1 then 1 else nx - 1
      invariant forall a, b :: 0 <= a < nx && 0 <= b < ny ==>
        T[a, b] == if IsInterior(a, b, nx, ny) && a < i then f[a][b] + dt * rhs[a, b] else f[a][b]
    {
      for j := 1 to if ny - 1 < 1 then 1 else ny - 1
        invariant forall a, b :: 0 <= a < nx && 0 <= b < ny ==>
          T[a, b] == if IsInterior(a, b, nx, ny) && (a < i || (a == i && b < j))
                     then f[a][b] + dt * rhs[a, b] else f[a][b]
      {
        T[i, j] := T[i, j] + dt * rhs[i, j];
      }
    }
    FieldExt(Cells(T), InteriorAdvanced(f, Cells(rhs), nx, ny, dt), nx, ny);
  }

  /**
   * timestep_FwdEuler: rhs holds the 5-point operator of the T the step
   * started from (every rhs value is computed before any T cell changes),
   * and the new T is ExplicitStep of the old one.
   */
  method TimestepFwdEuler(nx: int, ny: int, dt: real, dx: real, dy: real, kdiff: real,
                          T: array2<real>, rhs: array2<real>)
    requires nx >= 1 && ny >= 1 && dx != 0.0 && dy != 0.0
    requires T.Length0 == nx && T.Length1 == ny && rhs.Length0 == nx && rhs.Length1 == ny && T != rhs
    modifies T, rhs
    ensures Cells(rhs) == ExplicitRhs(old(Cells(rhs)), old(Cells(T)), nx, ny, kdiff, dx, dy)
    ensures Cells(T) == ExplicitStep(old(Cells(T)), nx, ny, kdiff, dt, dx, dy)
  {
    ghost var f := Cells(T);
    ComputeRhs(nx, ny, kdiff, dx, dy, T, rhs);
    AdvanceInterior(nx, ny, dt, T, rhs);
    // set Dirichlet BCs
    EnforceBcs(nx, ny, T);
    ExplicitStepSplits(f, Cells(rhs), nx, ny, kdiff, dt, dx, dy);
  }

  /**
   * Computing rhs from f and then advancing the interior by dt*rhs and
   * zeroing the edges gives ExplicitStep of f, whatever rhs held before.
   */
  lemma ExplicitStepSplits(f: Field, r: Field, nx: int, ny: int, kdiff: real, dt: real, dx: real, dy: real)
    requires IsGrid(f, nx, ny) && IsGrid(r, nx, ny) && dx != 0.0 && dy != 0.0
    requires forall i, j :: IsInterior(i, j, nx, ny) ==> r[i][j] == LaplacianAt(f, nx, ny, kdiff, dx, dy, i, j)
    ensures EdgesZeroed(InteriorAdvanced(f, r, nx, ny, dt), nx, ny) == ExplicitStep(f, nx, ny, kdiff, dt, dx, dy)
  {
    var adv := InteriorAdvanced(f, r, nx, ny, dt);
    var lhs := EdgesZeroed(adv, nx, ny);
    var rhs := ExplicitStep(f, nx, ny, kdiff, dt, dx, dy);
    forall i, j | 0 <= i < nx && 0 <= j < ny
      ensures lhs[i][j] == rhs[i][j]
    {
      StepSplitsAt(f, r, nx, ny, kdiff, dt, dx, dy, i, j);
    }
    FieldExt(lhs, rhs, nx, ny);
  }

  /** One cell of ExplicitStepSplits. */
  lemma StepSplitsAt(f: Field, r: Field, nx: int, ny: int, kdiff: real, dt: real, dx: real, dy: real, i: int, j: int)
    requires IsGrid(f, nx, ny) && IsGrid(r, nx, ny) && dx != 0.0 && dy != 0.0
    requires 0 <= i < nx && 0 <= j < ny
    requires IsInterior(i, j, nx, ny) ==> r[i][j] == LaplacianAt(f, nx, ny, kdiff, dx, dy, i, j)
    ensures EdgesZeroed(InteriorAdvanced(f, r, nx, ny, dt), nx, ny)[i][j] == StepAt(f, nx, ny, kdiff, dt, dx, dy, i, j)
  {
  }
}
