/**
 * timestep_BwdEuler in the serial solver: set rhs to T inside and 0 on the
 * edges, run the linear solver the source selects (the ADI sweeps), then
 * zero the edges of T.
 */
module SerialImplicit {
  import opened Common
  import opened SerialBoundary
  import opened SerialExplicit
  import opened Adi

  /**
   * kdiff*dt/(h*h): the diffusion number rx (h = dx) or ry (h = dy); it is
   * non-negative whenever kdiff*dt is.
   */
  function DiffusionNumber(kdiff: real, dt: real, h: real): (r: real)
    requires h != 0.0
    ensures kdiff * dt >= 0.0 ==> r >= 0.0
  {
    SquarePositive(h);
    QuotientBySquare(kdiff * dt, h);
    kdiff * dt / (h * h)
  }

  /** The rhs loops: T copied inside, then the top and bottom rows and the left and right columns zeroed. */
  method SetImplicitRhs(nx: int, ny: int, T: array2<real>, rhs: array2<real>)
    requires nx >= 1 && ny >= 1
    requires T.Length0 == nx && T.Length1 == ny && rhs.Length0 == nx && rhs.Length1 == ny && T != rhs
    modifies rhs
    ensures Cells(rhs) == EdgesZeroed(Cells(T), nx, ny)
  {
    ghost var r0 := Cells(rhs);
    // initialize rhs to T at the current time level
    for i := 1 to if nx - 1 < 1 then 1 else nx - 1
      invariant forall a, b :: 0 <= a < nx && 0 <= b < ny ==>
        rhs[a, b] == if IsInterior(a, b, nx, ny) && a < i then T[a, b] else r0[a][b]
    {
      for j := 1 to if ny - 1 < 1 then 1 else ny - 1
        invariant forall a, b :: 0 <= a < nx && 0 <= b < ny ==>
          rhs[a, b] == if IsInterior(a, b, nx, ny) && (a < i || (a == i && b < j)) then T[a, b] else r0[a][b]
      {
        rhs[i, j] := T[i, j];
      }
    }
    // boundaries: top and bottom
    for i := 0 to nx
      invariant forall a, b :: 0 <= a < nx && 0 <= b < ny ==>
        rhs[a, b] == if (b == 0 || b == ny - 1) && a < i then 0.0
                     else if IsInterior(a, b, nx, ny) then T[a, b] else r0[a][b]
    {
      rhs[i, 0] := 0.0;
      rhs[i, ny - 1] := 0.0;
    }
    // boundaries: left and right
    for j := 0 to ny
      invariant forall a, b :: 0 <= a < nx && 0 <= b < ny ==>
        rhs[a, b] == if b == 0 || b == ny - 1 || ((a == 0 || a == nx - 1) && b < j) then 0.0
                     else if IsInterior(a, b, nx, ny) then T[a, b] else r0[a][b]
    {
      rhs[0, j] := 0.0;
      rhs[nx - 1, j] := 0.0;
    }
    FieldExt(Cells(rhs), EdgesZeroed(Cells(T), nx, ny), nx, ny);
  }

  /**
   * timestep_BwdEuler: rhs becomes T with zero edges, Tnew the x-sweep of
   * T, and T the y-sweep of that Tnew with its edges then zeroed.
   */
  method TimestepBwdEuler(nx: int, ny: int, dt: real, dx: real, dy: real, kdiff: real,
                          T: array2<real>, rhs: array2<real>, Tnew: array2<real>)
    requires nx >= 1 && ny >= 1 && dx != 0.0 && dy != 0.0
    requires 1.0 + 2.0 * DiffusionNumber(kdiff, dt, dx) != 0.0
    requires 1.0 + 2.0 * DiffusionNumber(kdiff, dt, dy) != 0.0
    requires T.Length0 == nx && T.Length1 == ny && rhs.Length0 == nx && rhs.Length1 == ny
    requires Tnew.Length0 == nx && Tnew.Length1 == ny
    requires T != rhs && T != Tnew && rhs != Tnew
    modifies T, rhs, Tnew
    ensures Cells(rhs) == EdgesZeroed(old(Cells(T)), nx, ny)
    ensures Cells(Tnew) == XSweep(old(Cells(T)), old(Cells(Tnew)), nx, ny, DiffusionNumber(kdiff, dt, dx))
    ensures Cells(T) == EdgesZeroed(YSweep(Cells(Tnew), old(Cells(T)), nx, ny, DiffusionNumber(kdiff, dt, dy)), nx, ny)
  {
    var rx := DiffusionNumber(kdiff, dt, dx);
    var ry := DiffusionNumber(kdiff, dt, dy);
    SetImplicitRhs(nx, ny, T, rhs);
    AdiSweeps(nx, ny, rx, ry, rhs, T, Tnew);
    EnforceBcs(nx, ny, T);
  }

  /** Zeroing the edges keeps a field within bounds that contain 0. */
  lemma EdgesZeroedWithin(f: Field, nx: int, ny: int, lo: real, hi: real)
    requires IsGrid(f, nx, ny) && Within(f, nx, ny, lo, hi) && lo <= 0.0 <= hi
    ensures Within(EdgesZeroed(f, nx, ny), nx, ny, lo, hi)
  {
  }

  /**
   * Maximum principle for one implicit step: with kdiff*dt >= 0, if T and
   * Tnew start within [lo, hi] and 0 lies in [lo, hi], the new T lies
   * within [lo, hi] and is zero on the edges.
   */
  lemma BwdEulerMaximumPrinciple(t: Field, tn: Field, nx: int, ny: int, dt: real, dx: real, dy: real, kdiff: real,
                                 lo: real, hi: real)
    requires IsGrid(t, nx, ny) && IsGrid(tn, nx, ny) && dx != 0.0 && dy != 0.0 && kdiff * dt >= 0.0
    requires Within(t, nx, ny, lo, hi) && Within(tn, nx, ny, lo, hi) && lo <= 0.0 <= hi
    ensures var rx, ry := DiffusionNumber(kdiff, dt, dx), DiffusionNumber(kdiff, dt, dy);
      var g := EdgesZeroed(YSweep(XSweep(t, tn, nx, ny, rx), t, nx, ny, ry), nx, ny);
      && Within(g, nx, ny, lo, hi)
      && forall i, j :: 0 <= i < nx && 0 <= j < ny && IsEdge(i, j, nx, ny) ==> g[i][j] == 0.0
  {
    var rx, ry := DiffusionNumber(kdiff, dt, dx), DiffusionNumber(kdiff, dt, dy);
    AdiMaximumPrinciple(t, tn, nx, ny, rx, ry, lo, hi);
    EdgesZeroedWithin(YSweep(XSweep(t, tn, nx, ny, rx), t, nx, ny, ry), nx, ny, lo, hi);
  }
}
