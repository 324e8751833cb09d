/**
 * linsolve_hc2d_gs_adi: one sweep along x into Tnew followed by one sweep
 * along y back into T. Each sweep replaces an interior value by a weighted
 * average of itself and its two neighbours along the sweep direction. The
 * right-hand side is never read.
 */
module Adi {
  import opened Common
  import opened SerialBoundary
  import opened SerialExplicit

  /** (c + r*(a + b)) / (1 + 2r): the update of c from its neighbours a and b. */
  function AdiUpdate(c: real, a: real, b: real, r: real): real
    requires 1.0 + 2.0 * r != 0.0
  {
    (c + r * (a + b)) / (1.0 + 2.0 * r)
  }

  /** Every cell of f lies in [lo, hi]. */
  ghost predicate Within(f: Field, nx: int, ny: int, lo: real, hi: real)
    requires IsGrid(f, nx, ny)
  {
    forall i, j :: 0 <= i < nx && 0 <= j < ny ==> lo <= f[i][j] <= hi
  }

  /** The x-sweep: Tnew's interior from T's neighbours along x; Tnew's edges stay tn. */
  ghost function XSweep(t: Field, tn: Field, nx: int, ny: int, rx: real): (g: Field)
    requires IsGrid(t, nx, ny) && IsGrid(tn, nx, ny) && 1.0 + 2.0 * rx != 0.0
    ensures IsGrid(g, nx, ny)
    ensures forall i, j :: 0 <= i < nx && 0 <= j < ny && !IsInterior(i, j, nx, ny) ==> g[i][j] == tn[i][j]
    ensures forall i, j :: 0 <= i < nx && 0 <= j < ny ==> g[i][j] == XAt(t, tn, nx, ny, rx, i, j)
  {
    seq(nx, i requires 0 <= i < nx => seq(ny, j requires 0 <= j < ny => XAt(t, tn, nx, ny, rx, i, j)))
  }

  /** The value the x-sweep leaves at (i, j). */
  ghost function XAt(t: Field, tn: Field, nx: int, ny: int, rx: real, i: int, j: int): real
    requires IsGrid(t, nx, ny) && IsGrid(tn, nx, ny) && 1.0 + 2.0 * rx != 0.0
    requires 0 <= i < nx && 0 <= j < ny
  {
    if IsInterior(i, j, nx, ny) then AdiUpdate(t[i][j], t[i + 1][j], t[i - 1][j], rx) else tn[i][j]
  }

  /** The y-sweep: T's interior from Tnew's neighbours along y; T's edges stay t. */
  ghost function YSweep(tn: Field, t: Field, nx: int, ny: int, ry: real): (g: Field)
    requires IsGrid(t, nx, ny) && IsGrid(tn, nx, ny) && 1.0 + 2.0 * ry != 0.0
    ensures IsGrid(g, nx, ny)
    ensures forall i, j :: 0 <= i < nx && 0 <= j < ny && !IsInterior(i, j, nx, ny) ==> g[i][j] == t[i][j]
    ensures forall i, j :: 0 <= i < nx && 0 <= j < ny ==> g[i][j] == YAt(tn, t, nx, ny, ry, i, j)
  {
    seq(nx, i requires 0 <= i < nx => seq(ny, j requires 0 <= j < ny => YAt(tn, t, nx, ny, ry, i, j)))
  }

  /** The value the y-sweep leaves at (i, j). */
  ghost function YAt(tn: Field, t: Field, nx: int, ny: int, ry: real, i: int, j: int): real
    requires IsGrid(t, nx, ny) && IsGrid(tn, nx, ny) && 1.0 + 2.0 * ry != 0.0
    requires 0 <= i < nx && 0 <= j < ny
  {
    if IsInterior(i, j, nx, ny) then AdiUpdate(tn[i][j], tn[i][j + 1], tn[i][j - 1], ry) else t[i][j]
  }

  /** The x-direction loop: writes Tnew's interior only. */
  method XSweepLoop(nx: int, ny: int, rx: real, T: array2<real>, Tnew: array2<real>)
    requires T.Length0 == nx && T.Length1 == ny && Tnew.Length0 == nx && Tnew.Length1 == ny
    requires T != Tnew && nx >= 0 && ny >= 0 && 1.0 + 2.0 * rx != 0.0
    modifies Tnew
    ensures Cells(Tnew) == XSweep(Cells(T), old(Cells(Tnew)), nx, ny, rx)
  {
    ghost var tn := Cells(Tnew);
    ghost var g := XSweep(Cells(T), tn, nx, ny, rx);
    for i := 1 to if nx - 1 < 1 then 1 else nx - 1
      invariant forall a, b :: 0 <= a < nx && 0 <= b < ny ==>
        Tnew[a, b] == if a < i then g[a][b] else tn[a][b]
    {
      for j := 1 to if ny - 1 < 1 then 1 else ny - 1
        invariant forall a, b :: 0 <= a < nx && 0 <= b < ny ==>
          Tnew[a, b] == if a < i || (a == i && b < j) then g[a][b] else tn[a][b]
      {
        Tnew[i, j] := AdiUpdate(T[i, j], T[i + 1, j], T[i - 1, j], rx);
      }
    }
    FieldExt(Cells(Tnew), g, nx, ny);
  }

  /** The y-direction loop: writes T's interior only. */
  method YSweepLoop(nx: int, ny: int, ry: real, T: array2<real>, Tnew: array2<real>)
    requires T.Length0 == nx && T.Length1 == ny && Tnew.Length0 == nx && Tnew.Length1 == ny
    requires T != Tnew && nx >= 0 && ny >= 0 && 1.0 + 2.0 * ry != 0.0
    modifies T
    ensures Cells(T) == YSweep(Cells(Tnew), old(Cells(T)), nx, ny, ry)
  {
    ghost var t := Cells(T);
    ghost var g := YSweep(Cells(Tnew), t, nx, ny, ry);
    for i := 1 to if nx - 1 < 1 then 1 else nx - 1
      invariant forall a, b :: 0 <= a < nx && 0 <= b < ny ==>
        T[a, b] == if a < i then g[a][b] else t[a][b]
    {
      for j := 1 to if ny - 1 < 1 then 1 else ny - 1
        invariant forall a, b :: 0 <= a < nx && 0 <= b < ny ==>
          T[a, b] == if a < i || (a == i && b < j) then g[a][b] else t[a][b]
      {
        T[i, j] := AdiUpdate(Tnew[i, j], Tnew[i, j + 1], Tnew[i, j - 1], ry);
      }
    }
    FieldExt(Cells(T), g, nx, ny);
  }

  /**
   * linsolve_hc2d_gs_adi: Tnew gets the x-sweep of T, then T gets the
   * y-sweep of that Tnew. rhs is not read.
   */
  method AdiSweeps(nx: int, ny: int, rx: real, ry: real, rhs: array2<real>, T: array2<real>, Tnew: array2<real>)
    requires T.Length0 == nx && T.Length1 == ny && Tnew.Length0 == nx && Tnew.Length1 == ny
    requires T != Tnew && nx >= 0 && ny >= 0
    requires 1.0 + 2.0 * rx != 0.0 && 1.0 + 2.0 * ry != 0.0
    modifies T, Tnew
    ensures Cells(Tnew) == XSweep(old(Cells(T)), old(Cells(Tnew)), nx, ny, rx)
    ensures Cells(T) == YSweep(Cells(Tnew), old(Cells(T)), nx, ny, ry)
  {
    XSweepLoop(nx, ny, rx, T, Tnew);
    YSweepLoop(nx, ny, ry, T, Tnew);
  }

  /** For r >= 0 the update is a weighted average, so it stays within the bounds of its inputs. */
  lemma AdiUpdateBounded(c: real, a: real, b: real, r: real, lo: real, hi: real)
    requires r >= 0.0
    requires lo <= c <= hi && lo <= a <= hi && lo <= b <= hi
    ensures lo <= AdiUpdate(c, a, b, r) <= hi
  {
    var d := 1.0 + 2.0 * r;
    var s := c + r * (a + b);
    var q := AdiUpdate(c, a, b, r);
    assert q * d == s;
    ProductNonNegative(r, a + b - 2.0 * lo);
    ProductNonNegative(r, 2.0 * hi - a - b);
    assert s - lo * d == (c - lo) + Product(r, a + b - 2.0 * lo);
    assert hi * d - s == (hi - c) + Product(r, 2.0 * hi - a - b);
    assert Product(q - lo, d) == s - lo * d;
    assert Product(hi - q, d) == hi * d - s;
    ProductSign(q - lo, d);
    ProductSign(hi - q, d);
  }

  /** The x-sweep keeps a field within bounds that T and Tnew's edges respect. */
  lemma XSweepWithin(t: Field, tn: Field, nx: int, ny: int, rx: real, lo: real, hi: real)
    requires IsGrid(t, nx, ny) && IsGrid(tn, nx, ny) && rx >= 0.0
    requires Within(t, nx, ny, lo, hi) && Within(tn, nx, ny, lo, hi)
    ensures Within(XSweep(t, tn, nx, ny, rx), nx, ny, lo, hi)
  {
    var g := XSweep(t, tn, nx, ny, rx);
    forall i, j | 0 <= i < nx && 0 <= j < ny
      ensures lo <= g[i][j] <= hi
    {
      if IsInterior(i, j, nx, ny) {
        AdiUpdateBounded(t[i][j], t[i + 1][j], t[i - 1][j], rx, lo, hi);
      }
    }
  }

  /** The y-sweep keeps a field within bounds that Tnew and T's edges respect. */
  lemma YSweepWithin(tn: Field, t: Field, nx: int, ny: int, ry: real, lo: real, hi: real)
    requires IsGrid(t, nx, ny) && IsGrid(tn, nx, ny) && ry >= 0.0
    requires Within(t, nx, ny, lo, hi) && Within(tn, nx, ny, lo, hi)
    ensures Within(YSweep(tn, t, nx, ny, ry), nx, ny, lo, hi)
  {
    var g := YSweep(tn, t, nx, ny, ry);
    forall i, j | 0 <= i < nx && 0 <= j < ny
      ensures lo <= g[i][j] <= hi
    {
      if IsInterior(i, j, nx, ny) {
        AdiUpdateBounded(tn[i][j], tn[i][j + 1], tn[i][j - 1], ry, lo, hi);
      }
    }
  }

  /**
   * Discrete maximum principle for the two sweeps: when T and Tnew start
   * within [lo, hi] and rx, ry >= 0, so does everything the sweeps leave.
   */
  lemma AdiMaximumPrinciple(t: Field, tn: Field, nx: int, ny: int, rx: real, ry: real, lo: real, hi: real)
    requires IsGrid(t, nx, ny) && IsGrid(tn, nx, ny) && rx >= 0.0 && ry >= 0.0
    requires Within(t, nx, ny, lo, hi) && Within(tn, nx, ny, lo, hi)
    ensures Within(YSweep(XSweep(t, tn, nx, ny, rx), t, nx, ny, ry), nx, ny, lo, hi)
  {
    XSweepWithin(t, tn, nx, ny, rx, lo, hi);
    YSweepWithin(XSweep(t, tn, nx, ny, rx), t, nx, ny, ry, lo, hi);
  }

  /** The x-sweep reads Tnew only at its edge cells. */
  lemma XSweepReadsOnlyEdges(t: Field, tn1: Field, tn2: Field, nx: int, ny: int, rx: real)
    requires IsGrid(t, nx, ny) && IsGrid(tn1, nx, ny) && IsGrid(tn2, nx, ny) && 1.0 + 2.0 * rx != 0.0
    requires forall i, j :: 0 <= i < nx && 0 <= j < ny && IsEdge(i, j, nx, ny) ==> tn1[i][j] == tn2[i][j]
    ensures XSweep(t, tn1, nx, ny, rx) == XSweep(t, tn2, nx, ny, rx)
  {
    FieldExt(XSweep(t, tn1, nx, ny, rx), XSweep(t, tn2, nx, ny, rx), nx, ny);
  }

  /**
   * As written, the y-sweep at j = 1 and j = ny-2 reads Tnew's edge cells,
   * which neither sweep writes: on a 3-by-3 grid with T all zero and
   * ry = 1, a single non-zero edge cell Tnew[1][0] = 1 makes the new
   * T[1][1] equal 1/3 instead of 0.
   */
  lemma AdiReadsUnwrittenTnew()
    ensures var z := [[0.0, 0.0, 0.0], [0.0, 0.0, 0.0], [0.0, 0.0, 0.0]];
      var stale := [[0.0, 0.0, 0.0], [1.0, 0.0, 0.0], [0.0, 0.0, 0.0]];
      && YSweep(XSweep(z, z, 3, 3, 1.0), z, 3, 3, 1.0)[1][1] == 0.0
      && YSweep(XSweep(z, stale, 3, 3, 1.0), z, 3, 3, 1.0)[1][1] == 1.0 / 3.0
  {
    var z := [[0.0, 0.0, 0.0], [0.0, 0.0, 0.0], [0.0, 0.0, 0.0]];
    var stale := [[0.0, 0.0, 0.0], [1.0, 0.0, 0.0], [0.0, 0.0, 0.0]];
    var gz := XSweep(z, z, 3, 3, 1.0);
    var gs := XSweep(z, stale, 3, 3, 1.0);
    assert gz[1][0] == 0.0 && gz[1][1] == 0.0 && gz[1][2] == 0.0;
    assert gs[1][0] == 1.0 && gs[1][1] == 0.0 && gs[1][2] == 0.0;
  }

  /**
   * The sweeps with Tnew's edges holding the boundary value 0, as the
   * Dirichlet conditions intend: a function of T alone.
   */
  ghost function AdiFromT(t: Field, nx: int, ny: int, rx: real, ry: real): (g: Field)
    requires IsGrid(t, nx, ny) && 1.0 + 2.0 * rx != 0.0 && 1.0 + 2.0 * ry != 0.0
    ensures IsGrid(g, nx, ny)
  {
    YSweep(XSweep(t, EdgesZeroed(t, nx, ny), nx, ny, rx), t, nx, ny, ry)
  }

  /**
   * The corrected ADI step: zero Tnew's edges first (enforce_bcs on Tnew),
   * then sweep. What T receives no longer depends on Tnew's old contents.
   */
  method AdiSweepsZeroEdges(nx: int, ny: int, rx: real, ry: real, rhs: array2<real>, T: array2<real>,
                            Tnew: array2<real>)
    requires T.Length0 == nx && T.Length1 == ny && Tnew.Length0 == nx && Tnew.Length1 == ny
    requires T != Tnew && nx >= 1 && ny >= 1
    requires 1.0 + 2.0 * rx != 0.0 && 1.0 + 2.0 * ry != 0.0
    modifies T, Tnew
    ensures Cells(T) == AdiFromT(old(Cells(T)), nx, ny, rx, ry)
  {
    ghost var t, tn := Cells(T), Cells(Tnew);
    EnforceBcs(nx, ny, Tnew);
    XSweepReadsOnlyEdges(t, Cells(Tnew), EdgesZeroed(t, nx, ny), nx, ny, rx);
    AdiSweeps(nx, ny, rx, ry, rhs, T, Tnew);
  }

  /**
   * Maximum principle for the corrected step: if T lies within [lo, hi]
   * and 0 lies in [lo, hi] too, so does the new T.
   */
  lemma AdiFromTMaximumPrinciple(t: Field, nx: int, ny: int, rx: real, ry: real, lo: real, hi: real)
    requires IsGrid(t, nx, ny) && rx >= 0.0 && ry >= 0.0
    requires Within(t, nx, ny, lo, hi) && lo <= 0.0 <= hi
    ensures Within(AdiFromT(t, nx, ny, rx, ry), nx, ny, lo, hi)
  {
    AdiMaximumPrinciple(t, EdgesZeroed(t, nx, ny), nx, ny, rx, ry, lo, hi);
  }
}
