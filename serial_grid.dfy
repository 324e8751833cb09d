/**
 * grid in the serial solver: nx uniformly spaced coordinates measured from
 * zero, not from xst, with spacing (xen - xst)/(nx - 1).
 */
module SerialGrid {
  import ParGrid

  /** The coordinate the serial grid gives to point i: i*dx. */
  function SerialCoord(i: int, nx: int, xst: real, xen: real): real
    requires nx != 1
  {
    (i as real) * ((xen - xst) / ((nx - 1) as real))
  }

  /** grid: dx = (xen - xst)/(nx - 1) and x[i] = i*dx for every point. */
  method Grid(nx: int, xst: real, xen: real, x: array<real>) returns (dx: real)
    requires x.Length == nx && nx != 1
    modifies x
    ensures dx == ParGrid.Spacing(nx, xst, xen)
    ensures forall i :: 0 <= i < nx ==> x[i] == SerialCoord(i, nx, xst, xen)
  {
    dx := (xen - xst) / ((nx - 1) as real);
    for i := 0 to nx
      invariant forall k :: 0 <= k < i ==> x[k] == SerialCoord(k, nx, xst, xen)
    {
      x[i] := (i as real) * dx;
    }
  }

  /**
   * The serial mesh is the global mesh of the distributed solver shifted
   * by -xst: point i lies at GlobalCoord(i) - xst.
   */
  lemma SerialIsShiftedGlobal(i: int, nx: int, xst: real, xen: real)
    requires nx != 1
    ensures SerialCoord(i, nx, xst, xen) == ParGrid.GlobalCoord(i, nx, xst, xen) - xst
  {
  }

  /**
   * In exact arithmetic the serial mesh runs from 0 (whatever xst is) to
   * xen - xst; so its last point is 1.0 exactly when xen - xst == 1.
   */
  lemma SerialGridEnds(nx: int, xst: real, xen: real)
    requires nx > 1
    ensures SerialCoord(0, nx, xst, xen) == 0.0
    ensures SerialCoord(nx - 1, nx, xst, xen) == xen - xst
    ensures SerialCoord(nx - 1, nx, xst, xen) == 1.0 <==> xen - xst == 1.0
  {
    SerialIsShiftedGlobal(nx - 1, nx, xst, xen);
    ParGrid.GlobalCoordEnds(nx, xst, xen);
  }
}
