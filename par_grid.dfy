/**
 * grid in the distributed solver: the coordinates of a subdomain's grid
 * lines, taken from one uniform mesh of nxglob points over the whole domain.
 */
module ParGrid {
  import Partition

  /** The uniform spacing of nglob points over [xst, xen]. */
  function Spacing(nglob: int, xst: real, xen: real): real
    requires nglob != 1
  {
    (xen - xst) / ((nglob - 1) as real)
  }

  /** Coordinate of global index iglob on the uniform global mesh. */
  function GlobalCoord(iglob: int, nglob: int, xst: real, xen: real): real
    requires nglob != 1
  {
    xst + (iglob as real) * Spacing(nglob, xst, xen)
  }

  /**
   * grid: dx = (xenglob - xstglob)/(nxglob - 1), and local point i lies at
   * global index istglob + i of the global mesh. ienglob is not read.
   */
  method Grid(nx: int, nxglob: int, istglob: int, ienglob: int, xstglob: real, xenglob: real,
              x: array<real>) returns (dx: real)
    requires x.Length == nx
    requires nxglob != 1
    modifies x
    ensures dx == Spacing(nxglob, xstglob, xenglob)
    ensures forall i :: 0 <= i < nx ==> x[i] == GlobalCoord(istglob + i, nxglob, xstglob, xenglob)
  {
    dx := (xenglob - xstglob) / ((nxglob - 1) as real);
    for i := 0 to nx
      invariant forall k :: 0 <= k < i ==> x[k] == GlobalCoord(istglob + k, nxglob, xstglob, xenglob)
    {
      var iglob := istglob + i;
      x[i] := xstglob + (iglob as real) * dx;
    }
  }

  /** In exact arithmetic the mesh starts at xst and ends exactly at xen. */
  lemma GlobalCoordEnds(nglob: int, xst: real, xen: real)
    requires nglob > 1
    ensures GlobalCoord(0, nglob, xst, xen) == xst
    ensures GlobalCoord(nglob - 1, nglob, xst, xen) == xen
  {
    var m := (nglob - 1) as real;
    assert m * ((xen - xst) / m) == xen - xst;
  }

  /** For xen > xst the coordinates increase strictly with the global index. */
  lemma GlobalCoordIncreasing(i: int, j: int, nglob: int, xst: real, xen: real)
    requires nglob > 1 && xen > xst && i < j
    ensures GlobalCoord(i, nglob, xst, xen) < GlobalCoord(j, nglob, xst, xen)
  {
    var d := Spacing(nglob, xst, xen);
    assert d > 0.0;
    assert (j as real) * d - (i as real) * d == ((j - i) as real) * d;
    assert ((j - i) as real) * d > 0.0;
  }

  /**
   * Across the px subdomains of one axis (px dividing nxglob), the first
   * local coordinate of process 0 is xstglob and the last local coordinate
   * of process px-1 is xenglob.
   */
  lemma SubdomainMeshEnds(nglob: int, p: int, xst: real, xen: real)
    requires p > 0 && nglob > 1 && nglob % p == 0
    ensures var n := Partition.LocalCount(nglob, p);
      && GlobalCoord(Partition.StartIndex(0, nglob, p) + 0, nglob, xst, xen) == xst
      && GlobalCoord(Partition.StartIndex(p - 1, nglob, p) + (n - 1), nglob, xst, xen) == xen
  {
    Partition.RangesAdjacent(p - 1, nglob, p);
    Partition.LastRangeEndsAtGlobalEnd(nglob, p);
    GlobalCoordEnds(nglob, xst, xen);
  }
}
