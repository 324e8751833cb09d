/**
 * enforce_bcs in the distributed solver: zero the local edges of T that lie
 * on the global domain boundary, leaving every other cell alone.
 *
 * The source decides the left and bottom edges from the start indices
 * (istglob == 0, jstglob == 0) and ALSO the right and top edges from the
 * start indices (istglob == nxglob - 1, jstglob == nyglob - 1). The model
 * keeps that test as written (ZeroedByBcs); OnGlobalBoundary is the test
 * get_rhs uses, on the end indices, which is the one that matches the
 * global boundary (GlobalBoundaryExact, EnforceBcsSkipsFarEnds).
 */
module ParBoundary {
  import opened Common
  import opened Partition

  /** enforce_bcs zeroes column 0 when istglob == 0. */
  ghost predicate LeftRule(s: Subdomain, i: int) { i == 0 && s.istglob == 0 }
  /** enforce_bcs zeroes column nx-1 when istglob (the START index) == nxglob - 1. */
  ghost predicate RightRule(s: Subdomain, i: int) { i == s.nx - 1 && s.istglob == s.nxglob - 1 }
  /** enforce_bcs zeroes row 0 when jstglob == 0. */
  ghost predicate BottomRule(s: Subdomain, j: int) { j == 0 && s.jstglob == 0 }
  /** enforce_bcs zeroes row ny-1 when jstglob (the START index) == nyglob - 1. */
  ghost predicate TopRule(s: Subdomain, j: int) { j == s.ny - 1 && s.jstglob == s.nyglob - 1 }

  /** The cells enforce_bcs zeroes, as the source tests them. */
  ghost predicate ZeroedByBcs(s: Subdomain, i: int, j: int) {
    LeftRule(s, i) || RightRule(s, i) || BottomRule(s, j) || TopRule(s, j)
  }

  /**
   * The cells on the global boundary as get_rhs tests them: the left and
   * bottom edges by the start index, the right and top edges by the END index.
   */
  ghost predicate OnGlobalBoundary(s: Subdomain, i: int, j: int) {
    || (i == 0 && s.istglob == 0)
    || (i == s.nx - 1 && s.ienglob == s.nxglob - 1)
    || (j == 0 && s.jstglob == 0)
    || (j == s.ny - 1 && s.jenglob == s.nyglob - 1)
  }

  /** The field enforce_bcs leaves behind, as a value. */
  ghost function BcsApplied(s: Subdomain, f: Field): (g: Field)
    requires IsGrid(f, s.nx, s.ny)
    ensures IsGrid(g, s.nx, s.ny)
    ensures forall i, j :: 0 <= i < s.nx && 0 <= j < s.ny ==> g[i][j] == if ZeroedByBcs(s, i, j) then 0.0 else f[i][j]
  {
    seq(s.nx, i requires 0 <= i < s.nx =>
      seq(s.ny, j requires 0 <= j < s.ny => if ZeroedByBcs(s, i, j) then 0.0 else f[i][j]))
  }

  /** The left and right ends of enforce_bcs: columns 0 and nx-1, each when its test holds. */
  method ZeroColumns(s: Subdomain, T: array2<real>)
    requires s.nx >= 1 && s.ny >= 1
    requires T.Length0 == s.nx && T.Length1 == s.ny
    modifies T
    ensures forall a, b :: 0 <= a < s.nx && 0 <= b < s.ny ==>
      T[a, b] == if LeftRule(s, a) || RightRule(s, a) then 0.0 else old(T[a, b])
  {
    var nx, ny := s.nx, s.ny;
    if s.istglob == 0 {
      for j := 0 to ny
        invariant forall a, b :: 0 <= a < nx && 0 <= b < ny ==>
          T[a, b] == if a == 0 && b < j then 0.0 else old(T[a, b])
      {
        T[0, j] := 0.0;
      }
    }
    if s.istglob == s.nxglob - 1 {
      for j := 0 to ny
        invariant forall a, b :: 0 <= a < nx && 0 <= b < ny ==>
          T[a, b] == if LeftRule(s, a) || (a == nx - 1 && b < j) then 0.0 else old(T[a, b])
      {
        T[nx - 1, j] := 0.0;
      }
    }
  }

  /** The bottom and top ends of enforce_bcs: rows 0 and ny-1, each when its test holds. */
  method ZeroRows(s: Subdomain, T: array2<real>)
    requires s.nx >= 1 && s.ny >= 1
    requires T.Length0 == s.nx && T.Length1 == s.ny
    modifies T
    ensures forall a, b :: 0 <= a < s.nx && 0 <= b < s.ny ==>
      T[a, b] == if BottomRule(s, b) || TopRule(s, b) then 0.0 else old(T[a, b])
  {
    var nx, ny := s.nx, s.ny;
    if s.jstglob == 0 {
      for i := 0 to nx
        invariant forall a, b :: 0 <= a < nx && 0 <= b < ny ==>
          T[a, b] == if b == 0 && a < i then 0.0 else old(T[a, b])
      {
        T[i, 0] := 0.0;
      }
    }
    if s.jstglob == s.nyglob - 1 {
      for i := 0 to nx
        invariant forall a, b :: 0 <= a < nx && 0 <= b < ny ==>
          T[a, b] == if BottomRule(s, b) || (b == ny - 1 && a < i) then 0.0 else old(T[a, b])
      {
        T[i, ny - 1] := 0.0;
      }
    }
  }

  /**
   * enforce_bcs: each of the four edges is zeroed when its test holds; a
   * cell not on a zeroed edge keeps its value.
   */
  method EnforceBcs(s: Subdomain, T: array2<real>)
    requires s.nx >= 1 && s.ny >= 1
    requires T.Length0 == s.nx && T.Length1 == s.ny
    modifies T
    ensures forall i, j :: 0 <= i < s.nx && 0 <= j < s.ny ==>
      T[i, j] == if ZeroedByBcs(s, i, j) then 0.0 else old(T[i, j])
    ensures Cells(T) == BcsApplied(s, old(Cells(T)))
  {
    ghost var f0 := Cells(T);
    // left and right ends
    ZeroColumns(s, T);
    // top and bottom ends
    ZeroRows(s, T);
    FieldExt(Cells(T), BcsApplied(s, f0), s.nx, s.ny);
  }

  /** Applying the boundary conditions twice is the same as applying them once. */
  lemma BcsIdempotent(s: Subdomain, f: Field)
    requires IsGrid(f, s.nx, s.ny)
    ensures BcsApplied(s, BcsApplied(s, f)) == BcsApplied(s, f)
  {
    var g := BcsApplied(s, f);
    FieldExt(BcsApplied(s, g), g, s.nx, s.ny);
  }

  /** enforce_bcs touches only edge cells: an interior cell is never zeroed. */
  lemma BcsKeepsInterior(s: Subdomain, f: Field, i: int, j: int)
    requires IsGrid(f, s.nx, s.ny)
    requires 0 < i < s.nx - 1 && 0 < j < s.ny - 1
    ensures BcsApplied(s, f)[i][j] == f[i][j]
  {
  }

  /**
   * As written, the right and top tests of enforce_bcs never hold for any
   * process of a partition with at least two points per process along
   * each axis, although the last process's right column and top row lie
   * on the global boundary (get_rhs's end-index test holds there).
   */
  lemma EnforceBcsSkipsFarEnds(rankX: int, rankY: int, nxglob: int, nyglob: int, px: int, py: int)
    requires px > 0 && py > 0 && 0 <= rankX < px && 0 <= rankY < py
    requires nxglob >= 0 && nyglob >= 0
    requires LocalCount(nxglob, px) >= 2 && LocalCount(nyglob, py) >= 2
    ensures var s := LocalSubdomain(rankX, rankY, nxglob, nyglob, px, py);
      && s.istglob != s.nxglob - 1
      && s.jstglob != s.nyglob - 1
      && (rankX == px - 1 && nxglob % px == 0 ==> s.ienglob == s.nxglob - 1)
      && (rankY == py - 1 && nyglob % py == 0 ==> s.jenglob == s.nyglob - 1)
  {
    RangeInsideDomain(rankX, nxglob, px);
    RangeInsideDomain(rankY, nyglob, py);
    if nxglob % px == 0 { LastRangeEndsAtGlobalEnd(nxglob, px); }
    if nyglob % py == 0 { LastRangeEndsAtGlobalEnd(nyglob, py); }
  }

  /**
   * A concrete case: one process owning a 3-by-3 grid. Its right column and
   * top row are the global boundary, yet enforce_bcs leaves their middle
   * cells untouched.
   */
  lemma EnforceBcsSingleProcessExample()
    ensures var s := LocalSubdomain(0, 0, 3, 3, 1, 1);
      && OnGlobalBoundary(s, 2, 1) && !ZeroedByBcs(s, 2, 1)
      && OnGlobalBoundary(s, 1, 2) && !ZeroedByBcs(s, 1, 2)
  {
  }

  /**
   * The corrected test: for any process of the partition, OnGlobalBoundary
   * holds of a local cell exactly when its global index is the first or the
   * last along x or along y.
   */
  lemma GlobalBoundaryExact(rankX: int, rankY: int, nxglob: int, nyglob: int, px: int, py: int, i: int, j: int)
    requires px > 0 && py > 0 && 0 <= rankX < px && 0 <= rankY < py
    requires nxglob >= 0 && nyglob >= 0
    ensures var s := LocalSubdomain(rankX, rankY, nxglob, nyglob, px, py);
      0 <= i < s.nx && 0 <= j < s.ny ==>
        (OnGlobalBoundary(s, i, j) <==>
          || s.istglob + i == 0 || s.istglob + i == nxglob - 1
          || s.jstglob + j == 0 || s.jstglob + j == nyglob - 1)
  {
    RangeInsideDomain(rankX, nxglob, px);
    RangeInsideDomain(rankY, nyglob, py);
  }
}
