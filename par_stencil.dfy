/**
 * get_rhs in the distributed solver: the 5-point diffusion operator at
 * every local point, with ghost values standing in for the neighbour
 * across a subdomain edge and zero on the global boundary.
 */
module ParStencil {
  import opened Common
  import opened Partition
  import opened ParBoundary

  /** The four ghost arrays as values: columns beyond x-edges, rows beyond y-edges. */
  datatype Ghosts = Ghosts(xleft: seq<real>, xright: seq<real>, ybot: seq<real>, ytop: seq<real>)

  /** Coefficients of the operator: the diffusivity and the two spacings. */
  datatype Coeffs = Coeffs(kdiff: real, dx: real, dy: real)

  /** Everything get_rhs needs to be well defined on subdomain s. */
  ghost predicate StencilInputs(s: Subdomain, c: Coeffs, f: Field, g: Ghosts) {
    && s.nx >= 2 && s.ny >= 2
    && IsGrid(f, s.nx, s.ny)
    && |g.xleft| == s.ny && |g.xright| == s.ny && |g.ybot| == s.nx && |g.ytop| == s.nx
    && c.dx != 0.0 && c.dy != 0.0
  }

  /**
   * The value get_rhs assigns to local cell (i, j), stated once for all
   * cells: zero on the global boundary; otherwise the 5-point operator
   * where each axis independently takes the local neighbour, or the ghost
   * value when the neighbour lies across a subdomain edge.
   */
  ghost function RhsAt(s: Subdomain, c: Coeffs, f: Field, g: Ghosts, i: int, j: int): real
    requires StencilInputs(s, c, f, g)
    requires 0 <= i < s.nx && 0 <= j < s.ny
  {
    if OnGlobalBoundary(s, i, j) then 0.0
    else
      var west := if i == 0 then g.xleft[j] else f[i - 1][j];
      var east := if i == s.nx - 1 then g.xright[j] else f[i + 1][j];
      var south := if j == 0 then g.ybot[i] else f[i][j - 1];
      var north := if j == s.ny - 1 then g.ytop[i] else f[i][j + 1];
      FivePoint(c.kdiff, east, west, north, south, f[i][j], c.dx, c.dy)
  }

  /** The whole right-hand side get_rhs computes, as a field. */
  ghost function RhsField(s: Subdomain, c: Coeffs, f: Field, g: Ghosts): (r: Field)
    requires StencilInputs(s, c, f, g)
    ensures IsGrid(r, s.nx, s.ny)
    ensures forall i, j :: 0 <= i < s.nx && 0 <= j < s.ny ==> r[i][j] == RhsAt(s, c, f, g, i, j)
  {
    seq(s.nx, i requires 0 <= i < s.nx => seq(s.ny, j requires 0 <= j < s.ny => RhsAt(s, c, f, g, i, j)))
  }

  /** rhs agrees with RhsAt on the block [i0, i1) x [j0, j1). */
  ghost predicate Agrees(rhs: array2<real>, s: Subdomain, c: Coeffs, f: Field, g: Ghosts,
                         i0: int, i1: int, j0: int, j1: int)
    reads rhs
    requires StencilInputs(s, c, f, g)
    requires rhs.Length0 == s.nx && rhs.Length1 == s.ny
    requires 0 <= i0 && i1 <= s.nx && 0 <= j0 && j1 <= s.ny
  {
    forall a, b :: i0 <= a < i1 && j0 <= b < j1 ==> rhs[a, b] == RhsAt(s, c, f, g, a, b)
  }

  /** Every cell of rhs outside the block [i0, i1) x [j0, j1) kept its old value. */
  twostate predicate UnchangedOutside(rhs: array2<real>, i0: int, i1: int, j0: int, j1: int)
    reads rhs
  {
    forall a, b :: 0 <= a < rhs.Length0 && 0 <= b < rhs.Length1 && !(i0 <= a < i1 && j0 <= b < j1) ==>
      rhs[a, b] == old(rhs[a, b])
  }

  /** get_rhs, interior points: the 5-point formula on local values only. */
  method RhsInterior(s: Subdomain, c: Coeffs, T: array2<real>, rhs: array2<real>, ghost g: Ghosts)
    requires StencilInputs(s, c, Cells(T), g)
    requires T.Length0 == s.nx && T.Length1 == s.ny
    requires rhs.Length0 == s.nx && rhs.Length1 == s.ny && rhs != T
    modifies rhs
    ensures Agrees(rhs, s, c, Cells(T), g, 1, s.nx - 1, 1, s.ny - 1)
    ensures UnchangedOutside(rhs, 1, s.nx - 1, 1, s.ny - 1)
  {
    var nx, ny, kdiff := s.nx, s.ny, c.kdiff;
    var dx, dy := c.dx, c.dy;
    ghost var f := Cells(T);
    for i := 1 to nx - 1
      invariant forall a, b :: 0 <= a < nx && 0 <= b < ny ==>
        rhs[a, b] == if 1 <= a < i && 1 <= b < ny - 1 then RhsAt(s, c, f, g, a, b) else old(rhs[a, b])
    {
      for j := 1 to ny - 1
        invariant forall a, b :: 0 <= a < nx && 0 <= b < ny ==>
          rhs[a, b] == if (1 <= a < i || (a == i && b < j)) && 1 <= b < ny - 1 then RhsAt(s, c, f, g, a, b)
                       else old(rhs[a, b])
      {
        rhs[i, j] := FivePoint(kdiff, T[i + 1, j], T[i - 1, j], T[i, j + 1], T[i, j - 1], T[i, j], dx, dy);
      }
    }
  }

  /** get_rhs, left boundary (column 0 without its corners): zero, or xleftghost[j] for T[-1][j]. */
  method RhsLeftEdge(s: Subdomain, c: Coeffs, xleftghost: array<real>, T: array2<real>, rhs: array2<real>,
                     ghost g: Ghosts)
    requires StencilInputs(s, c, Cells(T), g) && g.xleft == xleftghost[..]
    requires T.Length0 == s.nx && T.Length1 == s.ny
    requires rhs.Length0 == s.nx && rhs.Length1 == s.ny && rhs != T
    modifies rhs
    ensures Agrees(rhs, s, c, Cells(T), g, 0, 1, 1, s.ny - 1)
    ensures UnchangedOutside(rhs, 0, 1, 1, s.ny - 1)
  {
    var ny, kdiff := s.ny, c.kdiff;
    var dx, dy := c.dx, c.dy;
    ghost var f := Cells(T);
    var i := 0;
    if s.istglob == 0 {
      for j := 1 to ny - 1
        invariant forall a, b :: 0 <= a < s.nx && 0 <= b < s.ny ==>
          rhs[a, b] == if 0 <= a < 1 && 1 <= b < j then RhsAt(s, c, f, g, a, b) else old(rhs[a, b])
      {
        rhs[i, j] := 0.0;
      }
    } else {
      for j := 1 to ny - 1
        invariant forall a, b :: 0 <= a < s.nx && 0 <= b < s.ny ==>
          rhs[a, b] == if 0 <= a < 1 && 1 <= b < j then RhsAt(s, c, f, g, a, b) else old(rhs[a, b])
      {
        // T[i-1][j] replaced with xleftghost
        rhs[i, j] := FivePoint(kdiff, T[i + 1, j], xleftghost[j], T[i, j + 1], T[i, j - 1], T[i, j], dx, dy);
      }
    }
  }

  /** get_rhs, right boundary (column nx-1 without its corners): zero, or xrightghost[j] for T[nx][j]. */
  method RhsRightEdge(s: Subdomain, c: Coeffs, xrightghost: array<real>, T: array2<real>, rhs: array2<real>,
                      ghost g: Ghosts)
    requires StencilInputs(s, c, Cells(T), g) && g.xright == xrightghost[..]
    requires T.Length0 == s.nx && T.Length1 == s.ny
    requires rhs.Length0 == s.nx && rhs.Length1 == s.ny && rhs != T
    modifies rhs
    ensures Agrees(rhs, s, c, Cells(T), g, s.nx - 1, s.nx, 1, s.ny - 1)
    ensures UnchangedOutside(rhs, s.nx - 1, s.nx, 1, s.ny - 1)
  {
    var nx, ny, kdiff := s.nx, s.ny, c.kdiff;
    var dx, dy := c.dx, c.dy;
    ghost var f := Cells(T);
    var i := nx - 1;
    if s.ienglob == s.nxglob - 1 {
      for j := 1 to ny - 1
        invariant forall a, b :: 0 <= a < s.nx && 0 <= b < s.ny ==>
          rhs[a, b] == if nx - 1 <= a < nx && 1 <= b < j then RhsAt(s, c, f, g, a, b) else old(rhs[a, b])
      {
        rhs[i, j] := 0.0;
      }
    } else {
      for j := 1 to ny - 1
        invariant forall a, b :: 0 <= a < s.nx && 0 <= b < s.ny ==>
          rhs[a, b] == if nx - 1 <= a < nx && 1 <= b < j then RhsAt(s, c, f, g, a, b) else old(rhs[a, b])
      {
        // T[i+1][j] replaced with xrightghost
        rhs[i, j] := FivePoint(kdiff, xrightghost[j], T[i - 1, j], T[i, j + 1], T[i, j - 1], T[i, j], dx, dy);
      }
    }
  }

  /** get_rhs, bottom boundary (row 0 without its corners): zero, or ybotghost[i] for T[i][-1]. */
  method RhsBottomEdge(s: Subdomain, c: Coeffs, ybotghost: array<real>, T: array2<real>, rhs: array2<real>,
                       ghost g: Ghosts)
    requires StencilInputs(s, c, Cells(T), g) && g.ybot == ybotghost[..]
    requires T.Length0 == s.nx && T.Length1 == s.ny
    requires rhs.Length0 == s.nx && rhs.Length1 == s.ny && rhs != T
    modifies rhs
    ensures Agrees(rhs, s, c, Cells(T), g, 1, s.nx - 1, 0, 1)
    ensures UnchangedOutside(rhs, 1, s.nx - 1, 0, 1)
  {
    var nx, kdiff := s.nx, c.kdiff;
    var dx, dy := c.dx, c.dy;
    ghost var f := Cells(T);
    var j := 0;
    if s.jstglob == 0 {
      for i := 1 to nx - 1
        invariant forall a, b :: 0 <= a < s.nx && 0 <= b < s.ny ==>
          rhs[a, b] == if 1 <= a < i && 0 <= b < 1 then RhsAt(s, c, f, g, a, b) else old(rhs[a, b])
      {
        rhs[i, j] := 0.0;
      }
    } else {
      for i := 1 to nx - 1
        invariant forall a, b :: 0 <= a < s.nx && 0 <= b < s.ny ==>
          rhs[a, b] == if 1 <= a < i && 0 <= b < 1 then RhsAt(s, c, f, g, a, b) else old(rhs[a, b])
      {
        // T[i][j-1] replaced with ybotghost
        rhs[i, j] := FivePoint(kdiff, T[i + 1, j], T[i - 1, j], T[i, j + 1], ybotghost[i], T[i, j], dx, dy);
      }
    }
  }

  /** get_rhs, top boundary (row ny-1 without its corners): zero, or ytopghost[i] for T[i][ny]. */
  method RhsTopEdge(s: Subdomain, c: Coeffs, ytopghost: array<real>, T: array2<real>, rhs: array2<real>,
                    ghost g: Ghosts)
    requires StencilInputs(s, c, Cells(T), g) && g.ytop == ytopghost[..]
    requires T.Length0 == s.nx && T.Length1 == s.ny
    requires rhs.Length0 == s.nx && rhs.Length1 == s.ny && rhs != T
    modifies rhs
    ensures Agrees(rhs, s, c, Cells(T), g, 1, s.nx - 1, s.ny - 1, s.ny)
    ensures UnchangedOutside(rhs, 1, s.nx - 1, s.ny - 1, s.ny)
  {
    var nx, ny, kdiff := s.nx, s.ny, c.kdiff;
    var dx, dy := c.dx, c.dy;
    ghost var f := Cells(T);
    var j := ny - 1;
    if s.jenglob == s.nyglob - 1 {
      for i := 1 to nx - 1
        invariant forall a, b :: 0 <= a < s.nx && 0 <= b < s.ny ==>
          rhs[a, b] == if 1 <= a < i && ny - 1 <= b < ny then RhsAt(s, c, f, g, a, b) else old(rhs[a, b])
      {
        rhs[i, j] := 0.0;
      }
    } else {
      for i := 1 to nx - 1
        invariant forall a, b :: 0 <= a < s.nx && 0 <= b < s.ny ==>
          rhs[a, b] == if 1 <= a < i && ny - 1 <= b < ny then RhsAt(s, c, f, g, a, b) else old(rhs[a, b])
      {
        // T[i][j+1] replaced with ytopghost
        rhs[i, j] := FivePoint(kdiff, T[i + 1, j], T[i - 1, j], ytopghost[i], T[i, j - 1], T[i, j], dx, dy);
      }
    }
  }

  /** No cell of rhs other than (i, j) changed. */
  twostate predicate UnchangedExcept(rhs: array2<real>, i: int, j: int)
    reads rhs
  {
    forall a, b :: 0 <= a < rhs.Length0 && 0 <= b < rhs.Length1 && (a != i || b != j) ==> rhs[a, b] == old(rhs[a, b])
  }

  /** get_rhs, bottom-left corner: zero on the global boundary, otherwise two ghost values. */
  method RhsBottomLeft(s: Subdomain, c: Coeffs,
                    xleftghost: array<real>, xrightghost: array<real>, ybotghost: array<real>, ytopghost: array<real>,
                    T: array2<real>, rhs: array2<real>, ghost g: Ghosts)
    requires StencilInputs(s, c, Cells(T), g)
    requires g == Ghosts(xleftghost[..], xrightghost[..], ybotghost[..], ytopghost[..])
    requires T.Length0 == s.nx && T.Length1 == s.ny
    requires rhs.Length0 == s.nx && rhs.Length1 == s.ny && rhs != T
    modifies rhs
    ensures rhs[0, 0] == RhsAt(s, c, Cells(T), g, 0, 0)
    ensures UnchangedExcept(rhs, 0, 0)
  {
    var nx, ny, kdiff := s.nx, s.ny, c.kdiff;
    var dx, dy := c.dx, c.dy;
    var i, j := 0, 0;
    if s.istglob == 0 || s.jstglob == 0 {
      rhs[i, j] := 0.0;
    } else {
      rhs[i, j] := FivePoint(kdiff, T[i + 1, j], xleftghost[j], T[i, j + 1], ybotghost[i], T[i, j], dx, dy);
    }
    RhsAtNeighbours(s, c, Cells(T), g, i, j, T[i + 1, j], xleftghost[j], T[i, j + 1], ybotghost[i]);
  }

  /** get_rhs, bottom-right corner: zero on the global boundary, otherwise two ghost values. */
  method RhsBottomRight(s: Subdomain, c: Coeffs,
                    xleftghost: array<real>, xrightghost: array<real>, ybotghost: array<real>, ytopghost: array<real>,
                    T: array2<real>, rhs: array2<real>, ghost g: Ghosts)
    requires StencilInputs(s, c, Cells(T), g)
    requires g == Ghosts(xleftghost[..], xrightghost[..], ybotghost[..], ytopghost[..])
    requires T.Length0 == s.nx && T.Length1 == s.ny
    requires rhs.Length0 == s.nx && rhs.Length1 == s.ny && rhs != T
    modifies rhs
    ensures rhs[s.nx - 1, 0] == RhsAt(s, c, Cells(T), g, s.nx - 1, 0)
    ensures UnchangedExcept(rhs, s.nx - 1, 0)
  {
    var nx, ny, kdiff := s.nx, s.ny, c.kdiff;
    var dx, dy := c.dx, c.dy;
    var i, j := nx - 1, 0;
    if s.ienglob == s.nxglob - 1 || s.jstglob == 0 {
      rhs[i, j] := 0.0;
    } else {
      rhs[i, j] := FivePoint(kdiff, xrightghost[j], T[i - 1, j], T[i, j + 1], ybotghost[i], T[i, j], dx, dy);
    }
    RhsAtNeighbours(s, c, Cells(T), g, i, j, xrightghost[j], T[i - 1, j], T[i, j + 1], ybotghost[i]);
  }

  /** get_rhs, top-left corner: zero on the global boundary, otherwise two ghost values. */
  method RhsTopLeft(s: Subdomain, c: Coeffs,
                    xleftghost: array<real>, xrightghost: array<real>, ybotghost: array<real>, ytopghost: array<real>,
                    T: array2<real>, rhs: array2<real>, ghost g: Ghosts)
    requires StencilInputs(s, c, Cells(T), g)
    requires g == Ghosts(xleftghost[..], xrightghost[..], ybotghost[..], ytopghost[..])
    requires T.Length0 == s.nx && T.Length1 == s.ny
    requires rhs.Length0 == s.nx && rhs.Length1 == s.ny && rhs != T
    modifies rhs
    ensures rhs[0, s.ny - 1] == RhsAt(s, c, Cells(T), g, 0, s.ny - 1)
    ensures UnchangedExcept(rhs, 0, s.ny - 1)
  {
    var nx, ny, kdiff := s.nx, s.ny, c.kdiff;
    var dx, dy := c.dx, c.dy;
    var i, j := 0, ny - 1;
    if s.istglob == 0 || s.jenglob == s.nyglob - 1 {
      rhs[i, j] := 0.0;
    } else {
      rhs[i, j] := FivePoint(kdiff, T[i + 1, j], xleftghost[j], ytopghost[i], T[i, j - 1], T[i, j], dx, dy);
    }
    RhsAtNeighbours(s, c, Cells(T), g, i, j, T[i + 1, j], xleftghost[j], ytopghost[i], T[i, j - 1]);
  }

  /** get_rhs, top-right corner: zero on the global boundary, otherwise two ghost values. */
  method RhsTopRight(s: Subdomain, c: Coeffs,
                    xleftghost: array<real>, xrightghost: array<real>, ybotghost: array<real>, ytopghost: array<real>,
                    T: array2<real>, rhs: array2<real>, ghost g: Ghosts)
    requires StencilInputs(s, c, Cells(T), g)
    requires g == Ghosts(xleftghost[..], xrightghost[..], ybotghost[..], ytopghost[..])
    requires T.Length0 == s.nx && T.Length1 == s.ny
    requires rhs.Length0 == s.nx && rhs.Length1 == s.ny && rhs != T
    modifies rhs
    ensures rhs[s.nx - 1, s.ny - 1] == RhsAt(s, c, Cells(T), g, s.nx - 1, s.ny - 1)
    ensures UnchangedExcept(rhs, s.nx - 1, s.ny - 1)
  {
    var nx, ny, kdiff := s.nx, s.ny, c.kdiff;
    var dx, dy := c.dx, c.dy;
    var i, j := nx - 1, ny - 1;
    if s.ienglob == s.nxglob - 1 || s.jenglob == s.nyglob - 1 {
      rhs[i, j] := 0.0;
    } else {
      rhs[i, j] := FivePoint(kdiff, xrightghost[j], T[i - 1, j], ytopghost[i], T[i, j - 1], T[i, j], dx, dy);
    }
    RhsAtNeighbours(s, c, Cells(T), g, i, j, xrightghost[j], T[i - 1, j], ytopghost[i], T[i, j - 1]);
  }

  /**
   * get_rhs, the four corners: each is zero when either of its two sides is
   * on the global boundary, and otherwise takes a ghost value on both axes.
   */
  method RhsCorners(s: Subdomain, c: Coeffs,
                    xleftghost: array<real>, xrightghost: array<real>, ybotghost: array<real>, ytopghost: array<real>,
                    T: array2<real>, rhs: array2<real>, ghost g: Ghosts)
    requires StencilInputs(s, c, Cells(T), g)
    requires g == Ghosts(xleftghost[..], xrightghost[..], ybotghost[..], ytopghost[..])
    requires T.Length0 == s.nx && T.Length1 == s.ny
    requires rhs.Length0 == s.nx && rhs.Length1 == s.ny && rhs != T
    modifies rhs
    ensures rhs[0, 0] == RhsAt(s, c, Cells(T), g, 0, 0)
    ensures rhs[s.nx - 1, 0] == RhsAt(s, c, Cells(T), g, s.nx - 1, 0)
    ensures rhs[0, s.ny - 1] == RhsAt(s, c, Cells(T), g, 0, s.ny - 1)
    ensures rhs[s.nx - 1, s.ny - 1] == RhsAt(s, c, Cells(T), g, s.nx - 1, s.ny - 1)
    ensures forall a, b :: 0 <= a < s.nx && 0 <= b < s.ny && (0 < a < s.nx - 1 || 0 < b < s.ny - 1) ==>
      rhs[a, b] == old(rhs[a, b])
  {
    RhsBottomLeft(s, c, xleftghost, xrightghost, ybotghost, ytopghost, T, rhs, g);
    RhsBottomRight(s, c, xleftghost, xrightghost, ybotghost, ytopghost, T, rhs, g);
    RhsTopLeft(s, c, xleftghost, xrightghost, ybotghost, ytopghost, T, rhs, g);
    RhsTopRight(s, c, xleftghost, xrightghost, ybotghost, ytopghost, T, rhs, g);
  }

  /** A corner of the subdomain. */
  predicate IsCorner(s: Subdomain, a: int, b: int) {
    (a == 0 || a == s.nx - 1) && (b == 0 || b == s.ny - 1)
  }

  /** A cell on one of the four edges of the subdomain, corners excluded. */
  predicate OnEdge(s: Subdomain, a: int, b: int) {
    (a == 0 || a == s.nx - 1 || b == 0 || b == s.ny - 1) && !IsCorner(s, a, b)
  }

  /** get_rhs, the four edges without their corners, in the order of the source. */
  method RhsEdges(s: Subdomain, c: Coeffs,
                  xleftghost: array<real>, xrightghost: array<real>, ybotghost: array<real>, ytopghost: array<real>,
                  T: array2<real>, rhs: array2<real>, ghost g: Ghosts)
    requires StencilInputs(s, c, Cells(T), g)
    requires g == Ghosts(xleftghost[..], xrightghost[..], ybotghost[..], ytopghost[..])
    requires T.Length0 == s.nx && T.Length1 == s.ny
    requires rhs.Length0 == s.nx && rhs.Length1 == s.ny && rhs != T
    modifies rhs
    ensures forall a, b :: 0 <= a < s.nx && 0 <= b < s.ny ==>
      rhs[a, b] == if OnEdge(s, a, b) then RhsAt(s, c, Cells(T), g, a, b) else old(rhs[a, b])
  {
    RhsLeftEdge(s, c, xleftghost, T, rhs, g);
    RhsRightEdge(s, c, xrightghost, T, rhs, g);
    RhsBottomEdge(s, c, ybotghost, T, rhs, g);
    RhsTopEdge(s, c, ytopghost, T, rhs, g);
  }

  /**
   * get_rhs: interior points first, then the four edges, then the four
   * corners; afterwards every cell of rhs equals RhsAt of the (unchanged)
   * T and ghost arrays, so every cell is written.
   */
  method GetRhs(s: Subdomain, dx: real, dy: real,
                xleftghost: array<real>, xrightghost: array<real>, ybotghost: array<real>, ytopghost: array<real>,
                kdiff: real, T: array2<real>, rhs: array2<real>)
    requires s.nx >= 2 && s.ny >= 2
    requires T.Length0 == s.nx && T.Length1 == s.ny && rhs.Length0 == s.nx && rhs.Length1 == s.ny
    requires rhs != T
    requires xleftghost.Length == s.ny && xrightghost.Length == s.ny
    requires ybotghost.Length == s.nx && ytopghost.Length == s.nx
    requires dx != 0.0 && dy != 0.0
    modifies rhs
    ensures Cells(rhs) == RhsField(s, Coeffs(kdiff, dx, dy), Cells(T),
                                   Ghosts(xleftghost[..], xrightghost[..], ybotghost[..], ytopghost[..]))
  {
    var c := Coeffs(kdiff, dx, dy);
    ghost var f := Cells(T);
    ghost var g := Ghosts(xleftghost[..], xrightghost[..], ybotghost[..], ytopghost[..]);
    var nx, ny := s.nx, s.ny;
    RhsInterior(s, c, T, rhs, g);
    RhsEdges(s, c, xleftghost, xrightghost, ybotghost, ytopghost, T, rhs, g);
    RhsCorners(s, c, xleftghost, xrightghost, ybotghost, ytopghost, T, rhs, g);
    FieldExt(Cells(rhs), RhsField(s, c, f, g), nx, ny);
  }

  /**
   * RhsAt in terms of the four neighbour values the code reads at (i, j):
   * zero on the global boundary, otherwise the 5-point operator on them.
   */
  lemma RhsAtNeighbours(s: Subdomain, c: Coeffs, f: Field, g: Ghosts, i: int, j: int,
                        east: real, west: real, north: real, south: real)
    requires StencilInputs(s, c, f, g) && 0 <= i < s.nx && 0 <= j < s.ny
    requires east == if i == s.nx - 1 then g.xright[j] else f[i + 1][j]
    requires west == if i == 0 then g.xleft[j] else f[i - 1][j]
    requires north == if j == s.ny - 1 then g.ytop[i] else f[i][j + 1]
    requires south == if j == 0 then g.ybot[i] else f[i][j - 1]
    ensures RhsAt(s, c, f, g, i, j) ==
      if OnGlobalBoundary(s, i, j) then 0.0 else FivePoint(c.kdiff, east, west, north, south, f[i][j], c.dx, c.dy)
  {
  }

  /** At an interior point of the subdomain the ghost arrays are not read. */
  lemma RhsInteriorIgnoresGhosts(s: Subdomain, c: Coeffs, f: Field, g1: Ghosts, g2: Ghosts, i: int, j: int)
    requires StencilInputs(s, c, f, g1) && StencilInputs(s, c, f, g2)
    requires 0 < i < s.nx - 1 && 0 < j < s.ny - 1
    ensures RhsAt(s, c, f, g1, i, j) == RhsAt(s, c, f, g2, i, j)
  {
  }

  /**
   * A ghost array on a side that lies on the global boundary is never read:
   * two ghost sets that differ only on such sides give the same rhs.
   */
  lemma GhostsUnreadOnGlobalBoundary(s: Subdomain, c: Coeffs, f: Field, g1: Ghosts, g2: Ghosts)
    requires StencilInputs(s, c, f, g1) && StencilInputs(s, c, f, g2)
    requires s.istglob == 0 || g1.xleft == g2.xleft
    requires s.ienglob == s.nxglob - 1 || g1.xright == g2.xright
    requires s.jstglob == 0 || g1.ybot == g2.ybot
    requires s.jenglob == s.nyglob - 1 || g1.ytop == g2.ytop
    ensures RhsField(s, c, f, g1) == RhsField(s, c, f, g2)
  {
    var r1, r2 := RhsField(s, c, f, g1), RhsField(s, c, f, g2);
    forall i, j | 0 <= i < s.nx && 0 <= j < s.ny
      ensures r1[i][j] == r2[i][j]
    {
      assert r1[i][j] == RhsAt(s, c, f, g1, i, j);
      assert r2[i][j] == RhsAt(s, c, f, g2, i, j);
    }
    FieldExt(r1, r2, s.nx, s.ny);
  }
}
