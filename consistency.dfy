/**
 * The distributed solver run on a single process (px = py = 1) against the
 * serial solver: the right-hand side agrees, and the forward Euler steps
 * agree once the distributed boundary test uses the end indices. With the
 * start-index test enforce_bcs is written with, the right column and the
 * top row keep whatever the step left there.
 */
module Consistency {
  import opened Common
  import opened Partition
  import opened ParBoundary
  import opened ParStencil
  import opened ParTimestep
  import opened SerialBoundary
  import opened SerialExplicit

  /**
   * The subdomain main sets up when one process owns the whole n-by-m grid:
   * local and global counts agree and the ranges run from 0 to n-1 and m-1.
   */
  function WholeGrid(n: int, m: int): (s: Subdomain)
    requires n >= 0 && m >= 0
    ensures s == Subdomain(n, m, n, m, 0, n - 1, 0, m - 1)
  {
    assert CDiv(n, 1) == n && CDiv(m, 1) == m;
    LocalSubdomain(0, 0, n, m, 1, 1)
  }

  /** On the whole grid, get_rhs's boundary test is exactly the serial edge test. */
  lemma WholeGridBoundaryIsEdge(n: int, m: int, i: int, j: int)
    requires n >= 0 && m >= 0 && 0 <= i < n && 0 <= j < m
    ensures OnGlobalBoundary(WholeGrid(n, m), i, j) <==> IsEdge(i, j, n, m)
  {
  }

  /**
   * On the whole grid, get_rhs yields the serial 5-point operator at every
   * interior point and 0 on every edge, whatever the ghost arrays hold.
   */
  lemma WholeGridRhsMatchesSerial(n: int, m: int, c: Coeffs, f: Field, g: Ghosts, r0: Field)
    requires n >= 0 && m >= 0 && IsGrid(r0, n, m)
    requires StencilInputs(WholeGrid(n, m), c, f, g)
    ensures RhsField(WholeGrid(n, m), c, f, g) == EdgesZeroed(ExplicitRhs(r0, f, n, m, c.kdiff, c.dx, c.dy), n, m)
  {
    var s := WholeGrid(n, m);
    var lhs := RhsField(s, c, f, g);
    var rhs := EdgesZeroed(ExplicitRhs(r0, f, n, m, c.kdiff, c.dx, c.dy), n, m);
    forall i, j | 0 <= i < n && 0 <= j < m
      ensures lhs[i][j] == rhs[i][j]
    {
      if IsInterior(i, j, n, m) {
        assert lhs[i][j] == LaplacianAt(f, n, m, c.kdiff, c.dx, c.dy, i, j);
      }
    }
    FieldExt(lhs, rhs, n, m);
  }

  /**
   * The boundary conditions with the end-index test for the right and top
   * edges: every cell on the global boundary is zeroed.
   */
  ghost function BcsCorrected(s: Subdomain, f: Field): (g: Field)
    requires IsGrid(f, s.nx, s.ny)
    ensures IsGrid(g, s.nx, s.ny)
    ensures forall i, j :: 0 <= i < s.nx && 0 <= j < s.ny ==>
      g[i][j] == if OnGlobalBoundary(s, i, j) then 0.0 else f[i][j]
  {
    seq(s.nx, i requires 0 <= i < s.nx =>
      seq(s.ny, j requires 0 <= j < s.ny => if OnGlobalBoundary(s, i, j) then 0.0 else f[i][j]))
  }

  /**
   * With the corrected boundary test, one distributed forward Euler step on
   * a single process is exactly the serial step.
   */
  lemma CorrectedStepMatchesSerial(n: int, m: int, c: Coeffs, dt: real, f: Field, g: Ghosts)
    requires n >= 0 && m >= 0
    requires StencilInputs(WholeGrid(n, m), c, f, g)
    ensures BcsCorrected(WholeGrid(n, m), Advanced(f, RhsField(WholeGrid(n, m), c, f, g), dt, n, m))
            == ExplicitStep(f, n, m, c.kdiff, dt, c.dx, c.dy)
  {
    var s := WholeGrid(n, m);
    var lhs := BcsCorrected(s, Advanced(f, RhsField(s, c, f, g), dt, n, m));
    var rhs := ExplicitStep(f, n, m, c.kdiff, dt, c.dx, c.dy);
    forall i, j | 0 <= i < n && 0 <= j < m
      ensures lhs[i][j] == rhs[i][j]
    {
      if IsInterior(i, j, n, m) {
        assert RhsField(s, c, f, g)[i][j] == LaplacianAt(f, n, m, c.kdiff, c.dx, c.dy, i, j);
      }
    }
    FieldExt(lhs, rhs, n, m);
  }

  /**
   * As written, the distributed step on a single 3-by-3 process leaves a
   * non-zero value on the right edge, where the serial step puts 0.
   */
  lemma AsWrittenStepKeepsRightEdge()
    ensures var s := WholeGrid(3, 3);
      var f := [[0.0, 0.0, 0.0], [0.0, 0.0, 0.0], [0.0, 1.0, 0.0]];
      var c := Coeffs(1.0, 1.0, 1.0);
      var g := Ghosts([0.0, 0.0, 0.0], [0.0, 0.0, 0.0], [0.0, 0.0, 0.0], [0.0, 0.0, 0.0]);
      && StencilInputs(s, c, f, g)
      && BcsApplied(s, Advanced(f, RhsField(s, c, f, g), 0.1, 3, 3))[2][1] == 1.0
      && ExplicitStep(f, 3, 3, 1.0, 0.1, 1.0, 1.0)[2][1] == 0.0
  {
    var s := WholeGrid(3, 3);
    var f := [[0.0, 0.0, 0.0], [0.0, 0.0, 0.0], [0.0, 1.0, 0.0]];
    var c := Coeffs(1.0, 1.0, 1.0);
    var g := Ghosts([0.0, 0.0, 0.0], [0.0, 0.0, 0.0], [0.0, 0.0, 0.0], [0.0, 0.0, 0.0]);
    assert OnGlobalBoundary(s, 2, 1) && !ZeroedByBcs(s, 2, 1);
    assert RhsField(s, c, f, g)[2][1] == 0.0;
  }
}
