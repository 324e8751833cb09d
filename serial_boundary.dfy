/**
 * enforce_bcs in the serial solver: zero column 0, column nx-1, row 0 and
 * row ny-1 unconditionally (homogeneous Dirichlet conditions).
 */
module SerialBoundary {
  import opened Common

  /** (i, j) is on the edge of the nx-by-ny grid. */
  predicate IsEdge(i: int, j: int, nx: int, ny: int) {
    i == 0 || i == nx - 1 || j == 0 || j == ny - 1
  }

  /** The field with every edge cell set to zero and every other cell kept. */
  ghost function EdgesZeroed(f: Field, nx: int, ny: int): (g: Field)
    requires IsGrid(f, nx, ny)
    ensures IsGrid(g, nx, ny)
    ensures forall i, j :: 0 <= i < nx && 0 <= j < ny ==> g[i][j] == if IsEdge(i, j, nx, ny) then 0.0 else f[i][j]
  {
    seq(nx, i requires 0 <= i < nx =>
      seq(ny, j requires 0 <= j < ny => if IsEdge(i, j, nx, ny) then 0.0 else f[i][j]))
  }

  /** enforce_bcs: zero the left and right ends, then the bottom and top ends. */
  method EnforceBcs(nx: int, ny: int, T: array2<real>)
    requires nx >= 1 && ny >= 1 && T.Length0 == nx && T.Length1 == ny
    modifies T
    ensures Cells(T) == EdgesZeroed(old(Cells(T)), nx, ny)
  {
    ghost var f := Cells(T);
    // left and right ends
    for j := 0 to ny
      invariant forall a, b :: 0 <= a < nx && 0 <= b < ny ==>
        T[a, b] == if (a == 0 || a == nx - 1) && b < j then 0.0 else f[a][b]
    {
      T[0, j] := 0.0;
      T[nx - 1, j] := 0.0;
    }
    // top and bottom ends
    for i := 0 to nx
      invariant forall a, b :: 0 <= a < nx && 0 <= b < ny ==>
        T[a, b] == if a == 0 || a == nx - 1 || ((b == 0 || b == ny - 1) && a < i) then 0.0 else f[a][b]
    {
      T[i, 0] := 0.0;
      T[i, ny - 1] := 0.0;
    }
    FieldExt(Cells(T), EdgesZeroed(f, nx, ny), nx, ny);
  }

  /** Applying the boundary conditions twice is the same as applying them once. */
  lemma EdgesZeroedIdempotent(f: Field, nx: int, ny: int)
    requires IsGrid(f, nx, ny)
    ensures EdgesZeroed(EdgesZeroed(f, nx, ny), nx, ny) == EdgesZeroed(f, nx, ny)
  {
    var g := EdgesZeroed(f, nx, ny);
    FieldExt(EdgesZeroed(g, nx, ny), g, nx, ny);
  }

  /** A field whose edges are already zero is left unchanged. */
  lemma EdgesZeroedFixes(f: Field, nx: int, ny: int)
    requires IsGrid(f, nx, ny)
    requires forall i, j :: 0 <= i < nx && 0 <= j < ny && IsEdge(i, j, nx, ny) ==> f[i][j] == 0.0
    ensures EdgesZeroed(f, nx, ny) == f
  {
    FieldExt(EdgesZeroed(f, nx, ny), f, nx, ny);
  }
}
