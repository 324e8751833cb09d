/**
 * timestep_FwdEuler in the distributed solver: exchange halos along x and
 * y, evaluate get_rhs from the unchanged T, advance every local cell by
 * dt*rhs, then apply enforce_bcs.
 */
module ParTimestep {
  import opened Common
  import opened Topology
  import opened Partition
  import opened ParBoundary
  import opened ParStencil
  import opened Halo

  /** The eight 1-D work arrays of one process are pairwise distinct. */
  ghost predicate Separate(xl: array<real>, xr: array<real>, yb: array<real>, yt: array<real>,
                           sx: array<real>, rx: array<real>, sy: array<real>, ry: array<real>) {
    && xl != xr && xl != yb && xl != yt && xl != sx && xl != rx && xl != sy && xl != ry
    && xr != yb && xr != yt && xr != sx && xr != rx && xr != sy && xr != ry
    && yb != yt && yb != sx && yb != rx && yb != sy && yb != ry
    && yt != sx && yt != rx && yt != sy && yt != ry
    && sx != rx && sx != sy && sx != ry
    && rx != sy && rx != ry
    && sy != ry
  }

  /** The field f advanced by dt times r, cell by cell. */
  ghost function Advanced(f: Field, r: Field, dt: real, nx: int, ny: int): (h: Field)
    requires IsGrid(f, nx, ny) && IsGrid(r, nx, ny)
    ensures IsGrid(h, nx, ny)
  {
    seq(nx, i requires 0 <= i < nx => seq(ny, j requires 0 <= j < ny => f[i][j] + dt * r[i][j]))
  }

  /** T[i][j] = T[i][j] + dt*rhs[i][j] for every local cell. */
  method EulerUpdate(T: array2<real>, rhs: array2<real>, dt: real)
    requires T.Length0 == rhs.Length0 && T.Length1 == rhs.Length1 && T != rhs
    modifies T
    ensures Cells(T) == Advanced(old(Cells(T)), Cells(rhs), dt, T.Length0, T.Length1)
  {
    ghost var f := Cells(T);
    for i := 0 to T.Length0
      invariant forall a, b :: 0 <= a < T.Length0 && 0 <= b < T.Length1 ==>
        T[a, b] == if a < i then old(T[a, b]) + dt * rhs[a, b] else old(T[a, b])
    {
      for j := 0 to T.Length1
        invariant forall a, b :: 0 <= a < T.Length0 && 0 <= b < T.Length1 ==>
          T[a, b] == if a < i || (a == i && b < j) then old(T[a, b]) + dt * rhs[a, b] else old(T[a, b])
      {
        T[i, j] := T[i, j] + dt * rhs[i, j];
      }
    }
    FieldExt(Cells(T), Advanced(f, Cells(rhs), dt, T.Length0, T.Length1), T.Length0, T.Length1);
  }

  /**
   * The ghosts one halo exchange leaves behind, given what the receive
   * buffers held before it (staleX, staleY): each side with a neighbour
   * gets that neighbour's boundary column or row; without a right (top)
   * neighbour the ghost is the stale buffer, and without a left (bottom)
   * neighbour it repeats the right (top) ghost, because the buffer is
   * reused.
   */
  ghost function HaloGhosts(rank: int, rankX: int, rankY: int, px: int, py: int, nx: int, ny: int,
                            world: map<int, Field>, staleX: seq<real>, staleY: seq<real>): (g: Ghosts)
    requires nx >= 1 && ny >= 1 && |staleX| == ny && |staleY| == nx
    requires Known(world, LeftNeighbour(rank, rankX), nx, ny)
    requires Known(world, RightNeighbour(rank, rankX, px), nx, ny)
    requires Known(world, BottomNeighbour(rank, rankY, px), nx, ny)
    requires Known(world, TopNeighbour(rank, rankY, px, py), nx, ny)
    ensures |g.xleft| == ny && |g.xright| == ny && |g.ybot| == nx && |g.ytop| == nx
  {
    var right := RightNeighbour(rank, rankX, px);
    var left := LeftNeighbour(rank, rankX);
    var top := TopNeighbour(rank, rankY, px, py);
    var bot := BottomNeighbour(rank, rankY, px);
    var xr := if right.Some? then FirstColumn(world[right.value]) else staleX;
    var xl := if left.Some? then LastColumn(world[left.value]) else xr;
    var yt := if top.Some? then FirstRow(world[top.value], ny) else staleY;
    var yb := if bot.Some? then LastRow(world[bot.value], ny) else yt;
    Ghosts(xl, xr, yb, yt)
  }

  /**
   * The field one forward Euler step produces from f with ghosts g: the
   * cells enforce_bcs zeroes are 0, every other cell is advanced by dt
   * times get_rhs's value there.
   */
  ghost function FwdEulerStep(s: Subdomain, c: Coeffs, dt: real, f: Field, g: Ghosts): (h: Field)
    requires StencilInputs(s, c, f, g)
    ensures IsGrid(h, s.nx, s.ny)
    ensures forall i, j :: 0 <= i < s.nx && 0 <= j < s.ny ==>
      h[i][j] == if ZeroedByBcs(s, i, j) then 0.0 else f[i][j] + dt * RhsAt(s, c, f, g, i, j)
  {
    BcsApplied(s, Advanced(f, RhsField(s, c, f, g), dt, s.nx, s.ny))
  }

  /**
   * On the subdomain main gives a process, with px dividing nxglob and py
   * dividing nyglob, whatever the receive buffers held before the halo
   * exchange has no effect on the right-hand side or on the new field: a
   * stale buffer only reaches a ghost on a side without neighbour, and
   * that side lies on the global boundary, where get_rhs writes 0 without
   * reading the ghost.
   */
  lemma {:induction false} StaleBuffersUnread(rank: int, px: int, py: int, s: Subdomain, c: Coeffs, dt: real,
                                              f: Field, world: map<int, Field>,
                                              staleX1: seq<real>, staleY1: seq<real>,
                                              staleX2: seq<real>, staleY2: seq<real>)
    requires InGrid(rank, px, py)
    requires s == RankSubdomain(rank, s.nxglob, s.nyglob, px, py)
    requires s.nxglob % px == 0 && s.nyglob % py == 0
    requires s.nx >= 2 && s.ny >= 2 && c.dx != 0.0 && c.dy != 0.0 && IsGrid(f, s.nx, s.ny)
    requires |staleX1| == s.ny && |staleX2| == s.ny && |staleY1| == s.nx && |staleY2| == s.nx
    requires var (rx, ry) := ProcessorGridRanks(rank, px);
      && Known(world, LeftNeighbour(rank, rx), s.nx, s.ny)
      && Known(world, RightNeighbour(rank, rx, px), s.nx, s.ny)
      && Known(world, BottomNeighbour(rank, ry, px), s.nx, s.ny)
      && Known(world, TopNeighbour(rank, ry, px, py), s.nx, s.ny)
    ensures var (rx, ry) := ProcessorGridRanks(rank, px);
      var g1 := HaloGhosts(rank, rx, ry, px, py, s.nx, s.ny, world, staleX1, staleY1);
      var g2 := HaloGhosts(rank, rx, ry, px, py, s.nx, s.ny, world, staleX2, staleY2);
      && RhsField(s, c, f, g1) == RhsField(s, c, f, g2)
      && FwdEulerStep(s, c, dt, f, g1) == FwdEulerStep(s, c, dt, f, g2)
  {
    var (rx, ry) := ProcessorGridRanks(rank, px);
    GlobalCountPositive(s.nxglob, px);
    GlobalCountPositive(s.nyglob, py);
    MissingNeighbourOnGlobalBoundary(rank, s.nxglob, s.nyglob, px, py);
    var g1 := HaloGhosts(rank, rx, ry, px, py, s.nx, s.ny, world, staleX1, staleY1);
    var g2 := HaloGhosts(rank, rx, ry, px, py, s.nx, s.ny, world, staleX2, staleY2);
    assert s.istglob == 0 || g1.xleft == g2.xleft;
    assert s.ienglob == s.nxglob - 1 || g1.xright == g2.xright;
    assert s.jstglob == 0 || g1.ybot == g2.ybot;
    assert s.jenglob == s.nyglob - 1 || g1.ytop == g2.ytop;
    GhostsUnreadOnGlobalBoundary(s, c, f, g1, g2);
  }

  /** A positive local count along an axis needs a positive global count. */
  lemma GlobalCountPositive(nglob: int, p: int)
    requires p > 0 && LocalCount(nglob, p) >= 1
    ensures nglob > 0
  {
    if nglob <= 0 {
      assert false;
    }
  }

  /**
   * Without the divisibility the stale buffer is read: with nxglob = 5 and
   * px = 2, process 1 has no right neighbour but its last column is not on
   * the global boundary, so get_rhs at local cell (1, 1) returns whatever
   * the x receive buffer held before the exchange.
   */
  lemma UnevenSplitReadsStaleBuffer(staleX: seq<real>, staleY: seq<real>)
    requires |staleX| == 4 && |staleY| == 2
    ensures var s := RankSubdomain(1, 5, 4, 2, 1);
      var zero := seq(2, i => seq(4, j => 0.0));
      var g := HaloGhosts(1, 1, 0, 2, 1, 2, 4, map[0 := zero], staleX, staleY);
      && RightNeighbour(1, 1, 2).None?
      && StencilInputs(s, Coeffs(1.0, 1.0, 1.0), zero, g)
      && RhsField(s, Coeffs(1.0, 1.0, 1.0), zero, g)[1][1] == staleX[1]
  {
    var s := RankSubdomain(1, 5, 4, 2, 1);
    var zero := seq(2, i => seq(4, j => 0.0));
    var g := HaloGhosts(1, 1, 0, 2, 1, 2, 4, map[0 := zero], staleX, staleY);
    assert g.xright == staleX && g.xleft == zero[1];
    assert !OnGlobalBoundary(s, 1, 1);
    assert RhsAt(s, Coeffs(1.0, 1.0, 1.0), zero, g, 1, 1) == staleX[1];
  }

  /**
   * One forward Euler step of process `rank` at grid position (rankX,
   * rankY) on subdomain s. The ghosts hold the neighbours' boundary
   * columns and rows; rhs is RhsAt of the T the step started from and those
   * ghosts; every cell of T becomes its old value plus dt*rhs, except the
   * cells enforce_bcs zeroes.
   */
  method TimestepFwdEuler(rank: int, rankX: int, rankY: int, px: int, py: int, s: Subdomain,
                          dt: real, dx: real, dy: real,
                          xleftghost: array<real>, xrightghost: array<real>,
                          ybotghost: array<real>, ytopghost: array<real>,
                          kdiff: real, T: array2<real>, rhs: array2<real>,
                          sendbufX: array<real>, recvbufX: array<real>,
                          sendbufY: array<real>, recvbufY: array<real>, world: map<int, Field>)
    requires s.nx >= 2 && s.ny >= 2 && dx != 0.0 && dy != 0.0
    requires T.Length0 == s.nx && T.Length1 == s.ny && rhs.Length0 == s.nx && rhs.Length1 == s.ny
    requires rhs != T
    requires xleftghost.Length == s.ny && xrightghost.Length == s.ny
    requires sendbufX.Length == s.ny && recvbufX.Length == s.ny
    requires ybotghost.Length == s.nx && ytopghost.Length == s.nx
    requires sendbufY.Length == s.nx && recvbufY.Length == s.nx
    requires Separate(xleftghost, xrightghost, ybotghost, ytopghost, sendbufX, recvbufX, sendbufY, recvbufY)
    requires Known(world, LeftNeighbour(rank, rankX), s.nx, s.ny)
    requires Known(world, RightNeighbour(rank, rankX, px), s.nx, s.ny)
    requires Known(world, BottomNeighbour(rank, rankY, px), s.nx, s.ny)
    requires Known(world, TopNeighbour(rank, rankY, px, py), s.nx, s.ny)
    modifies T, rhs, xleftghost, xrightghost, ybotghost, ytopghost, sendbufX, recvbufX, sendbufY, recvbufY
    ensures var right := RightNeighbour(rank, rankX, px);
      xrightghost[..] == if right.Some? then FirstColumn(world[right.value]) else old(recvbufX[..])
    ensures var left := LeftNeighbour(rank, rankX);
      xleftghost[..] == if left.Some? then LastColumn(world[left.value]) else xrightghost[..]
    ensures var top := TopNeighbour(rank, rankY, px, py);
      ytopghost[..] == if top.Some? then FirstRow(world[top.value], s.ny) else old(recvbufY[..])
    ensures var bot := BottomNeighbour(rank, rankY, px);
      ybotghost[..] == if bot.Some? then LastRow(world[bot.value], s.ny) else ytopghost[..]
    ensures Ghosts(xleftghost[..], xrightghost[..], ybotghost[..], ytopghost[..])
      == HaloGhosts(rank, rankX, rankY, px, py, s.nx, s.ny, world, old(recvbufX[..]), old(recvbufY[..]))
    ensures recvbufX[..] == xleftghost[..] && recvbufY[..] == ybotghost[..]
    ensures sendbufX[..] == LastColumn(old(Cells(T))) && sendbufY[..] == LastRow(old(Cells(T)), s.ny)
    ensures Cells(rhs) == RhsField(s, Coeffs(kdiff, dx, dy), old(Cells(T)),
                                   Ghosts(xleftghost[..], xrightghost[..], ybotghost[..], ytopghost[..]))
    ensures Cells(T) == BcsApplied(s, Advanced(old(Cells(T)), Cells(rhs), dt, s.nx, s.ny))
    ensures Cells(T) == FwdEulerStep(s, Coeffs(kdiff, dx, dy), dt, old(Cells(T)),
                                     Ghosts(xleftghost[..], xrightghost[..], ybotghost[..], ytopghost[..]))
  {
    var nx, ny := s.nx, s.ny;
    ghost var f0 := Cells(T);
    // communicate information to get the ghosts
    HaloExchangeX(rank, rankX, px, nx, ny, T, xleftghost, xrightghost, sendbufX, recvbufX, world);
    HaloExchangeY(rank, rankY, px, py, nx, ny, T, ybotghost, ytopghost, sendbufY, recvbufY, world);

    assert Cells(T) == f0;
    GetRhs(s, dx, dy, xleftghost, xrightghost, ybotghost, ytopghost, kdiff, T, rhs);

    // (forward) Euler scheme
    EulerUpdate(T, rhs, dt);

    // set Dirichlet BCs
    EnforceBcs(s, T);
  }
}
