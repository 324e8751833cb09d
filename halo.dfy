/**
 * The halo exchange of the distributed solver, as its sequential net
 * effect on one process: pack a boundary column (row) of the local T into
 * the send buffer, receive the neighbour's packed column (row) into the
 * receive buffer, and unpack it into a ghost array. The neighbours' fields
 * are passed in as `world`; a missing neighbour (MPI_PROC_NULL) delivers
 * nothing, so the receive buffer keeps whatever it held.
 */
module Halo {
  import opened Common
  import opened Topology

  /**
   * Column i = 0 of a field, T[0][j] for every j: what a process sends to
   * its left. A reference definition for the halo contracts, not a property.
   */
  function FirstColumn(f: Field): seq<real>
    requires |f| >= 1
  {
    f[0]
  }

  /**
   * Column i = nx-1 of a field: what a process sends to its right. A
   * reference definition for the halo contracts, not a property.
   */
  function LastColumn(f: Field): seq<real>
    requires |f| >= 1
  {
    f[|f| - 1]
  }

  /**
   * Row j = 0 of a field, T[i][0] for every i: what a process sends down.
   * A reference definition for the halo contracts; its ensures only spells
   * out the rows pointwise.
   */
  function FirstRow(f: Field, ny: int): (r: seq<real>)
    requires IsGrid(f, |f|, ny) && ny >= 1
    ensures |r| == |f| && forall i :: 0 <= i < |f| ==> r[i] == f[i][0]
  {
    seq(|f|, i requires 0 <= i < |f| => f[i][0])
  }

  /**
   * Row j = ny-1 of a field: what a process sends up. A reference
   * definition for the halo contracts; its ensures only spells out the
   * rows pointwise.
   */
  function LastRow(f: Field, ny: int): (r: seq<real>)
    requires IsGrid(f, |f|, ny) && ny >= 1
    ensures |r| == |f| && forall i :: 0 <= i < |f| ==> r[i] == f[i][ny - 1]
  {
    seq(|f|, i requires 0 <= i < |f| => f[i][ny - 1])
  }

  /** Every neighbour that exists has an nx-by-ny field in `world`. */
  ghost predicate Known(world: map<int, Field>, nb: Option<int>, nx: int, ny: int) {
    nb.Some? ==> nb.value in world && IsGrid(world[nb.value], nx, ny)
  }

  /**
   * MPI_Recv of n values from `src`: the message when there is a sender,
   * and no change to the buffer when the source is MPI_PROC_NULL.
   */
  method Recv(buf: array<real>, src: Option<int>, msg: seq<real>)
    requires src.Some? ==> |msg| == buf.Length
    modifies buf
    ensures buf[..] == if src.Some? then msg else old(buf[..])
  {
    if src.Some? {
      for k := 0 to buf.Length
        invariant buf[..k] == msg[..k]
        invariant buf[k..] == old(buf[k..])
      {
        buf[k] := msg[k];
      }
    }
    assert buf[..] == buf[..buf.Length];
  }

  /** Copy a whole buffer into another array of the same length. */
  method Unpack(dst: array<real>, src: array<real>)
    requires dst.Length == src.Length && dst != src
    modifies dst
    ensures dst[..] == src[..]
  {
    for k := 0 to dst.Length
      invariant dst[..k] == src[..k]
    {
      dst[k] := src[k];
    }
    assert dst[..] == dst[..dst.Length];
  }

  /**
   * halo_exchange_2d_x: send column 0 left and receive the right
   * neighbour's column 0 into xrightghost; then send column nx-1 right and
   * receive the left neighbour's column nx-1 into xleftghost. T is not
   * modified. Without a right (left) neighbour the ghost gets the stale
   * receive buffer.
   */
  method HaloExchangeX(rank: int, rankX: int, px: int, nx: int, ny: int, T: array2<real>,
                       xleftghost: array<real>, xrightghost: array<real>,
                       sendbufX: array<real>, recvbufX: array<real>, world: map<int, Field>)
    requires nx >= 1 && ny >= 0 && T.Length0 == nx && T.Length1 == ny
    requires xleftghost.Length == ny && xrightghost.Length == ny
    requires sendbufX.Length == ny && recvbufX.Length == ny
    requires xleftghost != xrightghost && xleftghost != sendbufX && xleftghost != recvbufX
    requires xrightghost != sendbufX && xrightghost != recvbufX && sendbufX != recvbufX
    requires Known(world, LeftNeighbour(rank, rankX), nx, ny)
    requires Known(world, RightNeighbour(rank, rankX, px), nx, ny)
    modifies xleftghost, xrightghost, sendbufX, recvbufX
    ensures var right := RightNeighbour(rank, rankX, px);
      xrightghost[..] == if right.Some? then FirstColumn(world[right.value]) else old(recvbufX[..])
    ensures var left := LeftNeighbour(rank, rankX);
      xleftghost[..] == if left.Some? then LastColumn(world[left.value]) else xrightghost[..]
    ensures recvbufX[..] == xleftghost[..]
    ensures sendbufX[..] == LastColumn(Cells(T))
  {
    var leftNb := LeftNeighbour(rank, rankX);
    var rightNb := RightNeighbour(rank, rankX, px);

    // send to left; recv from right
    for j := 0 to ny
      modifies sendbufX
      invariant forall b :: 0 <= b < j ==> sendbufX[b] == T[0, b]
    {
      sendbufX[j] := T[0, j];
    }
    Recv(recvbufX, rightNb, if rightNb.Some? then FirstColumn(world[rightNb.value]) else []);
    Unpack(xrightghost, recvbufX);

    // send to right; recv from left
    for j := 0 to ny
      modifies sendbufX
      invariant forall b :: 0 <= b < j ==> sendbufX[b] == T[nx - 1, b]
    {
      sendbufX[j] := T[nx - 1, j];
    }
    Recv(recvbufX, leftNb, if leftNb.Some? then LastColumn(world[leftNb.value]) else []);
    Unpack(xleftghost, recvbufX);
    assert sendbufX[..] == LastColumn(Cells(T));
  }

  /**
   * halo_exchange_2d_y: send row 0 down and receive the top neighbour's
   * row 0 into ytopghost; then send row ny-1 up and receive the bottom
   * neighbour's row ny-1 into ybotghost. T is not modified.
   */
  method HaloExchangeY(rank: int, rankY: int, px: int, py: int, nx: int, ny: int, T: array2<real>,
                       ybotghost: array<real>, ytopghost: array<real>,
                       sendbufY: array<real>, recvbufY: array<real>, world: map<int, Field>)
    requires nx >= 0 && ny >= 1 && T.Length0 == nx && T.Length1 == ny
    requires ybotghost.Length == nx && ytopghost.Length == nx
    requires sendbufY.Length == nx && recvbufY.Length == nx
    requires ybotghost != ytopghost && ybotghost != sendbufY && ybotghost != recvbufY
    requires ytopghost != sendbufY && ytopghost != recvbufY && sendbufY != recvbufY
    requires Known(world, BottomNeighbour(rank, rankY, px), nx, ny)
    requires Known(world, TopNeighbour(rank, rankY, px, py), nx, ny)
    modifies ybotghost, ytopghost, sendbufY, recvbufY
    ensures var top := TopNeighbour(rank, rankY, px, py);
      ytopghost[..] == if top.Some? then FirstRow(world[top.value], ny) else old(recvbufY[..])
    ensures var bot := BottomNeighbour(rank, rankY, px);
      ybotghost[..] == if bot.Some? then LastRow(world[bot.value], ny) else ytopghost[..]
    ensures recvbufY[..] == ybotghost[..]
    ensures sendbufY[..] == LastRow(Cells(T), ny)
  {
    var botNb := BottomNeighbour(rank, rankY, px);
    var topNb := TopNeighbour(rank, rankY, px, py);

    // send to bot; recv from top
    for i := 0 to nx
      modifies sendbufY
      invariant forall a :: 0 <= a < i ==> sendbufY[a] == T[a, 0]
    {
      sendbufY[i] := T[i, 0];
    }
    Recv(recvbufY, topNb, if topNb.Some? then FirstRow(world[topNb.value], ny) else []);
    Unpack(ytopghost, recvbufY);

    // send to top; recv from bot
    for i := 0 to nx
      modifies sendbufY
      invariant forall a :: 0 <= a < i ==> sendbufY[a] == T[a, ny - 1]
    {
      sendbufY[i] := T[i, ny - 1];
    }
    Recv(recvbufY, botNb, if botNb.Some? then LastRow(world[botNb.value], ny) else []);
    Unpack(ybotghost, recvbufY);
    assert sendbufY[..] == LastRow(Cells(T), ny);
  }
}
