/**
 * The px-by-py process grid: a linear rank becomes (rank_x, rank_y), and
 * each process finds its four neighbours, or none on the domain boundary.
 */
module Topology {
  import opened Common

  /**
   * get_processor_grid_ranks: rank_y = rank / px (C division), then
   * rank_x = rank - rank_y * px. The result is (rank_x, rank_y).
   */
  function ProcessorGridRanks(rank: int, px: int): (r: (int, int))
    requires px != 0
    ensures rank == r.1 * px + r.0
    ensures px > 0 && rank >= 0 ==> 0 <= r.0 < px && 0 <= r.1
  {
    var rankY := CDiv(rank, px);
    (rank - rankY * px, rankY)
  }

  /** With px*py processes, every rank's row lies in [0, py). */
  lemma RanksInGrid(rank: int, px: int, py: int)
    requires px > 0 && py > 0 && 0 <= rank < px * py
    ensures 0 <= ProcessorGridRanks(rank, px).0 < px
    ensures 0 <= ProcessorGridRanks(rank, px).1 < py
  {
    var (rx, ry) := ProcessorGridRanks(rank, px);
    if ry >= py {
      assert ry * px >= py * px by { MulMonotone(py, ry, px); }
      assert false;
    }
  }

  /** Each (rank_x, rank_y) inside the grid is reached from exactly one rank. */
  lemma RanksInverse(rankX: int, rankY: int, px: int)
    requires px > 0 && 0 <= rankX < px && 0 <= rankY
    ensures ProcessorGridRanks(rankY * px + rankX, px) == (rankX, rankY)
  {
    DivUnique(rankY * px + rankX, rankY, rankX, px);
  }

  lemma MulMonotone(a: int, b: int, n: int)
    requires a <= b && n >= 0
    ensures a * n <= b * n
  {
  }

  lemma DivUnique(a: int, q: int, r: int, p: int)
    requires p > 0 && 0 <= r < p && a == q * p + r
    ensures a / p == q
  {
    var q' := a / p;
    assert a == q' * p + a % p;
    if q' < q {
      MulMonotone(q' + 1, q, p);
    } else if q' > q {
      MulMonotone(q + 1, q', p);
    }
  }

  /** halo_exchange_2d_x: left_nb = (rank_x == 0) ? MPI_PROC_NULL : rank - 1. */
  function LeftNeighbour(rank: int, rankX: int): Option<int> {
    if rankX == 0 then None else Some(rank - 1)
  }

  /** halo_exchange_2d_x: right_nb = (rank_x == px - 1) ? MPI_PROC_NULL : rank + 1. */
  function RightNeighbour(rank: int, rankX: int, px: int): Option<int> {
    if rankX == px - 1 then None else Some(rank + 1)
  }

  /** halo_exchange_2d_y: bot_nb = (rank_y == 0) ? MPI_PROC_NULL : rank - px. */
  function BottomNeighbour(rank: int, rankY: int, px: int): Option<int> {
    if rankY == 0 then None else Some(rank - px)
  }

  /** halo_exchange_2d_y: top_nb = (rank_y == py - 1) ? MPI_PROC_NULL : rank + px. */
  function TopNeighbour(rank: int, rankY: int, px: int, py: int): Option<int> {
    if rankY == py - 1 then None else Some(rank + px)
  }

  /** A rank of the px-by-py grid, with its coordinates as the source derives them. */
  ghost predicate InGrid(rank: int, px: int, py: int) {
    px > 0 && py > 0 && 0 <= rank < px * py
  }

  /**
   * The left neighbour is missing exactly on the first column; otherwise it
   * is one column to the left in the same row, and its right neighbour is
   * this process again.
   */
  lemma LeftNeighbourProperties(rank: int, px: int, py: int)
    requires InGrid(rank, px, py)
    ensures var (rx, ry) := ProcessorGridRanks(rank, px);
      var l := LeftNeighbour(rank, rx);
      && (l.None? <==> rx == 0)
      && (l.Some? ==>
           InGrid(l.value, px, py) &&
           ProcessorGridRanks(l.value, px) == (rx - 1, ry) &&
           RightNeighbour(l.value, rx - 1, px) == Some(rank))
  {
    var (rx, ry) := ProcessorGridRanks(rank, px);
    RanksInGrid(rank, px, py);
    if rx != 0 {
      RanksInverse(rx - 1, ry, px);
    }
  }

  /**
   * The right neighbour is missing exactly on the last column; otherwise it
   * is one column to the right in the same row, and its left neighbour is
   * this process again.
   */
  lemma RightNeighbourProperties(rank: int, px: int, py: int)
    requires InGrid(rank, px, py)
    ensures var (rx, ry) := ProcessorGridRanks(rank, px);
      var r := RightNeighbour(rank, rx, px);
      && (r.None? <==> rx == px - 1)
      && (r.Some? ==>
           InGrid(r.value, px, py) &&
           ProcessorGridRanks(r.value, px) == (rx + 1, ry) &&
           LeftNeighbour(r.value, rx + 1) == Some(rank))
  {
    var (rx, ry) := ProcessorGridRanks(rank, px);
    RanksInGrid(rank, px, py);
    if rx != px - 1 {
      RanksInverse(rx + 1, ry, px);
      MulMonotone(ry + 1, py, px);
    }
  }

  /**
   * The bottom neighbour is missing exactly on the first row; otherwise it
   * is rank - px, in the same column one row down, and its top neighbour
   * is this process again.
   */
  lemma BottomNeighbourProperties(rank: int, px: int, py: int)
    requires InGrid(rank, px, py)
    ensures var (rx, ry) := ProcessorGridRanks(rank, px);
      var b := BottomNeighbour(rank, ry, px);
      && (b.None? <==> ry == 0)
      && (b.Some? ==>
           InGrid(b.value, px, py) &&
           ProcessorGridRanks(b.value, px) == (rx, ry - 1) &&
           TopNeighbour(b.value, ry - 1, px, py) == Some(rank))
  {
    var (rx, ry) := ProcessorGridRanks(rank, px);
    RanksInGrid(rank, px, py);
    if ry != 0 {
      assert rank - px == (ry - 1) * px + rx;
      RanksInverse(rx, ry - 1, px);
    }
  }

  /**
   * The top neighbour is missing exactly on the last row; otherwise it is
   * rank + px, in the same column one row up, still inside the grid, and
   * its bottom neighbour is this process again.
   */
  lemma TopNeighbourProperties(rank: int, px: int, py: int)
    requires InGrid(rank, px, py)
    ensures var (rx, ry) := ProcessorGridRanks(rank, px);
      var t := TopNeighbour(rank, ry, px, py);
      && (t.None? <==> ry == py - 1)
      && (t.Some? ==>
           InGrid(t.value, px, py) &&
           ProcessorGridRanks(t.value, px) == (rx, ry + 1) &&
           BottomNeighbour(t.value, ry + 1, px) == Some(rank))
  {
    var (rx, ry) := ProcessorGridRanks(rank, px);
    RanksInGrid(rank, px, py);
    if ry != py - 1 {
      assert rank + px == (ry + 1) * px + rx;
      RanksInverse(rx, ry + 1, px);
      assert (ry + 1) * px + rx < py * px by { MulMonotone(ry + 2, py, px); }
    }
  }
}
