/**
 * How main splits the global nxglob-by-nyglob grid among the px-by-py
 * processes: every process owns nxglob/px by nyglob/py points, and its
 * global index range along each axis follows from its grid coordinate.
 */
module Partition {
  import opened Common
  import Topology

  /** nx = nxglob/px (and ny = nyglob/py), C division. */
  function LocalCount(nglob: int, p: int): int
    requires p != 0
  {
    CDiv(nglob, p)
  }

  /** istglob = rank_x * (nxglob/px). */
  function StartIndex(r: int, nglob: int, p: int): int
    requires p != 0
  {
    r * CDiv(nglob, p)
  }

  /** ienglob = (rank_x+1) * (nxglob/px) - 1. */
  function EndIndex(r: int, nglob: int, p: int): int
    requires p != 0
  {
    (r + 1) * CDiv(nglob, p) - 1
  }

  /**
   * What one process knows about its piece of the global grid: the local
   * point counts, the global point counts, and the global index of its
   * first and last point along x (istglob, ienglob) and y (jstglob, jenglob).
   */
  datatype Subdomain = Subdomain(nx: int, ny: int, nxglob: int, nyglob: int,
                                 istglob: int, ienglob: int, jstglob: int, jenglob: int)

  /**
   * The subdomain main sets up for process (rank_x, rank_y); every range
   * holds exactly the local count of points.
   */
  function LocalSubdomain(rankX: int, rankY: int, nxglob: int, nyglob: int, px: int, py: int): (s: Subdomain)
    requires px != 0 && py != 0
    ensures s.ienglob - s.istglob + 1 == s.nx
    ensures s.jenglob - s.jstglob + 1 == s.ny
    ensures s.nxglob == nxglob && s.nyglob == nyglob
  {
    Subdomain(LocalCount(nxglob, px), LocalCount(nyglob, py), nxglob, nyglob,
              StartIndex(rankX, nxglob, px), EndIndex(rankX, nxglob, px),
              StartIndex(rankY, nyglob, py), EndIndex(rankY, nyglob, py))
  }

  /** The subdomain of the process with the given linear rank. */
  function RankSubdomain(rank: int, nxglob: int, nyglob: int, px: int, py: int): Subdomain
    requires px != 0 && py != 0
  {
    var (rx, ry) := Topology.ProcessorGridRanks(rank, px);
    LocalSubdomain(rx, ry, nxglob, nyglob, px, py)
  }

  /**
   * Consecutive processes along an axis own adjacent ranges: the first
   * starts at 0, each range is one local count long, and each ends just
   * before the next one starts.
   */
  lemma RangesAdjacent(r: int, nglob: int, p: int)
    requires p != 0
    ensures StartIndex(0, nglob, p) == 0
    ensures EndIndex(r, nglob, p) - StartIndex(r, nglob, p) + 1 == LocalCount(nglob, p)
    ensures EndIndex(r, nglob, p) + 1 == StartIndex(r + 1, nglob, p)
  {
  }

  /** When p divides nglob, the last process's range ends at nglob - 1. */
  lemma LastRangeEndsAtGlobalEnd(nglob: int, p: int)
    requires p > 0 && nglob >= 0 && nglob % p == 0
    ensures EndIndex(p - 1, nglob, p) == nglob - 1
  {
    assert nglob == nglob / p * p + nglob % p;
  }

  /** Every range of a process 0 <= r < p lies inside [0, nglob). */
  lemma RangeInsideDomain(r: int, nglob: int, p: int)
    requires p > 0 && nglob >= 0 && 0 <= r < p
    ensures 0 <= StartIndex(r, nglob, p)
    ensures EndIndex(r, nglob, p) <= nglob - 1
  {
    var n := nglob / p;
    Topology.MulMonotone(r + 1, p, n);
    assert p * n <= nglob;
  }

  /**
   * The ranges tile [0, nglob) when p divides nglob: every global index g
   * belongs to the range of process g / n, and to no other process's range.
   */
  lemma {:induction false} RangesTile(nglob: int, p: int, g: int)
    requires p > 0 && nglob >= 0 && nglob % p == 0
    requires 0 <= g < nglob
    ensures var n := LocalCount(nglob, p);
      && n > 0
      && 0 <= g / n < p
      && StartIndex(g / n, nglob, p) <= g <= EndIndex(g / n, nglob, p)
      && forall r :: StartIndex(r, nglob, p) <= g <= EndIndex(r, nglob, p) ==> r == g / n
  {
    var n := nglob / p;
    assert nglob == n * p;
    if n <= 0 {
      assert false;
    }
    var o := g / n;
    assert g == o * n + g % n;
    if o >= p {
      Topology.MulMonotone(p, o, n);
      assert false;
    }
    forall r | StartIndex(r, nglob, p) <= g <= EndIndex(r, nglob, p)
      ensures r == o
    {
      assert r * n <= g < r * n + n;
      Topology.DivUnique(g, r, g - r * n, n);
    }
  }

  /**
   * Along one axis, when p divides nglob, process r starts at global index
   * 0 exactly when it is the first process, and ends at nglob - 1 exactly
   * when it is the last one.
   */
  lemma AxisEnds(r: int, nglob: int, p: int)
    requires 0 <= r < p && nglob > 0 && nglob % p == 0
    ensures StartIndex(r, nglob, p) == 0 <==> r == 0
    ensures EndIndex(r, nglob, p) == nglob - 1 <==> r == p - 1
  {
    var n := nglob / p;
    assert nglob == n * p;
    assert n > 0;
    if r > 0 {
      Topology.MulMonotone(1, r, n);
    }
    if r < p - 1 {
      Topology.MulMonotone(r + 1, p - 1, n);
      assert (p - 1) * n == p * n - n;
    }
  }

  /**
   * When px divides nxglob and py divides nyglob, a process has no
   * neighbour on a side (the MPI_PROC_NULL case of the halo exchange)
   * exactly when its index range on that side reaches the global boundary.
   */
  lemma MissingNeighbourOnGlobalBoundary(rank: int, nxglob: int, nyglob: int, px: int, py: int)
    requires Topology.InGrid(rank, px, py)
    requires nxglob > 0 && nyglob > 0 && nxglob % px == 0 && nyglob % py == 0
    ensures var (rx, ry) := Topology.ProcessorGridRanks(rank, px);
      var s := RankSubdomain(rank, nxglob, nyglob, px, py);
      && (Topology.LeftNeighbour(rank, rx).None? <==> s.istglob == 0)
      && (Topology.RightNeighbour(rank, rx, px).None? <==> s.ienglob == nxglob - 1)
      && (Topology.BottomNeighbour(rank, ry, px).None? <==> s.jstglob == 0)
      && (Topology.TopNeighbour(rank, ry, px, py).None? <==> s.jenglob == nyglob - 1)
  {
    var (rx, ry) := Topology.ProcessorGridRanks(rank, px);
    Topology.RanksInGrid(rank, px, py);
    AxisEnds(rx, nxglob, px);
    AxisEnds(ry, nyglob, py);
  }

  /**
   * Without the divisibility, the last process of a row has no right
   * neighbour and still does not reach the global end: with nxglob = 5 and
   * px = 2, process 1 owns global indices 2..3, and index 4 belongs to no
   * process at all.
   */
  lemma UnevenSplitLeavesGap()
    ensures var s := RankSubdomain(1, 5, 4, 2, 1);
      && Topology.InGrid(1, 2, 1)
      && Topology.ProcessorGridRanks(1, 2) == (1, 0)
      && Topology.RightNeighbour(1, 1, 2).None?
      && s.nx == 2 && s.istglob == 2 && s.ienglob == 3 && s.ienglob != s.nxglob - 1
      && forall r :: 0 <= r < 2 ==> EndIndex(r, 5, 2) < 4
  {
    assert CDiv(5, 2) == 2 && CDiv(4, 1) == 4 && CDiv(1, 2) == 0;
  }
}
