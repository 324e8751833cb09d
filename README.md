# Heat equation on a 2-D grid: distributed and serial solvers

This project models a finite-difference solver for the 2-D heat equation
u_t = k (u_xx + u_yy) on a rectangle with homogeneous Dirichlet boundary
conditions. The solver exists in two versions:

- **Distributed** (`hw5/parhc2d_skel.c`):
  - the grid is split among px-by-py processes;
  - each process owns an nx-by-ny block;
  - before every forward Euler step, each process trades boundary columns and rows with its neighbours (the halo exchange);
  - the 5-point operator is evaluated with ghost values wherever a neighbour lies across a block edge.
- **Serial** (`hw5/hc2d.c`):
  - one array holds the whole grid;
  - it has a forward (explicit) Euler step and a backward (implicit) Euler step;
  - the implicit step has three linear solvers: Jacobi, Gauss–Seidel and a single pair of ADI-style sweeps.

Temperatures are Dafny `real` numbers, so the arithmetic is exact. A 2-D C array `double **T` becomes an `array2<real>`. Every time step and every solver is proved against a pure specification function on field values (`Common.Field`), of the form `Cells(T) == F(old(Cells(T)), ...)`. The loops they are built from (the halo packing, the get_rhs edge and corner pieces, single rows of a sweep) are stated cell by cell or on 1-D sequences. Lemmas about those functions then state what the code promises.

Modules:

- `Common`: shared definitions.
  - Optional ranks, written `None` where the source passes MPI_PROC_NULL.
  - C's truncating integer division.
  - Fields as values.
  - The 5-point operator `FivePoint`.
- `Topology`: `get_processor_grid_ranks` and neighbour selection.
- `Partition`: the index arithmetic in `main` that gives each process its local counts and global start/end indices.
- `ParGrid`, `ParBoundary`, `ParStencil`, `Halo`, `ParTimestep`: the distributed `grid`, `enforce_bcs`, `get_rhs`, halo exchange and `timestep_FwdEuler`.
- `SerialGrid`, `SerialBoundary`, `SerialExplicit`: the serial `grid`, `enforce_bcs` and `timestep_FwdEuler`.
- `ErrorNorm`: `get_error_norm_2d`.
- `IterativeSolvers`: `linsolve_hc2d_jacobi` and `linsolve_hc2d_gs`.
- `Adi`: `linsolve_hc2d_gs_adi`.
- `SerialImplicit`: `timestep_BwdEuler`.
- `Consistency`: the distributed solver on a single process, compared with the serial solver.

The halo exchange is modelled by its net effect on one process:
- The neighbours' fields are a parameter `world` (a map from rank to field).
- A receive from an existing neighbour delivers that neighbour's packed column or row.
- A receive from MPI_PROC_NULL leaves the receive buffer as it was. Those stale contents are then copied into the ghost array, and the contracts say exactly which values they are.
- When px divides nxglob and py divides nyglob, a side without neighbour lies on the global boundary, so the stale ghost is never read (`ParTimestep.StaleBuffersUnread`). Otherwise it is read (see Findings).

The right and top boundary test of the distributed `enforce_bcs` is modelled as written, and the distributed time step uses it (see Findings). Each Jacobi or Gauss–Seidel sweep writes every interior cell of `Tnew` and never writes its edge cells. The sweep's result depends on the `Tnew` it started from only through those edge cells (`IterativeSolvers.SweepFrame`). The ADI sweeps have the same dependence on the old edge cells of `Tnew`, and the Findings show its effect for ADI.

## Model

| member | source | states |
|---|---|---|
| Common.CDiv | hw5/parhc2d_skel.c:316-318 | C's `int` division `nxglob/px`: for non-negative numerator and positive divisor it is the floor quotient q with q*b <= a < q*b + b |
| Topology.ProcessorGridRanks | hw5/parhc2d_skel.c:266-270 | rank == rank_y*px + rank_x, and 0 <= rank_x < px, 0 <= rank_y for rank >= 0, px > 0 |
| Topology.RanksInGrid | hw5/parhc2d_skel.c:266-270 | for 0 <= rank < px*py the grid position lies inside the px-by-py processor grid |
| Topology.RanksInverse | hw5/parhc2d_skel.c:266-270 | the position of rank rank_y*px + rank_x is (rank_x, rank_y): the rank/position map is a bijection |
| Topology.LeftNeighbour | hw5/parhc2d_skel.c:181 | MPI_PROC_NULL (None) when rank_x == 0, otherwise rank-1; its properties are proved in LeftNeighbourProperties |
| Topology.RightNeighbour | hw5/parhc2d_skel.c:184 | MPI_PROC_NULL (None) when rank_x == px-1, otherwise rank+1; its properties are proved in RightNeighbourProperties |
| Topology.BottomNeighbour | hw5/parhc2d_skel.c:218 | MPI_PROC_NULL (None) when rank_y == 0, otherwise rank-px; its properties are proved in BottomNeighbourProperties |
| Topology.TopNeighbour | hw5/parhc2d_skel.c:221 | MPI_PROC_NULL (None) when rank_y == py-1, otherwise rank+px; its properties are proved in TopNeighbourProperties |
| Topology.LeftNeighbourProperties | hw5/parhc2d_skel.c:181 | no left neighbour iff rank_x == 0; otherwise rank-1, which is in the grid at (rank_x-1, rank_y) and has this process as its right neighbour |
| Topology.RightNeighbourProperties | hw5/parhc2d_skel.c:184 | no right neighbour iff rank_x == px-1; otherwise rank+1 at (rank_x+1, rank_y), whose left neighbour is this process |
| Topology.BottomNeighbourProperties | hw5/parhc2d_skel.c:218 | no bottom neighbour iff rank_y == 0; otherwise rank-px at (rank_x, rank_y-1), whose top neighbour is this process |
| Topology.TopNeighbourProperties | hw5/parhc2d_skel.c:221 | no top neighbour iff rank_y == py-1; otherwise rank+px at (rank_x, rank_y+1), whose bottom neighbour is this process |
| Partition.LocalCount | hw5/parhc2d_skel.c:316-318 | nx = nxglob/px (ny = nyglob/py) with C division; the range lemmas below are stated in its terms |
| Partition.StartIndex | hw5/parhc2d_skel.c:376 | istglob = rank_x * (nxglob/px); the range lemmas below are stated in its terms |
| Partition.EndIndex | hw5/parhc2d_skel.c:377 | ienglob = (rank_x+1) * (nxglob/px) - 1; the range lemmas below are stated in its terms |
| Partition.LocalSubdomain | hw5/parhc2d_skel.c:376-379 | the global ranges of a process hold exactly nx (ny) points: ienglob - istglob + 1 == nx, jenglob - jstglob + 1 == ny |
| Partition.RangesAdjacent | hw5/parhc2d_skel.c:376-377 | process 0 starts at 0, every range has the local count of points, and each range ends right before the next one starts |
| Partition.LastRangeEndsAtGlobalEnd | hw5/parhc2d_skel.c:377 | when px divides nxglob the last process ends at nxglob-1 |
| Partition.RangeInsideDomain | hw5/parhc2d_skel.c:376-377 | every process's range lies inside [0, nxglob-1] |
| Partition.RangesTile | hw5/parhc2d_skel.c:376-377 | when px divides nxglob, every global index belongs to exactly one process's range |
| Partition.AxisEnds | hw5/parhc2d_skel.c:376-377 | when p divides nglob > 0, process r starts at 0 iff r == 0 and ends at nglob-1 iff r == p-1 |
| Partition.MissingNeighbourOnGlobalBoundary | hw5/parhc2d_skel.c:181-184 | on the subdomain main computes for a rank, with px dividing nxglob and py dividing nyglob: the left (right, bottom, top) neighbour is MPI_PROC_NULL iff istglob == 0 (ienglob == nxglob-1, jstglob == 0, jenglob == nyglob-1) |
| Partition.UnevenSplitLeavesGap | hw5/parhc2d_skel.c:316-318 | with nxglob = 5 and px = 2, process 1 has no right neighbour but ends at index 3, and index 4 belongs to no process |
| ParGrid.Grid | hw5/parhc2d_skel.c:6-18 | dx == (xenglob-xstglob)/(nxglob-1) and x[i] is the coordinate of global index istglob+i |
| ParGrid.GlobalCoord | hw5/parhc2d_skel.c:11-16 | the coordinate of global index iglob, xstglob + iglob*dx; GlobalCoordEnds and GlobalCoordIncreasing are stated in its terms |
| ParGrid.GlobalCoordEnds | hw5/parhc2d_skel.c:11-16 | global index 0 maps to xstglob and global index nxglob-1 maps to xenglob |
| ParGrid.GlobalCoordIncreasing | hw5/parhc2d_skel.c:11-16 | coordinates strictly increase with the global index when xenglob > xstglob |
| ParGrid.SubdomainMeshEnds | hw5/parhc2d_skel.c:6-18 | the first coordinate of process 0 is xstglob and the last coordinate of process px-1 is xenglob |
| ParBoundary.BcsApplied | hw5/parhc2d_skel.c:20-57 | the field enforce_bcs leaves: each cell is 0 where the as-written tests zero it and keeps its value elsewhere |
| ParBoundary.EnforceBcs | hw5/parhc2d_skel.c:20-57 | column 0 is zeroed iff istglob == 0, column nx-1 iff istglob == nxglob-1, row 0 iff jstglob == 0, row ny-1 iff jstglob == nyglob-1; every other cell keeps its value |
| ParBoundary.ZeroColumns | hw5/parhc2d_skel.c:24-39 | column 0 becomes 0 when istglob == 0 and column nx-1 when istglob == nxglob-1; every other cell keeps its value |
| ParBoundary.ZeroRows | hw5/parhc2d_skel.c:41-56 | row 0 becomes 0 when jstglob == 0 and row ny-1 when jstglob == nyglob-1; every other cell keeps its value |
| ParBoundary.BcsIdempotent | hw5/parhc2d_skel.c:20-57 | applying enforce_bcs twice gives the same field as applying it once |
| ParBoundary.BcsKeepsInterior | hw5/parhc2d_skel.c:20-57 | no interior cell is ever changed |
| ParBoundary.EnforceBcsSkipsFarEnds | hw5/parhc2d_skel.c:33-56 | with at least two local points per axis the right and top tests never hold, although the last process's end index is the global end |
| ParBoundary.EnforceBcsSingleProcessExample | hw5/parhc2d_skel.c:33-56 | on a single 3-by-3 process, cells (2,1) and (1,2) lie on the global boundary but are not zeroed |
| ParBoundary.GlobalBoundaryExact | hw5/parhc2d_skel.c:90-165 | get_rhs's boundary test holds of a local cell exactly when its global index is first or last along x or y |
| ParStencil.RhsField | hw5/parhc2d_skel.c:77-171 | the rhs field has every cell equal to RhsAt: 0 on the global boundary, otherwise the 5-point operator with a ghost value for each neighbour across a block edge |
| ParStencil.RhsInterior | hw5/parhc2d_skel.c:82-86 | the interior loop writes the 5-point formula on local values to every interior cell and nothing else |
| ParStencil.RhsLeftEdge | hw5/parhc2d_skel.c:88-96 | column 0 (rows 1..ny-2) gets 0 when istglob == 0, else the formula with xleftghost[j]; nothing else changes |
| ParStencil.RhsRightEdge | hw5/parhc2d_skel.c:98-109 | column nx-1 gets 0 when ienglob == nxglob-1, else the formula with xrightghost[j]; nothing else changes |
| ParStencil.RhsBottomEdge | hw5/parhc2d_skel.c:112-123 | row 0 gets 0 when jstglob == 0, else the formula with ybotghost[i]; nothing else changes |
| ParStencil.RhsTopEdge | hw5/parhc2d_skel.c:125-136 | row ny-1 gets 0 when jenglob == nyglob-1, else the formula with ytopghost[i]; nothing else changes |
| ParStencil.RhsEdges | hw5/parhc2d_skel.c:88-136 | after the four edge loops every non-corner edge cell holds its RhsAt value, and no other cell changed |
| ParStencil.RhsBottomLeft | hw5/parhc2d_skel.c:138-144 | cell (0,0) gets 0 when istglob == 0 or jstglob == 0, else the formula with xleftghost[0] and ybotghost[0]; no other cell changes |
| ParStencil.RhsBottomRight | hw5/parhc2d_skel.c:146-152 | cell (nx-1,0) gets 0 when ienglob == nxglob-1 or jstglob == 0, else the formula with xrightghost[0] and ybotghost[nx-1]; no other cell changes |
| ParStencil.RhsTopLeft | hw5/parhc2d_skel.c:155-161 | cell (0,ny-1) gets 0 when istglob == 0 or jenglob == nyglob-1, else the formula with xleftghost[ny-1] and ytopghost[0]; no other cell changes |
| ParStencil.RhsTopRight | hw5/parhc2d_skel.c:163-169 | cell (nx-1,ny-1) gets 0 when ienglob == nxglob-1 or jenglob == nyglob-1, else the formula with xrightghost[ny-1] and ytopghost[nx-1]; no other cell changes |
| ParStencil.RhsCorners | hw5/parhc2d_skel.c:138-169 | each corner is 0 when either of its sides is on the global boundary, otherwise the formula with two ghost values; no other cell changes |
| ParStencil.GetRhs | hw5/parhc2d_skel.c:77-171 | after the nine cases every cell of rhs (nx, ny >= 2) equals RhsField of T and the ghosts |
| ParStencil.RhsInteriorIgnoresGhosts | hw5/parhc2d_skel.c:83-86 | interior cells do not depend on any ghost array |
| ParStencil.GhostsUnreadOnGlobalBoundary | hw5/parhc2d_skel.c:88-169 | a ghost array on a side lying on the global boundary is never read: changing it leaves rhs unchanged |
| Halo.FirstColumn | hw5/parhc2d_skel.c:188-189 | the column a process packs for its left neighbour, T[0][j]; the reference in HaloExchangeX's contract |
| Halo.LastColumn | hw5/parhc2d_skel.c:200-201 | the column a process packs for its right neighbour, T[nx-1][j]; sendbufX is proved to hold it |
| Halo.FirstRow | hw5/parhc2d_skel.c:225-226 | the packed row holds T[i][0] for every i |
| Halo.LastRow | hw5/parhc2d_skel.c:236-237 | the packed row holds T[i][ny-1] for every i |
| Halo.Recv | hw5/parhc2d_skel.c:191 | the buffer receives the message from an existing sender and is unchanged for MPI_PROC_NULL |
| Halo.Unpack | hw5/parhc2d_skel.c:195-196 | the ghost array becomes a copy of the receive buffer |
| Halo.HaloExchangeX | hw5/parhc2d_skel.c:173-208 | xrightghost is the right neighbour's column 0 and xleftghost the left neighbour's column nx-1 (stale buffer contents where there is no neighbour); T is not modified |
| Halo.HaloExchangeY | hw5/parhc2d_skel.c:210-244 | ytopghost is the top neighbour's row 0 and ybotghost the bottom neighbour's row ny-1 (stale buffer contents where there is no neighbour); T is not modified |
| ParTimestep.EulerUpdate | hw5/parhc2d_skel.c:257-260 | every local cell becomes old T + dt*rhs |
| ParTimestep.TimestepFwdEuler | hw5/parhc2d_skel.c:247-264 | the ghosts are HaloGhosts of the receive buffers' old contents; rhs is computed from the T the step started with; the new T is old T + dt*rhs with enforce_bcs applied |
| ParTimestep.HaloGhosts | hw5/parhc2d_skel.c:173-244 | the ghosts both halo exchanges leave: a neighbour's boundary column or row, the stale receive buffer without a right (top) neighbour, and a copy of the right (top) ghost without a left (bottom) neighbour; each has the local length |
| ParTimestep.FwdEulerStep | hw5/parhc2d_skel.c:247-264 | the field one step produces: 0 where enforce_bcs zeroes, otherwise the old value plus dt times get_rhs's value at that cell |
| ParTimestep.StaleBuffersUnread | hw5/parhc2d_skel.c:247-264 | on the subdomain main computes, with px dividing nxglob and py dividing nyglob, the rhs and the new T of a step are the same whatever the receive buffers held before it |
| ParTimestep.UnevenSplitReadsStaleBuffer | hw5/parhc2d_skel.c:98-109 | with nxglob = 5 and px = 2, get_rhs at local cell (1,1) of process 1 equals the stale x receive buffer's entry 1 |
| SerialGrid.Grid | hw5/hc2d.c:6-14 | dx == (xen-xst)/(nx-1) and x[i] == i*dx for every i |
| SerialGrid.SerialIsShiftedGlobal | hw5/hc2d.c:6-14 | the serial coordinates are the distributed global coordinates shifted by -xst |
| SerialGrid.SerialGridEnds | hw5/hc2d.c:10-13 | x[0] == 0 whatever xst is, x[nx-1] == xen - xst, and x[nx-1] == 1.0 exactly when xen - xst == 1 |
| SerialBoundary.EdgesZeroed | hw5/hc2d.c:16-31 | every edge cell is 0 and every other cell keeps its value |
| SerialBoundary.EnforceBcs | hw5/hc2d.c:16-31 | zeroes rows 0 and nx-1 and columns 0 and ny-1 unconditionally, leaving the rest |
| SerialBoundary.EdgesZeroedIdempotent | hw5/hc2d.c:16-31 | enforce_bcs is idempotent |
| SerialBoundary.EdgesZeroedFixes | hw5/hc2d.c:16-31 | a field whose edges are already 0 is unchanged |
| SerialExplicit.ExplicitRhs | hw5/hc2d.c:55-58 | rhs holds the 5-point operator of T at interior cells and its old values on edges |
| SerialExplicit.InteriorAdvanced | hw5/hc2d.c:60-62 | interior cells advance by dt*rhs, edge cells keep their values |
| SerialExplicit.ComputeRhs | hw5/hc2d.c:55-58 | the rhs loop writes the operator of the current T to every interior cell |
| SerialExplicit.AdvanceInterior | hw5/hc2d.c:60-62 | the update loop advances every interior cell of T by dt*rhs |
| SerialExplicit.TimestepFwdEuler | hw5/hc2d.c:49-67 | rhs is computed from the old T before any update; the new T is old + dt*Laplacian(old) inside and 0 on every edge |
| SerialExplicit.ExplicitStepSplits | hw5/hc2d.c:49-67 | computing rhs first, advancing the interior, then zeroing the edges is the one-formula explicit step |
| ErrorNorm.ErrorNormSquared | hw5/hc2d.c:69-82 | the accumulated value is the row-major sum of squared differences over all nx*ny cells, divided by nx*ny |
| ErrorNorm.RowSquaresZero | hw5/hc2d.c:74-78 | a row's sum of squares is >= 0 and is 0 exactly when the rows agree |
| ErrorNorm.SumSquaresZero | hw5/hc2d.c:74-78 | the sum of squares is >= 0 and is 0 exactly when the fields agree |
| ErrorNorm.RowSquaresSymmetric | hw5/hc2d.c:74-78 | a row's sum of squares is symmetric in its two arguments |
| ErrorNorm.SumSquaresSymmetric | hw5/hc2d.c:74-78 | the sum of squares is symmetric in its two arguments |
| ErrorNorm.MeanSquareProperties | hw5/hc2d.c:69-82 | the mean square is symmetric, non-negative, and 0 exactly when the two arrays are equal |
| IterativeSolvers.JacobiSweep | hw5/hc2d.c:158-160 | edge cells of Tnew keep their values; the interior comes from T and rhs |
| IterativeSolvers.JacobiSweepLoop | hw5/hc2d.c:158-160 | the Jacobi loop leaves Tnew equal to JacobiSweep of T, the old Tnew and rhs |
| IterativeSolvers.JacobiRow | hw5/hc2d.c:159-160 | the inner loop writes the Jacobi update of T to every interior cell of row i and changes nothing else |
| IterativeSolvers.GsSweep | hw5/hc2d.c:130-132 | every cell of the sweep is GsValue: edges from the old Tnew, interior from the new west/south values and the old east/north values |
| IterativeSolvers.GsSweepLoop | hw5/hc2d.c:130-132 | the in-place row-major loop leaves Tnew equal to GsSweep |
| IterativeSolvers.GsSweepSatisfies | hw5/hc2d.c:130-132 | GsSweep satisfies the in-place equations: each interior cell uses Tnew[i-1][j], Tnew[i][j-1] from the sweep and T[i+1][j], T[i][j+1] |
| IterativeSolvers.GsEquationsUnique | hw5/hc2d.c:130-132 | any field satisfying those equations is GsSweep: the row-major sweep is determined by T, Tnew's edges and rhs |
| IterativeSolvers.RelaxFixedPoint | hw5/hc2d.c:153-160 | a value equals its update iff it satisfies its implicit equation denom*T - rx*(west+east) - ry*(south+north) == rhs |
| IterativeSolvers.JacobiFixedPoints | hw5/hc2d.c:147-174 | a field is unchanged by a Jacobi sweep iff it solves the implicit system |
| IterativeSolvers.GsFixedPoints | hw5/hc2d.c:119-145 | a field satisfies the Gauss–Seidel equations with itself iff it solves the implicit system |
| IterativeSolvers.SweepFrame | hw5/hc2d.c:130-160 | neither sweep writes an edge cell of Tnew, and each depends on Tnew only through its edge cells |
| IterativeSolvers.IterateState | hw5/hc2d.c:127-143 | after n >= 1 sweep-and-copy iterations T and Tnew are equal |
| IterativeSolvers.CopyInto | hw5/hc2d.c:139-141 | the copy loop makes T equal to Tnew everywhere |
| IterativeSolvers.SolverOutcome | hw5/hc2d.c:147-174 | the state a solver returns in: no earlier iteration converged; on a break T is the last iterate and Tnew its sweep, below tolerance; after 1000 iterations both hold the 1000th iterate; LinsolveJacobi and LinsolveGs are stated in its terms |
| IterativeSolvers.LinsolveJacobi | hw5/hc2d.c:147-174 | at most 1000 iterations; no earlier iteration passed the test; on a break at k < 1000, T is the k-th iterate, Tnew its sweep, and the mean square is below tol^2; otherwise both hold the 1000th iterate |
| IterativeSolvers.LinsolveGs | hw5/hc2d.c:119-145 | the same outcome with the Gauss–Seidel sweep |
| IterativeSolvers.StationarySolves | hw5/hc2d.c:119-174 | a field that a sweep leaves unchanged, whatever Tnew held, solves the implicit system |
| IterativeSolvers.SweepFixedPoints | hw5/hc2d.c:119-174 | for both schemes, a sweep with T = Tnew = t returns t iff t solves the implicit system |
| IterativeSolvers.ExactStopSolves | hw5/hc2d.c:162-164 | a solver that stops with mean square 0 leaves T == Tnew, and T solves the implicit system |
| IterativeSolvers.SolutionStopsAtOnce | hw5/hc2d.c:127-136 | started from a solution with Tnew = T, either solver stops at iteration 0 with T unchanged |
| Adi.XSweep | hw5/hc2d.c:97-101 | edge cells keep Tnew's values; interior cells are the weighted average of T along x |
| Adi.YSweep | hw5/hc2d.c:104-108 | edge cells keep T's values; interior cells are the weighted average of Tnew along y |
| Adi.XSweepLoop | hw5/hc2d.c:97-101 | the x loop writes XSweep of the old T into Tnew, reading only T |
| Adi.YSweepLoop | hw5/hc2d.c:104-108 | the y loop writes YSweep of Tnew into T, reading only Tnew |
| Adi.AdiSweeps | hw5/hc2d.c:95-109 | one x-sweep into Tnew and then one y-sweep into T, with no loop; rhs is never read; T's edge cells are unchanged |
| Adi.AdiUpdateBounded | hw5/hc2d.c:99-106 | for r >= 0 each update lies between the minimum and maximum of its three inputs |
| Adi.XSweepWithin | hw5/hc2d.c:97-101 | the x-sweep keeps values within bounds that T and Tnew satisfy |
| Adi.YSweepWithin | hw5/hc2d.c:104-108 | the y-sweep keeps values within bounds that Tnew and T satisfy |
| Adi.AdiMaximumPrinciple | hw5/hc2d.c:95-109 | if T and Tnew start within [lo, hi] and rx, ry >= 0, the new T lies within [lo, hi] |
| Adi.XSweepReadsOnlyEdges | hw5/hc2d.c:97-101 | the x-sweep depends on the old Tnew only at its edge cells |
| Adi.AdiReadsUnwrittenTnew | hw5/hc2d.c:104-108 | on a 3-by-3 grid with T = 0 and ry = 1, a single non-zero edge cell of Tnew changes the new T[1][1] from 0 to 1/3 |
| Adi.AdiFromT | hw5/hc2d.c:95-109 | the sweeps with Tnew's edges at the boundary value 0, as a field determined by T |
| Adi.AdiSweepsZeroEdges | hw5/hc2d.c:95-109 | after zeroing Tnew's edges first, the new T is a function of the old T alone |
| Adi.AdiFromTMaximumPrinciple | hw5/hc2d.c:95-109 | the corrected sweeps keep T within any [lo, hi] that contains 0 |
| SerialImplicit.DiffusionNumber | hw5/hc2d.c:183-184 | rx = kdiff*dt/(dx*dx) is non-negative whenever kdiff*dt is |
| SerialImplicit.SetImplicitRhs | hw5/hc2d.c:186-203 | rhs equals T at interior cells and 0 on every edge |
| SerialImplicit.TimestepBwdEuler | hw5/hc2d.c:176-214 | rhs is T with zero edges; Tnew is the x-sweep of T; the new T is the y-sweep with every edge cell 0 |
| SerialImplicit.EdgesZeroedWithin | hw5/hc2d.c:212 | zeroing edges keeps a field within any bounds that contain 0 |
| SerialImplicit.BwdEulerMaximumPrinciple | hw5/hc2d.c:176-214 | with kdiff*dt >= 0, a step keeps T within [lo, hi] (0 in [lo, hi]) and leaves every edge cell 0 |
| Consistency.WholeGrid | hw5/parhc2d_skel.c:316-318 | with px = py = 1 the single process owns the whole grid: counts nxglob, nyglob and ranges from 0 to nxglob-1, nyglob-1 |
| Consistency.WholeGridBoundaryIsEdge | hw5/parhc2d_skel.c:90-165 | on a single process, get_rhs's boundary test coincides with the serial edge test |
| Consistency.WholeGridRhsMatchesSerial | hw5/parhc2d_skel.c:77-171 | on a single process get_rhs is the serial 5-point operator inside and 0 on edges, whatever the ghosts hold |
| Consistency.BcsCorrected | hw5/parhc2d_skel.c:20-57 | the boundary conditions with the end-index test: every global-boundary cell is 0, every other cell kept |
| Consistency.CorrectedStepMatchesSerial | hw5/parhc2d_skel.c:247-264 | with the corrected test, one distributed forward Euler step on a single process equals the serial explicit step |
| Consistency.AsWrittenStepKeepsRightEdge | hw5/parhc2d_skel.c:33-39 | as written, a single 3-by-3 process keeps a value 1 on its right edge, where the serial step puts 0 |

## Left out

- MPI itself is not modelled: the ordering of MPI_Recv/MPI_Send, deadlock freedom, MPI_Init/MPI_Finalize and MPI_Bcast. The halo exchange is its sequential net copy, with the neighbours' fields passed in.
- Floating point is not modelled. All arithmetic is exact `real`, with no IEEE rounding, infinities or NaN.
- `set_initial_condition` (both files) is left out because it uses `tanh`.
- `main` is left out in both files, apart from the partition arithmetic:
  - reading the input file;
  - the broadcast unpacking, including `t_print = sendarr_dbl[4]` at hw5/parhc2d_skel.c:370;
  - the px*py != size exit;
  - the choice of dt and the time loop.
- Output, timing and reporting are left out: `output_soln`, file snapshots, `clock`, `MPI_Wtime` and `printf`.
- Two commented-out pieces are left out: the red-black Gauss–Seidel stub (hw5/hc2d.c:110-117) and the disabled implicit call in the distributed driver (hw5/parhc2d_skel.c:459).
- Whether Jacobi or Gauss–Seidel actually reaches the tolerance is not claimed. Nor is the stability of the explicit scheme. Neither follows from the code.
- C `int` overflow is not modelled (rank_x*(nxglob/px), nx*ny); indices are unbounded integers.
- The arrays are assumed distinct. The source allocates each one separately.
- Preconditions where the C code would divide by zero or index out of range:
  - dx, dy != 0;
  - nxglob != 1 for `grid`;
  - nx, ny >= 2 for `get_rhs`;
  - nx, ny >= 1 for `enforce_bcs`;
  - nx, ny > 0 for `get_error_norm_2d` and both iterative solvers, which divide by nx*ny (hw5/hc2d.c:80);
  - 1 + 2rx + 2ry != 0 for Jacobi/Gauss–Seidel, and 1 + 2rx != 0, 1 + 2ry != 0 for ADI.
- ErrorNorm.ErrorNormSquared: returns the mean square, not its square root, because `sqrt` is not available on `real`. Both solvers therefore compare the mean square with tol*tol. For a non-negative mean square and tol > 0 this is the same test as the source's comparison of the root with tol.
- IterativeSolvers.LinsolveJacobi: returns the iteration count and the last mean square instead of printing them. The Jacobi version does not print in the source.
- IterativeSolvers.LinsolveGs: returns the iteration count and the last mean square instead of printing them.

## Findings

| source | as written | input that shows it | evidently intended | confidence | as-written member | corrected member |
|---|---|---|---|---|---|---|
| hw5/parhc2d_skel.c:33-56 | `enforce_bcs` zeroes column nx-1 when `istglob == nxglob - 1` and row ny-1 when `jstglob == nyglob - 1`, testing the START index of the far edges | px = py = 1 with a 3-by-3 grid: istglob = 0 != 2, so cell (2,1) on the global boundary is never zeroed; the step leaves a 1 there where the serial step gives 0. With two or more local points per axis the test never holds for any process | test the end indices `ienglob == nxglob - 1` and `jenglob == nyglob - 1`, as `get_rhs` does at lines 100 and 127 | not executed | ParBoundary.EnforceBcsSkipsFarEnds | Consistency.CorrectedStepMatchesSerial |
| hw5/parhc2d_skel.c:316-318 | `main` sets nx = nxglob/px and ny = nyglob/py and checks only px*py == size (line 329), not that px divides nxglob or py divides nyglob. The last process of a row then has no right neighbour but ends at index px*(nxglob/px) - 1 < nxglob - 1. So `get_rhs` (lines 98-109) treats its last column as interior and reads `xrightghost`, copied from `recvbuf_x`, which the MPI_PROC_NULL receive never writes (allocated at line 402) | nxglob = 5, px = 2: process 1 owns indices 2..3, index 4 belongs to no process, and rhs at local cell (1,1) equals whatever the receive buffer held | reject such inputs as the px*py check does: with px dividing nxglob and py dividing nyglob the ranges tile the grid and a stale receive buffer is never read | not executed | ParTimestep.UnevenSplitReadsStaleBuffer | ParTimestep.StaleBuffersUnread |
| hw5/hc2d.c:104-108 | the y-sweep at j = 1 and j = ny-2 reads `Tnew[i][0]` and `Tnew[i][ny-1]`; neither sweep writes them. The defect is latent: neither driver calls `timestep_BwdEuler` (serial `main` calls only `timestep_FwdEuler` at hw5/hc2d.c:293, and the distributed call at hw5/parhc2d_skel.c:459 is commented out). It shows for a caller of `timestep_BwdEuler` or `linsolve_hc2d_gs_adi` whose `Tnew` edges are not initialised, such as a `Tnew` obtained with `malloc` as at hw5/hc2d.c:268-270 | 3-by-3 grid, T all 0, ry = 1, Tnew[1][0] = 1 left over in memory: the new T[1][1] is 1/3 instead of 0 | Tnew's edge cells hold the boundary value 0 before the sweeps, so the result depends on T alone | not executed | Adi.AdiReadsUnwrittenTnew | Adi.AdiSweepsZeroEdges |

The distributed time step keeps the boundary test as written. `Consistency.BcsCorrected` is the corrected boundary function. `Consistency.CorrectedStepMatchesSerial` proves that with it, a single-process distributed step equals the serial step.

The backward Euler step keeps the ADI sweeps as written. `Adi.AdiSweepsZeroEdges` is the corrected step, and `Adi.AdiFromTMaximumPrinciple` proves the maximum principle for it.
