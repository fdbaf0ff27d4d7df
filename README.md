# Gauss–Seidel relaxation of a Dirichlet grid, serial and MPI

This project is a Dafny model of a textbook Gauss–Seidel solver. The solver
relaxes an `Size` x `Size` grid whose boundary cells are fixed. The program
is written twice: once serially (`SerialGS.cpp`) and once as an MPI program
(`ParallelGS.cpp`) that splits the grid into horizontal stripes, one per
process.

The model covers the sequential, index-heavy parts of both programs:

- **Partition** (`partition.dfy`). These are the row-count and offset tables
  that `DataDistribution` and `ResultCollection` build, and the
  different per-rank row count of `ProcessInitialization` and
  `ProcessTestInitialization`. C++ integer division, which truncates toward
  zero, is written out as `CDiv`.
- **Sweep** (`sweep.dfy`). This is one in-place Gauss–Seidel sweep over a
  flat row-major `array<real>` (`IterationCalculation`). It is specified
  cell by cell in loop order (`SweepGrid`) and declaratively
  (`IsGaussSeidelSweep`, `IsMaxChange`), and the two are proved to agree.
  The serial loops of `SerialResultCalculation` and `ResultCalculation` are
  the same code with `RowNum = Size`, so they call the same method.
- **Halo** (`halo.dfy`). This file holds the halo exchange `ExchangeData`,
  run by all processes in lockstep, as a function on the sequence of all
  stripes. It also holds the `MPI_Scatterv` of `DataDistribution` and the
  `MPI_Gatherv` of `ResultCollection`, as row copies.
- **ParallelGS** (`parallel_gs.dfy`). This is the lockstep driver
  `ParallelResultCalculation`: exchange, then one sweep per process, then
  the `MPI_Allreduce` maximum. It also holds the single-process equivalence
  with the serial solver, `CopyData` and the comparison of `TestResult`.
- **SerialGS** (`serial_gs.dfy`). This is the serial `ResultCalculation`
  loop and `DummyDataInitialization`.
- **Grid** (`grid.dfy`). These are helpers for row-major addressing: cells,
  rows, and a buffer seen as its sequence of rows.

Grid values are `real`, so floating-point rounding is not modelled. The
properties proved are about frames, ordering and maxima, and they do not
depend on rounding. The `do … while` loops run at most `fuel` turns. The MPI
collectives are modelled as sequential data movement over all processes at
once.

`DummyDataInitialization` is the same code in `ParallelGS.cpp:100-112` and
`SerialGS.cpp:43-54`, so it is modelled once. The same holds for the sweep
loop of `SerialResultCalculation` (`ParallelGS.cpp:288-302`), which is
`ResultCalculation` of `SerialGS.cpp:11-24` verbatim.

In `test()` the stripe row count that `ProcessTestInitialization` computes
is the one the iteration uses. `RowNum` is passed by value, so
`DataDistribution` does not change it. The driver and exchange models are
therefore stated for any list of stripe row counts of at least two rows.

## Model

| member | source | states |
|---|---|---|
| `Partition.DataDistributionLayout` | ParallelGS.cpp:21-31 | The table loop fills `pSendNum[i]` with `RowNum(i) * Size` and `pSendInd[i]` with the running offset, for every rank `i` in `0 .. ProcNum-1`. |
| `Partition.ResultCollectionLayout` | ParallelGS.cpp:260-270 | The gather table loop builds the same counts and offsets as `DataDistributionLayout`, for every `(Size, ProcNum)`. |
| `Partition.CDivRemainder` | ParallelGS.cpp:22 | C++ `/` truncates toward zero: the remainder has the dividend's sign, and for a non-negative dividend it agrees with Dafny's `/`. |
| `Partition.RowNumBounds` | ParallelGS.cpp:22-31 | With `Size >= ProcNum + 1`, every block gets between 2 and all of the remaining rows, and at least one row per later block plus one is left. |
| `Partition.LastBlockEndsAtSize` | ParallelGS.cpp:26-31 | The last block takes all remaining rows, so it ends exactly at row `Size`. |
| `Partition.SendIndIsStartRow` | ParallelGS.cpp:30 | Every element offset `pSendInd[i]` is the block's first global row times `Size`. |
| `Partition.RowCountSum` | ParallelGS.cpp:22-31 | The row counts, less one per shared row, add up to `Size`: `sum RowNum - (ProcNum - 1) = Size`. |
| `Partition.StartRowMonotone` | ParallelGS.cpp:26-31 | Block start rows never decrease. |
| `Partition.BlockInGrid` | ParallelGS.cpp:22-31 | Every block starts at or after row 0 and ends at or before row `Size`. |
| `Partition.SharedRowNotRelaxed` | ParallelGS.cpp:26-31 | With the one-row overlap, block `q`'s last row is block `q+1`'s row 0. That row is an interior grid row that lies outside every block's update range (local rows `1 .. RowNum-2`). |
| `Partition.HaloLayoutCoversInterior` | ParallelGS.cpp:26-31 | With a two-row overlap, every interior grid row is in exactly one block's update range. |
| `Partition.StripeRowCount` | ParallelGS.cpp:148-152 | The rank's own row-count loop (also at 190-194) computes `StripeRows(Size, ProcNum, rank)`. |
| `Partition.StripeRowsAgree` | ParallelGS.cpp:148-152 | That count equals the table's `RowNum` (and times `Size`, `pSendNum[rank]`) for rank 0, and for every rank when `ProcNum <= 2`. |
| `Partition.StripeRowsDisagree` | ParallelGS.cpp:148-152 | For `Size = 8, ProcNum = 3`, rank 1 allocates 4 rows but the table sends it 3. |
| `Partition.CorrectedStripeRowCount` | ParallelGS.cpp:148-152 | A per-rank row count computed with the table's own recurrence equals `RowNum(rank)` and `pSendNum[rank] / Size` for every rank. |
| `Partition.SizeAcceptedAdmitsOneRowBlock` | ParallelGS.cpp:121-133 | The input check accepts `Size = ProcNum = 3`. The last block then gets a single row, so its buffer ends where row 1, which the backward `Sendrecv` at 222 sends, would begin. |
| `Partition.SquareLayout` | ParallelGS.cpp:22-31 | With `ProcNum = Size`, the tables give every block but the last two rows and the last block one. |
| `Partition.SizeAcceptedCorrectedGivesTwoRows` | ParallelGS.cpp:121-133 | With `Size > ProcNum` and `Size > 2`, every block gets at least two rows. |
| `Sweep.IterationCalculation` | ParallelGS.cpp:59-76 | The in-place sweep leaves the buffer equal to `SweepGrid` of the old buffer. That result is a Gauss–Seidel sweep: cells outside rows `1..RowNum-2` × columns `1..Size-2` are unchanged, and each updated cell is `0.25·(right+left+down+up)` with left and up new and right and down old. The returned `dmax` is `>= 0`, bounds every cell's `|new-old|`, and equals one of them or 0. |
| `Sweep.RelaxRow` | ParallelGS.cpp:65-73 | The inner loop relaxes columns `1 .. Size-2` of row `i` in increasing order and raises `dmax` as `SweepRowTo` says. |
| `Sweep.RelaxCellFlat` | ParallelGS.cpp:66-72 | The loop body's flat indices `Size*i+j`, `Size*(i±1)+j` and `±1` are cell `(i, j)` and its four neighbours, all inside the buffer. |
| `Sweep.RelaxCellEffect` | ParallelGS.cpp:66-72 | Relaxing one cell changes that cell alone, gives it its stencil value, and raises `dmax` to its change when that is larger. |
| `Sweep.RelaxCellStep` | ParallelGS.cpp:64-73 | One loop body moves the row-major cursor one cell on and keeps the frame, stencil and max invariants. |
| `Sweep.SweepGridCorrect` | ParallelGS.cpp:64-73 | The cell-by-cell sweep is a Gauss–Seidel sweep, and its `dmax` is the largest interior change, or 0. |
| `Sweep.AgreeBelow` | ParallelGS.cpp:64-73 | Two Gauss–Seidel sweeps of the same buffer agree cell by cell in row-major order, because each cell depends only on earlier ones. |
| `Sweep.GaussSeidelSweepIsSweepGrid` | ParallelGS.cpp:64-73 | A buffer is a Gauss–Seidel sweep of `g` exactly when it is what the nested loops produce (both directions). |
| `Sweep.ZeroDeviationIsFixedPoint` | SerialGS.cpp:13-22 | A sweep that reports `dmax = 0` left the grid unchanged, so the next sweep reports 0 again. |
| `Sweep.SweepsKeepBoundary` | SerialGS.cpp:13-19 | No number of sweeps changes a cell in row 0, row `Size-1`, column 0 or column `Size-1`. |
| `Halo.ExchangeDataRows` | ParallelGS.cpp:213-224 | After the exchange, rank `q > 0` has in row 0 rank `q-1`'s row `RowNum-2`. Rank `q < last` has in row `RowNum-1` rank `q+1`'s row 1. Every other row is unchanged, including rank 0's row 0 and the last rank's last row (a receive from `MPI_PROC_NULL` moves nothing). |
| `Halo.ExchangeFirstRow` | ParallelGS.cpp:217-219 | The forward `Sendrecv` copies the previous rank's row `RowNum-2` into row 0. |
| `Halo.ExchangeLastRow` | ParallelGS.cpp:222-224 | The backward `Sendrecv` copies the next rank's row 1 into row `RowNum-1`. |
| `Halo.ExchangeOtherRow` | ParallelGS.cpp:213-224 | No other row changes. |
| `Halo.ExchangeSingleIsIdentity` | ParallelGS.cpp:213-214 | With one process both neighbours are `MPI_PROC_NULL`, and the exchange is a no-op. |
| `Halo.ExchangeKeepsRowsShaped` | ParallelGS.cpp:217-224 | Each `Sendrecv` moves exactly `Size` values, so stripes stay rows of `Size` cells. |
| `Halo.OneRowOverlapFirstRow` | ParallelGS.cpp:217-219 | For blocks that share one row, the exchange puts into row 0 of block `q > 0` the global row before the one it holds. |
| `Halo.OneRowOverlapLastRow` | ParallelGS.cpp:222-224 | For blocks that share one row, the exchange puts into the last row of block `q` the global row after the one it holds. |
| `Halo.TwoRowOverlapRow` | ParallelGS.cpp:217-224 | For blocks that share two rows, every row after the exchange still holds its own global row. |
| `Halo.TwoRowOverlapExchange` | ParallelGS.cpp:217-224 | For blocks that share two rows, the exchange of freshly cut stripes changes nothing. |
| `Halo.Block` | ParallelGS.cpp:34-35 | The `pSendNum[q]` cells from offset `pSendInd[q]` of the grid are global rows `StartRow(q) .. StartRow(q)+RowNum(q)-1`, one after another. |
| `Halo.ScatterIsScatterv` | ParallelGS.cpp:34-35 | Process `q`'s stripe is the block `MPI_Scatterv` sends it, cut into rows. |
| `Halo.ScatterRow` | ParallelGS.cpp:34-35 | Row `r` of process `q`'s stripe is global row `StartRow(q) + r`. |
| `Halo.FirstExchangeShiftsSharedRow` | ParallelGS.cpp:217-219 | With the tables' one-row overlap, the first exchange overwrites block `q`'s row 0 (global row `StartRow(q)`) with global row `StartRow(q) - 1`. |
| `Halo.FirstExchangeCounterexample` | ParallelGS.cpp:217-219 | On a 4 x 4 grid over two processes, the first exchange changes the second stripe's row 0. |
| `Halo.GhostExchangeIsIdentity` | ParallelGS.cpp:217-224 | With blocks laid out to share two rows, the first exchange finds every ghost row already correct. |
| `Halo.OwnerHoldsRow` | ParallelGS.cpp:273-274 | The block a global row is gathered from contains that row. |
| `Halo.GatherNonSharedRow` | ParallelGS.cpp:273-274 | A global row that lies in one block only is gathered from that block's stripe. |
| `Halo.GatherStripesOf` | ParallelGS.cpp:273-274 | Gathering the stripes cut from a grid gives the grid back. |
| `Halo.CollectionUndoesDistribution` | ParallelGS.cpp:261-274 | Gathering what `DataDistribution` scattered, by the tables of `ResultCollection`, gives the root's grid back. |
| `ParallelGS.MaxOf` | ParallelGS.cpp:243-244 | The `MPI_MAX` reduction is at least every process's `ProcDelta` and equal to one of them. |
| `ParallelGS.RanksIterate` | ParallelGS.cpp:240 | Every process runs `IterationCalculation` on its own buffer. The stripes and `ProcDelta`s are the sweeps of the exchanged stripes and their deviations. |
| `ParallelGS.ProcDeltasAt` | ParallelGS.cpp:240 | Entry `q` of the reduction's inputs is the deviation process `q`'s sweep reports for its own buffer. |
| `ParallelGS.ParallelIteration` | ParallelGS.cpp:236-244 | One loop body is the exchange, the sweep on every process, and the maximum of their deviations. |
| `ParallelGS.RunsLast` | ParallelGS.cpp:233-245 | Turn `n` starts from the stripes that the first `n-1` turns left. |
| `ParallelGS.ParallelResultCalculation` | ParallelGS.cpp:228-246 | The loop returns `Iterations >= 1`, the number of bodies run. Every earlier turn's global `Delta` was `> Eps`. It stops once `Delta <= Eps` (or when `fuel` runs out). One `Delta` is returned for all processes. |
| `ParallelGS.AboveUntilAll` | ParallelGS.cpp:233-245 | When the loop is still running at turn `k`, every turn before `k` ended with a global `Delta` above `Eps`. |
| `ParallelGS.SingleProcessStep` | ParallelGS.cpp:237-240 | With one process and `RowNum = Size`, one turn (exchange, then sweep) is one serial sweep. |
| `ParallelGS.SingleProcessDelta` | ParallelGS.cpp:240-244 | With one process, the turn's global `Delta` is the serial sweep's `dmax`. |
| `ParallelGS.SingleProcessRuns` | ParallelGS.cpp:233-245 | With one process, `n` turns of the parallel loop are `n` serial sweeps. |
| `ParallelGS.SingleProcessIsSerial` | ParallelGS.cpp:233-245 | With one process, `n` turns of the parallel loop are `n` serial sweeps, and turn `n`'s `Delta` is sweep `n`'s `dmax`. |
| `ParallelGS.SingleProcessMatchesSerial` | ParallelGS.cpp:228-246 | With one process, the parallel solver and `SerialResultCalculation` (282-303) stop after the same number of iterations, with the same deviation and the same grid. |
| `ParallelGS.CopyPrefix` | ParallelGS.cpp:307 | `std::copy` of `n` values: the first `n` positions come from the source and the rest of the destination is untouched. |
| `ParallelGS.CopyData` | ParallelGS.cpp:306-308 | `CopyData` copies exactly the first `Size` values (one row). The rest of `pSerialMatrix` is unchanged. |
| `ParallelGS.CopyDataMissesLaterRows` | ParallelGS.cpp:307 | If any later cell of the copy held something else, the copy is not the grid. |
| `ParallelGS.CopyGrid` | ParallelGS.cpp:306-308 | A copy of all `Size * Size` values makes the copy equal to the grid. |
| `ParallelGS.CopyWholeGrid` | ParallelGS.cpp:307 | Copying `|src|` values gives `src`, whatever the destination held before. |
| `ParallelGS.CompareResults` | ParallelGS.cpp:318-322 | The comparison loop breaks after index 0. `equal` is 1 exactly when `Size*Size > 0` and cell 0 differs by at least `Eps`. |
| `ParallelGS.CompareAllCells` | ParallelGS.cpp:318-322 | The full scan sets `equal` to 1 exactly when some cell differs by at least `Eps`. |
| `ParallelGS.FirstCellDiffersIsSomeCell` | ParallelGS.cpp:318-322 | A difference that the early-exit comparison reports is a real difference. |
| `ParallelGS.ComparisonMissesLaterCells` | ParallelGS.cpp:318-322 | On a 2 x 2 grid whose results differ only in cell 1, the comparison as written finds them identical. |
| `ParallelGS.TestResult` | ParallelGS.cpp:311-331 | The serial solver runs on the copy, as `SerialGS.ResultCalculation` does. It sweeps `Iter >= 1` times and returns the last sweep's `dmax`. Every earlier sweep's deviation was `> Eps`, and the last is `<= Eps` unless `fuel` ran out. The parallel result is unchanged. `equal` is decided by the comparison as written. `Iter` and `dmax` are locals in the source and are returned here so the contract can name them. |
| `SerialGS.DummyGrid` | SerialGS.cpp:43-54 | The test grid holds 100 in every boundary cell and 0 in every interior cell. |
| `SerialGS.DummyDataInitialization` | SerialGS.cpp:47-53 | The nested loops write all `Size*Size` cells: 100 on rows and columns 0 and `Size-1`, and 0 inside. |
| `SerialGS.DummyBoundaryStays` | SerialGS.cpp:47-53 | However many sweeps run on the test grid, its boundary stays at 100. |
| `SerialGS.ResultCalculation` | SerialGS.cpp:7-25 | The loop returns `Iterations >= 1`, the number of sweeps done. The grid is that many sweeps of the input. The returned `dmax` is the last sweep's. Every earlier sweep's `dmax` was `> Eps`. The last one is `<= Eps` unless `fuel` ran out. |

## Left out

- MPI runtime semantics are not modelled: blocking, barriers, deadlock freedom, `MPI_Init`/`MPI_Finalize` and rank discovery. The collectives (`MPI_Scatterv`, `MPI_Sendrecv`, `MPI_Allreduce`, `MPI_Gatherv`, `MPI_Bcast`) are sequential data movement over all processes at once.
- `Halo.ExchangeData` is a function on the sequence of all stripes, not an in-place write into each process's buffer. Aliasing between processes cannot occur in MPI anyway.
- `Halo.ExchangeData` also fixes an outcome the source leaves undefined. When a stripe has two rows (for example `Size = 4, ProcNum = 3`), each `MPI_Sendrecv` at `ParallelGS.cpp:217-218` and `222-223` sends from and receives into the same row. Section 3.10 of MPI-3.1 requires the two buffers to be disjoint. The model sends the row as it was before that phase, which is one possible outcome, not a guarantee MPI gives.
- `Halo.Gather`: the receive regions of `MPI_Gatherv` overlap by one row, which the MPI standard (section 5.5 of MPI-3.1) makes erroneous. The model takes a shared row from the later block, and its lemmas about processed stripes speak only of rows that lie in one block.
- `ParallelGS.ParallelResultCalculation` and `SerialGS.ResultCalculation` run at most `fuel` turns. Termination of the `do … while` loops cannot be proved over reals, and the model states nothing about convergence.
- Floating-point rounding is not modelled: values are `real` and `fabs` is `Abs`. Agreement within `Eps` between results for different process counts depends on convergence and rounding, so it is not stated.
- Integer overflow is not modelled. `RowNum*Size` and `Size*Size` fit a 32-bit `int` for every size in the source's benchmark list.
- The accuracy prompt loop (`ParallelGS.cpp:136-142`, `SerialGS.cpp:67-74`) and the size prompt loops are console input and are left out. Only the size condition they enforce is modelled (`Partition.SizeAccepted`). `ProcessTestInitialization` prints a warning for a bad size and carries on.
- Left out as I/O or timing: `PrintMatrix`, `TestDistribution`, every `printf`/`scanf`, `MPI_Wtime` and `clock`.
- `RandowmDataInitialization` is left out because its values come from `rand()`.
- Allocation and release (`new`/`delete`, `ProcessTermination`) are left out. So are the benchmark drivers `test()` and `main()` of both files.
- The benchmark path of `SerialGS.cpp` is left out. `ProcessInitialization` there allocates a fresh buffer and never initialises it, so the sweep runs on uninitialised memory.
- The unused `h` in both `DummyDataInitialization`s is left out.

## Findings

| source | as written | input that shows it | evidently intended | confidence | as-written member | corrected member |
|---|---|---|---|---|---|---|
| ParallelGS.cpp:148-152 | Each rank's row count is computed with `RestRows - RestRows/(ProcNum-i)`, a different recurrence from the table at 22-31. | `Size = 8, ProcNum = 3`: rank 1 allocates and iterates over 4 rows but is sent 3. | The rank's count equals `pSendNum[rank] / Size`. | high; not executed | `Partition.StripeRowsDisagree` | `Partition.CorrectedStripeRowCount` |
| ParallelGS.cpp:133 | The size check rejects only `Size < ProcNum`, so it admits `Size == ProcNum`. | `Size = ProcNum = 3`: the last block gets `RowNum = 1`. Its forward send goes to `MPI_PROC_NULL`, but its backward `Sendrecv` (222) sends row 1 (`pProcRows + Size`) from a one-row buffer, and rank `ProcNum-2` stores that as its last row. | Reject `Size <= ProcNum`, so every block has at least two rows. | high; not executed | `Partition.SizeAcceptedAdmitsOneRowBlock` | `Partition.SizeAcceptedCorrectedGivesTwoRows` |
| ParallelGS.cpp:27-30 | Neighbouring blocks share one row, but the exchange treats row 0 and row `RowNum-1` as ghosts of the neighbour's rows `RowNum-2` and 1. The shared row is never relaxed, and row 0 of block `q+1` gets the global row before the one it stands for. | A 4 x 4 grid over two processes: the first exchange replaces the second stripe's row 0 (global row 2) with global row 1. | Blocks share two rows, so each ghost row mirrors the neighbour's real row and every interior row is relaxed by exactly one block. | high; not executed | `Halo.FirstExchangeCounterexample` | `Halo.GhostExchangeIsIdentity` |
| ParallelGS.cpp:318-322 | The `break` is outside the `if`, so the loop compares only cell 0. | Results `[0,0,0,0]` and `[0,1,0,0]` with `Eps = 0.5` are reported identical. | Compare every cell. | high; not executed | `ParallelGS.ComparisonMissesLaterCells` | `ParallelGS.CompareAllCells` |
| ParallelGS.cpp:307 | `std::copy(pMatrix, pMatrix + Size, …)` copies one row, not the grid. | Any grid whose cell `Size` differs from what the fresh copy buffer holds: the serial check then starts from a different grid. | Copy `Size * Size` values. | high; not executed | `ParallelGS.CopyDataMissesLaterRows` | `ParallelGS.CopyWholeGrid` |

Where the solver's intended design and its code disagree, the model follows
the code. Two such places are the one-row overlap (the design promises ghost
rows identical to the neighbour's real rows) and the single-cell
comparison of `TestResult`.
