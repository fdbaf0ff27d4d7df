/**
 * The halo exchange of `ExchangeData`, run by every process in lockstep, as
 * a function on the sequence of all stripes.
 *
 * Each `MPI_Sendrecv` moves one whole row of `size` values, so the exchange
 * is modelled on the stripes seen as sequences of rows (`Rows`, `Flatten`):
 * stripe q holds `rowNums[q]` rows. The first `Sendrecv` sends row
 * `RowNum-2` to the next process and receives row 0 from the previous one;
 * the second sends row 1 to the previous process and receives row
 * `RowNum-1` from the next one. A send or receive addressed to
 * `MPI_PROC_NULL` (past the first or last process) moves nothing. Within each
 * phase every process sends the values it held before the phase.
 *
 * `Scatter` is the `MPI_Scatterv` of `DataDistribution`: process q receives
 * the `SendNum` cells from offset `SendInd` of the whole grid.
 */
module Halo {
  import opened Grid
  import opened Partition

  /** Every stripe has its row count of rows, and at least two rows. */
  predicate StripesShaped(stripes: seq<seq<seq<real>>>, rowNums: seq<nat>)
  {
    |stripes| == |rowNums| >= 1
    && forall q {:trigger stripes[q]} | 0 <= q < |stripes| :: rowNums[q] >= 2 && |stripes[q]| == rowNums[q]
  }

  /** Every row of every stripe holds `size` cells. */
  predicate StripeRowsShaped(stripes: seq<seq<seq<real>>>, size: nat)
  {
    forall q | 0 <= q < |stripes| :: RowsShaped(stripes[q], size)
  }

  /** Stripe q after the first `Sendrecv`: unless it is the first stripe, it
      has received, into its row 0, row `RowNum-2` of the stripe before it. */
  function ForwardStripe(stripes: seq<seq<seq<real>>>, rowNums: seq<nat>, q: int): (s: seq<seq<real>>)
    requires StripesShaped(stripes, rowNums) && 0 <= q < |stripes|
    ensures |s| == rowNums[q]
  {
    if q == 0 then stripes[q]
    else
      assert |stripes[q]| == rowNums[q] && |stripes[q - 1]| == rowNums[q - 1] >= 2;
      stripes[q][0 := stripes[q - 1][rowNums[q - 1] - 2]]
  }

  /** The first `Sendrecv` on every process. */
  function ForwardPhase(stripes: seq<seq<seq<real>>>, rowNums: seq<nat>): (f: seq<seq<seq<real>>>)
    requires StripesShaped(stripes, rowNums)
    ensures StripesShaped(f, rowNums)
    ensures forall q | 0 <= q < |f| :: f[q] == ForwardStripe(stripes, rowNums, q)
  {
    var f := seq(|stripes|, q requires 0 <= q < |stripes| => ForwardStripe(stripes, rowNums, q));
    assert forall q | 0 <= q < |f| :: f[q] == ForwardStripe(stripes, rowNums, q);
    assert forall q | 0 <= q < |f| :: |f[q]| == rowNums[q];
    f
  }

  /** Stripe q after the second `Sendrecv`: unless it is the last stripe, it
      has received, into its row `RowNum-1`, row 1 of the stripe after it. */
  function BackwardStripe(f: seq<seq<seq<real>>>, rowNums: seq<nat>, q: int): (s: seq<seq<real>>)
    requires StripesShaped(f, rowNums) && 0 <= q < |f|
    ensures |s| == rowNums[q]
  {
    if q == |f| - 1 then f[q]
    else
      assert |f[q]| == rowNums[q] && |f[q + 1]| == rowNums[q + 1] >= 2;
      f[q][rowNums[q] - 1 := f[q + 1][1]]
  }

  /** The second `Sendrecv` on every process. */
  function BackwardPhase(f: seq<seq<seq<real>>>, rowNums: seq<nat>): (b: seq<seq<seq<real>>>)
    requires StripesShaped(f, rowNums)
    ensures StripesShaped(b, rowNums)
    ensures forall q | 0 <= q < |b| :: b[q] == BackwardStripe(f, rowNums, q)
  {
    var b := seq(|f|, q requires 0 <= q < |f| => BackwardStripe(f, rowNums, q));
    assert forall q | 0 <= q < |b| :: b[q] == BackwardStripe(f, rowNums, q);
    assert forall q | 0 <= q < |b| :: |b[q]| == rowNums[q];
    b
  }

  /** `ExchangeData` on every process. */
  function ExchangeData(stripes: seq<seq<seq<real>>>, rowNums: seq<nat>): (e: seq<seq<seq<real>>>)
    requires StripesShaped(stripes, rowNums)
    ensures StripesShaped(e, rowNums)
  {
    BackwardPhase(ForwardPhase(stripes, rowNums), rowNums)
  }

  /** What every row holds after the exchange: row 0 of a stripe with a
      predecessor is the predecessor's row `RowNum-2`, the last row of a
      stripe with a successor is the successor's row 1, and every other row,
      including row 0 of the first stripe and the last row of the last one,
      is unchanged. */
  lemma ExchangeDataRows(stripes: seq<seq<seq<real>>>, rowNums: seq<nat>, q: nat, r: nat)
    requires StripesShaped(stripes, rowNums) && q < |stripes| && r < rowNums[q]
    ensures ExchangeData(stripes, rowNums)[q][r]
            == if r == 0 && q > 0 then stripes[q - 1][rowNums[q - 1] - 2]
               else if r == rowNums[q] - 1 && q < |stripes| - 1 then stripes[q + 1][1]
               else stripes[q][r]
  {
    var f := ForwardPhase(stripes, rowNums);
    assert ExchangeData(stripes, rowNums)[q] == BackwardStripe(f, rowNums, q);
    if r == rowNums[q] - 1 && q < |stripes| - 1 {
      assert f[q + 1] == ForwardStripe(stripes, rowNums, q + 1);
    } else {
      assert f[q] == ForwardStripe(stripes, rowNums, q);
    }
  }

  /** Row 0 of a stripe with a predecessor receives the predecessor's row
      `RowNum-2`. */
  lemma ExchangeFirstRow(stripes: seq<seq<seq<real>>>, rowNums: seq<nat>, q: nat)
    requires StripesShaped(stripes, rowNums) && 0 < q < |stripes|
    ensures ExchangeData(stripes, rowNums)[q][0] == stripes[q - 1][|stripes[q - 1]| - 2]
  {
    assert |stripes[q]| == rowNums[q];
    ExchangeDataRows(stripes, rowNums, q, 0);
  }

  /** The last row of a stripe with a successor receives the successor's
      row 1. */
  lemma ExchangeLastRow(stripes: seq<seq<seq<real>>>, rowNums: seq<nat>, q: nat)
    requires StripesShaped(stripes, rowNums) && q < |stripes| - 1
    ensures ExchangeData(stripes, rowNums)[q][|stripes[q]| - 1] == stripes[q + 1][1]
  {
    ExchangeDataRows(stripes, rowNums, q, |stripes[q]| - 1);
  }

  /** Every other row keeps what it held. */
  lemma ExchangeOtherRow(stripes: seq<seq<seq<real>>>, rowNums: seq<nat>, q: nat, r: nat)
    requires StripesShaped(stripes, rowNums) && q < |stripes| && r < |stripes[q]|
    requires !(r == 0 && q > 0) && !(r == |stripes[q]| - 1 && q < |stripes| - 1)
    ensures ExchangeData(stripes, rowNums)[q][r] == stripes[q][r]
  {
    ExchangeDataRows(stripes, rowNums, q, r);
  }

  /** A single process has no neighbours: the exchange changes nothing. */
  lemma ExchangeSingleIsIdentity(stripes: seq<seq<seq<real>>>, rowNums: seq<nat>)
    requires StripesShaped(stripes, rowNums) && |stripes| == 1
    ensures ExchangeData(stripes, rowNums) == stripes
  {
    assert ExchangeData(stripes, rowNums)[0] == stripes[0];
  }

  /** The exchange moves whole rows, so rows of `size` cells stay rows of
      `size` cells. */
  lemma ExchangeKeepsRowsShaped(stripes: seq<seq<seq<real>>>, size: nat, rowNums: seq<nat>)
    requires StripesShaped(stripes, rowNums) && StripeRowsShaped(stripes, size)
    ensures StripeRowsShaped(ExchangeData(stripes, rowNums), size)
  {
    var e := ExchangeData(stripes, rowNums);
    forall q | 0 <= q < |e| ensures RowsShaped(e[q], size) {
      forall r | 0 <= r < |e[q]| ensures |e[q][r]| == size {
        ExchangeDataRows(stripes, rowNums, q, r);
        if r == 0 && q > 0 {
          assert RowsShaped(stripes[q - 1], size);
        } else if r == rowNums[q] - 1 && q < |stripes| - 1 {
          assert RowsShaped(stripes[q + 1], size);
        } else {
          assert RowsShaped(stripes[q], size);
        }
      }
    }
  }

  // ---------------------------------------------------------------------------
  // Stripes cut from one grid.

  /** Blocks of at least two rows inside a grid of `size` rows: `starts[q]`
      is the global row that is row 0 of block q, and `rowNums[q]` its row
      count. */
  predicate BlocksInGrid(starts: seq<int>, rowNums: seq<nat>, size: nat)
  {
    |starts| == |rowNums| >= 1
    && forall q | 0 <= q < |starts| :: rowNums[q] >= 2 && 0 <= starts[q] && starts[q] + rowNums[q] <= size
  }

  /** Block q starts `shared` rows before block q-1 ends. */
  predicate OverlapsPrevious(starts: seq<int>, rowNums: seq<nat>, shared: int, q: int)
    requires |starts| == |rowNums| && 1 <= q < |starts|
  {
    starts[q] == starts[q - 1] + rowNums[q - 1] - shared
  }

  /** Such blocks, each overlapping its successor by `shared` rows. */
  predicate Consecutive(starts: seq<int>, rowNums: seq<nat>, size: nat, shared: int)
  {
    BlocksInGrid(starts, rowNums, size)
    && forall q | 1 <= q < |starts| :: OverlapsPrevious(starts, rowNums, shared, q)
  }

  /** The stripes of all blocks: stripe q is rows `starts[q]` ..
      `starts[q] + rowNums[q] - 1` of the grid. */
  function StripesOf(grid: seq<seq<real>>, starts: seq<int>, rowNums: seq<nat>): (stripes: seq<seq<seq<real>>>)
    requires BlocksInGrid(starts, rowNums, |grid|)
    ensures StripesShaped(stripes, rowNums)
  {
    var stripes := seq(|starts|, q requires 0 <= q < |starts| => grid[starts[q]..starts[q] + rowNums[q]]);
    assert forall q | 0 <= q < |stripes| :: stripes[q] == grid[starts[q]..starts[q] + rowNums[q]];
    stripes
  }

  /** Row r of stripe q is global row `starts[q] + r`. */
  lemma StripeOfRow(grid: seq<seq<real>>, starts: seq<int>, rowNums: seq<nat>, q: nat, r: nat)
    requires BlocksInGrid(starts, rowNums, |grid|) && q < |starts| && r < rowNums[q]
    ensures 0 <= starts[q] + r < |grid|
    ensures StripesOf(grid, starts, rowNums)[q][r] == grid[starts[q] + r]
  {
    assert StripesOf(grid, starts, rowNums)[q] == grid[starts[q]..starts[q] + rowNums[q]];
  }

  /** With one shared row, the exchange overwrites row 0 of every block but
      the first with the global row before the one it holds. */
  lemma OneRowOverlapFirstRow(grid: seq<seq<real>>, starts: seq<int>, rowNums: seq<nat>, q: nat)
    requires Consecutive(starts, rowNums, |grid|, 1) && 0 < q < |starts|
    ensures 1 <= starts[q]
    ensures ExchangeData(StripesOf(grid, starts, rowNums), rowNums)[q][0] == grid[starts[q] - 1]
  {
    assert OverlapsPrevious(starts, rowNums, 1, q);
    ExchangeFirstRow(StripesOf(grid, starts, rowNums), rowNums, q);
    StripeOfRow(grid, starts, rowNums, q - 1, rowNums[q - 1] - 2);
  }

  /** With one shared row, the exchange overwrites the last row of every
      block but the last with the global row after the one it holds. */
  lemma OneRowOverlapLastRow(grid: seq<seq<real>>, starts: seq<int>, rowNums: seq<nat>, q: nat)
    requires Consecutive(starts, rowNums, |grid|, 1) && q < |starts| - 1
    ensures starts[q] + rowNums[q] < |grid|
    ensures ExchangeData(StripesOf(grid, starts, rowNums), rowNums)[q][rowNums[q] - 1]
            == grid[starts[q] + rowNums[q]]
  {
    assert OverlapsPrevious(starts, rowNums, 1, q + 1);
    ExchangeLastRow(StripesOf(grid, starts, rowNums), rowNums, q);
    StripeOfRow(grid, starts, rowNums, q + 1, 1);
  }

  /** With two shared rows, row r of block q holds global row
      `starts[q] + r` after the exchange, as it did before. */
  lemma TwoRowOverlapRow(grid: seq<seq<real>>, starts: seq<int>, rowNums: seq<nat>, q: nat, r: nat)
    requires Consecutive(starts, rowNums, |grid|, 2) && q < |starts| && r < rowNums[q]
    ensures 0 <= starts[q] + r < |grid|
    ensures ExchangeData(StripesOf(grid, starts, rowNums), rowNums)[q][r] == grid[starts[q] + r]
  {
    StripeOfRow(grid, starts, rowNums, q, r);
    if r == 0 && q > 0 {
      assert OverlapsPrevious(starts, rowNums, 2, q);
      ExchangeFirstRow(StripesOf(grid, starts, rowNums), rowNums, q);
      StripeOfRow(grid, starts, rowNums, q - 1, rowNums[q - 1] - 2);
    } else if r == rowNums[q] - 1 && q < |starts| - 1 {
      assert OverlapsPrevious(starts, rowNums, 2, q + 1);
      ExchangeLastRow(StripesOf(grid, starts, rowNums), rowNums, q);
      StripeOfRow(grid, starts, rowNums, q + 1, 1);
    } else {
      ExchangeOtherRow(StripesOf(grid, starts, rowNums), rowNums, q, r);
    }
  }

  /** With two shared rows, every ghost row already holds the global row it
      stands for, and the exchange changes nothing. */
  lemma TwoRowOverlapExchange(grid: seq<seq<real>>, starts: seq<int>, rowNums: seq<nat>)
    requires Consecutive(starts, rowNums, |grid|, 2)
    ensures ExchangeData(StripesOf(grid, starts, rowNums), rowNums) == StripesOf(grid, starts, rowNums)
  {
    var stripes := StripesOf(grid, starts, rowNums);
    var e := ExchangeData(stripes, rowNums);
    forall q | 0 <= q < |stripes| ensures e[q] == stripes[q] {
      forall r | 0 <= r < rowNums[q] ensures e[q][r] == stripes[q][r] {
        TwoRowOverlapRow(grid, starts, rowNums, q, r);
        StripeOfRow(grid, starts, rowNums, q, r);
      }
    }
  }

  // ---------------------------------------------------------------------------
  // The stripes DataDistribution hands out.

  /** The row count of block q, which is at least 2. */
  function BlockRows(size: nat, p: nat, shared: int, q: int): (n: nat)
    requires p >= 1 && size >= p + 1 && 1 <= shared <= 2 && 0 <= q < p
    ensures n == RowNum(size, p, shared, q) >= 2
  {
    RowNumBounds(size, p, shared, q);
    RowNum(size, p, shared, q)
  }

  /** The row counts of the blocks. */
  function BlockRowNums(size: nat, p: nat, shared: int): (rowNums: seq<nat>)
    requires p >= 1 && size >= p + 1 && 1 <= shared <= 2
    ensures |rowNums| == p
    ensures forall q | 0 <= q < p :: rowNums[q] == BlockRows(size, p, shared, q)
  {
    seq(p, q requires 0 <= q < p => BlockRows(size, p, shared, q))
  }

  /** The first global row of each block. */
  function BlockStarts(size: nat, p: nat, shared: int): (starts: seq<int>)
    requires p >= 1
    ensures |starts| == p
    ensures forall q | 0 <= q < p :: starts[q] == StartRow(size, p, shared, q)
  {
    seq(p, q requires 0 <= q < p => StartRow(size, p, shared, q))
  }

  /** The tables lay out consecutive blocks inside the grid. */
  lemma LayoutConsecutive(size: nat, p: nat, shared: int)
    requires p >= 1 && size >= p + 1 && 1 <= shared <= 2
    ensures Consecutive(BlockStarts(size, p, shared), BlockRowNums(size, p, shared), size, shared)
  {
    forall q | 0 <= q < p
      ensures 0 <= StartRow(size, p, shared, q)
      ensures StartRow(size, p, shared, q) + RowNum(size, p, shared, q) <= size
    {
      BlockInGrid(size, p, shared, q);
    }
  }

  /** The first global row of block q. */
  function BlockStart(size: nat, p: nat, shared: int, q: int): (lo: nat)
    requires p >= 1 && size >= p + 1 && 1 <= shared <= 2 && 0 <= q < p
    ensures lo == StartRow(size, p, shared, q)
    ensures lo + BlockRows(size, p, shared, q) <= size
  {
    BlockInGrid(size, p, shared, q);
    StartRow(size, p, shared, q)
  }

  /** Block q as `MPI_Scatterv` sends it, the `SendNum(q)` cells from offset
      `SendInd(q)`: global rows `StartRow(q)` .. `StartRow(q) + RowNum(q) - 1`
      one after another. */
  function Block(g: seq<real>, size: nat, p: nat, shared: int, q: int): (b: seq<real>)
    requires |g| == size * size && p >= 1 && size >= p + 1 && 1 <= shared <= 2 && 0 <= q < p
    ensures var lo, n := BlockStart(size, p, shared, q), BlockRows(size, p, shared, q);
            b == Flatten(Rows(g, size, size)[lo..lo + n], size)
  {
    var lo, n := BlockStart(size, p, shared, q), BlockRows(size, p, shared, q);
    SendIndIsStartRow(size, p, shared, q);
    SliceInRange(size, size, lo, n);
    Distribute(lo, n, 0, size);
    var b := g[SendInd(size, p, shared, q)..SendInd(size, p, shared, q) + SendNum(size, p, shared, q)];
    FlattenRowsSlice(g, size, size, lo, n);
    b
  }

  /** `MPI_Scatterv` of the grid, seen as its `size` rows, by the tables:
      process q holds global rows `StartRow(q)` .. `StartRow(q) + RowNum(q) - 1`.
      By `ScatterIsScatterv` these are the cells `MPI_Scatterv` sends it, cut
      into rows. */
  function Scatter(grid: seq<seq<real>>, size: nat, p: nat, shared: int): (stripes: seq<seq<seq<real>>>)
    requires |grid| == size && p >= 1 && size >= p + 1 && 1 <= shared <= 2
    ensures Consecutive(BlockStarts(size, p, shared), BlockRowNums(size, p, shared), size, shared)
    ensures StripesShaped(stripes, BlockRowNums(size, p, shared))
  {
    LayoutConsecutive(size, p, shared);
    StripesOf(grid, BlockStarts(size, p, shared), BlockRowNums(size, p, shared))
  }

  /** Process q's stripe of the grid `g` is block q as `MPI_Scatterv` sends
      it, the `SendNum(q)` cells from offset `SendInd(q)`, cut into rows. */
  lemma ScatterIsScatterv(g: seq<real>, size: nat, p: nat, shared: int, q: nat)
    requires |g| == size * size && p >= 1 && size >= p + 1 && 1 <= shared <= 2 && q < p
    ensures Scatter(Rows(g, size, size), size, p, shared)[q]
            == Rows(Block(g, size, p, shared, q), size, BlockRows(size, p, shared, q))
  {
    var grid := Rows(g, size, size);
    var lo, n := BlockStart(size, p, shared, q), BlockRows(size, p, shared, q);
    var stripe := grid[lo..lo + n];
    assert Scatter(grid, size, p, shared)[q] == stripe;
    assert Block(g, size, p, shared, q) == Flatten(stripe, size);
    RowsOfFlatten(stripe, size);
  }

  /** As laid out by the tables, with one shared row, the first exchange
      overwrites row 0 of block q > 0, which holds global row `StartRow(q)`,
      with global row `StartRow(q) - 1`. */
  lemma FirstExchangeShiftsSharedRow(grid: seq<seq<real>>, size: nat, p: nat, q: nat)
    requires |grid| == size && p >= 1 && size >= p + 1 && 0 < q < p
    ensures 1 <= StartRow(size, p, 1, q)
    ensures Scatter(grid, size, p, 1)[q][0] == grid[StartRow(size, p, 1, q)]
    ensures ExchangeData(Scatter(grid, size, p, 1), BlockRowNums(size, p, 1))[q][0]
            == grid[StartRow(size, p, 1, q) - 1]
  {
    RowNumBounds(size, p, 1, q);
    ScatterRow(grid, size, p, 1, q, 0);
    ScatterFirstRowExchanged(grid, size, p, q);
  }

  /** Row r of stripe q is global row `StartRow(q) + r`. */
  lemma ScatterRow(grid: seq<seq<real>>, size: nat, p: nat, shared: int, q: nat, r: nat)
    requires |grid| == size && p >= 1 && size >= p + 1 && 1 <= shared <= 2 && q < p
    requires r < RowNum(size, p, shared, q)
    ensures StartRow(size, p, shared, q) + r < size
    ensures Scatter(grid, size, p, shared)[q][r] == grid[StartRow(size, p, shared, q) + r]
  {
    ScatterIsStripesOf(grid, size, p, shared);
    StripeOfRow(grid, BlockStarts(size, p, shared), BlockRowNums(size, p, shared), q, r);
  }

  /** The stripes `Scatter` hands out are the blocks the tables lay out. */
  lemma ScatterIsStripesOf(grid: seq<seq<real>>, size: nat, p: nat, shared: int)
    requires |grid| == size && p >= 1 && size >= p + 1 && 1 <= shared <= 2
    ensures Consecutive(BlockStarts(size, p, shared), BlockRowNums(size, p, shared), |grid|, shared)
    ensures Scatter(grid, size, p, shared) == StripesOf(grid, BlockStarts(size, p, shared), BlockRowNums(size, p, shared))
  {
    LayoutConsecutive(size, p, shared);
  }

  /** The exchange half of `FirstExchangeShiftsSharedRow`. */
  lemma ScatterFirstRowExchanged(grid: seq<seq<real>>, size: nat, p: nat, q: nat)
    requires |grid| == size && p >= 1 && size >= p + 1 && 0 < q < p
    ensures 1 <= StartRow(size, p, 1, q)
    ensures ExchangeData(Scatter(grid, size, p, 1), BlockRowNums(size, p, 1))[q][0]
            == grid[StartRow(size, p, 1, q) - 1]
  {
    ScatterIsStripesOf(grid, size, p, 1);
    OneRowOverlapFirstRow(grid, BlockStarts(size, p, 1), BlockRowNums(size, p, 1), q);
  }

  /** On a 4 x 4 grid whose rows hold their own row numbers, split over two
      processes, the first exchange changes row 0 of the second stripe. */
  lemma FirstExchangeCounterexample()
    ensures var grid := seq(4, r => seq(4, c => r as real));
            ExchangeData(Scatter(grid, 4, 2, 1), BlockRowNums(4, 2, 1))[1][0] != Scatter(grid, 4, 2, 1)[1][0]
  {
    var grid := seq(4, r => seq(4, c => r as real));
    assert RowNum(4, 2, 1, 0) == 3;
    assert StartRow(4, 2, 1, 1) == 2;
    FirstExchangeShiftsSharedRow(grid, 4, 2, 1);
    assert grid[1][0] != grid[2][0];
  }

  /** As laid out with two shared rows, the exchange finds every ghost row
      already holding the global row it stands for, and changes nothing. */
  lemma GhostExchangeIsIdentity(grid: seq<seq<real>>, size: nat, p: nat)
    requires |grid| == size && p >= 1 && size >= p + 1
    ensures ExchangeData(Scatter(grid, size, p, 2), BlockRowNums(size, p, 2)) == Scatter(grid, size, p, 2)
  {
    LayoutConsecutive(size, p, 2);
    TwoRowOverlapExchange(grid, BlockStarts(size, p, 2), BlockRowNums(size, p, 2));
  }
  // ---------------------------------------------------------------------------
  // The MPI_Gatherv of ResultCollection.

  /** Blocks that start at row 0 and whose last block ends at the grid's
      last row. */
  predicate CoversGrid(starts: seq<int>, rowNums: seq<nat>, size: nat)
    requires |starts| == |rowNums| >= 1
  {
    starts[0] == 0 && starts[|starts| - 1] + rowNums[|starts| - 1] == size
  }

  /** The block, among blocks 0 .. q, that global row `g` is gathered from:
      the last one starting at or before it. Where blocks overlap, the
      receive regions of `MPI_Gatherv` overlap, and the MPI standard leaves
      the outcome undefined; this choice stands for one of the outcomes. */
  function Owner(starts: seq<int>, g: int, q: int): (o: int)
    requires 0 <= q < |starts| && starts[0] <= g
    ensures 0 <= o <= q && starts[o] <= g
    ensures forall k | o < k <= q :: g < starts[k]
    decreases q
  {
    if starts[q] <= g then q else Owner(starts, g, q - 1)
  }

  /** Global row `g` lies inside the block `Owner` picks. */
  lemma OwnerHoldsRow(starts: seq<int>, rowNums: seq<nat>, size: nat, shared: int, g: int)
    requires Consecutive(starts, rowNums, size, shared) && CoversGrid(starts, rowNums, size)
    requires shared >= 1 && 0 <= g < size
    ensures var o := Owner(starts, g, |starts| - 1);
            starts[o] <= g < starts[o] + rowNums[o]
  {
    var o := Owner(starts, g, |starts| - 1);
    if o < |starts| - 1 {
      assert OverlapsPrevious(starts, rowNums, shared, o + 1);
    }
  }

  /** Global row `g` lies in block q. */
  predicate InBlock(starts: seq<int>, rowNums: seq<nat>, q: int, g: int)
    requires |starts| == |rowNums| && 0 <= q < |starts|
  {
    starts[q] <= g < starts[q] + rowNums[q]
  }

  /** The root's grid after `MPI_Gatherv`: global row `g` comes from the
      stripe of the block `Owner` picks for it. */
  function Gather(stripes: seq<seq<seq<real>>>, starts: seq<int>, rowNums: seq<nat>, size: nat, shared: int)
    : (grid: seq<seq<real>>)
    requires StripesShaped(stripes, rowNums) && shared >= 1
    requires Consecutive(starts, rowNums, size, shared) && CoversGrid(starts, rowNums, size)
    ensures |grid| == size
  {
    seq(size, g requires 0 <= g < size =>
      OwnerHoldsRow(starts, rowNums, size, shared, g);
      var o := Owner(starts, g, |starts| - 1);
      stripes[o][g - starts[o]])
  }

  /** A global row that lies in one block only is gathered from that
      block's stripe. */
  lemma GatherNonSharedRow(stripes: seq<seq<seq<real>>>, starts: seq<int>, rowNums: seq<nat>,
                           size: nat, shared: int, q: nat, g: int)
    requires StripesShaped(stripes, rowNums) && shared >= 1
    requires Consecutive(starts, rowNums, size, shared) && CoversGrid(starts, rowNums, size)
    requires q < |starts| && InBlock(starts, rowNums, q, g)
    requires forall k | 0 <= k < |starts| && k != q :: !InBlock(starts, rowNums, k, g)
    ensures 0 <= g < size && 0 <= g - starts[q] < rowNums[q]
    ensures Gather(stripes, starts, rowNums, size, shared)[g] == stripes[q][g - starts[q]]
  {
    assert 0 <= starts[q] && starts[q] + rowNums[q] <= size;
    OwnerHoldsRow(starts, rowNums, size, shared, g);
    var o := Owner(starts, g, |starts| - 1);
    assert InBlock(starts, rowNums, o, g);
  }

  /** Gathering the stripes cut from a grid gives the grid back. */
  lemma GatherStripesOf(grid: seq<seq<real>>, starts: seq<int>, rowNums: seq<nat>, shared: int)
    requires shared >= 1
    requires Consecutive(starts, rowNums, |grid|, shared) && CoversGrid(starts, rowNums, |grid|)
    ensures Gather(StripesOf(grid, starts, rowNums), starts, rowNums, |grid|, shared) == grid
  {
    var stripes := StripesOf(grid, starts, rowNums);
    var h := Gather(stripes, starts, rowNums, |grid|, shared);
    forall g | 0 <= g < |grid| ensures h[g] == grid[g] {
      OwnerHoldsRow(starts, rowNums, |grid|, shared, g);
      var o := Owner(starts, g, |starts| - 1);
      StripeOfRow(grid, starts, rowNums, o, g - starts[o]);
    }
  }

  /** `MPI_Gatherv` of `ResultCollection`: the stripes laid out by the tables
      put back into one grid of `size` rows. */
  function ResultCollection(stripes: seq<seq<seq<real>>>, size: nat, p: nat): (grid: seq<seq<real>>)
    requires p >= 1 && size >= p + 1 && StripesShaped(stripes, BlockRowNums(size, p, 1))
    ensures |grid| == size
  {
    LayoutCoversGrid(size, p, 1);
    Gather(stripes, BlockStarts(size, p, 1), BlockRowNums(size, p, 1), size, 1)
  }

  /** The tables lay out consecutive blocks from row 0 to the last row. */
  lemma LayoutCoversGrid(size: nat, p: nat, shared: int)
    requires p >= 1 && size >= p + 1 && 1 <= shared <= 2
    ensures Consecutive(BlockStarts(size, p, shared), BlockRowNums(size, p, shared), size, shared)
    ensures CoversGrid(BlockStarts(size, p, shared), BlockRowNums(size, p, shared), size)
  {
    LayoutConsecutive(size, p, shared);
    LastBlockEndsAtSize(size, p, shared);
  }

  /** Gathering what `DataDistribution` scattered, before any iteration,
      gives the root's grid back: the scatter and gather tables agree. */
  lemma CollectionUndoesDistribution(grid: seq<seq<real>>, size: nat, p: nat)
    requires |grid| == size && p >= 1 && size >= p + 1
    ensures ResultCollection(Scatter(grid, size, p, 1), size, p) == grid
  {
    LayoutCoversGrid(size, p, 1);
    ScatterIsStripesOf(grid, size, p, 1);
    GatherStripesOf(grid, BlockStarts(size, p, 1), BlockRowNums(size, p, 1), 1);
  }
}
