/**
 * How the rows of a `size` x `size` grid are split into `p` horizontal
 * blocks, one per process.
 *
 * `DataDistribution` and `ResultCollection` build the same two tables: the
 * element count and the element offset of each block. Block 0 gets
 * `(size-2)/p + 2` rows; each later block gets the rows not yet handed out,
 * less two, divided by the number of blocks still to come, plus two.
 * Neighbouring blocks share `shared` rows: the code as written shares one
 * (the `+ 1` on the remaining rows and the `- size` on the offset). The halo
 * exchange assumes two, so the layout is modelled for any `shared`.
 *
 * `ProcessInitialization` works out each process's own row count with a
 * different recurrence (`StripeRows`). It agrees with the tables for rank 0
 * and for two processes, but not in general.
 */
module Partition {
  import opened Grid

  /** Division of naturals, by repeated subtraction. */
  function NatDiv(a: nat, b: nat): nat
    requires b > 0
    decreases a
  {
    if a < b then 0 else NatDiv(a - b, b) + 1
  }

  /** C++ integer division, which truncates toward zero. */
  function CDiv(a: int, b: int): int
    requires b > 0
  {
    if a >= 0 then NatDiv(a, b) else -(NatDiv(-a, b) as int)
  }

  /** `NatDiv` leaves a remainder in 0 .. b-1. */
  lemma {:induction false} NatDivRemainder(a: nat, b: nat)
    requires b > 0
    ensures 0 <= a - NatDiv(a, b) * b < b
    decreases a
  {
    if a >= b {
      NatDivRemainder(a - b, b);
      assert NatDiv(a, b) * b == NatDiv(a - b, b) * b + b;
    }
  }

  /** `NatDiv` is Dafny's division on naturals. */
  lemma NatDivIsDivision(a: nat, b: nat)
    requires b > 0
    ensures NatDiv(a, b) == a / b
  {
    var q, r := NatDiv(a, b), a - NatDiv(a, b) * b;
    NatDivRemainder(a, b);
    DivUnique(a, b, q, r);
  }

  /** The quotient and remainder of a division are unique. */
  lemma DivUnique(a: int, b: int, q: int, r: int)
    requires b > 0 && a == q * b + r && 0 <= r < b
    ensures q == a / b
  {
    var q0, r0 := a / b, a % b;
    assert a == q0 * b + r0;
    if q < q0 {
      assert (q + 1) * b == q * b + b;
      MulLe(q + 1, q0, b);
    } else if q0 < q {
      assert (q0 + 1) * b == q0 * b + b;
      MulLe(q0 + 1, q, b);
    }
  }

  /** Dividing by one changes nothing. */
  lemma {:induction false} NatDivByOne(a: nat)
    ensures NatDiv(a, 1) == a
    decreases a
  {
    if a >= 1 {
      NatDivByOne(a - 1);
    }
  }

  /** Dividing by one changes nothing, whatever the sign. */
  lemma CDivByOne(a: int)
    ensures CDiv(a, 1) == a
  {
    if a >= 0 {
      NatDivByOne(a);
    } else {
      NatDivByOne(-a);
    }
  }

  /** `CDiv` is division truncating toward zero: the remainder has the sign
      of the dividend and is smaller than the divisor. */
  lemma CDivRemainder(a: int, b: int)
    requires b > 0
    ensures 0 <= a ==> 0 <= a - CDiv(a, b) * b < b
    ensures a < 0 ==> -b < a - CDiv(a, b) * b <= 0
    ensures a >= 0 ==> CDiv(a, b) == a / b
    ensures a < 0 ==> CDiv(a, b) == -((-a) / b)
  {
    if a >= 0 {
      NatDivRemainder(a, b);
      NatDivIsDivision(a, b);
    } else {
      NatDivRemainder(-a, b);
      NatDivIsDivision(-a, b);
    }
  }

  /** Rows not yet handed out when block i is laid out (`RestRows`). */
  function RestRows(size: int, p: int, shared: int, i: int): int
    requires 0 <= i < p
    decreases i, 0
  {
    if i == 0 then size
    else RestRows(size, p, shared, i - 1) - RowNum(size, p, shared, i - 1) + shared
  }

  /** The row count of block i (`RowNum`): the remaining rows less two,
      divided by the blocks still to come, plus two. */
  function RowNum(size: int, p: int, shared: int, i: int): int
    requires 0 <= i < p
    decreases i, 1
  {
    CDiv(RestRows(size, p, shared, i) - 2, p - i) + 2
  }

  /** The element count of block i (`pSendNum[i]`, `pReceiveNum[i]`). */
  function SendNum(size: int, p: int, shared: int, i: int): int
    requires 0 <= i < p
  {
    RowNum(size, p, shared, i) * size
  }

  /** The element offset of block i (`pSendInd[i]`, `pReceiveInd[i]`). */
  function SendInd(size: int, p: int, shared: int, i: int): int
    requires 0 <= i < p
  {
    if i == 0 then 0
    else SendInd(size, p, shared, i - 1) + SendNum(size, p, shared, i - 1) - shared * size
  }

  /** The global row that is row 0 of block i. */
  function StartRow(size: int, p: int, shared: int, i: int): int
    requires 0 <= i < p
  {
    if i == 0 then 0
    else StartRow(size, p, shared, i - 1) + RowNum(size, p, shared, i - 1) - shared
  }

  /** The row counts of blocks 0 .. k-1, added up. */
  function SumRowNum(size: int, p: int, shared: int, k: int): int
    requires 0 <= k <= p
  {
    if k == 0 then 0 else SumRowNum(size, p, shared, k - 1) + RowNum(size, p, shared, k - 1)
  }

  // ---------------------------------------------------------------------------
  // The tables, as the loops of DataDistribution and ResultCollection build them.

  /** The table loop of `DataDistribution`: counts and offsets of every block. */
  method DataDistributionLayout(size: int, p: int) returns (sendNum: array<int>, sendInd: array<int>)
    requires p >= 1
    ensures fresh(sendNum) && fresh(sendInd)
    ensures sendNum.Length == p && sendInd.Length == p
    ensures forall i | 0 <= i < p :: sendNum[i] == SendNum(size, p, 1, i)
    ensures forall i | 0 <= i < p :: sendInd[i] == SendInd(size, p, 1, i)
  {
    sendInd := new int[p];
    sendNum := new int[p];
    var restRows := size;
    var rowNum := CDiv(size - 2, p) + 2;
    sendNum[0] := rowNum * size;
    sendInd[0] := 0;
    var i := 1;
    while i < p
      invariant 1 <= i <= p
      invariant restRows == RestRows(size, p, 1, i - 1) && rowNum == RowNum(size, p, 1, i - 1)
      invariant forall k {:trigger sendNum[k]} | 0 <= k < i :: sendNum[k] == SendNum(size, p, 1, k)
      invariant forall k {:trigger sendInd[k]} | 0 <= k < i :: sendInd[k] == SendInd(size, p, 1, k)
    {
      TableStep(size, p, i);
      restRows := restRows - rowNum + 1;
      rowNum := CDiv(restRows - 2, p - i) + 2;
      sendNum[i] := rowNum * size;
      sendInd[i] := sendInd[i - 1] + sendNum[i - 1] - size;
      i := i + 1;
    }
  }

  /** The table loop of `ResultCollection`: the same recurrence, with the
      first offset set before the first count. It builds the same tables as
      `DataDistributionLayout` for every grid size and process count. */
  method ResultCollectionLayout(size: int, p: int) returns (receiveNum: array<int>, receiveInd: array<int>)
    requires p >= 1
    ensures fresh(receiveNum) && fresh(receiveInd)
    ensures receiveNum.Length == p && receiveInd.Length == p
    ensures forall i | 0 <= i < p :: receiveNum[i] == SendNum(size, p, 1, i)
    ensures forall i | 0 <= i < p :: receiveInd[i] == SendInd(size, p, 1, i)
  {
    receiveNum := new int[p];
    receiveInd := new int[p];
    var restRows := size;
    receiveInd[0] := 0;
    var rowNum := CDiv(size - 2, p) + 2;
    receiveNum[0] := rowNum * size;
    var i := 1;
    while i < p
      invariant 1 <= i <= p
      invariant restRows == RestRows(size, p, 1, i - 1) && rowNum == RowNum(size, p, 1, i - 1)
      invariant forall k {:trigger receiveNum[k]} | 0 <= k < i :: receiveNum[k] == SendNum(size, p, 1, k)
      invariant forall k {:trigger receiveInd[k]} | 0 <= k < i :: receiveInd[k] == SendInd(size, p, 1, k)
    {
      TableStep(size, p, i);
      restRows := restRows - rowNum + 1;
      rowNum := CDiv(restRows - 2, p - i) + 2;
      receiveNum[i] := rowNum * size;
      receiveInd[i] := receiveInd[i - 1] + receiveNum[i - 1] - size;
      i := i + 1;
    }
  }

  /** One turn of the table loop: the recurrences for block i, spelled out. */
  lemma TableStep(size: int, p: int, i: int)
    requires 1 <= i < p
    ensures RestRows(size, p, 1, i) == RestRows(size, p, 1, i - 1) - RowNum(size, p, 1, i - 1) + 1
    ensures RowNum(size, p, 1, i) == CDiv(RestRows(size, p, 1, i) - 2, p - i) + 2
    ensures SendNum(size, p, 1, i) == RowNum(size, p, 1, i) * size
    ensures SendInd(size, p, 1, i) == SendInd(size, p, 1, i - 1) + SendNum(size, p, 1, i - 1) - size
  {
  }

  // ---------------------------------------------------------------------------
  // The blocks cover the grid.

  /** Laying out a block takes its rows, less the shared ones, off the
      remaining rows: the next block starts where the remaining rows begin. */
  lemma {:induction false} StartRowPlusRest(size: int, p: int, shared: int, i: int)
    requires 0 <= i < p
    ensures StartRow(size, p, shared, i) + RestRows(size, p, shared, i) == size
  {
    if i > 0 {
      StartRowPlusRest(size, p, shared, i - 1);
    }
  }

  /** The last block takes all remaining rows, so it ends at the grid's last
      row, whatever the grid size. */
  lemma LastBlockEndsAtSize(size: int, p: int, shared: int)
    requires p >= 1
    ensures RowNum(size, p, shared, p - 1) == RestRows(size, p, shared, p - 1)
    ensures StartRow(size, p, shared, p - 1) + RowNum(size, p, shared, p - 1) == size
  {
    StartRowPlusRest(size, p, shared, p - 1);
    CDivByOne(RestRows(size, p, shared, p - 1) - 2);
  }

  lemma Distribute(a: int, b: int, c: int, n: int)
    ensures a * n + b * n - c * n == (a + b - c) * n
  {
  }

  /** Every offset is the block's first row times the row length. */
  lemma {:induction false} SendIndIsStartRow(size: int, p: int, shared: int, i: int)
    requires 0 <= i < p
    ensures SendInd(size, p, shared, i) == StartRow(size, p, shared, i) * size
  {
    if i > 0 {
      SendIndIsStartRow(size, p, shared, i - 1);
      Distribute(StartRow(size, p, shared, i - 1), RowNum(size, p, shared, i - 1), shared, size);
    }
  }

  /** Block k starts after the rows of blocks 0 .. k-1, less the shared rows. */
  lemma {:induction false} StartRowIsSum(size: int, p: int, shared: int, k: int)
    requires 0 <= k < p
    ensures StartRow(size, p, shared, k) == SumRowNum(size, p, shared, k) - shared * k
  {
    if k > 0 {
      StartRowIsSum(size, p, shared, k - 1);
    }
  }

  /** The row counts add up to the grid size once every shared row is
      counted once: `sum RowNum - shared * (p - 1) == size`. */
  lemma RowCountSum(size: int, p: int, shared: int)
    requires p >= 1
    ensures SumRowNum(size, p, shared, p) - shared * (p - 1) == size
  {
    StartRowIsSum(size, p, shared, p - 1);
    LastBlockEndsAtSize(size, p, shared);
  }

  /** One step of the row-count recurrence, with a non-negative numerator:
      the quotient lies in 0 .. x, and x less the quotient stays at least
      m - 1 when x does. */
  lemma DivStep(x: int, m: int)
    requires m >= 1 && x >= m - 1
    ensures 0 <= CDiv(x, m) <= x
    ensures x - CDiv(x, m) >= m - 1
  {
    var q := CDiv(x, m);
    CDivRemainder(x, m);
    if q < 0 {
      MulLe(q, -1, m);
    } else if q >= 1 {
      MulLe(1, q, m - 1);
      assert q * m - q == q * (m - 1);
    }
  }

  /** With more rows than processes and one or two shared rows, block i still
      has at least one row per remaining block plus one, and it gets between
      2 and all of the remaining rows. */
  lemma {:induction false} RowNumBounds(size: int, p: int, shared: int, i: int)
    requires size >= p + 1 && 1 <= shared <= 2 && 0 <= i < p
    ensures RestRows(size, p, shared, i) >= p - i + 1
    ensures 2 <= RowNum(size, p, shared, i) <= RestRows(size, p, shared, i)
  {
    if i > 0 {
      RowNumBounds(size, p, shared, i - 1);
      DivStep(RestRows(size, p, shared, i - 1) - 2, p - (i - 1));
    }
    DivStep(RestRows(size, p, shared, i) - 2, p - i);
  }

  /** Every block starts at or after the one before it, and strictly after it
      when neighbours share one row. */
  lemma StartRowStep(size: int, p: int, shared: int, i: int)
    requires size >= p + 1 && 1 <= shared <= 2 && 0 <= i < p - 1
    ensures StartRow(size, p, shared, i) + 2 - shared <= StartRow(size, p, shared, i + 1)
  {
    RowNumBounds(size, p, shared, i);
  }

  /** Block start rows never decrease. */
  lemma {:induction false} StartRowMonotone(size: int, p: int, shared: int, i: int, j: int)
    requires size >= p + 1 && 1 <= shared <= 2 && 0 <= i <= j < p
    ensures StartRow(size, p, shared, i) <= StartRow(size, p, shared, j)
    decreases j - i
  {
    if i < j {
      StartRowStep(size, p, shared, i);
      StartRowMonotone(size, p, shared, i + 1, j);
    }
  }

  /** Every block lies inside the grid. */
  lemma BlockInGrid(size: int, p: int, shared: int, i: int)
    requires size >= p + 1 && 1 <= shared <= 2 && 0 <= i < p
    ensures 0 <= StartRow(size, p, shared, i)
    ensures StartRow(size, p, shared, i) + RowNum(size, p, shared, i) <= size
  {
    StartRowMonotone(size, p, shared, 0, i);
    StartRowPlusRest(size, p, shared, i);
    RowNumBounds(size, p, shared, i);
  }

  /** Row `r` of block `q` lies in the block's update range: rows
      1 .. RowNum-2 of the block, in global numbering. */
  predicate InBlockInterior(size: int, p: int, shared: int, q: int, r: int)
    requires 0 <= q < p
  {
    StartRow(size, p, shared, q) + 1 <= r <= StartRow(size, p, shared, q) + RowNum(size, p, shared, q) - 2
  }

  /** With one shared row, the last row of block q is row 0 of block q+1, and
      it is an interior row of the grid that no block ever updates. */
  lemma SharedRowNotRelaxed(size: int, p: int, q: int, q2: int)
    requires size >= p + 1 && 0 <= q < p - 1 && 0 <= q2 < p
    ensures StartRow(size, p, 1, q) + RowNum(size, p, 1, q) - 1 == StartRow(size, p, 1, q + 1)
    ensures 1 <= StartRow(size, p, 1, q + 1) <= size - 2
    ensures !InBlockInterior(size, p, 1, q2, StartRow(size, p, 1, q + 1))
  {
    StartRowStep(size, p, 1, q);
    StartRowMonotone(size, p, 1, 0, q);
    BlockInGrid(size, p, 1, q + 1);
    RowNumBounds(size, p, 1, q + 1);
    SharedRowOutside(size, p, q, q2);
  }

  /** The start row of block q+1 lies outside every block's update range. */
  lemma SharedRowOutside(size: int, p: int, q: int, q2: int)
    requires size >= p + 1 && 0 <= q < p - 1 && 0 <= q2 < p
    ensures !InBlockInterior(size, p, 1, q2, StartRow(size, p, 1, q + 1))
  {
    if q2 <= q {
      StartRowMonotone(size, p, 1, q2 + 1, q + 1);
    } else {
      StartRowMonotone(size, p, 1, q + 1, q2);
      RowNumBounds(size, p, 1, q);
    }
  }

  /** With two shared rows, every interior row of the grid is updated by
      exactly one block. */
  lemma HaloLayoutCoversInterior(size: int, p: int, r: int)
    requires p >= 1 && size >= p + 1 && 1 <= r <= size - 2
    ensures exists q | 0 <= q < p :: InBlockInterior(size, p, 2, q, r)
    ensures forall q1, q2 | 0 <= q1 < p && 0 <= q2 < p
              && InBlockInterior(size, p, 2, q1, r) && InBlockInterior(size, p, 2, q2, r) :: q1 == q2
  {
    LastBlockEndsAtSize(size, p, 2);
    InteriorsUpTo(size, p, p - 1, r);
    forall q1, q2 | 0 <= q1 < p && 0 <= q2 < p
        && InBlockInterior(size, p, 2, q1, r) && InBlockInterior(size, p, 2, q2, r)
      ensures q1 == q2
    {
      if q1 < q2 {
        StartRowMonotone(size, p, 2, q1 + 1, q2);
      } else if q2 < q1 {
        StartRowMonotone(size, p, 2, q2 + 1, q1);
      }
    }
  }

  /** With two shared rows, the update ranges of blocks 0 .. k cover the
      grid rows 1 .. up to the end of block k's range. */
  lemma {:induction false} InteriorsUpTo(size: int, p: int, k: int, r: int)
    requires size >= p + 1 && 0 <= k < p
    requires 1 <= r <= StartRow(size, p, 2, k) + RowNum(size, p, 2, k) - 2
    ensures exists q | 0 <= q <= k :: InBlockInterior(size, p, 2, q, r)
  {
    if r <= StartRow(size, p, 2, k) {
      assert k > 0;
      InteriorsUpTo(size, p, k - 1, r);
    } else {
      assert InBlockInterior(size, p, 2, k, r);
    }
  }

  // ---------------------------------------------------------------------------
  // The row count each process works out for itself (ProcessInitialization).

  /** `RestRows` after k rounds of `RestRows - RestRows/(p-i)`. */
  function InitRestRows(size: int, p: int, k: int): int
    requires 0 <= k < p
  {
    if k == 0 then size
    else InitRestRows(size, p, k - 1) - CDiv(InitRestRows(size, p, k - 1), p - (k - 1))
  }

  /** The row count process `rank` allocates its stripe with. */
  function StripeRows(size: int, p: int, rank: int): int
    requires 0 <= rank < p
  {
    CDiv(InitRestRows(size, p, rank) - 2, p - rank) + 2
  }

  /** The loop of `ProcessInitialization` (and `ProcessTestInitialization`)
      that works out the stripe's row count. */
  method StripeRowCount(size: int, p: int, rank: int) returns (rowNum: int)
    requires 0 <= rank < p
    ensures rowNum == StripeRows(size, p, rank)
  {
    var restRows := size;
    var i := 0;
    while i < rank
      invariant 0 <= i <= rank
      invariant restRows == InitRestRows(size, p, i)
    {
      restRows := restRows - CDiv(restRows, p - i);
      i := i + 1;
    }
    rowNum := CDiv(restRows - 2, p - rank) + 2;
  }

  /** The stripe row count agrees with the table for rank 0, and for every
      rank when there are at most two processes. */
  lemma StripeRowsAgree(size: int, p: int, rank: int)
    requires 0 <= rank < p && (rank == 0 || (p <= 2 && size >= 2))
    ensures StripeRows(size, p, rank) == RowNum(size, p, 1, rank)
    ensures StripeRows(size, p, rank) * size == SendNum(size, p, 1, rank)
  {
    if rank == 1 {
      assert p == 2;
      assert CDiv(size, 2) == NatDiv(size, 2) == NatDiv(size - 2, 2) + 1;
      assert CDiv(size - 2, 2) == NatDiv(size - 2, 2);
      assert InitRestRows(size, p, 1) == size - CDiv(size, 2);
      assert RowNum(size, p, 1, 0) == CDiv(size - 2, 2) + 2;
      assert RestRows(size, p, 1, 1) == size - CDiv(size, 2);
      CDivByOne(InitRestRows(size, p, 1) - 2);
      CDivByOne(RestRows(size, p, 1, 1) - 2);
    }
  }

  /** With an 8 x 8 grid on three processes, process 1 allocates 4 rows but
      is sent 3. */
  lemma StripeRowsDisagree()
    ensures StripeRows(8, 3, 1) == 4 && RowNum(8, 3, 1, 1) == 3
  {
    assert InitRestRows(8, 3, 1) == 6;
    assert RowNum(8, 3, 1, 0) == 4;
    assert RestRows(8, 3, 1, 1) == 5;
  }

  /** The stripe row count worked out with the table's own recurrence. */
  method CorrectedStripeRowCount(size: int, p: int, rank: int) returns (rowNum: int)
    requires 0 <= rank < p
    ensures rowNum == RowNum(size, p, 1, rank)
    ensures rowNum * size == SendNum(size, p, 1, rank)
  {
    var restRows := size;
    rowNum := CDiv(size - 2, p) + 2;
    var i := 1;
    while i <= rank
      invariant 1 <= i <= rank + 1
      invariant restRows == RestRows(size, p, 1, i - 1) && rowNum == RowNum(size, p, 1, i - 1)
    {
      restRows := restRows - rowNum + 1;
      rowNum := CDiv(restRows - 2, p - i) + 2;
      i := i + 1;
    }
  }

  // ---------------------------------------------------------------------------
  // The input check.

  /** The grid size the prompt loop accepts: it asks again while the size is
      at most 2 or smaller than the number of processes. */
  predicate SizeAccepted(size: int, p: int)
  {
    !(size <= 2 || size < p)
  }

  /** The check lets a grid as small as the process count through, and then
      the last block gets a single row: its buffer ends at offset `Size`,
      where row 1, which the backward `Sendrecv` sends to the block before,
      would begin. */
  lemma SizeAcceptedAdmitsOneRowBlock()
    ensures SizeAccepted(3, 3) && RowNum(3, 3, 1, 2) == 1
    ensures SendNum(3, 3, 1, 2) < 2 * 3
  {
    assert RowNum(3, 3, 1, 0) == 2;
    assert RestRows(3, 3, 1, 1) == 2;
    assert RowNum(3, 3, 1, 1) == 2;
    assert RestRows(3, 3, 1, 2) == 1;
  }

  /** With as many processes as rows, every block but the last gets two rows
      and the last gets one. */
  lemma {:induction false} SquareLayout(size: int, i: int)
    requires size >= 2 && 0 <= i < size
    ensures RestRows(size, size, 1, i) == size - i
    ensures RowNum(size, size, 1, i) == if i < size - 1 then 2 else 1
    decreases i
  {
    if i > 0 {
      SquareLayout(size, i - 1);
    }
    if i < size - 1 {
      assert CDiv(size - i - 2, size - i) == NatDiv(size - i - 2, size - i) == 0;
    } else {
      assert CDiv(-1, 1) == -(NatDiv(1, 1) as int) == -1;
    }
  }

  /** The check the layout needs: more rows than processes. */
  predicate SizeAcceptedCorrected(size: int, p: int)
  {
    size > 2 && size > p
  }

  /** Under the corrected check every block has at least two rows, so row 1,
      which the backward exchange sends, lies in the block's buffer. */
  lemma SizeAcceptedCorrectedGivesTwoRows(size: int, p: int, i: int)
    requires SizeAcceptedCorrected(size, p) && 0 <= i < p
    ensures RowNum(size, p, 1, i) >= 2
  {
    RowNumBounds(size, p, 1, i);
  }
}
