/**
 * The MPI solver, run in lockstep: every process exchanges its halo rows,
 * sweeps its stripe and contributes its deviation to a global maximum, and
 * all of them stop together once that maximum is at most `eps`. Also the
 * helpers of the test path: the copy of the initial grid and the comparison
 * of the parallel result with the serial one.
 */
module ParallelGS {
  import opened Grid
  import opened Sweep
  import opened Halo
  import SerialGS

  // ---------------------------------------------------------------------------
  // One parallel iteration over all stripes.

  /** `MPI_Allreduce` with `MPI_MAX`: the largest of the processes' values. */
  function MaxOf(xs: seq<real>): (m: real)
    requires |xs| >= 1
    ensures forall k | 0 <= k < |xs| :: xs[k] <= m
    ensures exists k | 0 <= k < |xs| :: m == xs[k]
  {
    if |xs| == 1 then xs[0]
    else
      var m0 := MaxOf(xs[..|xs| - 1]);
      var k0 :| 0 <= k0 < |xs| - 1 && m0 == xs[..|xs| - 1][k0];
      assert m0 == xs[k0];
      if m0 < xs[|xs| - 1] then xs[|xs| - 1] else m0
  }

  /** Stripes of rows of `size` cells, stripe q holding `rowNums[q]` rows. */
  predicate Shaped(stripes: seq<seq<seq<real>>>, size: nat, rowNums: seq<nat>)
  {
    StripesShaped(stripes, rowNums) && StripeRowsShaped(stripes, size)
  }

  /** Stripe q as the flat buffer `pProcRows` of its process. */
  function Buffer(stripes: seq<seq<seq<real>>>, size: nat, rowNums: seq<nat>, q: int): (b: seq<real>)
    requires Shaped(stripes, size, rowNums) && 0 <= q < |stripes|
    ensures |b| == rowNums[q] * size
  {
    assert RowsShaped(stripes[q], size);
    Flatten(stripes[q], size)
  }

  /** Stripe q after its process has run `IterationCalculation` on its
      buffer. */
  function RelaxStripe(stripes: seq<seq<seq<real>>>, size: nat, rowNums: seq<nat>, q: int): (s: seq<seq<real>>)
    requires Shaped(stripes, size, rowNums) && 0 <= q < |stripes|
    ensures |s| == rowNums[q] && RowsShaped(s, size)
  {
    Rows(SweepGrid(Buffer(stripes, size, rowNums, q), size, rowNums[q]).grid, size, rowNums[q])
  }

  /** Every stripe after its process has run `IterationCalculation` on it. */
  function RelaxStripes(stripes: seq<seq<seq<real>>>, size: nat, rowNums: seq<nat>): (r: seq<seq<seq<real>>>)
    requires Shaped(stripes, size, rowNums)
    ensures Shaped(r, size, rowNums)
    ensures forall q | 0 <= q < |r| :: r[q] == RelaxStripe(stripes, size, rowNums, q)
  {
    var r := seq(|stripes|, q requires 0 <= q < |stripes| => RelaxStripe(stripes, size, rowNums, q));
    forall q | 0 <= q < |r|
      ensures r[q] == RelaxStripe(stripes, size, rowNums, q)
      ensures rowNums[q] >= 2 && |r[q]| == rowNums[q] && RowsShaped(r[q], size)
    {
      assert |stripes[q]| == rowNums[q];
    }
    r
  }

  /** The `ProcDelta` of processes 0 .. k-1: the deviation
      `IterationCalculation` reports for each one's buffer. */
  function ProcDeltasTo(stripes: seq<seq<seq<real>>>, size: nat, rowNums: seq<nat>, k: nat): (d: seq<real>)
    requires Shaped(stripes, size, rowNums) && k <= |stripes|
    ensures |d| == k
    decreases k
  {
    if k == 0 then []
    else ProcDeltasTo(stripes, size, rowNums, k - 1) + [Deviation(Buffer(stripes, size, rowNums, k - 1), size, rowNums[k - 1])]
  }

  /** The `ProcDelta` of every process. */
  function ProcDeltas(stripes: seq<seq<seq<real>>>, size: nat, rowNums: seq<nat>): (d: seq<real>)
    requires Shaped(stripes, size, rowNums)
    ensures |d| == |stripes|
  {
    ProcDeltasTo(stripes, size, rowNums, |stripes|)
  }

  /** Entry q of `ProcDeltas` is process q's deviation. */
  lemma {:induction false} ProcDeltasAt(stripes: seq<seq<seq<real>>>, size: nat, rowNums: seq<nat>, k: nat, q: nat)
    requires Shaped(stripes, size, rowNums) && q < k <= |stripes|
    ensures ProcDeltasTo(stripes, size, rowNums, k)[q] == Deviation(Buffer(stripes, size, rowNums, q), size, rowNums[q])
    decreases k
  {
    if q < k - 1 {
      ProcDeltasAt(stripes, size, rowNums, k - 1, q);
    }
  }

  /** The exchange, on stripes of whole rows. */
  function Exchanged(stripes: seq<seq<seq<real>>>, size: nat, rowNums: seq<nat>): (e: seq<seq<seq<real>>>)
    requires Shaped(stripes, size, rowNums)
    ensures Shaped(e, size, rowNums)
    ensures e == ExchangeData(stripes, rowNums)
  {
    ExchangeKeepsRowsShaped(stripes, size, rowNums);
    ExchangeData(stripes, rowNums)
  }

  /** The stripes after one turn of the loop: exchange, then sweep. */
  function ParallelStep(stripes: seq<seq<seq<real>>>, size: nat, rowNums: seq<nat>): (r: seq<seq<seq<real>>>)
    requires Shaped(stripes, size, rowNums)
    ensures Shaped(r, size, rowNums)
  {
    RelaxStripes(Exchanged(stripes, size, rowNums), size, rowNums)
  }

  /** The `Delta` every process sees after the turn of the loop that starts
      from `stripes`. */
  function GlobalDelta(stripes: seq<seq<seq<real>>>, size: nat, rowNums: seq<nat>): real
    requires Shaped(stripes, size, rowNums)
  {
    MaxOf(ProcDeltas(Exchanged(stripes, size, rowNums), size, rowNums))
  }

  /** The stripes after n turns of the loop, the first turn starting from
      `stripes`. */
  function ParallelRuns(stripes: seq<seq<seq<real>>>, size: nat, rowNums: seq<nat>, n: nat): (r: seq<seq<seq<real>>>)
    requires Shaped(stripes, size, rowNums)
    ensures Shaped(r, size, rowNums)
    decreases n
  {
    if n == 0 then stripes else ParallelRuns(ParallelStep(stripes, size, rowNums), size, rowNums, n - 1)
  }

  /** The `Delta` of turn n, n >= 1, the first turn starting from `stripes`. */
  function TurnDelta(stripes: seq<seq<seq<real>>>, size: nat, rowNums: seq<nat>, n: nat): real
    requires Shaped(stripes, size, rowNums) && n >= 1
    decreases n
  {
    if n == 1 then GlobalDelta(stripes, size, rowNums)
    else TurnDelta(ParallelStep(stripes, size, rowNums), size, rowNums, n - 1)
  }

  /** Turn n starts from the stripes of n - 1 turns. */
  lemma {:induction false} RunsLast(stripes: seq<seq<seq<real>>>, size: nat, rowNums: seq<nat>, n: nat)
    requires Shaped(stripes, size, rowNums) && n >= 1
    ensures ParallelRuns(stripes, size, rowNums, n) == ParallelStep(ParallelRuns(stripes, size, rowNums, n - 1), size, rowNums)
    ensures TurnDelta(stripes, size, rowNums, n) == GlobalDelta(ParallelRuns(stripes, size, rowNums, n - 1), size, rowNums)
    decreases n
  {
    if n > 1 {
      RunsLast(ParallelStep(stripes, size, rowNums), size, rowNums, n - 1);
    }
  }

  /** Every process runs `IterationCalculation` on its own buffer, which
      holds its stripe after the exchange. */
  method RanksIterate(e: seq<seq<seq<real>>>, size: nat, rowNums: seq<nat>) returns (next: seq<seq<seq<real>>>, procDelta: seq<real>)
    requires Shaped(e, size, rowNums)
    ensures next == RelaxStripes(e, size, rowNums)
    ensures procDelta == ProcDeltas(e, size, rowNums)
  {
    next, procDelta := [], [];
    var q := 0;
    while q < |e|
      invariant 0 <= q <= |e| && |next| == q && |procDelta| == q
      invariant forall k | 0 <= k < q :: next[k] == RelaxStripe(e, size, rowNums, k)
      invariant procDelta == ProcDeltasTo(e, size, rowNums, q)
    {
      var buffer := Buffer(e, size, rowNums, q);
      var procRows := new real[|buffer|](k requires 0 <= k < |buffer| => buffer[k]);
      assert procRows[..] == buffer;
      var d := IterationCalculation(procRows, size, rowNums[q]);
      next := next + [Rows(procRows[..], size, rowNums[q])];
      procDelta := procDelta + [d];
      q := q + 1;
    }
  }

  /** The body of the loop of `ParallelResultCalculation`: the halo exchange,
      `IterationCalculation` on every process and the `MPI_Allreduce` of the
      processes' deviations. */
  method ParallelIteration(stripes: seq<seq<seq<real>>>, size: nat, rowNums: seq<nat>) returns (next: seq<seq<seq<real>>>, delta: real)
    requires Shaped(stripes, size, rowNums)
    ensures next == ParallelStep(stripes, size, rowNums)
    ensures delta == GlobalDelta(stripes, size, rowNums)
  {
    var e := Exchanged(stripes, size, rowNums);
    var procDelta;
    next, procDelta := RanksIterate(e, size, rowNums);
    delta := MaxOf(procDelta);
  }

  /** Turn n of the loop, n >= 1, run on the stripes the n - 1 turns before
      it have left: the stripes of n turns and the global deviation of turn
      n. */
  method Turn(stripes: seq<seq<seq<real>>>, size: nat, rowNums: seq<nat>, n: nat, prev: seq<seq<seq<real>>>)
    returns (next: seq<seq<seq<real>>>, delta: real)
    requires Shaped(stripes, size, rowNums) && n >= 1 && prev == ParallelRuns(stripes, size, rowNums, n - 1)
    ensures next == ParallelRuns(stripes, size, rowNums, n)
    ensures delta == TurnDelta(stripes, size, rowNums, n)
  {
    next, delta := ParallelIteration(prev, size, rowNums);
    RunsLast(stripes, size, rowNums, n);
  }

  /** Turns 1 .. k-1 all ended with a global deviation above `eps`. */
  ghost predicate AboveUntil(stripes: seq<seq<seq<real>>>, size: nat, rowNums: seq<nat>, eps: real, k: nat)
    requires Shaped(stripes, size, rowNums)
    decreases k
  {
    k <= 1 || (AboveUntil(stripes, size, rowNums, eps, k - 1) && TurnDelta(stripes, size, rowNums, k - 1) > eps)
  }

  /** A turn that ends above `eps` extends `AboveUntil` by one turn. */
  lemma AboveUntilStep(stripes: seq<seq<seq<real>>>, size: nat, rowNums: seq<nat>, eps: real, k: nat)
    requires Shaped(stripes, size, rowNums) && k >= 1
    requires AboveUntil(stripes, size, rowNums, eps, k) && TurnDelta(stripes, size, rowNums, k) > eps
    ensures AboveUntil(stripes, size, rowNums, eps, k + 1)
  {
  }

  /** `AboveUntil` says what it says of every turn before k. */
  lemma {:induction false} AboveUntilAll(stripes: seq<seq<seq<real>>>, size: nat, rowNums: seq<nat>, eps: real, k: nat)
    requires Shaped(stripes, size, rowNums) && AboveUntil(stripes, size, rowNums, eps, k)
    ensures forall n | 1 <= n < k :: TurnDelta(stripes, size, rowNums, n) > eps
    decreases k
  {
    if k > 1 {
      AboveUntilAll(stripes, size, rowNums, eps, k - 1);
    }
  }

  /** `ParallelResultCalculation`: turns of exchange, sweep and global maximum,
      counted, until the global deviation is at most `eps`. The count is
      bounded by `fuel`; `delta` is the global deviation of the last turn. */
  method ParallelResultCalculation(stripes: seq<seq<seq<real>>>, size: nat, rowNums: seq<nat>, eps: real, fuel: nat)
    returns (result: seq<seq<seq<real>>>, iterations: nat, delta: real)
    requires Shaped(stripes, size, rowNums) && fuel >= 1
    ensures 1 <= iterations <= fuel
    ensures result == ParallelRuns(stripes, size, rowNums, iterations)
    ensures delta == TurnDelta(stripes, size, rowNums, iterations)
    ensures forall n | 1 <= n < iterations :: TurnDelta(stripes, size, rowNums, n) > eps
    ensures delta > eps ==> iterations == fuel
  {
    // The body of the `do ... while` runs once before the condition is
    // first tested.
    iterations := 1;
    result, delta := Turn(stripes, size, rowNums, 1, stripes);
    while delta > eps && iterations < fuel
      invariant 1 <= iterations <= fuel
      invariant result == ParallelRuns(stripes, size, rowNums, iterations)
      invariant delta == TurnDelta(stripes, size, rowNums, iterations)
      invariant AboveUntil(stripes, size, rowNums, eps, iterations)
      decreases fuel - iterations
    {
      AboveUntilStep(stripes, size, rowNums, eps, iterations);
      iterations := iterations + 1;
      result, delta := Turn(stripes, size, rowNums, iterations, result);
    }
    AboveUntilAll(stripes, size, rowNums, eps, iterations);
  }

  // ---------------------------------------------------------------------------
  // One process is the serial solver.

  /** The whole grid as the one stripe of a single process. */
  function WholeGrid(g: seq<real>, size: nat): (stripes: seq<seq<seq<real>>>)
    requires |g| == size * size && size >= 2
    ensures Shaped(stripes, size, [size])
  {
    [Rows(g, size, size)]
  }

  /** With a single process holding the whole grid, the exchange does
      nothing: one turn of the parallel loop is one serial sweep. */
  lemma SingleProcessStep(g: seq<real>, size: nat, n: nat)
    requires |g| == size * size && size >= 2
    ensures ParallelStep(WholeGrid(Sweeps(g, size, size, n), size), size, [size])
            == WholeGrid(Sweeps(g, size, size, n + 1), size)
  {
    var h := Sweeps(g, size, size, n);
    var w := WholeGrid(h, size);
    ExchangeSingleIsIdentity(w, [size]);
    FlattenOfRows(h, size, size);
    assert Buffer(w, size, [size], 0) == h;
    assert RelaxStripes(w, size, [size])[0] == WholeGrid(Sweeps(g, size, size, n + 1), size)[0];
  }

  /** ... and its global deviation is the deviation of that sweep. */
  lemma SingleProcessDelta(h: seq<real>, size: nat)
    requires |h| == size * size && size >= 2
    ensures GlobalDelta(WholeGrid(h, size), size, [size]) == Deviation(h, size, size)
  {
    var w := WholeGrid(h, size);
    ExchangeSingleIsIdentity(w, [size]);
    FlattenOfRows(h, size, size);
    assert Buffer(w, size, [size], 0) == h;
    assert ProcDeltas(w, size, [size]) == [Deviation(h, size, size)];
  }

  /** Each turn of the parallel loop on the whole grid is one serial
      sweep. */
  lemma {:induction false} SingleProcessRuns(g: seq<real>, size: nat, n: nat)
    requires |g| == size * size && size >= 2
    ensures ParallelRuns(WholeGrid(g, size), size, [size], n) == WholeGrid(Sweeps(g, size, size, n), size)
    decreases n
  {
    if n > 0 {
      SingleProcessRuns(g, size, n - 1);
      RunsLast(WholeGrid(g, size), size, [size], n);
      SingleProcessStep(g, size, n - 1);
    }
  }

  /** Each turn of the parallel loop on the whole grid has the deviation of
      the serial sweep it makes. */
  lemma SingleProcessIsSerial(g: seq<real>, size: nat, n: nat)
    requires |g| == size * size && size >= 2
    ensures ParallelRuns(WholeGrid(g, size), size, [size], n) == WholeGrid(Sweeps(g, size, size, n), size)
    ensures n >= 1 ==> TurnDelta(WholeGrid(g, size), size, [size], n) == Deviation(Sweeps(g, size, size, n - 1), size, size)
  {
    SingleProcessRuns(g, size, n);
    if n >= 1 {
      SingleProcessRuns(g, size, n - 1);
      RunsLast(WholeGrid(g, size), size, [size], n);
      SingleProcessDelta(Sweeps(g, size, size, n - 1), size);
    }
  }

  /** Run on one process holding the whole grid, the parallel solver and the
      serial one stop after the same number of iterations, with the same
      deviation and the same grid. */
  lemma SingleProcessMatchesSerial(g: seq<real>, size: nat, eps: real, fuel: nat,
                                   parallelResult: seq<seq<seq<real>>>, parallelIterations: nat, parallelDelta: real,
                                   serialResult: seq<real>, serialIterations: nat, serialDelta: real)
    requires |g| == size * size && size >= 2 && fuel >= 1
    requires 1 <= parallelIterations <= fuel
    requires parallelResult == ParallelRuns(WholeGrid(g, size), size, [size], parallelIterations)
    requires parallelDelta == TurnDelta(WholeGrid(g, size), size, [size], parallelIterations)
    requires forall n | 1 <= n < parallelIterations :: TurnDelta(WholeGrid(g, size), size, [size], n) > eps
    requires parallelDelta > eps ==> parallelIterations == fuel
    requires 1 <= serialIterations <= fuel
    requires serialResult == Sweeps(g, size, size, serialIterations)
    requires serialDelta == Deviation(Sweeps(g, size, size, serialIterations - 1), size, size)
    requires forall n | 0 <= n < serialIterations - 1 :: Deviation(Sweeps(g, size, size, n), size, size) > eps
    requires serialDelta > eps ==> serialIterations == fuel
    ensures parallelIterations == serialIterations && parallelDelta == serialDelta
    ensures |parallelResult| == 1 && Flatten(parallelResult[0], size) == serialResult
  {
    SingleProcessIsSerial(g, size, parallelIterations);
    SingleProcessIsSerial(g, size, serialIterations);
    FlattenOfRows(serialResult, size, size);
  }

  // ---------------------------------------------------------------------------
  // The test path: copying the initial grid and comparing the results.

  /** `dst` with its first n positions taken from `src`. */
  function CopyPrefix(src: seq<real>, dst: seq<real>, n: nat): (r: seq<real>)
    requires n <= |src| && n <= |dst|
    ensures |r| == |dst|
    ensures forall k | 0 <= k < n :: r[k] == src[k]
    ensures forall k | n <= k < |dst| :: r[k] == dst[k]
  {
    src[..n] + dst[n..]
  }

  /** `CopyData` as written: `std::copy` of the first `size` values only, one
      row of the grid. */
  method CopyData(pMatrix: array<real>, size: nat, pSerialMatrix: array<real>)
    requires pMatrix.Length == size * size && pSerialMatrix.Length == size * size
    requires pMatrix != pSerialMatrix
    modifies pSerialMatrix
    ensures size <= size * size
    ensures pSerialMatrix[..] == CopyPrefix(pMatrix[..], old(pSerialMatrix[..]), size)
  {
    if size > 0 {
      MulLe(1, size, size);
    }
    var k := 0;
    while k < size
      invariant 0 <= k <= size
      invariant pSerialMatrix[..] == CopyPrefix(pMatrix[..], old(pSerialMatrix[..]), k)
    {
      pSerialMatrix[k] := pMatrix[k];
      k := k + 1;
    }
  }

  /** The copy the test needs: all `size * size` values of the grid. */
  method CopyGrid(pMatrix: array<real>, size: nat, pSerialMatrix: array<real>)
    requires pMatrix.Length == size * size && pSerialMatrix.Length == size * size
    requires pMatrix != pSerialMatrix
    modifies pSerialMatrix
    ensures pSerialMatrix[..] == pMatrix[..]
  {
    var k := 0;
    while k < size * size
      invariant 0 <= k <= size * size
      invariant pSerialMatrix[..] == CopyPrefix(pMatrix[..], old(pSerialMatrix[..]), k)
    {
      pSerialMatrix[k] := pMatrix[k];
      k := k + 1;
    }
  }

  /** Copying one row leaves every later cell of the copy as it was: the
      serial run starts from a grid that is not the parallel one as soon as
      any later cell of the copy held something else. */
  lemma CopyDataMissesLaterRows(src: seq<real>, dst: seq<real>, size: nat, k: nat)
    requires |src| == size * size && |dst| == size * size
    requires size <= k < size * size && src[k] != dst[k]
    ensures CopyPrefix(src, dst, size) != src
  {
    assert CopyPrefix(src, dst, size)[k] == dst[k];
  }

  /** Copying the whole grid gives the grid, whatever the copy held before. */
  lemma CopyWholeGrid(src: seq<real>, dst: seq<real>)
    requires |src| == |dst|
    ensures CopyPrefix(src, dst, |src|) == src
  {
    assert CopyPrefix(src, dst, |src|) == src[..|src|] + [];
  }

  /** Cell 0 of the two results differs by at least `eps`. */
  predicate FirstCellDiffers(s: seq<real>, m: seq<real>, n: int, eps: real)
    requires n <= |s| && n <= |m|
  {
    n > 0 && Abs(s[0] - m[0]) >= eps
  }

  /** Some cell below n of the two results differs by at least `eps`. */
  predicate SomeCellDiffers(s: seq<real>, m: seq<real>, n: int, eps: real)
    requires n <= |s| && n <= |m|
  {
    exists i | 0 <= i < n :: Abs(s[i] - m[i]) >= eps
  }

  /** The comparison loop of `TestResult` as written: the `break` sits
      outside the `if`, so the loop stops after cell 0. */
  method CompareResults(pSerialMatrix: array<real>, pMatrix: array<real>, size: nat, eps: real) returns (equal: int)
    requires pSerialMatrix.Length == size * size && pMatrix.Length == size * size
    ensures equal == if FirstCellDiffers(pSerialMatrix[..], pMatrix[..], size * size, eps) then 1 else 0
  {
    equal := 0;
    for i := 0 to size * size
      invariant equal == 0
    {
      if Abs(pSerialMatrix[i] - pMatrix[i]) >= eps {
        equal := 1;
      }
      break;
    }
  }

  /** The comparison `TestResult` is meant to make: every cell. */
  method CompareAllCells(pSerialMatrix: array<real>, pMatrix: array<real>, size: nat, eps: real) returns (equal: int)
    requires pSerialMatrix.Length == size * size && pMatrix.Length == size * size
    ensures equal == if SomeCellDiffers(pSerialMatrix[..], pMatrix[..], size * size, eps) then 1 else 0
  {
    equal := 0;
    var i := 0;
    while i < size * size
      invariant 0 <= i <= size * size
      invariant equal == if SomeCellDiffers(pSerialMatrix[..], pMatrix[..], i, eps) then 1 else 0
    {
      if Abs(pSerialMatrix[i] - pMatrix[i]) >= eps {
        equal := 1;
      }
      i := i + 1;
    }
  }

  /** A difference the comparison as written reports is a real one. */
  lemma FirstCellDiffersIsSomeCell(s: seq<real>, m: seq<real>, n: int, eps: real)
    requires n <= |s| && n <= |m| && FirstCellDiffers(s, m, n, eps)
    ensures SomeCellDiffers(s, m, n, eps)
  {
    assert Abs(s[0] - m[0]) >= eps;
  }

  /** On a 2 x 2 grid whose results differ only in cell 1, the comparison as
      written finds the results identical. */
  lemma ComparisonMissesLaterCells()
    ensures !FirstCellDiffers([0.0, 0.0, 0.0, 0.0], [0.0, 1.0, 0.0, 0.0], 4, 0.5)
    ensures SomeCellDiffers([0.0, 0.0, 0.0, 0.0], [0.0, 1.0, 0.0, 0.0], 4, 0.5)
  {
    var s, m := [0.0, 0.0, 0.0, 0.0], [0.0, 1.0, 0.0, 0.0];
    assert Abs(s[1] - m[1]) >= 0.5;
  }

  /** `TestResult` on the root process: the serial solver runs on the copy
      until a sweep's deviation is at most `eps` (or `fuel` runs out), the
      parallel result is left alone, and the comparison as written decides
      `equal`. */
  method TestResult(pMatrix: array<real>, pSerialMatrix: array<real>, size: nat, eps: real, fuel: nat)
    returns (equal: int, iter: nat, dmax: real)
    requires pMatrix.Length == size * size && pSerialMatrix.Length == size * size
    requires pMatrix != pSerialMatrix && fuel >= 1
    modifies pSerialMatrix
    ensures 1 <= iter <= fuel
    ensures pSerialMatrix[..] == Sweeps(old(pSerialMatrix[..]), size, size, iter)
    ensures dmax == Deviation(Sweeps(old(pSerialMatrix[..]), size, size, iter - 1), size, size)
    ensures forall n | 0 <= n < iter - 1 :: Deviation(Sweeps(old(pSerialMatrix[..]), size, size, n), size, size) > eps
    ensures dmax > eps ==> iter == fuel
    ensures pMatrix[..] == old(pMatrix[..])
    ensures equal == if FirstCellDiffers(pSerialMatrix[..], pMatrix[..], size * size, eps) then 1 else 0
  {
    iter, dmax := SerialGS.ResultCalculation(pSerialMatrix, size, eps, fuel);
    equal := CompareResults(pSerialMatrix, pMatrix, size, eps);
  }
}
