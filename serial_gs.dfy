/**
 * The serial solver: the test grid it starts from and the loop that repeats
 * Gauss-Seidel sweeps until one of them changes no interior cell by more
 * than the accuracy `eps`.
 */
module SerialGS {
  import opened Grid
  import opened Sweep

  /** The value `DummyDataInitialization` gives cell (r, c): 100 on the
      first and last row and column, 0 inside. */
  function DummyCell(size: nat, r: int, c: int): real
  {
    if IsInterior(size, size, r, c) then 0.0 else 100.0
  }

  /** The whole grid `DummyDataInitialization` writes. */
  function DummyGrid(size: nat): (g: seq<real>)
    ensures |g| == size * size
    ensures forall r, c | InGrid(size, size, r, c) :: Cell(g, size, size, r, c) == DummyCell(size, r, c)
  {
    var g := seq(size * size, k => if size == 0 then 0.0 else DummyCell(size, k / size, k % size));
    forall r, c | InGrid(size, size, r, c)
      ensures Cell(g, size, size, r, c) == DummyCell(size, r, c)
    {
      var k := Idx(size, r, c);
      IdxInRange(size, size, r, c);
      IdxSplit(size, size, k);
      IdxOrder(size, r, c, k / size, k % size);
    }
    g
  }

  /** `DummyDataInitialization`: every cell of the `size` x `size` buffer is
      written, row by row, with 100 on the boundary and 0 inside. */
  method DummyDataInitialization(a: array<real>, size: nat)
    requires a.Length == size * size
    modifies a
    ensures forall r, c | InGrid(size, size, r, c) ::
              Cell(a[..], size, size, r, c) == if IsInterior(size, size, r, c) then 0.0 else 100.0
    ensures a[..] == DummyGrid(size)
  {
    var i := 0;
    while i < size
      invariant 0 <= i <= size
      invariant forall r, c | InGrid(size, size, r, c) && r < i ::
                  Cell(a[..], size, size, r, c) == DummyCell(size, r, c)
    {
      var j := 0;
      while j < size
        invariant 0 <= j <= size
        invariant forall r, c | InGrid(size, size, r, c) && Before(r, c, i, j) ::
                    Cell(a[..], size, size, r, c) == DummyCell(size, r, c)
      {
        ghost var before := a[..];
        IdxInRange(size, size, i, j);
        var v: real;
        if i == 0 || i == size - 1 || j == 0 || j == size - 1 {
          v := 100.0;
        } else {
          v := 0.0;
        }
        a[i * size + j] := v;
        assert a[..] == SetCell(before, size, size, i, j, v);
        forall r, c | InGrid(size, size, r, c) && Before(r, c, i, j + 1)
          ensures Cell(a[..], size, size, r, c) == DummyCell(size, r, c)
        {
          CellOfSetCell(before, size, size, i, j, v, r, c);
        }
        j := j + 1;
      }
      i := i + 1;
    }
    CellsDetermine(a[..], DummyGrid(size), size, size);
  }

  /** However many sweeps run on the test grid, its boundary stays at 100. */
  lemma DummyBoundaryStays(size: nat, n: nat, r: int, c: int)
    requires InGrid(size, size, r, c) && !IsInterior(size, size, r, c)
    ensures Cell(Sweeps(DummyGrid(size), size, size, n), size, size, r, c) == 100.0
  {
    SweepsKeepBoundary(DummyGrid(size), size, size, n, r, c);
  }

  /** `ResultCalculation`: sweeps over the whole grid, counting them, until a
      sweep reports a deviation of at most `eps`. The count is bounded by
      `fuel`; `dmax` is the deviation of the last sweep run. */
  method ResultCalculation(a: array<real>, size: nat, eps: real, fuel: nat) returns (iterations: nat, dmax: real)
    requires a.Length == size * size && fuel >= 1
    modifies a
    ensures 1 <= iterations <= fuel
    ensures a[..] == Sweeps(old(a[..]), size, size, iterations)
    ensures dmax == Deviation(Sweeps(old(a[..]), size, size, iterations - 1), size, size)
    ensures forall n | 0 <= n < iterations - 1 :: Deviation(Sweeps(old(a[..]), size, size, n), size, size) > eps
    ensures dmax > eps ==> iterations == fuel
  {
    ghost var g := a[..];
    iterations := 0;
    dmax := IterationCalculation(a, size, size);
    iterations := iterations + 1;
    while dmax > eps && iterations < fuel
      invariant 1 <= iterations <= fuel
      invariant a[..] == Sweeps(g, size, size, iterations)
      invariant dmax == Deviation(Sweeps(g, size, size, iterations - 1), size, size)
      invariant forall n | 0 <= n < iterations - 1 :: Deviation(Sweeps(g, size, size, n), size, size) > eps
      decreases fuel - iterations
    {
      dmax := IterationCalculation(a, size, size);
      iterations := iterations + 1;
    }
  }
}
