/**
 * One Gauss-Seidel sweep over a flat row-major buffer: the nested loops of
 * `IterationCalculation`, which `SerialResultCalculation` and the serial
 * `ResultCalculation` repeat verbatim with `RowNum = Size`.
 *
 * The sweep is specified twice: operationally, cell by cell in row-major
 * order (`SweepGrid`), and declaratively (`IsGaussSeidelSweep`, `IsMaxChange`).
 * The lemmas show that the two agree and that the declarative form has only
 * one solution.
 */
module Sweep {
  import opened Grid

  /** The stencil value of interior cell (r, c): right and down are read from
      `g`, the buffer before the sweep, and left and up from `h`, the buffer
      the sweep has already updated. */
  function Stencil(g: seq<real>, h: seq<real>, size: nat, rows: nat, r: int, c: int): real
    requires |g| == rows * size && |h| == |g| && IsInterior(size, rows, r, c)
  {
    0.25 * (Cell(g, size, rows, r, c + 1) + Cell(h, size, rows, r, c - 1)
            + Cell(g, size, rows, r + 1, c) + Cell(h, size, rows, r - 1, c))
  }

  /** The absolute change of cell (r, c) from `g` to `h`. */
  function Change(g: seq<real>, h: seq<real>, size: nat, rows: nat, r: int, c: int): real
    requires |g| == rows * size && |h| == |g| && InGrid(size, rows, r, c)
  {
    Abs(Cell(h, size, rows, r, c) - Cell(g, size, rows, r, c))
  }

  /** `h` is the result of one Gauss-Seidel sweep over `g`: cells outside the
      interior keep their values, and every interior cell holds the average of
      its old right and down neighbours and its new left and up neighbours. */
  ghost predicate IsGaussSeidelSweep(g: seq<real>, h: seq<real>, size: nat, rows: nat)
  {
    |g| == rows * size && |h| == |g|
    && (forall r, c | InGrid(size, rows, r, c) && !IsInterior(size, rows, r, c) ::
          Cell(h, size, rows, r, c) == Cell(g, size, rows, r, c))
    && (forall r, c {:trigger Stencil(g, h, size, rows, r, c)} | IsInterior(size, rows, r, c) ::
          Cell(h, size, rows, r, c) == Stencil(g, h, size, rows, r, c))
  }

  /** `d` is the largest absolute change of an interior cell from `g` to `h`,
      or 0 when there is none larger: the `dmax` that starts at 0 and is raised
      by `if (dmax < dm) dmax = dm`. */
  ghost predicate IsMaxChange(g: seq<real>, h: seq<real>, d: real, size: nat, rows: nat)
  {
    |g| == rows * size && |h| == |g|
    && 0.0 <= d
    && (forall r, c | IsInterior(size, rows, r, c) :: Change(g, h, size, rows, r, c) <= d)
    && (d == 0.0 || exists r, c | IsInterior(size, rows, r, c) :: d == Change(g, h, size, rows, r, c))
  }

  /** The buffer and the running `dmax` while a sweep is in progress. */
  datatype SweepState = SweepState(grid: seq<real>, dmax: real)

  /** The body of the inner loop on cell (r, c): the cell takes the average of
      its four neighbours as the buffer holds them now, and `dmax` is raised
      to the cell's change if that is larger. */
  function RelaxCell(st: SweepState, size: nat, rows: nat, r: int, c: int): (st': SweepState)
    requires |st.grid| == rows * size && IsInterior(size, rows, r, c)
    ensures |st'.grid| == |st.grid|
  {
    IdxInRange(size, rows, r + 1, c);
    IdxInRange(size, rows, r - 1, c);
    var k := Idx(size, r, c);
    var v := 0.25 * (st.grid[k + 1] + st.grid[k - 1]
                     + st.grid[Idx(size, r + 1, c)] + st.grid[Idx(size, r - 1, c)]);
    var dm := Abs(v - st.grid[k]);
    SweepState(SetCell(st.grid, size, rows, r, c, v), if st.dmax < dm then dm else st.dmax)
  }

  /** Row r after the inner loop has relaxed its columns 1 .. c-1. */
  function SweepRowTo(st: SweepState, size: nat, rows: nat, r: int, c: int): (st': SweepState)
    requires |st.grid| == rows * size && 1 <= r <= rows - 2 && 1 <= c <= LoopEnd(size)
    ensures |st'.grid| == |st.grid|
    decreases c
  {
    if c == 1 then st
    else RelaxCell(SweepRowTo(st, size, rows, r, c - 1), size, rows, r, c - 1)
  }

  /** The state at the top of the outer loop with counter r: rows 1 .. r-1
      are relaxed and `dmax` started from 0. */
  function SweepRowsTo(g: seq<real>, size: nat, rows: nat, r: int): (st: SweepState)
    requires |g| == rows * size && 1 <= r <= LoopEnd(rows)
    ensures |st.grid| == |g|
    decreases r
  {
    if r == 1 then SweepState(g, 0.0)
    else SweepRowTo(SweepRowsTo(g, size, rows, r - 1), size, rows, r - 1, LoopEnd(size))
  }

  /** The buffer and `dmax` after one whole sweep. */
  function SweepGrid(g: seq<real>, size: nat, rows: nat): (st: SweepState)
    requires |g| == rows * size
    ensures |st.grid| == |g|
  {
    SweepRowsTo(g, size, rows, LoopEnd(rows))
  }

  /** The deviation `dmax` one sweep over `g` reports. */
  function Deviation(g: seq<real>, size: nat, rows: nat): real
    requires |g| == rows * size
  {
    SweepGrid(g, size, rows).dmax
  }

  /** The buffer after n sweeps. */
  function Sweeps(g: seq<real>, size: nat, rows: nat, n: nat): (h: seq<real>)
    requires |g| == rows * size
    ensures |h| == |g|
  {
    if n == 0 then g else SweepGrid(Sweeps(g, size, rows, n - 1), size, rows).grid
  }

  // ---------------------------------------------------------------------------
  // The sweep in progress: the cells before the cursor (i, j) are done.

  /** Every cell other than the relaxed ones before (i, j) in row-major order
      still has its value from `g`. */
  ghost predicate FrameBefore(g: seq<real>, h: seq<real>, size: nat, rows: nat, i: int, j: int)
  {
    |g| == rows * size && |h| == |g|
    && forall r, c | InGrid(size, rows, r, c) && !(IsInterior(size, rows, r, c) && Before(r, c, i, j)) ::
         Cell(h, size, rows, r, c) == Cell(g, size, rows, r, c)
  }

  /** Every interior cell before (i, j) holds its stencil value. */
  ghost predicate StencilBefore(g: seq<real>, h: seq<real>, size: nat, rows: nat, i: int, j: int)
  {
    |g| == rows * size && |h| == |g|
    && forall r, c {:trigger Stencil(g, h, size, rows, r, c)}
         | IsInterior(size, rows, r, c) && Before(r, c, i, j) ::
         Cell(h, size, rows, r, c) == Stencil(g, h, size, rows, r, c)
  }

  /** `d` is the largest change among the interior cells before (i, j), or 0. */
  ghost predicate MaxBefore(g: seq<real>, h: seq<real>, d: real, size: nat, rows: nat, i: int, j: int)
  {
    |g| == rows * size && |h| == |g|
    && 0.0 <= d
    && (forall r, c | IsInterior(size, rows, r, c) && Before(r, c, i, j) ::
          Change(g, h, size, rows, r, c) <= d)
    && (d == 0.0 || exists r, c | IsInterior(size, rows, r, c) && Before(r, c, i, j) ::
          d == Change(g, h, size, rows, r, c))
  }

  /** What holds of the state `st` when the cells before (i, j) in row-major
      order have been relaxed: every other cell still has its value from `g`,
      every relaxed cell satisfies the stencil, and `dmax` is the largest change
      among the relaxed cells, or 0. */
  ghost predicate SweptBefore(g: seq<real>, st: SweepState, size: nat, rows: nat, i: int, j: int)
  {
    FrameBefore(g, st.grid, size, rows, i, j)
    && StencilBefore(g, st.grid, size, rows, i, j)
    && MaxBefore(g, st.grid, st.dmax, size, rows, i, j)
  }

  /** `h'` differs from `h` at most in cell (i, j). */
  ghost predicate OnlyCellChanged(h: seq<real>, h': seq<real>, size: nat, rows: nat, i: int, j: int)
  {
    |h| == rows * size && |h'| == |h|
    && forall r, c | InGrid(size, rows, r, c) && !(r == i && c == j) ::
         Cell(h', size, rows, r, c) == Cell(h, size, rows, r, c)
  }

  /** Relaxing cell (i, j) while its right and down neighbours are untouched
      changes that cell alone, gives it its stencil value and raises `dmax`
      to its change. */
  lemma RelaxCellEffect(g: seq<real>, st: SweepState, size: nat, rows: nat, i: int, j: int)
    requires FrameBefore(g, st.grid, size, rows, i, j) && IsInterior(size, rows, i, j)
    ensures var st' := RelaxCell(st, size, rows, i, j);
            OnlyCellChanged(st.grid, st'.grid, size, rows, i, j)
            && Cell(st'.grid, size, rows, i, j) == Stencil(g, st'.grid, size, rows, i, j)
            && st'.dmax == (if st.dmax < Change(g, st'.grid, size, rows, i, j)
                            then Change(g, st'.grid, size, rows, i, j) else st.dmax)
  {
    var st' := RelaxCell(st, size, rows, i, j);
    IdxInRange(size, rows, i, j);
    IdxInRange(size, rows, i + 1, j);
    IdxInRange(size, rows, i - 1, j);
    var k := Idx(size, i, j);
    var v := 0.25 * (st.grid[k + 1] + st.grid[k - 1]
                     + st.grid[Idx(size, i + 1, j)] + st.grid[Idx(size, i - 1, j)]);
    assert st'.grid == SetCell(st.grid, size, rows, i, j, v);
    CellOfSetCell(st.grid, size, rows, i, j, v, i, j);
    // The old right and down neighbours of (i, j) are still those of g.
    assert st.grid[k] == Cell(g, size, rows, i, j);
    assert st.grid[k + 1] == Cell(g, size, rows, i, j + 1);
    assert st.grid[Idx(size, i + 1, j)] == Cell(g, size, rows, i + 1, j);
    CellOfSetCell(st.grid, size, rows, i, j, v, i, j - 1);
    CellOfSetCell(st.grid, size, rows, i, j, v, i - 1, j);
    forall r, c | InGrid(size, rows, r, c) && !(r == i && c == j)
      ensures Cell(st'.grid, size, rows, r, c) == Cell(st.grid, size, rows, r, c)
    {
      CellOfSetCell(st.grid, size, rows, i, j, v, r, c);
    }
  }

  /** Moving the cursor past a changed cell (i, j) keeps the frame. */
  lemma FrameStep(g: seq<real>, h: seq<real>, h': seq<real>, size: nat, rows: nat, i: int, j: int)
    requires FrameBefore(g, h, size, rows, i, j) && OnlyCellChanged(h, h', size, rows, i, j)
    requires IsInterior(size, rows, i, j)
    ensures FrameBefore(g, h', size, rows, i, j + 1)
  {
    forall r, c | InGrid(size, rows, r, c) && !(IsInterior(size, rows, r, c) && Before(r, c, i, j + 1))
      ensures Cell(h', size, rows, r, c) == Cell(g, size, rows, r, c)
    {
      assert Cell(h', size, rows, r, c) == Cell(h, size, rows, r, c);
    }
  }

  /** Moving the cursor past a cell (i, j) that got its stencil value keeps
      the stencil of every earlier cell, whose neighbours all precede (i, j)
      or were read from `g`. */
  lemma StencilStep(g: seq<real>, h: seq<real>, h': seq<real>, size: nat, rows: nat, i: int, j: int)
    requires StencilBefore(g, h, size, rows, i, j) && OnlyCellChanged(h, h', size, rows, i, j)
    requires IsInterior(size, rows, i, j)
    requires Cell(h', size, rows, i, j) == Stencil(g, h', size, rows, i, j)
    ensures StencilBefore(g, h', size, rows, i, j + 1)
  {
    forall r, c | IsInterior(size, rows, r, c) && Before(r, c, i, j + 1)
      ensures Cell(h', size, rows, r, c) == Stencil(g, h', size, rows, r, c)
    {
      if r != i || c != j {
        assert Cell(h, size, rows, r, c) == Stencil(g, h, size, rows, r, c);
        assert Cell(h', size, rows, r, c) == Cell(h, size, rows, r, c);
        assert Cell(h', size, rows, r, c - 1) == Cell(h, size, rows, r, c - 1);
        assert Cell(h', size, rows, r - 1, c) == Cell(h, size, rows, r - 1, c);
      }
    }
  }

  /** Moving the cursor past cell (i, j) with `dmax` raised to its change
      keeps `dmax` the largest change so far. */
  lemma MaxStep(g: seq<real>, h: seq<real>, h': seq<real>, d: real, d': real,
                size: nat, rows: nat, i: int, j: int)
    requires MaxBefore(g, h, d, size, rows, i, j) && OnlyCellChanged(h, h', size, rows, i, j)
    requires IsInterior(size, rows, i, j)
    requires d' == if d < Change(g, h', size, rows, i, j) then Change(g, h', size, rows, i, j) else d
    ensures MaxBefore(g, h', d', size, rows, i, j + 1)
  {
    forall r, c | IsInterior(size, rows, r, c) && Before(r, c, i, j + 1)
      ensures Change(g, h', size, rows, r, c) <= d'
    {
      if r != i || c != j {
        assert Cell(h', size, rows, r, c) == Cell(h, size, rows, r, c);
        assert Change(g, h, size, rows, r, c) <= d;
      }
    }
    if d' != 0.0 {
      if d < Change(g, h', size, rows, i, j) {
        assert IsInterior(size, rows, i, j) && Before(i, j, i, j + 1)
          && d' == Change(g, h', size, rows, i, j);
      } else {
        var r, c :| IsInterior(size, rows, r, c) && Before(r, c, i, j)
          && d == Change(g, h, size, rows, r, c);
        assert Cell(h', size, rows, r, c) == Cell(h, size, rows, r, c);
        assert IsInterior(size, rows, r, c) && Before(r, c, i, j + 1)
          && d' == Change(g, h', size, rows, r, c);
      }
    }
  }

  /** Relaxing cell (i, j) moves the cursor one cell on. */
  lemma RelaxCellStep(g: seq<real>, st: SweepState, size: nat, rows: nat, i: int, j: int)
    requires SweptBefore(g, st, size, rows, i, j) && IsInterior(size, rows, i, j)
    ensures SweptBefore(g, RelaxCell(st, size, rows, i, j), size, rows, i, j + 1)
  {
    var st' := RelaxCell(st, size, rows, i, j);
    RelaxCellEffect(g, st, size, rows, i, j);
    FrameStep(g, st.grid, st'.grid, size, rows, i, j);
    StencilStep(g, st.grid, st'.grid, size, rows, i, j);
    MaxStep(g, st.grid, st'.grid, st.dmax, st'.dmax, size, rows, i, j);
  }

  /** The inner loop keeps the cursor invariant along row i. */
  lemma {:induction false} SweepRowToStep(g: seq<real>, st: SweepState, size: nat, rows: nat, i: int, j: int)
    requires SweptBefore(g, st, size, rows, i, 1) && 1 <= i <= rows - 2 && 1 <= j <= LoopEnd(size)
    ensures SweptBefore(g, SweepRowTo(st, size, rows, i, j), size, rows, i, j)
    decreases j
  {
    if j > 1 {
      SweepRowToStep(g, st, size, rows, i, j - 1);
      RelaxCellStep(g, SweepRowTo(st, size, rows, i, j - 1), size, rows, i, j - 1);
    }
  }

  /** At the end of row i no interior cell lies between the cursor and the
      start of row i + 1. */
  lemma NextRow(g: seq<real>, st: SweepState, size: nat, rows: nat, i: int)
    requires SweptBefore(g, st, size, rows, i, LoopEnd(size))
    ensures SweptBefore(g, st, size, rows, i + 1, 1)
  {
    forall r, c | IsInterior(size, rows, r, c)
      ensures Before(r, c, i, LoopEnd(size)) <==> Before(r, c, i + 1, 1)
    {
    }
  }

  /** The outer loop keeps the cursor invariant from row to row. */
  lemma {:induction false} SweepRowsToStep(g: seq<real>, size: nat, rows: nat, i: int)
    requires |g| == rows * size && 1 <= i <= LoopEnd(rows)
    ensures SweptBefore(g, SweepRowsTo(g, size, rows, i), size, rows, i, 1)
    decreases i
  {
    if i > 1 {
      var st := SweepRowsTo(g, size, rows, i - 1);
      SweepRowsToStep(g, size, rows, i - 1);
      SweepRowToStep(g, st, size, rows, i - 1, LoopEnd(size));
      NextRow(g, SweepRowTo(st, size, rows, i - 1, LoopEnd(size)), size, rows, i - 1);
    }
  }

  /** A whole sweep is a Gauss-Seidel sweep, and its `dmax` is the largest
      change of an interior cell, or 0. */
  lemma SweepGridCorrect(g: seq<real>, size: nat, rows: nat)
    requires |g| == rows * size
    ensures IsGaussSeidelSweep(g, SweepGrid(g, size, rows).grid, size, rows)
    ensures IsMaxChange(g, SweepGrid(g, size, rows).grid, SweepGrid(g, size, rows).dmax, size, rows)
  {
    var st := SweepGrid(g, size, rows);
    SweepRowsToStep(g, size, rows, LoopEnd(rows));
    var i := LoopEnd(rows);
    assert forall r, c | IsInterior(size, rows, r, c) :: Before(r, c, i, 1);
    assert forall r, c {:trigger Stencil(g, st.grid, size, rows, r, c)} | IsInterior(size, rows, r, c) ::
      Cell(st.grid, size, rows, r, c) == Stencil(g, st.grid, size, rows, r, c);
  }

  /** Two Gauss-Seidel sweeps over the same buffer agree on every position
      below n: each interior cell is fixed by cells that precede it. */
  lemma {:induction false} AgreeBelow(g: seq<real>, h1: seq<real>, h2: seq<real>, size: nat, rows: nat, n: nat)
    requires IsGaussSeidelSweep(g, h1, size, rows) && IsGaussSeidelSweep(g, h2, size, rows)
    requires n <= |g|
    ensures forall k | 0 <= k < n :: h1[k] == h2[k]
    decreases n
  {
    if n > 0 {
      AgreeBelow(g, h1, h2, size, rows, n - 1);
      var k := n - 1;
      IdxSplit(size, rows, k);
      var r, c := k / size, k % size;
      if IsInterior(size, rows, r, c) {
        assert Cell(h1, size, rows, r, c) == Stencil(g, h1, size, rows, r, c);
        assert Cell(h2, size, rows, r, c) == Stencil(g, h2, size, rows, r, c);
        IdxInRange(size, rows, r - 1, c);
        assert Cell(h1, size, rows, r, c - 1) == h1[k - 1];
        assert Cell(h2, size, rows, r, c - 1) == h2[k - 1];
        assert Cell(h1, size, rows, r - 1, c) == h1[k - size];
        assert Cell(h2, size, rows, r - 1, c) == h2[k - size];
      } else {
        assert Cell(h1, size, rows, r, c) == Cell(g, size, rows, r, c) == Cell(h2, size, rows, r, c);
      }
    }
  }

  /** The declarative sweep and the cell-by-cell sweep are the same thing: a
      buffer is a Gauss-Seidel sweep of `g` exactly when it is what the nested
      loops leave behind. */
  lemma GaussSeidelSweepIsSweepGrid(g: seq<real>, h: seq<real>, size: nat, rows: nat)
    requires |g| == rows * size
    ensures IsGaussSeidelSweep(g, h, size, rows) <==> h == SweepGrid(g, size, rows).grid
  {
    SweepGridCorrect(g, size, rows);
    if IsGaussSeidelSweep(g, h, size, rows) {
      AgreeBelow(g, h, SweepGrid(g, size, rows).grid, size, rows, |g|);
    }
  }

  /** A sweep that reports no change leaves the buffer as it was, so every
      further sweep reports no change either. */
  lemma ZeroDeviationIsFixedPoint(g: seq<real>, size: nat, rows: nat)
    requires |g| == rows * size && Deviation(g, size, rows) == 0.0
    ensures SweepGrid(g, size, rows).grid == g
    ensures Deviation(SweepGrid(g, size, rows).grid, size, rows) == 0.0
  {
    var h := SweepGrid(g, size, rows).grid;
    SweepGridCorrect(g, size, rows);
    forall k | 0 <= k < |g| ensures h[k] == g[k] {
      IdxSplit(size, rows, k);
      var r, c := k / size, k % size;
      if IsInterior(size, rows, r, c) {
        assert Change(g, h, size, rows, r, c) <= 0.0;
      }
      assert Cell(h, size, rows, r, c) == Cell(g, size, rows, r, c);
    }
  }

  /** No number of sweeps changes a cell in the first or last row or column. */
  lemma {:induction false} SweepsKeepBoundary(g: seq<real>, size: nat, rows: nat, n: nat, r: int, c: int)
    requires |g| == rows * size && InGrid(size, rows, r, c) && !IsInterior(size, rows, r, c)
    ensures Cell(Sweeps(g, size, rows, n), size, rows, r, c) == Cell(g, size, rows, r, c)
  {
    if n > 0 {
      SweepsKeepBoundary(g, size, rows, n - 1, r, c);
      SweepGridCorrect(Sweeps(g, size, rows, n - 1), size, rows);
    }
  }

  /** The flat positions the loop body writes as `size*i+j` and
      `size*(i±1)+j` are those of cell (i, j) and its upper and lower
      neighbours. */
  lemma NeighbourIdx(size: int, i: int, j: int)
    ensures size * i + j == Idx(size, i, j)
    ensures size * (i + 1) + j == Idx(size, i + 1, j) == Idx(size, i, j) + size
    ensures size * (i - 1) + j == Idx(size, i - 1, j) == Idx(size, i, j) - size
  {
  }

  /** `RelaxCell` in the flat positions the loop body uses. */
  lemma RelaxCellFlat(st: SweepState, size: nat, rows: nat, i: int, j: int)
    requires |st.grid| == rows * size && IsInterior(size, rows, i, j)
    ensures 0 <= size * (i - 1) + j && size * (i + 1) + j < |st.grid|
    ensures size * (i - 1) + j < size * i + j - 1 && size * i + j + 1 < size * (i + 1) + j
    ensures var k := size * i + j;
            var v := 0.25 * (st.grid[k + 1] + st.grid[k - 1]
                             + st.grid[size * (i + 1) + j] + st.grid[size * (i - 1) + j]);
            var dm := Abs(v - st.grid[k]);
            RelaxCell(st, size, rows, i, j)
            == SweepState(st.grid[k := v], if st.dmax < dm then dm else st.dmax)
  {
    IdxInRange(size, rows, i + 1, j);
    IdxInRange(size, rows, i - 1, j);
    NeighbourIdx(size, i, j);
  }

  /** The inner loop of `IterationCalculation` on row i: columns 1 .. size-2
      relaxed in order, `dmax` raised to the largest change. */
  method RelaxRow(a: array<real>, size: nat, rowNum: nat, i: int, dmax0: real) returns (dmax: real)
    requires a.Length == rowNum * size && 1 <= i <= rowNum - 2
    modifies a
    ensures SweepState(a[..], dmax) == SweepRowTo(SweepState(old(a[..]), dmax0), size, rowNum, i, LoopEnd(size))
  {
    ghost var rowStart := SweepState(a[..], dmax0);
    dmax := dmax0;
    var j := 1;
    while j < size - 1
      invariant 1 <= j <= LoopEnd(size)
      invariant SweepRowTo(rowStart, size, rowNum, i, j) == SweepState(a[..], dmax)
    {
      RelaxCellFlat(SweepState(a[..], dmax), size, rowNum, i, j);
      var temp := a[size * i + j];
      a[size * i + j] := 0.25 * (a[size * i + j + 1] + a[size * i + j - 1]
                                 + a[size * (i + 1) + j] + a[size * (i - 1) + j]);
      var dm := Abs(a[size * i + j] - temp);
      if dmax < dm {
        dmax := dm;
      }
      j := j + 1;
    }
  }

  /** `IterationCalculation`: one Gauss-Seidel sweep over the rows
      1 .. rowNum-2 and columns 1 .. size-2 of `a`, updating it in place, and
      the largest change it made. */
  method IterationCalculation(a: array<real>, size: nat, rowNum: nat) returns (dmax: real)
    requires a.Length == rowNum * size
    modifies a
    ensures a[..] == SweepGrid(old(a[..]), size, rowNum).grid
    ensures dmax == Deviation(old(a[..]), size, rowNum)
    ensures IsGaussSeidelSweep(old(a[..]), a[..], size, rowNum)
    ensures IsMaxChange(old(a[..]), a[..], dmax, size, rowNum)
  {
    ghost var g := a[..];
    dmax := 0.0;
    var i := 1;
    while i < rowNum - 1
      invariant 1 <= i <= LoopEnd(rowNum)
      invariant SweepRowsTo(g, size, rowNum, i) == SweepState(a[..], dmax)
    {
      dmax := RelaxRow(a, size, rowNum, i, dmax);
      i := i + 1;
    }
    SweepGridCorrect(g, size, rowNum);
  }
}
