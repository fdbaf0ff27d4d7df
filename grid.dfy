/**
 * Row-major addressing of the flat grid buffers used by every part of the solver.
 *
 * A buffer of `rows` rows and `size` columns holds cell (r, c) at position
 * `r * size + c`, as `pMatrix[i*Size+j]` and `pProcRows[Size*i+j]` do. Values
 * are modelled as `real`; floating-point rounding is not part of the model.
 */
module Grid {

  /** `fabs` on the difference of two grid values. */
  function Abs(x: real): (r: real)
    ensures 0.0 <= r && (r == x || r == -x)
  {
    if x < 0.0 then -x else x
  }

  /** Flat position of cell (r, c) in a buffer whose rows hold `size` cells. */
  function Idx(size: int, r: int, c: int): int
  {
    r * size + c
  }

  /** Cell (r, c) lies in a buffer of `rows` rows of `size` cells. */
  predicate InGrid(size: int, rows: int, r: int, c: int)
  {
    0 <= r < rows && 0 <= c < size
  }

  /** Cell (r, c) is one the sweep updates: neither in the first or last row
      nor in the first or last column. */
  predicate IsInterior(size: int, rows: int, r: int, c: int)
  {
    1 <= r <= rows - 2 && 1 <= c <= size - 2
  }

  /** Cell (r, c) comes strictly before cell (i, j) in row-major order. */
  predicate Before(r: int, c: int, i: int, j: int)
  {
    r < i || (r == i && c < j)
  }

  /** The value a counter that starts at 1 and runs while it is below `n - 1`
      holds once its loop has finished (`for (i = 1; i < n-1; i++)`). */
  function LoopEnd(n: int): (e: int)
    ensures 1 <= e && (n >= 2 ==> e == n - 1) && (n < 2 ==> e == 1)
  {
    if n >= 2 then n - 1 else 1
  }

  lemma MulLe(a: int, b: int, n: int)
    requires a <= b && 0 <= n
    ensures a * n <= b * n
  {
  }

  /** Row-major order of cells is the order of their flat positions. */
  lemma IdxOrder(size: int, r: int, c: int, i: int, j: int)
    requires 0 <= c < size && 0 <= j < size
    ensures Before(r, c, i, j) <==> Idx(size, r, c) < Idx(size, i, j)
    ensures Idx(size, r, c) == Idx(size, i, j) <==> r == i && c == j
  {
    if r < i {
      MulLe(r + 1, i, size);
    } else if i < r {
      MulLe(i + 1, r, size);
    }
  }

  /** Every cell of the buffer has a position inside it. */
  lemma IdxInRange(size: int, rows: int, r: int, c: int)
    requires InGrid(size, rows, r, c)
    ensures 0 <= Idx(size, r, c) < rows * size
  {
    MulLe(0, r, size);
    MulLe(r + 1, rows, size);
  }

  /** Every position of the buffer is the position of exactly one cell. */
  lemma IdxSplit(size: nat, rows: nat, k: int)
    requires 0 <= k < rows * size
    ensures size > 0
    ensures InGrid(size, rows, k / size, k % size) && k == Idx(size, k / size, k % size)
  {
    if k / size >= rows {
      MulLe(rows, k / size, size);
    }
  }

  /** The value of cell (r, c) of a buffer of `rows` rows. */
  function Cell(s: seq<real>, size: int, rows: int, r: int, c: int): real
    requires |s| == rows * size && InGrid(size, rows, r, c)
  {
    IdxInRange(size, rows, r, c);
    s[Idx(size, r, c)]
  }

  /** Every row of a buffer of `rows` rows lies inside it. */
  lemma RowInRange(size: int, rows: int, r: int)
    requires 0 <= r < rows && 0 <= size
    ensures 0 <= Idx(size, r, 0) <= Idx(size, r + 1, 0) <= rows * size
  {
    MulLe(0, r, size);
    MulLe(r + 1, rows, size);
  }

  /** The buffer with cell (r, c) set to `v`. */
  function SetCell(s: seq<real>, size: int, rows: int, r: int, c: int, v: real): (s': seq<real>)
    requires |s| == rows * size && InGrid(size, rows, r, c)
    ensures |s'| == |s|
  {
    IdxInRange(size, rows, r, c);
    s[Idx(size, r, c) := v]
  }

  /** Setting cell (i, j) changes that cell and no other. */
  lemma CellOfSetCell(s: seq<real>, size: int, rows: int, i: int, j: int, v: real, r: int, c: int)
    requires |s| == rows * size && InGrid(size, rows, i, j) && InGrid(size, rows, r, c)
    ensures Cell(SetCell(s, size, rows, i, j, v), size, rows, r, c)
            == if r == i && c == j then v else Cell(s, size, rows, r, c)
  {
    IdxInRange(size, rows, i, j);
    IdxInRange(size, rows, r, c);
    IdxOrder(size, r, c, i, j);
    var s' := s[Idx(size, i, j) := v];
    assert Cell(s', size, rows, r, c) == s'[Idx(size, r, c)];
  }

  /** Row r of a buffer of `rows` rows: the `size` cells from position
      `r * size` on. */
  function Row(s: seq<real>, size: nat, rows: nat, r: nat): (row: seq<real>)
    requires |s| == rows * size && r < rows
    ensures |row| == size
  {
    RowInRange(size, rows, r);
    s[Idx(size, r, 0)..Idx(size, r + 1, 0)]
  }

  /** Cell c of row r is cell (r, c). */
  lemma RowCell(s: seq<real>, size: nat, rows: nat, r: nat, c: nat)
    requires |s| == rows * size && InGrid(size, rows, r, c)
    ensures Row(s, size, rows, r)[c] == Cell(s, size, rows, r, c)
  {
    RowInRange(size, rows, r);
  }

  /** Two buffers of the same shape whose rows all agree are equal. */
  lemma RowsDetermine(s: seq<real>, t: seq<real>, size: nat, rows: nat)
    requires |s| == rows * size && |t| == rows * size
    requires forall r: nat | r < rows :: Row(s, size, rows, r) == Row(t, size, rows, r)
    ensures s == t
  {
    forall k | 0 <= k < |s| ensures s[k] == t[k] {
      IdxSplit(size, rows, k);
      var r, c := k / size, k % size;
      RowCell(s, size, rows, r, c);
      RowCell(t, size, rows, r, c);
    }
  }

  /** Two buffers of the same shape whose cells all agree are equal. */
  lemma CellsDetermine(s: seq<real>, t: seq<real>, size: nat, rows: nat)
    requires |s| == rows * size && |t| == rows * size
    requires forall r, c | InGrid(size, rows, r, c) :: Cell(s, size, rows, r, c) == Cell(t, size, rows, r, c)
    ensures s == t
  {
    forall k | 0 <= k < |s| ensures s[k] == t[k] {
      IdxSplit(size, rows, k);
      assert Cell(s, size, rows, k / size, k % size) == Cell(t, size, rows, k / size, k % size);
    }
  }

  /** Rows lo .. lo+n-1 of a buffer of `rows` rows occupy the positions
      lo*size .. (lo+n)*size, n*size of them. */
  lemma SliceInRange(size: nat, rows: nat, lo: nat, n: nat)
    requires lo + n <= rows
    ensures 0 <= lo * size <= (lo + n) * size <= rows * size
    ensures (lo + n) * size - lo * size == n * size
  {
    MulLe(0, lo, size);
    MulLe(lo, lo + n, size);
    MulLe(lo + n, rows, size);
  }

  // ---------------------------------------------------------------------------
  // A buffer seen as its sequence of rows.

  /** Every row holds `size` cells. */
  predicate RowsShaped(rows: seq<seq<real>>, size: nat)
  {
    forall r | 0 <= r < |rows| :: |rows[r]| == size
  }

  /** The rows of a buffer of n rows, in order. */
  function Rows(s: seq<real>, size: nat, n: nat): (rows: seq<seq<real>>)
    requires |s| == n * size
    ensures |rows| == n && RowsShaped(rows, size)
  {
    seq(n, r requires 0 <= r < n => Row(s, size, n, r))
  }

  /** The buffer holding `rows` one after another. */
  function Flatten(rows: seq<seq<real>>, size: nat): (s: seq<real>)
    requires RowsShaped(rows, size)
    ensures |s| == |rows| * size
  {
    if |rows| == 0 then [] else Flatten(rows[..|rows| - 1], size) + rows[|rows| - 1]
  }

  /** Row r of the flattened rows is row r. */
  lemma {:induction false} RowOfFlatten(rows: seq<seq<real>>, size: nat, r: nat)
    requires RowsShaped(rows, size) && r < |rows|
    ensures Row(Flatten(rows, size), size, |rows|, r) == rows[r]
  {
    var n := |rows|;
    var init := rows[..n - 1];
    var s := Flatten(rows, size);
    assert s == Flatten(init, size) + rows[n - 1];
    RowInRange(size, n, r);
    if r == n - 1 {
      assert Row(s, size, n, r) == rows[r] by {
        forall k | 0 <= k < size ensures Row(s, size, n, r)[k] == rows[r][k] {
          assert Row(s, size, n, r)[k] == s[Idx(size, r, 0) + k];
        }
      }
    } else {
      RowOfFlatten(init, size, r);
      RowInRange(size, n - 1, r);
      assert Row(s, size, n, r) == Row(Flatten(init, size), size, n - 1, r) by {
        forall k | 0 <= k < size
          ensures Row(s, size, n, r)[k] == Row(Flatten(init, size), size, n - 1, r)[k]
        {
          assert Row(s, size, n, r)[k] == s[Idx(size, r, 0) + k];
        }
      }
    }
  }

  /** Rows lo .. lo+n-1 of a buffer, flattened, are the cells from position
      `lo * size` to `(lo + n) * size`. */
  lemma {:induction false} FlattenRowsSlice(s: seq<real>, size: nat, rows: nat, lo: nat, n: nat)
    requires |s| == rows * size && lo + n <= rows
    ensures 0 <= lo * size <= (lo + n) * size <= |s|
    ensures Flatten(Rows(s, size, rows)[lo..lo + n], size) == s[lo * size..(lo + n) * size]
  {
    SliceInRange(size, rows, lo, n);
    if n > 0 {
      FlattenRowsSlice(s, size, rows, lo, n - 1);
      var all := Rows(s, size, rows);
      var x := all[lo..lo + n];
      assert x[..n - 1] == all[lo..lo + n - 1];
      RowStretch(s, size, rows, lo + n - 1);
      SliceInRange(size, rows, lo, n - 1);
      SliceConcat(s, lo * size, (lo + n - 1) * size, (lo + n) * size);
    }
  }

  /** Row r of a buffer is the stretch from `r * size` to `(r + 1) * size`. */
  lemma RowStretch(s: seq<real>, size: nat, rows: nat, r: nat)
    requires |s| == rows * size && r < rows
    ensures 0 <= r * size <= (r + 1) * size <= |s|
    ensures Rows(s, size, rows)[r] == s[r * size..(r + 1) * size]
  {
    RowInRange(size, rows, r);
  }

  /** Two adjacent stretches of a sequence make up the stretch they span. */
  lemma SliceConcat(s: seq<real>, a: int, b: int, c: int)
    requires 0 <= a <= b <= c <= |s|
    ensures s[a..b] + s[b..c] == s[a..c]
  {
  }

  /** Cutting the flattened rows back into rows gives the rows. */
  lemma RowsOfFlatten(rows: seq<seq<real>>, size: nat)
    requires RowsShaped(rows, size)
    ensures Rows(Flatten(rows, size), size, |rows|) == rows
  {
    forall r | 0 <= r < |rows| ensures Rows(Flatten(rows, size), size, |rows|)[r] == rows[r] {
      RowOfFlatten(rows, size, r);
    }
  }

  /** Flattening the rows of a buffer gives the buffer. */
  lemma FlattenOfRows(s: seq<real>, size: nat, n: nat)
    requires |s| == n * size
    ensures Flatten(Rows(s, size, n), size) == s
  {
    var rows := Rows(s, size, n);
    forall r: nat | r < n ensures Row(Flatten(rows, size), size, n, r) == Row(s, size, n, r) {
      RowOfFlatten(rows, size, r);
    }
    RowsDetermine(Flatten(rows, size), s, size, n);
  }
}
