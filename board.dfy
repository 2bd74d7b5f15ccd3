// The board generator: mines at distinct flat indices, and for every other
// cell the number of mines in its 3x3 neighbourhood clipped to the grid.
// The random sample of mine indices is a parameter of the model.

module Board {
  import opened Grids

  /** A cell of the board: a mine, or the count of mines next to it. */
  datatype Cell = Mine | Count(n: nat)

  predicate IsMineCell(c: Cell) { c.Mine? }

  /** `ms` could be drawn by sampling without replacement from `[0, size)`:
      every index is in range and no index occurs twice. */
  predicate IsSample(ms: seq<int>, size: nat)
  {
    && (forall k :: 0 <= k < |ms| ==> 0 <= ms[k] < size)
    && (forall k, l :: 0 <= k < l < |ms| ==> ms[k] != ms[l])
  }

  /** Cell `(r, c)` lies in the 3x3 block centred on `(r0, c0)`. */
  predicate Near(r0: int, c0: int, r: int, c: int)
  {
    r0 - 1 <= r <= r0 + 1 && c0 - 1 <= c <= c0 + 1
  }

  // ---------------------------------------------------------------------
  // The board as the incremental algorithm builds it

  /** How many of the mine indices `ms`, mapped to a row and column by
      `m / cols` and `m % cols`, lie in the 3x3 block around `(r, c)`. For a
      cell that is not itself one of the mines, this is the number of times
      placing the mines of `ms` in order bumps `(r, c)`. */
  function Adjacent(ms: seq<int>, cols: nat, r: int, c: int): (n: nat)
    requires cols > 0
    ensures n <= |ms|
  {
    if ms == [] then 0
    else
      var m := ms[|ms| - 1];
      Adjacent(ms[..|ms| - 1], cols, r, c) + (if Near(m / cols, m % cols, r, c) then 1 else 0)
  }

  /** What cell `(i, j)` holds once the mines `ms` have been placed. */
  function Expected(ms: seq<int>, cols: nat, i: int, j: int): Cell
    requires cols > 0
  {
    if i * cols + j in ms then Mine else Count(Adjacent(ms, cols, i, j))
  }

  /** The whole `rows` by `cols` board once the mines `ms` have been placed. */
  function Layout(rows: nat, cols: nat, ms: seq<int>): (g: seq<seq<Cell>>)
    ensures IsRect(g, rows, cols)
    ensures forall i, j :: 0 <= i < rows && 0 <= j < cols ==> g[i][j] == Expected(ms, cols, i, j)
  {
    seq(rows, i => seq(cols, j requires 0 <= j < cols => Expected(ms, cols, i, j)))
  }

  // ---------------------------------------------------------------------
  // The reference definition: mines counted on the finished grid

  /** 1 when `(r, c)` is on the grid and holds a mine, else 0. */
  function MineAt(g: seq<seq<Cell>>, r: int, c: int): nat
  {
    if 0 <= r < |g| && 0 <= c < |g[r]| && g[r][c].Mine? then 1 else 0
  }

  /** The number of mine cells among the 3x3 block around `(i, j)`,
      clipped to the grid. */
  function MinesAround(g: seq<seq<Cell>>, i: int, j: int): nat
  {
    MineAt(g, i - 1, j - 1) + MineAt(g, i - 1, j) + MineAt(g, i - 1, j + 1) +
    MineAt(g, i, j - 1) + MineAt(g, i, j) + MineAt(g, i, j + 1) +
    MineAt(g, i + 1, j - 1) + MineAt(g, i + 1, j) + MineAt(g, i + 1, j + 1)
  }

  /** 1 when `(r, c)` is on the grid and its flat index is one of `ms`. */
  function Hit(ms: seq<int>, rows: nat, cols: nat, r: int, c: int): nat
  {
    if 0 <= r < rows && 0 <= c < cols && r * cols + c in ms then 1 else 0
  }

  /** `MinesAround` read off the mine indices instead of the grid. */
  function Around(ms: seq<int>, rows: nat, cols: nat, i: int, j: int): nat
  {
    Hit(ms, rows, cols, i - 1, j - 1) + Hit(ms, rows, cols, i - 1, j) + Hit(ms, rows, cols, i - 1, j + 1) +
    Hit(ms, rows, cols, i, j - 1) + Hit(ms, rows, cols, i, j) + Hit(ms, rows, cols, i, j + 1) +
    Hit(ms, rows, cols, i + 1, j - 1) + Hit(ms, rows, cols, i + 1, j) + Hit(ms, rows, cols, i + 1, j + 1)
  }

  // ---------------------------------------------------------------------
  // Flat indices

  lemma {:induction false} MulMonotone(a: int, b: int, c: nat)
    requires a <= b
    ensures a * c <= b * c
  {
    if c > 0 {
      MulMonotone(a, b, c - 1);
      assert a * c == a * (c - 1) + a;
      assert b * c == b * (c - 1) + b;
    }
  }

  /** On a grid `cols` wide, cell `(r, c)` has flat index `m` exactly when
      `m // cols == r` and `m % cols == c`. */
  lemma FlatIndex(m: int, cols: nat, r: int, c: int)
    requires cols > 0 && 0 <= c < cols
    ensures r * cols + c == m <==> m / cols == r && m % cols == c
  {
    var q := m / cols;
    if r * cols + c == m {
      if r > q {
        MulMonotone(q + 1, r, cols);
      } else if r < q {
        MulMonotone(r + 1, q, cols);
      }
    }
  }

  /** Every index below `rows * cols` maps to a cell on the grid. */
  lemma FlatInBounds(m: int, rows: nat, cols: nat)
    requires 0 <= m < rows * cols
    ensures cols > 0 && 0 <= m / cols < rows && 0 <= m % cols < cols
  {
    if cols > 0 && m / cols >= rows {
      MulMonotone(rows, m / cols, cols);
    }
  }

  // ---------------------------------------------------------------------
  // Properties of the generated board

  /** Adding mine `m` (new, in range) to `p` adds one hit exactly at the
      cell `m` maps to. */
  lemma HitStep(p: seq<int>, m: int, rows: nat, cols: nat, r: int, c: int)
    requires IsSample(p + [m], rows * cols)
    ensures cols > 0
    ensures Hit(p + [m], rows, cols, r, c) ==
            Hit(p, rows, cols, r, c) + (if m / cols == r && m % cols == c then 1 else 0)
  {
    var ms := p + [m];
    assert ms[|p|] == m;
    FlatInBounds(m, rows, cols);
    assert m !in p by {
      forall k | 0 <= k < |p| ensures p[k] != m {
        assert ms[k] == p[k];
      }
    }
    if 0 <= c < cols {
      FlatIndex(m, cols, r, c);
    }
  }

  /** Adding mine `m` to `p` raises the count around `(i, j)` by one exactly
      when `m` lands in the 3x3 block around it. */
  lemma AroundStep(p: seq<int>, m: int, rows: nat, cols: nat, i: int, j: int)
    requires IsSample(p + [m], rows * cols)
    ensures cols > 0
    ensures Around(p + [m], rows, cols, i, j) ==
            Around(p, rows, cols, i, j) + (if Near(m / cols, m % cols, i, j) then 1 else 0)
  {
    HitStep(p, m, rows, cols, i - 1, j - 1);
    HitStep(p, m, rows, cols, i - 1, j);
    HitStep(p, m, rows, cols, i - 1, j + 1);
    HitStep(p, m, rows, cols, i, j - 1);
    HitStep(p, m, rows, cols, i, j);
    HitStep(p, m, rows, cols, i, j + 1);
    HitStep(p, m, rows, cols, i + 1, j - 1);
    HitStep(p, m, rows, cols, i + 1, j);
    HitStep(p, m, rows, cols, i + 1, j + 1);
  }

  /** The incremental count equals the count of mine cells around the cell,
      whatever order the mines were placed in. */
  lemma {:induction false} AdjacentIsAround(ms: seq<int>, rows: nat, cols: nat, i: int, j: int)
    requires IsSample(ms, rows * cols) && cols > 0
    ensures Adjacent(ms, cols, i, j) == Around(ms, rows, cols, i, j)
  {
    if ms != [] {
      var p, m := ms[..|ms| - 1], ms[|ms| - 1];
      assert ms == p + [m];
      AdjacentIsAround(p, rows, cols, i, j);
      AroundStep(p, m, rows, cols, i, j);
    }
  }

  /** Reading a mine off the generated board is reading a hit off the sample. */
  lemma MineAtLayout(ms: seq<int>, rows: nat, cols: nat, r: int, c: int)
    ensures MineAt(Layout(rows, cols, ms), r, c) == Hit(ms, rows, cols, r, c)
  {
  }

  lemma MinesAroundLayout(ms: seq<int>, rows: nat, cols: nat, i: int, j: int)
    ensures MinesAround(Layout(rows, cols, ms), i, j) == Around(ms, rows, cols, i, j)
  {
    MineAtLayout(ms, rows, cols, i - 1, j - 1);
    MineAtLayout(ms, rows, cols, i - 1, j);
    MineAtLayout(ms, rows, cols, i - 1, j + 1);
    MineAtLayout(ms, rows, cols, i, j - 1);
    MineAtLayout(ms, rows, cols, i, j);
    MineAtLayout(ms, rows, cols, i, j + 1);
    MineAtLayout(ms, rows, cols, i + 1, j - 1);
    MineAtLayout(ms, rows, cols, i + 1, j);
    MineAtLayout(ms, rows, cols, i + 1, j + 1);
  }

  /** A cell of the generated board is a mine exactly when some sampled index
      maps to it by `m // cols` and `m % cols`. */
  lemma LayoutMines(ms: seq<int>, rows: nat, cols: nat, i: int, j: int)
    requires 0 <= i < rows && 0 <= j < cols
    ensures Layout(rows, cols, ms)[i][j].Mine? <==>
            exists k :: 0 <= k < |ms| && ms[k] / cols == i && ms[k] % cols == j
  {
    forall k | 0 <= k < |ms|
      ensures ms[k] == i * cols + j <==> ms[k] / cols == i && ms[k] % cols == j
    {
      FlatIndex(ms[k], cols, i, j);
    }
  }

  /** Every cell of the generated board that is not a mine holds the number
      of mine cells in its 3x3 neighbourhood clipped to the grid. */
  lemma LayoutCounts(ms: seq<int>, rows: nat, cols: nat, i: int, j: int)
    requires IsSample(ms, rows * cols)
    requires 0 <= i < rows && 0 <= j < cols
    ensures Layout(rows, cols, ms)[i][j] == Mine ||
            Layout(rows, cols, ms)[i][j] == Count(MinesAround(Layout(rows, cols, ms), i, j))
  {
    AdjacentIsAround(ms, rows, cols, i, j);
    MinesAroundLayout(ms, rows, cols, i, j);
  }

  /** The generated board holds exactly one mine per sampled index. */
  lemma {:induction false} LayoutMineCount(ms: seq<int>, rows: nat, cols: nat)
    requires IsSample(ms, rows * cols)
    ensures GridCountIf(Layout(rows, cols, ms), IsMineCell) == |ms|
  {
    if ms == [] {
      GridCountNone(Layout(rows, cols, ms), IsMineCell);
    } else {
      var p, m := ms[..|ms| - 1], ms[|ms| - 1];
      assert ms == p + [m];
      LayoutMineCount(p, rows, cols);
      AddMine(p, m, rows, cols);
    }
  }

  /** Placing one more (new) mine adds exactly one mine cell to the board. */
  lemma AddMine(p: seq<int>, m: int, rows: nat, cols: nat)
    requires IsSample(p + [m], rows * cols)
    ensures GridCountIf(Layout(rows, cols, p + [m]), IsMineCell) == GridCountIf(Layout(rows, cols, p), IsMineCell) + 1
  {
    assert (p + [m])[|p|] == m;
    FlatInBounds(m, rows, cols);
    var g, h := Layout(rows, cols, p), Layout(rows, cols, p + [m]);
    var r, c := m / cols, m % cols;
    forall i, j | 0 <= i < |g| && 0 <= j < |g[i]|
      ensures IsMineCell(h[i][j]) == (IsMineCell(g[i][j]) || (i, j) == (r, c))
    {
      FlatIndex(m, cols, i, j);
    }
    HitStep(p, m, rows, cols, r, c);
    GridCountBump(g, h, IsMineCell, r, c);
  }

  /** The generated board depends only on which indices were sampled, not on
      the order in which they were placed. */
  lemma LayoutOrderIndependent(ms: seq<int>, ns: seq<int>, rows: nat, cols: nat)
    requires IsSample(ms, rows * cols) && IsSample(ns, rows * cols)
    requires multiset(ms) == multiset(ns)
    ensures Layout(rows, cols, ms) == Layout(rows, cols, ns)
  {
    forall x ensures x in ms <==> x in ns {
      assert x in ms <==> x in multiset(ms);
      assert x in ns <==> x in multiset(ns);
    }
    var g, h := Layout(rows, cols, ms), Layout(rows, cols, ns);
    forall i | 0 <= i < rows
      ensures g[i] == h[i]
    {
      forall j | 0 <= j < cols
        ensures g[i][j] == h[i][j]
      {
        SameCell(ms, ns, rows, cols, i, j);
      }
    }
  }

  /** Two samples with the same members give every cell the same contents. */
  lemma SameCell(ms: seq<int>, ns: seq<int>, rows: nat, cols: nat, i: int, j: int)
    requires IsSample(ms, rows * cols) && IsSample(ns, rows * cols) && cols > 0
    requires forall x :: x in ms <==> x in ns
    ensures Expected(ms, cols, i, j) == Expected(ns, cols, i, j)
  {
    AdjacentIsAround(ms, rows, cols, i, j);
    AdjacentIsAround(ns, rows, cols, i, j);
    assert Around(ms, rows, cols, i, j) == Around(ns, rows, cols, i, j);
  }

  // ---------------------------------------------------------------------
  // The generator itself

  /** Adds one to every on-grid cell in the 3x3 block around `(row, col)`
      that is not a mine. */
  method IncrementNeighbours(board: array2<Cell>, row: int, col: int)
    modifies board
    ensures forall i, j :: 0 <= i < board.Length0 && 0 <= j < board.Length1 ==>
      board[i, j] == if Near(row, col, i, j) && old(board[i, j]).Count?
                     then Count(old(board[i, j]).n + 1) else old(board[i, j])
  {
    var r := row - 1;
    while r < row + 2
      invariant row - 1 <= r <= row + 2
      invariant forall i, j :: 0 <= i < board.Length0 && 0 <= j < board.Length1 ==>
        board[i, j] == if Near(row, col, i, j) && i < r && old(board[i, j]).Count?
                       then Count(old(board[i, j]).n + 1) else old(board[i, j])
    {
      var c := col - 1;
      while c < col + 2
        invariant col - 1 <= c <= col + 2
        invariant forall i, j :: 0 <= i < board.Length0 && 0 <= j < board.Length1 ==>
          board[i, j] == if Near(row, col, i, j) && (i < r || (i == r && j < c)) && old(board[i, j]).Count?
                         then Count(old(board[i, j]).n + 1) else old(board[i, j])
      {
        if 0 <= r < board.Length0 && 0 <= c < board.Length1 && board[r, c] != Mine {
          board[r, c] := Count(board[r, c].n + 1);
        }
        c := c + 1;
      }
      r := r + 1;
    }
  }

  /** Places the sampled mines one after another on a board of zeros,
      bumping the neighbours of each. */
  method PlaceMines(rows: nat, cols: nat, sample: seq<int>) returns (board: array2<Cell>)
    requires IsSample(sample, rows * cols)
    ensures fresh(board) && board.Length0 == rows && board.Length1 == cols
    ensures Snapshot(board) == Layout(rows, cols, sample)
  {
    board := new Cell[rows, cols]((i, j) => Count(0));
    for k := 0 to |sample|
      invariant forall i, j :: 0 <= i < rows && 0 <= j < cols ==>
        cols > 0 && board[i, j] == Expected(sample[..k], cols, i, j)
    {
      var loc := sample[k];
      FlatInBounds(loc, rows, cols);
      var row := loc / cols;
      var col := loc % cols;
      board[row, col] := Mine;
      IncrementNeighbours(board, row, col);
      assert sample[..k + 1] == sample[..k] + [loc];
      forall i, j | 0 <= i < rows && 0 <= j < cols
        ensures board[i, j] == Expected(sample[..k + 1], cols, i, j)
      {
        FlatIndex(loc, cols, i, j);
      }
    }
    assert sample[..|sample|] == sample;
    ghost var g := Snapshot(board);
    ghost var h := Layout(rows, cols, sample);
    forall i | 0 <= i < rows ensures g[i] == h[i] { }
  }

  datatype Result<T, E> = Success(value: T) | Failure(error: E)

  /** Why a board could not be generated: the requested number of mines is
      not between zero and the number of cells, which the sampling of
      distinct indices rejects with a single error. */
  datatype BoardError = SampleOutOfRange

  /** Builds a `rows` by `cols` board holding `numMines` mines. Asking for a
      negative number of mines, or for more mines than cells, fails the way
      the sampling of distinct indices does. */
  method CreateBoard(rows: nat, cols: nat, numMines: int, sample: seq<int>)
    returns (r: Result<array2<Cell>, BoardError>)
    requires 0 <= numMines <= rows * cols ==> |sample| == numMines && IsSample(sample, rows * cols)
    ensures !(0 <= numMines <= rows * cols) <==> r == Failure(SampleOutOfRange)
    ensures r.Success? ==> fresh(r.value) && r.value.Length0 == rows && r.value.Length1 == cols &&
                           Snapshot(r.value) == Layout(rows, cols, sample) &&
                           GridCountIf(Snapshot(r.value), IsMineCell) == numMines
  {
    if !(0 <= numMines <= rows * cols) {
      return Failure(SampleOutOfRange);
    }
    var board := PlaceMines(rows, cols, sample);
    LayoutMineCount(sample, rows, cols);
    return Success(board);
  }

}
