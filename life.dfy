/** One generation of Conway's Game of Life (rule B3/S23) on a bounded grid:
    the neighbour count, the rule, and `calculateNextState`, which computes
    the next generation into a fresh array and reports whether any cell
    changed. */
module Life {
  import opened Grid

  /** The result of `calculateNextState`: `false` when no cell changed,
      otherwise the new cells. */
  datatype StepResult = Unchanged | Changed(cells: seq<int>)

  /** The lookup `cells[index] === 1`: an index that is missing or lies past
      the end of the array reads `undefined`, which is not 1. */
  predicate IsLive(cells: seq<int>, index: Option<nat>)
  {
    index.Some? && index.value < |cells| && cells[index.value] == 1
  }

  /** 1 when `(row, col)` is a live cell of the `w` by `h` grid, 0 otherwise;
      a coordinate off the grid is permanently dead. */
  function CellAt(cells: seq<int>, w: nat, h: nat, row: int, col: int): int
  {
    if IsLive(cells, GridIndex(row, col, w, h)) then 1 else 0
  }

  /** Live cells among the eight Moore neighbours of flat index `i`. */
  function LiveNeighbours(cells: seq<int>, w: nat, h: nat, i: nat): (n: int)
    ensures 0 <= n <= 8
  {
    var row, col := RowOf(i, w), ColOf(i, w);
    CellAt(cells, w, h, row - 1, col - 1) + CellAt(cells, w, h, row - 1, col) + CellAt(cells, w, h, row - 1, col + 1) +
    CellAt(cells, w, h, row, col - 1) +                                          CellAt(cells, w, h, row, col + 1) +
    CellAt(cells, w, h, row + 1, col - 1) + CellAt(cells, w, h, row + 1, col) + CellAt(cells, w, h, row + 1, col + 1)
  }

  /** The B3/S23 rule applied to a cell holding `v` with `n` live neighbours. */
  function NextCell(v: int, n: int): (r: int)
    ensures r == 0 || r == 1
    ensures v == 1 ==> (r == 1 <==> n == 2 || n == 3)
    ensures v == 0 ==> (r == 1 <==> n == 3)
    ensures v != 0 && v != 1 ==> r == 0
  {
    if (v == 1 && (n == 2 || n == 3)) || (v == 0 && n == 3) then 1 else 0
  }

  /** The next generation: every cell rated against the current one. */
  function NextGen(cells: seq<int>, w: nat, h: nat): (r: seq<int>)
    ensures |r| == |cells|
    ensures Binary(r)
  {
    seq(|cells|, i requires 0 <= i < |cells| => NextCell(cells[i], LiveNeighbours(cells, w, h, i)))
  }

  /** What `calculateNextState` returns. */
  function Step(cells: seq<int>, w: nat, h: nat): (r: StepResult)
    ensures r.Unchanged? <==> forall i :: 0 <= i < |cells| ==> NextGen(cells, w, h)[i] == cells[i]
    ensures r.Changed? ==> |r.cells| == |cells| && Binary(r.cells) && r.cells != cells
  {
    var next := NextGen(cells, w, h);
    if next == cells then Unchanged else Changed(next)
  }

  /** Live cells of row `row` in columns `lo` up to (excluding) `hi`: what
      the source's inner `for (let j = column - 1; j < column + 2; j++)`
      loops accumulate. */
  function RowSum(cells: seq<int>, w: nat, h: nat, row: int, lo: int, hi: int): (n: int)
    decreases hi - lo
  {
    if hi <= lo then 0 else RowSum(cells, w, h, row, lo, hi - 1) + CellAt(cells, w, h, row, hi - 1)
  }

  /** The neighbour count of `calculateNextState`: the three cells of the row
      above, the cells to the left and right, the three cells of the row
      below. The left and right lookups are guarded against a missing index;
      the row loops rely on a missing index reading as not live. */
  method CountLiveNeighbours(cells: seq<int>, w: nat, h: nat, i: nat) returns (neighbourCount: int)
    ensures neighbourCount == LiveNeighbours(cells, w, h, i)
  {
    neighbourCount := 0;
    var row: int, column: int := RowOf(i, w), ColOf(i, w);

    // the row above
    var j := column - 1;
    while j < column + 2
      invariant column - 1 <= j <= column + 2
      invariant neighbourCount == RowSum(cells, w, h, row - 1, column - 1, j)
    {
      if IsLive(cells, GridIndex(row - 1, j, w, h)) {
        neighbourCount := neighbourCount + 1;
      }
      j := j + 1;
    }
    RowSumOfThree(cells, w, h, row - 1, column);

    // left and right
    var leftIndex := GridIndex(row, column - 1, w, h);
    neighbourCount := neighbourCount + if leftIndex.Some? && IsLive(cells, leftIndex) then 1 else 0;
    var rightIndex := GridIndex(row, column + 1, w, h);
    neighbourCount := neighbourCount + if rightIndex.Some? && IsLive(cells, rightIndex) then 1 else 0;
    var sides := neighbourCount;

    // the row below
    j := column - 1;
    while j < column + 2
      invariant column - 1 <= j <= column + 2
      invariant neighbourCount == sides + RowSum(cells, w, h, row + 1, column - 1, j)
    {
      if IsLive(cells, GridIndex(row + 1, j, w, h)) {
        neighbourCount := neighbourCount + 1;
      }
      j := j + 1;
    }
    RowSumOfThree(cells, w, h, row + 1, column);
  }

  lemma RowSumOfThree(cells: seq<int>, w: nat, h: nat, row: int, col: int)
    ensures RowSum(cells, w, h, row, col - 1, col + 2) ==
            CellAt(cells, w, h, row, col - 1) + CellAt(cells, w, h, row, col) + CellAt(cells, w, h, row, col + 1)
  {
    assert RowSum(cells, w, h, row, col - 1, col) == CellAt(cells, w, h, row, col - 1);
    assert RowSum(cells, w, h, row, col - 1, col + 1) ==
           CellAt(cells, w, h, row, col - 1) + CellAt(cells, w, h, row, col);
  }

  /** `calculateNextState`: counts each cell's neighbours in the unchanged
      input, writes the rule's verdict into a fresh zero-filled array, and
      returns Unchanged when no cell differs from its old value. */
  method CalculateNextState(cells: seq<int>, w: nat, h: nat) returns (r: StepResult)
    ensures r == Step(cells, w, h)
  {
    var newCells := new int[|cells|](_ => 0);
    var cellsChanged := false;
    var i := 0;
    while i < |cells|
      invariant 0 <= i <= |cells|
      invariant forall k {:trigger newCells[k]} :: 0 <= k < i ==> newCells[k] == NextCell(cells[k], LiveNeighbours(cells, w, h, k))
      invariant forall k :: i <= k < |cells| ==> newCells[k] == 0
      invariant cellsChanged <==> newCells[..i] != cells[..i]
    {
      var neighbourCount := CountLiveNeighbours(cells, w, h, i);
      if (cells[i] == 1 && (neighbourCount == 2 || neighbourCount == 3)) || (cells[i] == 0 && neighbourCount == 3) {
        newCells[i] := 1;
      }
      if newCells[i] != cells[i] {
        cellsChanged := true;
      }
      PrefixDiffers(newCells[..], cells, i);
      i := i + 1;
    }
    assert newCells[..] == NextGen(cells, w, h);
    if !cellsChanged {
      return Unchanged;
    }
    return Changed(newCells[..]);
  }

  /** Two prefixes of length `i + 1` differ exactly when the shorter
      prefixes differ or the elements at `i` do. */
  lemma PrefixDiffers(a: seq<int>, b: seq<int>, i: nat)
    requires i < |a| && i < |b|
    ensures a[..i + 1] != b[..i + 1] <==> a[..i] != b[..i] || a[i] != b[i]
  {
  }

  /** On a board with no live cell every count is 0, so nothing is born and
      `calculateNextState` reports no change. */
  lemma AllDeadIsUnchanged(n: nat, w: nat, h: nat)
    ensures Step(Zeros(n), w, h) == Unchanged
  {
  }

  /** Two cells are neighbours when their rows and their columns each differ
      by at most one and they are not the same cell. */
  predicate Adjacent(w: nat, i: nat, k: nat)
  {
    k != i &&
    -1 <= RowOf(k, w) - RowOf(i, w) <= 1 &&
    -1 <= ColOf(k, w) - ColOf(i, w) <= 1
  }

  /** The count of cell `i` depends only on its adjacent in-grid cells: two
      boards that agree on those give the same count. Nothing past an edge
      is read, and nothing wraps round to the opposite edge. */
  lemma NeighboursAreLocal(c1: seq<int>, c2: seq<int>, w: nat, h: nat, i: nat)
    requires forall k :: 0 <= k < w * h && Adjacent(w, i, k) ==> IsLive(c1, Some(k)) == IsLive(c2, Some(k))
    ensures LiveNeighbours(c1, w, h, i) == LiveNeighbours(c2, w, h, i)
  {
    var row, col := RowOf(i, w), ColOf(i, w);
    CellAtLocal(c1, c2, w, h, i, -1, -1);
    CellAtLocal(c1, c2, w, h, i, -1, 0);
    CellAtLocal(c1, c2, w, h, i, -1, 1);
    CellAtLocal(c1, c2, w, h, i, 0, -1);
    CellAtLocal(c1, c2, w, h, i, 0, 1);
    CellAtLocal(c1, c2, w, h, i, 1, -1);
    CellAtLocal(c1, c2, w, h, i, 1, 0);
    CellAtLocal(c1, c2, w, h, i, 1, 1);
  }

  lemma CellAtLocal(c1: seq<int>, c2: seq<int>, w: nat, h: nat, i: nat, dr: int, dc: int)
    requires -1 <= dr <= 1 && -1 <= dc <= 1 && (dr != 0 || dc != 0)
    requires forall k :: 0 <= k < w * h && Adjacent(w, i, k) ==> IsLive(c1, Some(k)) == IsLive(c2, Some(k))
    ensures CellAt(c1, w, h, RowOf(i, w) + dr, ColOf(i, w) + dc) == CellAt(c2, w, h, RowOf(i, w) + dr, ColOf(i, w) + dc)
  {
    var row, col := RowOf(i, w) + dr, ColOf(i, w) + dc;
    var index := GridIndex(row, col, w, h);
    if index.Some? {
      IndexInjective(row, col, w, h);
      assert Adjacent(w, i, index.value);
    }
  }

  /** A board whose only live cell is the corner (0, 0): exactly the three
      in-grid cells touching that corner see one live neighbour, and every
      other cell, on the far edges included, sees none. */
  lemma CornerCellNeighbours(w: nat, h: nat, i: nat)
    requires w >= 1 && h >= 1 && i < w * h
    ensures LiveNeighbours(Zeros(w * h)[0 := 1], w, h, i) ==
            if RowOf(i, w) <= 1 && ColOf(i, w) <= 1 && i != 0 then 1 else 0
  {
    var cells := Zeros(w * h)[0 := 1];
    forall row: int, col: int
      ensures CellAt(cells, w, h, row, col) == if row == 0 && col == 0 then 1 else 0
    {
      var index := GridIndex(row, col, w, h);
      if index.Some? && index.value == 0 {
        IndexInjective(row, col, w, h);
      }
    }
    IndexRoundTrip(i, w, h);
  }
}
