/** The brush and the generation step exactly as the source writes them,
    down to JavaScript's treatment of a `null` index.

    `nextCells[getIndexForGridCoords(...)] = 1` with an off-grid reflection
    evaluates `nextCells[null] = 1`, which stores 1 under the property key
    "null" of the new array. The row loops of `calculateNextState` then read
    `cells[index] === 1` with no null guard (only the left and right lookups
    have one), so on that array every off-grid neighbour above or below a
    cell reads `cells[null]`, which is 1: the board edge behaves as if it
    were alive for the next generation. */
module AsWritten {
  import opened Grid
  import opened Life
  import opened Drawing

  /** A cells array as JavaScript holds it: its elements, and whether 1 has
      been stored under the property key "null". */
  datatype JsCells = JsCells(elems: seq<int>, nullIsLive: bool)

  /** `nextCells[index] = 1` on a JavaScript array. */
  function PutAsWritten(a: JsCells, index: Option<nat>): (r: JsCells)
    requires index.Some? ==> index.value < |a.elems|
    ensures r.elems == Put(a.elems, index)
    ensures r.nullIsLive <==> a.nullIsLive || index.None?
  {
    if index.Some? then a.(elems := a.elems[index.value := 1]) else a.(nullIsLive := true)
  }

  /** The drawing handler as written. The copy `[...cells]` takes the
      elements only, so the "null" entry starts out absent on a new board;
      a stroke on a live cell returns without a new board. */
  function BrushAsWritten(a: JsCells, w: nat, h: nat, mirroring: bool, row: int, col: int): (r: JsCells)
    requires 0 <= row < h && 0 <= col < w && WritesWithin(a.elems, w, h, mirroring, row, col)
    ensures r.elems == Brush(a.elems, w, h, mirroring, row, col)
    ensures a.elems[FlatIndex(row, col, w, h)] != 1 ==>
      (r.nullIsLive <==> mirroring && !(0 <= Mirror(col, w) < w && 0 <= Mirror(row, h) < h))
  {
    var index := FlatIndex(row, col, w, h);
    if a.elems[index] == 1 then a
    else
      var next := JsCells(a.elems[index := 1], false);
      if !mirroring then next
      else
        var col2, row2 := Mirror(col, w), Mirror(row, h);
        MirrorWritesTargets(a.elems, w, h, row, col);
        PutAsWritten(PutAsWritten(PutAsWritten(next, GridIndex(row, col2, w, h)), GridIndex(row2, col, w, h)), GridIndex(row2, col2, w, h))
  }

  /** `cells[index] === 1` in the row loops: a missing index reads the
      "null" entry. */
  function RowLoopCellAt(a: JsCells, w: nat, h: nat, row: int, col: int): int
  {
    var index := GridIndex(row, col, w, h);
    if (index.None? && a.nullIsLive) || IsLive(a.elems, index) then 1 else 0
  }

  /** The neighbour count as written: unguarded lookups for the rows above
      and below, guarded ones to the left and right. */
  function LiveNeighboursAsWritten(a: JsCells, w: nat, h: nat, i: nat): (n: int)
    ensures 0 <= n <= 8
    ensures !a.nullIsLive ==> n == LiveNeighbours(a.elems, w, h, i)
  {
    var row, col := RowOf(i, w), ColOf(i, w);
    RowLoopCellAt(a, w, h, row - 1, col - 1) + RowLoopCellAt(a, w, h, row - 1, col) + RowLoopCellAt(a, w, h, row - 1, col + 1) +
    CellAt(a.elems, w, h, row, col - 1) + CellAt(a.elems, w, h, row, col + 1) +
    RowLoopCellAt(a, w, h, row + 1, col - 1) + RowLoopCellAt(a, w, h, row + 1, col) + RowLoopCellAt(a, w, h, row + 1, col + 1)
  }

  /** The next generation as written. */
  function NextGenAsWritten(a: JsCells, w: nat, h: nat): (r: seq<int>)
    ensures |r| == |a.elems|
    ensures !a.nullIsLive ==> r == NextGen(a.elems, w, h)
  {
    seq(|a.elems|, i requires 0 <= i < |a.elems| => NextCell(a.elems[i], LiveNeighboursAsWritten(a, w, h, i)))
  }

  /** On an empty 4 by 4 board, a mirrored stroke at (0, 0) paints only that
      cell (all three reflections are off the grid) but marks "null" live.
      The next generation as written then gives birth to cell (0, 2), which
      has no live neighbour on the board: the three off-grid cells above it
      are read as alive. Computed from the elements alone, the cell stays
      dead. */
  lemma PhantomEdgeCounterexample()
    ensures
      var painted := BrushAsWritten(JsCells(Zeros(16), false), 4, 4, true, 0, 0);
      painted.nullIsLive &&
      painted.elems == Brush(Zeros(16), 4, 4, true, 0, 0) &&
      NextGenAsWritten(painted, 4, 4)[2] == 1 &&
      NextGen(Brush(Zeros(16), 4, 4, true, 0, 0), 4, 4)[2] == 0
  {
    assert Mirror(0, 4) == 4;
    assert GridIndex(0, 4, 4, 4).None? && GridIndex(4, 0, 4, 4).None? && GridIndex(4, 4, 4, 4).None?;
    assert WritesWithin(Zeros(16), 4, 4, true, 0, 0);
  }
}
