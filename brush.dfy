/** The drawing brush of the board: painting a cell alive, and the mirrored
    brush that also paints the cell's reflections across the grid's middle
    column and middle row. */
module Drawing {
  import opened Grid

  function Abs(x: int): nat
  {
    if x < 0 then -x else x
  }

  /** Reflection of coordinate `x` across the middle line of an axis of `n`
      cells, the line at `floor(n / 2)`. */
  function Mirror(x: int, n: nat): int
  {
    2 * (n / 2) - x
  }

  /** On an odd axis the reflection of a cell is a cell (`n - 1 - x`); on an
      even axis it is `n - x`, so coordinate 0 reflects to `n`, one past the
      far edge, and every other coordinate stays on the axis. */
  lemma MirrorInBounds(x: int, n: nat)
    requires 0 <= x < n
    ensures n % 2 == 1 ==> Mirror(x, n) == n - 1 - x
    ensures n % 2 == 0 ==> Mirror(x, n) == n - x
    ensures 0 <= Mirror(x, n) < n <==> n % 2 == 1 || x != 0
  {
  }

  /** Reflecting twice gives the coordinate back. */
  lemma MirrorInvolutive(x: int, n: nat)
    ensures Mirror(Mirror(x, n), n) == x
  {
  }

  /** The index of an on-grid coordinate, none for an off-grid one. */
  function IndexSet(index: Option<nat>): set<int>
  {
    if index.Some? then {index.value} else {}
  }

  /** The indices the mirrored brush adds for a stroke at `(row, col)`: the
      reflections across the middle column, across the middle row, and
      across both, each only when it lies on the grid. */
  function ReflectionTargets(w: nat, h: nat, row: int, col: int): set<int>
  {
    var col2, row2 := Mirror(col, w), Mirror(row, h);
    IndexSet(GridIndex(row, col2, w, h)) + IndexSet(GridIndex(row2, col, w, h)) + IndexSet(GridIndex(row2, col2, w, h))
  }

  /** The board after one brush stroke at `(row, col)`: unchanged when that
      cell is already alive, otherwise the cell and, in mirror mode, its
      on-grid reflections are alive and nothing else differs. */
  /** The stroke at `(row, col)` writes only inside the array: the target's
      index, and, when a mirrored stroke on a dead target writes them, the
      indices of its on-grid reflections, lie below `|cells|`. */
  predicate WritesWithin(cells: seq<int>, w: nat, h: nat, mirroring: bool, row: int, col: int)
    requires 0 <= row < h && 0 <= col < w
  {
    var index := FlatIndex(row, col, w, h);
    index < |cells| &&
    (mirroring && cells[index] != 1 ==> ReflectionsBelow(w, h, row, col, |cells|))
  }

  /** Each on-grid reflection of `(row, col)` has an index below `n`. */
  predicate ReflectionsBelow(w: nat, h: nat, row: int, col: int, n: nat)
  {
    var col2, row2 := Mirror(col, w), Mirror(row, h);
    IndexBelow(GridIndex(row, col2, w, h), n) && IndexBelow(GridIndex(row2, col, w, h), n) &&
    IndexBelow(GridIndex(row2, col2, w, h), n)
  }

  predicate IndexBelow(index: Option<nat>, n: nat)
  {
    index.Some? ==> index.value < n
  }

  function Brush(cells: seq<int>, w: nat, h: nat, mirroring: bool, row: int, col: int): (r: seq<int>)
    requires 0 <= row < h && 0 <= col < w && WritesWithin(cells, w, h, mirroring, row, col)
    ensures |r| == |cells|
    ensures r[FlatIndex(row, col, w, h)] == 1
    ensures cells[FlatIndex(row, col, w, h)] == 1 ==> r == cells
  {
    var index := FlatIndex(row, col, w, h);
    if cells[index] == 1 then cells
    else
      seq(|cells|, k requires 0 <= k < |cells| =>
        if k == index || (mirroring && k in ReflectionTargets(w, h, row, col)) then 1 else cells[k])
  }

  /** `nextCells[index] = 1`, where a missing index (`null`) names no cell
      of the array, so no cell is written. */
  method SetAlive(a: array<int>, index: Option<nat>)
    requires index.Some? ==> index.value < a.Length
    modifies a
    ensures a[..] == if index.Some? then old(a[..])[index.value := 1] else old(a[..])
  {
    if index.Some? {
      a[index.value] := 1;
    }
  }

  /** The stroke of the drawing handler at an on-grid `(row, col)`: a live
      target is left alone; otherwise the cells are copied, the target set
      alive and, when mirroring, the three reflections chosen by the
      target's quadrant set alive too. */
  method Paint(cells: seq<int>, w: nat, h: nat, mirroring: bool, row: int, col: int) returns (next: seq<int>)
    requires 0 <= row < h && 0 <= col < w && WritesWithin(cells, w, h, mirroring, row, col)
    ensures next == Brush(cells, w, h, mirroring, row, col)
  {
    var index := FlatIndex(row, col, w, h);
    if cells[index] == 1 {
      return cells;
    }

    var nextCells := new int[|cells|](k requires 0 <= k < |cells| => cells[k]);
    nextCells[index] := 1;

    if mirroring {
      PaintReflections(nextCells, w, h, row, col);
      MirrorWritesTargets(cells, w, h, row, col);
    }
    next := nextCells[..];
  }

  /** The mirror branch of the drawing handler: the quadrant of
      `(row, col)` relative to the middle column and row selects how each
      reflection is computed; in every quadrant it is the reflection
      across the middle line, written through GridIndex so that an off-grid
      one writes nothing. */
  method PaintReflections(nextCells: array<int>, w: nat, h: nat, row: int, col: int)
    requires 0 <= row < h && 0 <= col < w
    requires ReflectionsBelow(w, h, row, col, nextCells.Length)
    modifies nextCells
    ensures
      var col2, row2 := Mirror(col, w), Mirror(row, h);
      nextCells[..] == Put(Put(Put(old(nextCells[..]), GridIndex(row, col2, w, h)), GridIndex(row2, col, w, h)), GridIndex(row2, col2, w, h))
  {
    var halfWidth := w / 2;
    var halfHeight := h / 2;
    var distanceToMiddle := Abs(col - halfWidth);
    var distanceToMiddleHeight := Abs(row - halfHeight);
    ghost var col2, row2 := Mirror(col, w), Mirror(row, h);
    if col > halfWidth {
      assert halfWidth - distanceToMiddle == col2;
      if row > halfHeight {
        assert halfHeight - distanceToMiddleHeight == row2;
        // bottom right
        SetAlive(nextCells, GridIndex(row, halfWidth - distanceToMiddle, w, h));
        SetAlive(nextCells, GridIndex(halfHeight - distanceToMiddleHeight, col, w, h));
        SetAlive(nextCells, GridIndex(halfHeight - distanceToMiddleHeight, halfWidth - distanceToMiddle, w, h));
      } else {
        assert halfHeight + distanceToMiddleHeight == row2;
        // top right
        SetAlive(nextCells, GridIndex(row, halfWidth - distanceToMiddle, w, h));
        SetAlive(nextCells, GridIndex(halfHeight + distanceToMiddleHeight, col, w, h));
        SetAlive(nextCells, GridIndex(halfHeight + distanceToMiddleHeight, halfWidth - distanceToMiddle, w, h));
      }
    } else {
      assert halfWidth + distanceToMiddle == col2;
      if row > halfHeight {
        assert halfHeight - distanceToMiddleHeight == row2;
        // bottom left
        SetAlive(nextCells, GridIndex(row, halfWidth + distanceToMiddle, w, h));
        SetAlive(nextCells, GridIndex(halfHeight - distanceToMiddleHeight, col, w, h));
        SetAlive(nextCells, GridIndex(halfHeight - distanceToMiddleHeight, halfWidth + distanceToMiddle, w, h));
      } else {
        assert halfHeight + distanceToMiddleHeight == row2;
        // top left
        SetAlive(nextCells, GridIndex(row, halfWidth + distanceToMiddle, w, h));
        SetAlive(nextCells, GridIndex(halfHeight + distanceToMiddleHeight, col, w, h));
        SetAlive(nextCells, GridIndex(halfHeight + distanceToMiddleHeight, halfWidth + distanceToMiddle, w, h));
      }
    }
  }

  /** The sequence analogue of SetAlive. */
  function Put(s: seq<int>, index: Option<nat>): (r: seq<int>)
    requires index.Some? ==> index.value < |s|
    ensures |r| == |s|
  {
    if index.Some? then s[index.value := 1] else s
  }

  lemma PutAt(s: seq<int>, index: Option<nat>, k: nat)
    requires index.Some? ==> index.value < |s|
    requires k < |s|
    ensures Put(s, index)[k] == if k in IndexSet(index) then 1 else s[k]
  {
  }

  /** Setting the target and its three `GridIndex` reflections alive gives
      exactly the brush's board. */
  lemma MirrorWritesTargets(cells: seq<int>, w: nat, h: nat, row: int, col: int)
    requires 0 <= row < h && 0 <= col < w && WritesWithin(cells, w, h, true, row, col)
    requires cells[FlatIndex(row, col, w, h)] != 1
    ensures
      var col2, row2 := Mirror(col, w), Mirror(row, h);
      Put(Put(Put(cells[FlatIndex(row, col, w, h) := 1], GridIndex(row, col2, w, h)), GridIndex(row2, col, w, h)), GridIndex(row2, col2, w, h))
      == Brush(cells, w, h, true, row, col)
  {
    var col2, row2 := Mirror(col, w), Mirror(row, h);
    var s0 := cells[FlatIndex(row, col, w, h) := 1];
    var s1 := Put(s0, GridIndex(row, col2, w, h));
    var s2 := Put(s1, GridIndex(row2, col, w, h));
    var s3 := Put(s2, GridIndex(row2, col2, w, h));
    var b := Brush(cells, w, h, true, row, col);
    var i1, i2, i3 := GridIndex(row, col2, w, h), GridIndex(row2, col, w, h), GridIndex(row2, col2, w, h);
    assert ReflectionTargets(w, h, row, col) == IndexSet(i1) + IndexSet(i2) + IndexSet(i3);
    forall k | 0 <= k < |cells|
      ensures s3[k] == b[k]
    {
      PutAt(s0, i1, k);
      PutAt(s1, i2, k);
      PutAt(s2, i3, k);
    }
  }

  /** A second identical stroke changes nothing. */
  lemma BrushIdempotent(cells: seq<int>, w: nat, h: nat, mirroring: bool, row: int, col: int)
    requires 0 <= row < h && 0 <= col < w && WritesWithin(cells, w, h, mirroring, row, col)
    ensures Brush(Brush(cells, w, h, mirroring, row, col), w, h, mirroring, row, col) == Brush(cells, w, h, mirroring, row, col)
  {
  }

  /** The brush never erases: each cell keeps its value or becomes alive,
      and a board of 0s and 1s stays one. */
  lemma BrushMonotone(cells: seq<int>, w: nat, h: nat, mirroring: bool, row: int, col: int)
    requires 0 <= row < h && 0 <= col < w && WritesWithin(cells, w, h, mirroring, row, col)
    ensures forall k :: 0 <= k < |cells| ==>
      var r := Brush(cells, w, h, mirroring, row, col);
      r[k] == cells[k] || r[k] == 1
    ensures Binary(cells) ==> Binary(Brush(cells, w, h, mirroring, row, col))
  {
  }

  /** On a grid of odd width and height every reflection lies on the grid,
      so a stroke on a dead cell in mirror mode paints four-way symmetric
      cells. */
  lemma MirroredStrokeOnOddGrid(cells: seq<int>, w: nat, h: nat, row: int, col: int)
    requires 0 <= row < h && 0 <= col < w && WritesWithin(cells, w, h, true, row, col)
    requires w % 2 == 1 && h % 2 == 1 && cells[FlatIndex(row, col, w, h)] != 1
    ensures
      var r := Brush(cells, w, h, true, row, col);
      var i1, i2, i3 := GridIndex(row, w - 1 - col, w, h), GridIndex(h - 1 - row, col, w, h), GridIndex(h - 1 - row, w - 1 - col, w, h);
      i1.Some? && i2.Some? && i3.Some? &&
      r[FlatIndex(row, col, w, h)] == 1 && r[i1.value] == 1 && r[i2.value] == 1 && r[i3.value] == 1
  {
    MirrorInBounds(col, w);
    MirrorInBounds(row, h);
    var col2, row2 := Mirror(col, w), Mirror(row, h);
    assert col2 == w - 1 - col && row2 == h - 1 - row;
    var t := ReflectionTargets(w, h, row, col);
    var i1, i2, i3 := GridIndex(row, col2, w, h), GridIndex(row2, col, w, h), GridIndex(row2, col2, w, h);
    assert i1.Some? && i2.Some? && i3.Some?;
    assert i1.value in t && i2.value in t && i3.value in t;
  }
}
