/** The interactive session of the `Game` component: the board, the
    `running`, `drawing` and `mirroring` flags, and the board width that a
    resize recomputes. Each method is one event or button of the page. */
module Game {
  import opened Grid
  import opened Life
  import opened Drawing

  /** Pixel width of a cell. */
  const CellWidth: nat := 10
  /** Board width before the first resize. */
  const InitialWidthInCells: nat := 80
  /** Board height; no event changes it. */
  const HeightInCells: nat := 80

  /** The board that `clear` restores: sized once from the initial 80 by 80
      parameters, whatever the current width. */
  const InitialCells: seq<int> := Zeros(InitialWidthInCells * HeightInCells)

  /** Cells that fit across `paperWidth` pixels. */
  function WidthForPaper(paperWidth: nat): (w: nat)
    ensures w * CellWidth <= paperWidth < (w + 1) * CellWidth
  {
    paperWidth / CellWidth
  }

  /** After a resize to any width other than the initial one, `clear`
      restores a board whose length is not the current width times the
      height. */
  lemma ClearedBoardMismatch(paperWidth: nat)
    requires WidthForPaper(paperWidth) != InitialWidthInCells
    ensures |InitialCells| != WidthForPaper(paperWidth) * HeightInCells
  {
  }

  class Session {
    var cells: seq<int>
    var running: bool
    var drawing: bool
    var mirroring: bool
    /** `params.widthInCells`, shared with the engine and rewritten on resize. */
    var widthInCells: nat

    /** Every cell is 0 or 1, and the board is sized either for the current
        width or, after `clear`, for the initial one. */
    ghost predicate Valid()
      reads this
    {
      Binary(cells) &&
      (|cells| == widthInCells * HeightInCells || |cells| == InitialWidthInCells * HeightInCells)
    }

    /** A new session, as the component's state starts out: an empty 80 by
        80 board, nothing running, drawing or mirrored. The component resizes
        once on mount, so the first board shown is the one a following
        Resize gives. */
    constructor ()
      ensures Valid()
      ensures cells == InitialCells && widthInCells == InitialWidthInCells
      ensures !running && !drawing && !mirroring
    {
      cells := InitialCells;
      running, drawing, mirroring := false, false, false;
      widthInCells := InitialWidthInCells;
    }

    /** Mouse-down on the board at cell `(row, col)`: starts a draw gesture,
        stops continuous running and paints the cell. */
    method MouseDown(row: int, col: int)
      requires Valid()
      requires 0 <= row < HeightInCells && 0 <= col < widthInCells && WritesWithin(cells, widthInCells, HeightInCells, mirroring, row, col)
      modifies this
      ensures Valid()
      ensures drawing && !running
      ensures mirroring == old(mirroring) && widthInCells == old(widthInCells)
      ensures cells == Brush(old(cells), widthInCells, HeightInCells, mirroring, row, col)
    {
      drawing := true;
      running := false;
      BrushMonotone(cells, widthInCells, HeightInCells, mirroring, row, col);
      cells := Paint(cells, widthInCells, HeightInCells, mirroring, row, col);
    }

    /** Mouse movement over cell `(row, col)`: paints only while a draw
        gesture is active. */
    method MouseMove(row: int, col: int)
      requires Valid()
      requires drawing ==> 0 <= row < HeightInCells && 0 <= col < widthInCells && WritesWithin(cells, widthInCells, HeightInCells, mirroring, row, col)
      modifies this
      ensures Valid()
      ensures running == old(running) && drawing == old(drawing) && mirroring == old(mirroring)
      ensures widthInCells == old(widthInCells)
      ensures cells == if drawing then Brush(old(cells), widthInCells, HeightInCells, mirroring, row, col) else old(cells)
    {
      if drawing {
        BrushMonotone(cells, widthInCells, HeightInCells, mirroring, row, col);
        cells := Paint(cells, widthInCells, HeightInCells, mirroring, row, col);
      }
    }

    /** Mouse-up on, or the pointer leaving, the board: ends the gesture. */
    method MouseUp()
      modifies this`drawing
      ensures !drawing
    {
      drawing := false;
    }

    /** One animation frame: while running, advance a generation, or stop
        when the generation brings no change. */
    method Tick()
      requires Valid()
      modifies this
      ensures Valid()
      ensures !old(running) ==> cells == old(cells) && !running
      ensures old(running) ==>
        match Step(old(cells), widthInCells, HeightInCells)
        case Unchanged => cells == old(cells) && !running
        case Changed(next) => cells == next && running
      ensures drawing == old(drawing) && mirroring == old(mirroring) && widthInCells == old(widthInCells)
    {
      if running {
        var r := CalculateNextState(cells, widthInCells, HeightInCells);
        match r
        case Changed(next) =>
          cells := next;
        case Unchanged =>
          running := false;
      }
    }

    /** The step button: advance one generation, whether or not running. */
    method StepOnce()
      requires Valid()
      modifies this
      ensures Valid()
      ensures match Step(old(cells), widthInCells, HeightInCells)
        case Unchanged => cells == old(cells)
        case Changed(next) => cells == next
      ensures running == old(running) && drawing == old(drawing) && mirroring == old(mirroring)
      ensures widthInCells == old(widthInCells)
    {
      var r := CalculateNextState(cells, widthInCells, HeightInCells);
      if r.Changed? {
        cells := r.cells;
      }
    }

    /** The clear button: back to the initial board. */
    method Clear()
      requires Valid()
      modifies this`cells
      ensures Valid()
      ensures cells == InitialCells
    {
      cells := InitialCells;
    }

    /** The mirror button. */
    method ToggleMirroring()
      modifies this`mirroring
      ensures mirroring == !old(mirroring)
    {
      mirroring := !mirroring;
    }

    /** The continuous/pause button. */
    method ToggleRunning()
      modifies this`running
      ensures running == !old(running)
    {
      running := !running;
    }

    /** The randomize button; `bits` are the host's random draws, one 0 or 1
        per cell. */
    method Randomize(bits: seq<int>)
      requires Valid()
      requires |bits| == |cells| && Binary(bits)
      modifies this`cells
      ensures Valid()
      ensures cells == bits
    {
      cells := bits;
    }

    /** A window resize: the width becomes what fits across `paperWidth`
        pixels and the board is cleared at the new size. */
    method Resize(paperWidth: nat)
      requires Valid()
      modifies this`cells, this`widthInCells
      ensures Valid()
      ensures widthInCells == WidthForPaper(paperWidth)
      ensures cells == Zeros(widthInCells * HeightInCells)
    {
      widthInCells := paperWidth / CellWidth;
      cells := Zeros(widthInCells * HeightInCells);
    }
  }
}
