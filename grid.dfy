/** The flat cell grid of the Game of Life board: a row-major sequence of
    cells, `width` cells to a row, and the coordinate-to-index map with its
    hard (non-wrapping, non-clamping) boundary. */
module Grid {

  datatype Option<T> = None | Some(value: T)

  /** A sequence of `n` dead cells (`Array(n).fill(0)`). */
  function Zeros(n: nat): (r: seq<int>)
    ensures |r| == n
    ensures forall k :: 0 <= k < n ==> r[k] == 0
  {
    seq(n, _ => 0)
  }

  /** Every cell is 0 (dead) or 1 (alive). */
  predicate Binary(cells: seq<int>)
  {
    forall k :: 0 <= k < |cells| ==> cells[k] == 0 || cells[k] == 1
  }

  /** Row-major index of `(row, col)` on a `w` by `h` grid, or None when the
      coordinate lies outside the grid. */
  function GridIndex(row: int, col: int, w: nat, h: nat): (r: Option<nat>)
    ensures r.None? <==> !(0 <= row < h && 0 <= col < w)
    ensures r.Some? ==> r.value == row * w + col && r.value < w * h
  {
    if row < 0 || row > h - 1 then None
    else if col < 0 || col > w - 1 then None
    else
      IndexBelowArea(row, col, w, h);
      Some(row * w + col)
  }

  /** `widthInCells * row + column` for a coordinate known to be on the
      grid, computed without the bounds check of GridIndex. */
  function FlatIndex(row: int, col: int, w: nat, h: nat): (k: nat)
    requires 0 <= row < h && 0 <= col < w
    ensures k < w * h
    ensures GridIndex(row, col, w, h) == Some(k)
  {
    IndexBelowArea(row, col, w, h);
    w * row + col
  }

  lemma IndexBelowArea(row: nat, col: nat, w: nat, h: nat)
    requires row < h && col < w
    ensures row * w + col < w * h
  {
    calc {
      row * w + col;
    <  row * w + w;
    == (row + 1) * w;
    <= { MulMonotone(row + 1, h, w); } h * w;
    }
  }

  lemma MulMonotone(a: nat, b: nat, w: nat)
    requires a <= b
    ensures a * w <= b * w
  {
  }

  /** Row of flat index `i` (`Math.floor(i / widthInCells)`). With a zero
      width the source computes NaN or Infinity here; every coordinate of a
      zero-width grid is out of bounds, so the value returned then is
      immaterial. */
  function RowOf(i: nat, w: nat): nat
  {
    if w == 0 then 0 else i / w
  }

  /** Column of flat index `i` (`i % widthInCells`); see RowOf for `w == 0`. */
  function ColOf(i: nat, w: nat): nat
  {
    if w == 0 then 0 else i % w
  }

  /** Splitting a flat index into row and column and indexing again gives
      the index back, for every index of the grid. */
  lemma IndexRoundTrip(i: nat, w: nat, h: nat)
    requires i < w * h
    ensures GridIndex(RowOf(i, w), ColOf(i, w), w, h) == Some(i)
  {
  }

  /** The index determines the coordinate: distinct in-grid coordinates have
      distinct indices, and the coordinate is recovered by RowOf/ColOf. */
  lemma IndexInjective(row: int, col: int, w: nat, h: nat)
    requires GridIndex(row, col, w, h).Some?
    ensures RowOf(GridIndex(row, col, w, h).value, w) == row
    ensures ColOf(GridIndex(row, col, w, h).value, w) == col
  {
    var k := row * w + col;
    DivModUnique(row, col, w);
  }

  lemma DivModUnique(q: nat, m: nat, w: nat)
    requires m < w
    ensures (q * w + m) / w == q && (q * w + m) % w == m
  {
    var k := q * w + m;
    var q', m' := k / w, k % w;
    assert k == q' * w + m';
    if q' < q {
      MulMonotone(q' + 1, q, w);
      assert false;
    } else if q < q' {
      MulMonotone(q + 1, q', w);
      assert false;
    }
  }
}
