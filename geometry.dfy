/**
 * The plan's coordinate arithmetic: `Math.round`, the `Math.max(lo, Math.min(v, hi))`
 * clamp, the centring of a table inside its cell and the recovery of a cell
 * from a pixel position. Pixels are exact reals; IEEE rounding is not modelled.
 */
module Geometry {

  /** `Math.round(v)`: the integer nearest to `v`, halves rounded up. */
  function Round(v: real): (r: int)
    ensures r as real <= v + 0.5 < r as real + 1.0
  {
    (v + 0.5).Floor
  }

  /** The value `Round` gives is the only integer in `[v - 1/2, v + 1/2)`. */
  lemma RoundUnique(v: real, n: int)
    requires n as real <= v + 0.5 < n as real + 1.0
    ensures Round(v) == n
  {
  }

  /** `Math.max(lo, Math.min(v, hi))` on integers. */
  function Clamp(v: int, lo: int, hi: int): (r: int)
    ensures lo <= hi ==> lo <= r <= hi
    ensures lo <= v <= hi ==> r == v
    ensures v < lo ==> r == lo
    ensures lo <= hi < v ==> r == hi
  {
    var m := if v < hi then v else hi;
    if lo > m then lo else m
  }

  /** `Math.max(lo, Math.min(v, hi))` on pixel values. */
  function ClampReal(v: real, lo: real, hi: real): (r: real)
    ensures lo <= hi ==> lo <= r <= hi
    ensures lo <= v <= hi ==> r == v
    ensures hi < lo ==> r == lo
  {
    var m := if v < hi then v else hi;
    if lo > m then lo else m
  }

  /** The pixel at which a table of `tableSize` starts when it is centred in cell `index`:
      `index * cellSize + (cellSize - tableSize) / 2`. */
  function Centred(index: int, cellSize: real, tableSize: real): (p: real)
    ensures p + tableSize / 2.0 == (index as real + 0.5) * cellSize
  {
    index as real * cellSize + (cellSize - tableSize) / 2.0
  }

  /** The cell a pixel position falls in: `Math.round(p / cellSize)` clamped into `[0, count - 1]`. */
  function CellIndex(p: real, cellSize: real, count: int): (c: int)
    requires cellSize > 0.0
    ensures count >= 1 ==> 0 <= c < count
  {
    Clamp(Round(p / cellSize), 0, count - 1)
  }

  /** Rounding the centred position back recovers the cell, provided the table
      has positive size and fits its cell. */
  lemma SnapRecoversIndex(index: int, cellSize: real, tableSize: real)
    requires 0.0 < tableSize <= cellSize
    ensures Round(Centred(index, cellSize, tableSize) / cellSize) == index
  {
    var p := Centred(index, cellSize, tableSize);
    var f := (cellSize - tableSize) / (2.0 * cellSize);
    assert p == cellSize * (index as real + f);
    assert p / cellSize == index as real + f;
    assert 0.0 <= f < 0.5 by {
      assert cellSize - tableSize < cellSize;
    }
    RoundUnique(p / cellSize, index);
  }

  /** With a table of size zero the centred position lies on the half-cell and
      rounds to the next cell: the recovery above needs `tableSize > 0`. */
  lemma SnapNeedsPositiveSize()
    ensures Round(Centred(0, 10.0, 0.0) / 10.0) == 1
  {
    assert Centred(0, 10.0, 0.0) / 10.0 == 0.5;
  }

  /** Snapping is idempotent: re-deriving the cell of a snapped position gives back the cell. */
  lemma ResnapIdempotent(p: real, cellSize: real, tableSize: real, count: int)
    requires 0.0 < tableSize <= cellSize && count >= 1
    ensures CellIndex(Centred(CellIndex(p, cellSize, count), cellSize, tableSize), cellSize, count)
         == CellIndex(p, cellSize, count)
  {
    SnapRecoversIndex(CellIndex(p, cellSize, count), cellSize, tableSize);
  }

  /** Two squares of side `size` at `(x1, y1)` and `(x2, y2)` intersect (open boxes). */
  predicate Overlaps(x1: real, y1: real, x2: real, y2: real, size: real)
  {
    x1 < x2 + size && x1 + size > x2 && y1 < y2 + size && y1 + size > y2
  }

  lemma OverlapsSymmetric(x1: real, y1: real, x2: real, y2: real, size: real)
    ensures Overlaps(x1, y1, x2, y2, size) == Overlaps(x2, y2, x1, y1, size)
  {
  }

  /** Squares overlap exactly when they are closer than `size` on both axes. */
  lemma OverlapsIffClose(x1: real, y1: real, x2: real, y2: real, size: real)
    ensures Overlaps(x1, y1, x2, y2, size)
        <==> (x1 - x2 < size && x2 - x1 < size && y1 - y2 < size && y2 - y1 < size)
  {
  }
}
