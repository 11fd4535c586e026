/**
 * Ruby arrays of arrays of floats, as the transition matrices of the decoder
 * use them. A write `row[x] = v` with `x == row.length` grows the row by one
 * cell; the loops of the decoder write each row in ascending column order,
 * starting no further right than the row already reaches, so a row never
 * acquires a nil hole and a row is faithfully a `seq<real>`.
 */
module Matrices {

  type Row = seq<real>
  type Matrix = seq<Row>

  function Max(a: int, b: int): int { if a < b then b else a }

  /** `Array.new(n, 0)` */
  function Zeros(n: nat): (r: Row)
    ensures |r| == n && forall i :: 0 <= i < n ==> r[i] == 0.0
  {
    seq(n, i => 0.0)
  }

  /** `Array.new(h) { Array.new(w, 0) }` */
  function ZeroMatrix(h: nat, w: nat): (m: Matrix)
    ensures |m| == h && forall y :: 0 <= y < h ==> m[y] == Zeros(w)
  {
    seq(h, y => Zeros(w))
  }

  /** Ruby `m[0...-1]`: every row but the last (nothing for an empty matrix). */
  function AllButLast(m: Matrix): (r: Matrix)
    ensures |m| > 0 ==> r == m[..|m| - 1]
    ensures |m| == 0 ==> r == []
  {
    if |m| == 0 then [] else m[..|m| - 1]
  }

  /** Ruby `row[x] = v` for an index inside the row or just past its end. */
  function Assign(row: Row, x: nat, v: real): (r: Row)
    requires x <= |row|
  {
    if x < |row| then row[x := v] else row + [v]
  }

  /**
   * The row obtained by writing `src[k]` at column `off + k` for every k in
   * ascending order; columns outside that range keep their value.
   */
  function Overlay(row: Row, src: Row, off: nat): (r: Row)
    requires off <= |row|
  {
    seq(Max(|row|, off + |src|), k requires 0 <= k < Max(|row|, off + |src|) =>
      if off <= k < off + |src| then src[k - off] else row[k])
  }

  /** The rows `rows` can be written at offset `off` on both axes of `to`. */
  ghost predicate Fits(to: Matrix, rows: Matrix, off: nat)
  {
    off + |rows| <= |to| && forall y :: off <= y < off + |rows| ==> off <= |to[y]|
  }

  /**
   * The matrix obtained from `to` by writing `rows[y][x]` at `[off + y][off + x]`
   * for every cell of `rows`, row after row; every other cell keeps its value.
   */
  function Place(to: Matrix, rows: Matrix, off: nat): (m: Matrix)
    requires Fits(to, rows, off)
    ensures |m| == |to|
    ensures forall y :: 0 <= y < |to| ==> |m[y]| >= |to[y]|
    decreases |rows|
  {
    if |rows| == 0 then to
    else
      var n := |rows| - 1;
      Place(to, rows[..n], off)[off + n := Overlay(to[off + n], rows[n], off)]
  }

  /** A row that no row of `rows` lands on is left as it was. */
  lemma {:induction false} PlaceRowKept(to: Matrix, rows: Matrix, off: nat, y: nat)
    requires Fits(to, rows, off) && y < |to| && !(off <= y < off + |rows|)
    ensures Place(to, rows, off)[y] == to[y]
    decreases |rows|
  {
    if |rows| > 0 {
      PlaceRowKept(to, rows[..|rows| - 1], off, y);
    }
  }

  /** Row `y` of `rows` is overlaid onto row `off + y` of `to`. */
  lemma {:induction false} PlaceRow(to: Matrix, rows: Matrix, off: nat, y: nat)
    requires Fits(to, rows, off) && y < |rows|
    ensures Place(to, rows, off)[off + y] == Overlay(to[off + y], rows[y], off)
    decreases |rows|
  {
    var n := |rows| - 1;
    if y < n {
      PlaceRow(to, rows[..n], off, y);
    }
  }

  /** Each cell of `rows` ends up at its shifted coordinates. */
  lemma PlaceWritten(to: Matrix, rows: Matrix, off: nat, y: nat, x: nat)
    requires Fits(to, rows, off) && y < |rows| && x < |rows[y]|
    ensures off + x < |Place(to, rows, off)[off + y]|
    ensures Place(to, rows, off)[off + y][off + x] == rows[y][x]
  {
    PlaceRow(to, rows, off, y);
  }

  /** Every cell outside the written block keeps its value. */
  lemma {:induction false} PlaceUntouched(to: Matrix, rows: Matrix, off: nat, y: nat, x: nat)
    requires Fits(to, rows, off) && y < |to| && x < |to[y]|
    requires !(off <= y < off + |rows| && off <= x < off + |rows[y - off]|)
    ensures Place(to, rows, off)[y][x] == to[y][x]
    decreases |rows|
  {
    if |rows| > 0 {
      var n := |rows| - 1;
      if y != off + n {
        PlaceUntouched(to, rows[..n], off, y, x);
      }
    }
  }

  /** Columns of an overlay outside the written range are the row's own. */
  lemma OverlayOutside(row: Row, src: Row, off: nat, x: nat)
    requires off <= |row| && x < |Overlay(row, src, off)| && !(off <= x < off + |src|)
    ensures x < |row| && Overlay(row, src, off)[x] == row[x]
  {
  }

  /** One more ascending write extends an overlay by one column. */
  lemma OverlayStep(row: Row, src: Row, off: nat, x: nat)
    requires off <= |row| && x < |src|
    requires off + x <= |Overlay(row, src[..x], off)|
    ensures Overlay(row, src[..x + 1], off) == Assign(Overlay(row, src[..x], off), off + x, src[x])
  {
    var a := Overlay(row, src[..x + 1], off);
    var b := Assign(Overlay(row, src[..x], off), off + x, src[x]);
    assert |a| == |b|;
    forall k | 0 <= k < |a| ensures a[k] == b[k] {
    }
  }

  lemma OverlayNothing(row: Row, off: nat)
    requires off <= |row|
    ensures Overlay(row, [], off) == row
  {
  }

  /** Placing one more row only changes the target row of that row. */
  lemma PlaceNextRow(to: Matrix, rows: Matrix, off: nat, y: nat)
    requires Fits(to, rows, off) && y < |rows|
    ensures Fits(to, rows[..y], off) && Fits(to, rows[..y + 1], off)
    ensures Place(to, rows[..y], off)[off + y] == to[off + y]
    ensures Place(to, rows[..y + 1], off)
         == Place(to, rows[..y], off)[off + y := Overlay(to[off + y], rows[y], off)]
  {
    PlaceRowKept(to, rows[..y], off, off + y);
    assert rows[..y + 1][..y] == rows[..y];
  }

  /** The inner `each_with_index` loop: writes `src` into `row` from column `off` on. */
  method OverlayRow(row: Row, src: Row, off: nat) returns (r: Row)
    requires off <= |row|
    ensures r == Overlay(row, src, off)
  {
    r := row;
    OverlayNothing(row, off);
    var x := 0;
    while x < |src|
      invariant 0 <= x <= |src|
      invariant r == Overlay(row, src[..x], off)
    {
      OverlayStep(row, src, off, x);
      r := Assign(r, off + x, src[x]);
      x := x + 1;
    }
    assert src[..x] == src;
  }

  /**
   * The nested `each_with_index` loops that write `rows` into `to` at offset
   * `off` (the two loops of `HMM#+` and the loop of `copy_matrix`).
   */
  method PlaceRows(to: Matrix, rows: Matrix, off: nat) returns (m: Matrix)
    requires Fits(to, rows, off)
    ensures m == Place(to, rows, off)
  {
    m := to;
    var y := 0;
    while y < |rows|
      invariant 0 <= y <= |rows|
      invariant Fits(to, rows[..y], off) && m == Place(to, rows[..y], off)
    {
      PlaceNextRow(to, rows, off, y);
      var r := OverlayRow(m[off + y], rows[y], off);
      m := m[off + y := r];
      y := y + 1;
    }
    assert rows[..y] == rows;
  }
}
