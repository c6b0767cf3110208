/** The pixel grid: a rectangular, row-major buffer of packed colours. The
    editor keeps it in an `array2`; the specifications read it as a sequence
    of rows. */
module PixelBuffer {
  import opened ColorCodec

  type Grid = seq<seq<Word>>

  /** `g` has `h` rows of exactly `w` cells each. */
  predicate IsRect(g: Grid, h: nat, w: nat) {
    |g| == h && forall i :: 0 <= i < h ==> |g[i]| == w
  }

  function Width(g: Grid): nat {
    if |g| == 0 then 0 else |g[0]|
  }

  /** A non-empty rectangular image: the editor dereferences row 0, so it
      needs at least one row, and every operation keeps at least one column. */
  predicate IsImage(g: Grid) {
    |g| >= 1 && Width(g) >= 1 && IsRect(g, |g|, Width(g))
  }

  /** The cells of a buffer, row by row. */
  function Cells(a: array2<Word>): (g: Grid)
    reads a
    ensures IsRect(g, a.Length0, a.Length1)
  {
    seq(a.Length0, i requires 0 <= i < a.Length0 reads a =>
      seq(a.Length1, j requires 0 <= j < a.Length1 reads a => a[i, j]))
  }

  /** Two grids of one shape that agree cell by cell are equal. */
  lemma GridEq(g1: Grid, g2: Grid, h: nat, w: nat)
    requires IsRect(g1, h, w) && IsRect(g2, h, w)
    requires forall i, j :: 0 <= i < h && 0 <= j < w ==> g1[i][j] == g2[i][j]
    ensures g1 == g2
  {
    forall i | 0 <= i < h
      ensures g1[i] == g2[i]
    {
      assert forall j :: 0 <= j < w ==> g1[i][j] == g2[i][j];
    }
  }

  /** A buffer that agrees cell by cell with a grid of its shape has that
      grid as its cells. */
  lemma CellsAre(a: array2<Word>, g: Grid)
    requires IsRect(g, a.Length0, a.Length1)
    requires forall i, j :: 0 <= i < a.Length0 && 0 <= j < a.Length1 ==> a[i, j] == g[i][j]
    ensures Cells(a) == g
  {
    GridEq(Cells(a), g, a.Length0, a.Length1);
  }
}
