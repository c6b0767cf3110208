/** Clockwise rotation by multiples of 90 degrees, as a function on grids. */
module Rotation {
  import opened ColorCodec
  import opened PixelBuffer

  /** One 90-degree clockwise step: an H x W grid becomes a W x H grid whose
      cell (j, i) is the source cell (H-1-i, j). */
  function RotateStep(g: Grid): (r: Grid)
    requires IsImage(g)
    ensures IsImage(r) && IsRect(r, Width(g), |g|)
  {
    var h, w := |g|, Width(g);
    seq(w, j requires 0 <= j < w =>
      seq(h, i requires 0 <= i < h => g[h - 1 - i][j]))
  }

  /** `n` consecutive clockwise steps. */
  function RotateN(g: Grid, n: nat): (r: Grid)
    requires IsImage(g)
    ensures IsImage(r)
  {
    if n == 0 then g else RotateStep(RotateN(g, n - 1))
  }

  /** An even number of steps keeps the shape; an odd number swaps height
      and width. */
  lemma {:induction false} RotateNShape(g: Grid, n: nat)
    requires IsImage(g)
    ensures n % 2 == 0 ==> IsRect(RotateN(g, n), |g|, Width(g))
    ensures n % 2 == 1 ==> IsRect(RotateN(g, n), Width(g), |g|)
  {
    if n > 0 {
      RotateNShape(g, n - 1);
    }
  }

  /** `rotate(degree)`: a negative degree or one that is not a multiple of 90
      leaves the image as it is; otherwise `degree / 90` steps are taken. */
  function Rotated(g: Grid, degree: int): (r: Grid)
    requires IsImage(g)
    ensures IsImage(r)
  {
    if degree < 0 || degree % 90 != 0 then g else RotateN(g, degree / 90)
  }

  /** The mapping read in the other direction: source cell (row, col) lands at
      (col, H-1-row) of the rotated grid. */
  lemma RotateStepMovesCell(g: Grid, row: nat, col: nat)
    requires IsImage(g) && row < |g| && col < Width(g)
    ensures RotateStep(g)[col][|g| - 1 - row] == g[row][col]
  {
  }

  /** Two steps turn the grid upside down: cell (p, q) is (H-1-p, W-1-q). */
  lemma TwoSteps(g: Grid)
    requires IsImage(g)
    ensures IsRect(RotateStep(RotateStep(g)), |g|, Width(g))
    ensures forall p, q :: 0 <= p < |g| && 0 <= q < Width(g) ==>
      RotateStep(RotateStep(g))[p][q] == g[|g| - 1 - p][Width(g) - 1 - q]
  {
    var r1 := RotateStep(g);
    forall p, q | 0 <= p < |g| && 0 <= q < Width(g)
      ensures RotateStep(r1)[p][q] == g[|g| - 1 - p][Width(g) - 1 - q]
    {
      assert RotateStep(r1)[p][q] == r1[Width(g) - 1 - q][p];
    }
  }

  /** Three steps are one counter-clockwise step: cell (p, q) is (q, W-1-p). */
  lemma ThreeSteps(g: Grid)
    requires IsImage(g)
    ensures IsRect(RotateStep(RotateStep(RotateStep(g))), Width(g), |g|)
    ensures forall p, q :: 0 <= p < Width(g) && 0 <= q < |g| ==>
      RotateStep(RotateStep(RotateStep(g)))[p][q] == g[q][Width(g) - 1 - p]
  {
    TwoSteps(g);
    var r2 := RotateStep(RotateStep(g));
    forall p, q | 0 <= p < Width(g) && 0 <= q < |g|
      ensures RotateStep(r2)[p][q] == g[q][Width(g) - 1 - p]
    {
      assert RotateStep(r2)[p][q] == r2[|g| - 1 - q][p];
    }
  }

  /** Four clockwise steps restore the original shape and every cell. */
  lemma FourStepsIdentity(g: Grid)
    requires IsImage(g)
    ensures RotateStep(RotateStep(RotateStep(RotateStep(g)))) == g
  {
    ThreeSteps(g);
    var r3 := RotateStep(RotateStep(RotateStep(g)));
    var h, w := |g|, Width(g);
    forall p, q | 0 <= p < h && 0 <= q < w
      ensures RotateStep(r3)[p][q] == g[p][q]
    {
      assert RotateStep(r3)[p][q] == r3[w - 1 - q][p];
    }
    GridEq(RotateStep(r3), g, h, w);
  }

  /** Taking four more steps changes nothing. */
  lemma RotateNPlusFour(g: Grid, n: nat)
    requires IsImage(g)
    ensures RotateN(g, n + 4) == RotateN(g, n)
  {
    var r0 := RotateN(g, n);
    var r1 := RotateN(g, n + 1);
    var r2 := RotateN(g, n + 2);
    var r3 := RotateN(g, n + 3);
    assert r1 == RotateStep(r0);
    assert r2 == RotateStep(r1);
    assert r3 == RotateStep(r2);
    assert RotateN(g, n + 4) == RotateStep(r3);
    FourStepsIdentity(r0);
  }

  /** Only the number of steps modulo four matters. */
  lemma {:induction false} RotateNMod4(g: Grid, n: nat)
    requires IsImage(g)
    ensures RotateN(g, n) == RotateN(g, n % 4)
    decreases n
  {
    if n >= 4 {
      var m: nat := n - 4;
      RotateNPlusFour(g, m);
      RotateNMod4(g, m);
      assert m % 4 == n % 4;
    } else {
      assert n % 4 == n;
    }
  }

  /** A valid rotation equals `(degree / 90) mod 4` single steps, and a full
      turn more or less makes no difference. */
  lemma RotatedNormalized(g: Grid, degree: int)
    requires IsImage(g)
    requires degree >= 0 && degree % 90 == 0
    ensures Rotated(g, degree) == RotateN(g, (degree / 90) % 4)
    ensures Rotated(g, degree + 360) == Rotated(g, degree)
  {
    RotateNMod4(g, degree / 90);
    assert (degree + 360) / 90 == degree / 90 + 4;
    RotateNPlusFour(g, degree / 90);
  }

  /** Rotating by 0 degrees, or by an invalid degree, is the identity. */
  lemma RotatedIdentity(g: Grid, degree: int)
    requires IsImage(g)
    requires degree < 0 || degree % 90 != 0 || degree % 360 == 0
    ensures Rotated(g, degree) == g
  {
    if degree >= 0 && degree % 90 == 0 {
      assert degree / 90 == 4 * (degree / 360);
      RotateNMod4(g, degree / 90);
    }
  }

  /** Rotating the 2 x 3 grid [[1,2,3],[4,5,6]] by 90 degrees gives the
      3 x 2 grid [[4,1],[5,2],[6,3]]. */
  lemma RotateExample()
    ensures Rotated([[1, 2, 3], [4, 5, 6]], 90) == [[4, 1], [5, 2], [6, 3]]
  {
    var g: Grid := [[1, 2, 3], [4, 5, 6]];
    assert RotateN(g, 1) == RotateStep(g);
    GridEq(RotateStep(g), [[4, 1], [5, 2], [6, 3]], 3, 2);
  }
}
