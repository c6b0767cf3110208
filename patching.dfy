/** Masked compositing of a patch onto the image, as a function on grids. */
module Patching {
  import opened ColorCodec
  import opened PixelBuffer

  /** A patch: at least one row (row 0 is dereferenced), all rows of one
      width, possibly zero. */
  predicate IsPatch(p: Grid) {
    |p| >= 1 && IsRect(p, |p|, Width(p))
  }

  /** The five checks `patch` makes, in the source's order, for an `h x w`
      image and a `ph x pw` patch placed at `(sr, sc)`. */
  predicate PatchAccepted(h: int, w: int, ph: int, pw: int, sr: int, sc: int): (ok: bool)
    ensures ok ==> 0 <= sr && 0 <= sc && sr + ph <= h && sc + pw <= w
  {
    !(sr < 0 || sr > h) &&
    !(sc < 0 || sc > w) &&
    !(ph > h || pw > w) &&
    !(pw == w && sc > 0) &&
    !(sr + ph > h || sc + pw > w)
  }

  /** The checks accept exactly the placements with a non-negative start at
      which the whole patch fits: the first four checks add nothing to the
      fit check (in particular a full-width patch at a positive column
      already overhangs the right edge). */
  lemma PatchAcceptedIff(h: nat, w: nat, ph: nat, pw: nat, sr: int, sc: int)
    ensures PatchAccepted(h, w, ph, pw, sr, sc) <==>
      0 <= sr && 0 <= sc && sr + ph <= h && sc + pw <= w
  {
  }

  /** Cells of `row[..n]` that differ from the transparent word. */
  function CountInRow(row: seq<Word>, trans: Word, n: nat): (k: nat)
    requires n <= |row|
    ensures k <= n
  {
    if n == 0 then 0
    else CountInRow(row, trans, n - 1) + (if row[n - 1] != trans then 1 else 0)
  }

  /** Non-transparent cells of the first `m` rows, each `pw` wide, followed
      by the first `n` cells of row `m`: the counter after visiting them,
      which never exceeds the number of cells visited. */
  function CountUpTo(p: Grid, pw: nat, trans: Word, m: nat, n: nat): (k: nat)
    requires IsRect(p, |p|, pw) && m <= |p| && n <= pw && (m == |p| ==> n == 0)
    ensures k <= m * pw + n
  {
    if n > 0 then CountUpTo(p, pw, trans, m, 0) + CountInRow(p[m], trans, n)
    else if m == 0 then 0
    else CountUpTo(p, pw, trans, m - 1, pw)
  }

  /** The number of cells of the patch that differ from the transparent word,
      at most its cell total. */
  function CountOpaque(p: Grid, trans: Word): (k: nat)
    requires IsPatch(p)
    ensures k <= |p| * Width(p)
  {
    CountUpTo(p, Width(p), trans, |p|, 0)
  }

  /** The positions of the non-transparent cells among those visited. */
  function OpaqueUpTo(p: Grid, pw: nat, trans: Word, m: nat, n: nat): set<(int, int)>
    requires IsRect(p, |p|, pw) && m <= |p| && n <= pw
  {
    set a, b | 0 <= a < |p| && 0 <= b < pw && (a < m || (a == m && b < n)) && p[a][b] != trans :: (a, b)
  }

  /** The counter is the number of non-transparent cells visited so far. */
  lemma {:induction false} CountUpToIsCard(p: Grid, pw: nat, trans: Word, m: nat, n: nat)
    requires IsRect(p, |p|, pw) && m <= |p| && n <= pw && (m == |p| ==> n == 0)
    ensures CountUpTo(p, pw, trans, m, n) == |OpaqueUpTo(p, pw, trans, m, n)|
    decreases m, n
  {
    if n > 0 {
      CountUpToIsCard(p, pw, trans, m, n - 1);
      var before := OpaqueUpTo(p, pw, trans, m, n - 1);
      assert CountUpTo(p, pw, trans, m, n) == CountUpTo(p, pw, trans, m, n - 1)
        + (if p[m][n - 1] != trans then 1 else 0);
      if p[m][n - 1] != trans {
        assert OpaqueUpTo(p, pw, trans, m, n) == before + {(m, n - 1)};
        assert (m, n - 1) !in before;
      } else {
        assert OpaqueUpTo(p, pw, trans, m, n) == before;
      }
    } else if m > 0 {
      CountUpToIsCard(p, pw, trans, m - 1, pw);
      assert OpaqueUpTo(p, pw, trans, m, 0) == OpaqueUpTo(p, pw, trans, m - 1, pw);
    } else {
      assert OpaqueUpTo(p, pw, trans, 0, 0) == {};
    }
  }

  /** The count of a whole patch: the number of its non-transparent cells,
      at most its cell total, and all of them when no cell is transparent. */
  lemma CountOpaqueMeaning(p: Grid, trans: Word)
    requires IsPatch(p)
    ensures CountOpaque(p, trans) ==
      |set a, b | 0 <= a < |p| && 0 <= b < Width(p) && p[a][b] != trans :: (a, b)|
    ensures CountOpaque(p, trans) <= |p| * Width(p)
  {
    CountUpToIsCard(p, Width(p), trans, |p|, 0);
    assert OpaqueUpTo(p, Width(p), trans, |p|, 0) ==
      set a, b | 0 <= a < |p| && 0 <= b < Width(p) && p[a][b] != trans :: (a, b);
  }

  /** The image after a patch `p` has been placed at `(sr, sc)`: the patch's
      non-transparent cells replace the cells under them and every other cell
      stays. */
  function Patched(g: Grid, sr: nat, sc: nat, p: Grid, trans: Word): (r: Grid)
    requires IsImage(g) && IsPatch(p)
    requires sr + |p| <= |g| && sc + Width(p) <= Width(g)
    ensures IsImage(r) && IsRect(r, |g|, Width(g))
  {
    var h, w := |g|, Width(g);
    seq(h, x requires 0 <= x < h =>
      seq(w, y requires 0 <= y < w =>
        if sr <= x < sr + |p| && sc <= y < sc + Width(p) && p[x - sr][y - sc] != trans
        then p[x - sr][y - sc] else g[x][y]))
  }

  /** Cell `(x, y)` once the cells before `(m, n)` in row-major order of a
      `ph x pw` patch have been visited. */
  function CellAfter(g: Grid, sr: int, sc: int, p: Grid, pw: nat, trans: Word, m: int, n: int, x: nat, y: nat): (r: Word)
    requires IsRect(p, |p|, pw) && x < |g| && y < |g[x]|
    ensures r == g[x][y] || (sr <= x < sr + |p| && sc <= y < sc + pw && r == p[x - sr][y - sc] != trans)
  {
    if (sr <= x < sr + m || (x == sr + m && y < sc + n)) && sr <= x < sr + |p| && sc <= y < sc + pw
       && p[x - sr][y - sc] != trans
    then p[x - sr][y - sc] else g[x][y]
  }

  /** Visiting patch cell `(a, b)` changes only image cell `(a + sr, b + sc)`,
      and that one only when the patch cell is not transparent. */
  lemma CellAfterStep(g: Grid, sr: nat, sc: nat, p: Grid, pw: nat, trans: Word, a: nat, b: nat)
    requires IsImage(g) && IsRect(p, |p|, pw)
    requires sr + |p| <= |g| && sc + pw <= Width(g) && a < |p| && b < pw
    ensures CellAfter(g, sr, sc, p, pw, trans, a, b, a + sr, b + sc) == g[a + sr][b + sc]
    ensures forall x, y :: 0 <= x < |g| && 0 <= y < Width(g) ==>
      CellAfter(g, sr, sc, p, pw, trans, a, b + 1, x, y) ==
        if x == a + sr && y == b + sc && p[a][b] != trans then p[a][b]
        else CellAfter(g, sr, sc, p, pw, trans, a, b, x, y)
  {
  }

  /** The end of one row of the patch is the start of the next. */
  lemma CellAfterRowEnd(g: Grid, sr: nat, sc: nat, p: Grid, pw: nat, trans: Word, a: nat)
    requires IsImage(g) && IsRect(p, |p|, pw)
    requires sr + |p| <= |g| && sc + pw <= Width(g) && a < |p|
    ensures forall x, y :: 0 <= x < |g| && 0 <= y < Width(g) ==>
      CellAfter(g, sr, sc, p, pw, trans, a, pw, x, y) == CellAfter(g, sr, sc, p, pw, trans, a + 1, 0, x, y)
  {
  }

  /** Once every patch cell has been visited, the image is the patched one. */
  lemma CellAfterComplete(g: Grid, sr: nat, sc: nat, p: Grid, trans: Word)
    requires IsImage(g) && IsPatch(p)
    requires sr + |p| <= |g| && sc + Width(p) <= Width(g)
    ensures forall x, y :: 0 <= x < |g| && 0 <= y < Width(g) ==>
      CellAfter(g, sr, sc, p, Width(p), trans, |p|, 0, x, y) == Patched(g, sr, sc, p, trans)[x][y]
  {
  }

  /** The three promises of a successful patch: non-transparent patch cells
      are copied to `(a + sr, b + sc)`, the image cells under transparent
      patch cells keep their value, and so does every cell outside the
      patch rectangle. */
  lemma PatchedCells(g: Grid, sr: nat, sc: nat, p: Grid, trans: Word)
    requires IsImage(g) && IsPatch(p)
    requires sr + |p| <= |g| && sc + Width(p) <= Width(g)
    ensures forall a, b :: 0 <= a < |p| && 0 <= b < Width(p) && p[a][b] != trans ==>
      Patched(g, sr, sc, p, trans)[a + sr][b + sc] == p[a][b]
    ensures forall a, b :: 0 <= a < |p| && 0 <= b < Width(p) && p[a][b] == trans ==>
      Patched(g, sr, sc, p, trans)[a + sr][b + sc] == g[a + sr][b + sc]
    ensures forall x, y ::
      0 <= x < |g| && 0 <= y < Width(g) && !(sr <= x < sr + |p| && sc <= y < sc + Width(p))
      ==> Patched(g, sr, sc, p, trans)[x][y] == g[x][y]
  {
  }

  /** Patching twice with the same patch at the same place is patching once. */
  lemma PatchedIdempotent(g: Grid, sr: nat, sc: nat, p: Grid, trans: Word)
    requires IsImage(g) && IsPatch(p)
    requires sr + |p| <= |g| && sc + Width(p) <= Width(g)
    ensures Patched(Patched(g, sr, sc, p, trans), sr, sc, p, trans) == Patched(g, sr, sc, p, trans)
  {
    var once := Patched(g, sr, sc, p, trans);
    GridEq(Patched(once, sr, sc, p, trans), once, |g|, Width(g));
  }

  /** A patch whose every cell is transparent changes nothing and counts 0. */
  lemma PatchedAllTransparent(g: Grid, sr: nat, sc: nat, p: Grid, trans: Word)
    requires IsImage(g) && IsPatch(p)
    requires sr + |p| <= |g| && sc + Width(p) <= Width(g)
    requires forall a, b :: 0 <= a < |p| && 0 <= b < Width(p) ==> p[a][b] == trans
    ensures Patched(g, sr, sc, p, trans) == g
    ensures CountOpaque(p, trans) == 0
  {
    GridEq(Patched(g, sr, sc, p, trans), g, |g|, Width(g));
    CountOpaqueMeaning(p, trans);
    assert (set a, b | 0 <= a < |p| && 0 <= b < Width(p) && p[a][b] != trans :: (a, b)) == {};
  }
}
