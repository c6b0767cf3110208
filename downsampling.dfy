/** Block-average down-sampling by integer factors, as a function on grids. */
module Downsampling {
  import opened ColorCodec
  import opened PixelBuffer

  datatype Channel = Red | Green | Blue

  /** The byte a channel reads from a packed word. */
  function ChannelOf(c: Channel, rgb: Word): (v: int)
    ensures IsByte(v)
  {
    match c
    case Red => UnpackRed(rgb)
    case Green => UnpackGreen(rgb)
    case Blue => UnpackBlue(rgb)
  }

  /** Sum of channel `c` over `row[col .. col + n]`, added left to right. */
  function RowSum(c: Channel, row: seq<Word>, col: nat, n: nat): (s: int)
    requires col + n <= |row|
    ensures 0 <= s <= 255 * n
  {
    if n == 0 then 0 else RowSum(c, row, col, n - 1) + ChannelOf(c, row[col + n - 1])
  }

  /** Sum of channel `c` over the block of `hs` rows from `row` and `ws`
      columns from `col`, added row by row. */
  function BlockSum(c: Channel, g: Grid, row: nat, col: nat, hs: nat, ws: nat): (s: int)
    requires row + hs <= |g|
    requires forall i :: row <= i < row + hs ==> col + ws <= |g[i]|
    ensures s >= 0
  {
    if hs == 0 then 0
    else BlockSum(c, g, row, col, hs - 1, ws) + RowSum(c, g[row + hs - 1], col, ws)
  }

  /** A block sum is at most 255 per cell. */
  lemma {:induction false} BlockSumBound(c: Channel, g: Grid, row: nat, col: nat, hs: nat, ws: nat)
    requires row + hs <= |g|
    requires forall i :: row <= i < row + hs ==> col + ws <= |g[i]|
    ensures BlockSum(c, g, row, col, hs, ws) <= 255 * (hs * ws)
  {
    if hs > 0 {
      BlockSumBound(c, g, row, col, hs - 1, ws);
      assert (hs * ws) * 255 == ((hs - 1) * ws) * 255 + ws * 255;
    }
  }

  /** Peeling one row off an `h x w` block. */
  lemma MulStep(h: int, w: int, v: int)
    ensures (h * w) * v == ((h - 1) * w) * v + w * v
  {
  }

  /** A truncating mean of non-negative values that are each at most 255
      is itself at most 255. */
  lemma MeanIsByte(s: int, n: int)
    requires n >= 1 && 0 <= s <= 255 * n
    ensures IsByte(s / n)
  {
  }

  /** Multiplying by a non-negative factor keeps the order. */
  lemma MulMonotonic(n: int, x: int, y: int)
    ensures n >= 0 && x <= y ==> n * x <= n * y
  {
    assert n * y - n * x == n * (y - x);
  }

  /** The mean of `n` equal values is that value. */
  lemma DivExact(n: int, v: int)
    requires n >= 1 && v >= 0
    ensures (n * v) / n == v
  {
    var q := (n * v) / n;
    assert n * q <= n * v < n * q + n;
    MulMonotonic(n, q + 1, v);
    MulMonotonic(n, v + 1, q);
  }

  /** Block `(a, b)` of a grid cut into `hs x ws` blocks lies inside it. */
  lemma BlockInside(a: nat, hs: nat, h: nat)
    requires hs >= 1 && h % hs == 0 && a < h / hs
    ensures a * hs + hs <= h
  {
    assert (a + 1) * hs <= (h / hs) * hs;
    assert (h / hs) * hs == h;
  }

  /** The truncating per-channel mean of output cell `(a, b)`. */
  function Mean(c: Channel, g: Grid, hs: nat, ws: nat, a: nat, b: nat): (m: int)
    requires IsImage(g) && hs >= 1 && ws >= 1
    requires |g| % hs == 0 && Width(g) % ws == 0
    requires a < |g| / hs && b < Width(g) / ws
    ensures IsByte(m)
  {
    BlockInside(a, hs, |g|);
    BlockInside(b, ws, Width(g));
    var s := BlockSum(c, g, a * hs, b * ws, hs, ws);
    BlockSumBound(c, g, a * hs, b * ws, hs, ws);
    MeanIsByte(s, hs * ws);
    s / (hs * ws)
  }

  /** Output cell `(a, b)`: `packInt(avgred, avggreen, avgblue)`. */
  function DownCell(g: Grid, hs: nat, ws: nat, a: nat, b: nat): (rgb: Word)
    requires IsImage(g) && hs >= 1 && ws >= 1
    requires |g| % hs == 0 && Width(g) % ws == 0
    requires a < |g| / hs && b < Width(g) / ws
    ensures 0 <= rgb < ColorRange
  {
    PackInt(Mean(Red, g, hs, ws, a, b), Mean(Green, g, hs, ws, a, b), Mean(Blue, g, hs, ws, a, b))
  }

  /** The checks `downSample` makes before it touches the image. */
  predicate ScalesValid(h: int, w: int, hs: int, ws: int): (ok: bool)
    ensures ok ==> hs >= 1 && ws >= 1 && h / hs >= 1 && w / ws >= 1 && (h / hs) * hs == h && (w / ws) * ws == w
  {
    !(hs < 1 || hs > h) && !(ws < 1 || ws > w) && !(h % hs != 0 || w % ws != 0)
  }

  /** `downSample(hs, ws)` on grid `g`: unchanged when the scales are invalid,
      otherwise the `(H/hs) x (W/ws)` grid of block means. */
  function DownSampled(g: Grid, hs: int, ws: int): (r: Grid)
    requires IsImage(g)
    ensures IsImage(r)
  {
    if !ScalesValid(|g|, Width(g), hs, ws) then g
    else
      var h, w := |g| / hs, Width(g) / ws;
      assert h >= 1 && w >= 1;
      seq(h, a requires 0 <= a < h => seq(w, b requires 0 <= b < w => DownCell(g, hs, ws, a, b)))
  }

  /** One output cell unpacks to the three truncated block means. */
  lemma DownCellUnpacks(g: Grid, hs: nat, ws: nat, a: nat, b: nat)
    requires IsImage(g) && hs >= 1 && ws >= 1
    requires |g| % hs == 0 && Width(g) % ws == 0
    requires a < |g| / hs && b < Width(g) / ws
    ensures 0 <= DownCell(g, hs, ws, a, b) < ColorRange
    ensures UnpackRed(DownCell(g, hs, ws, a, b)) == Mean(Red, g, hs, ws, a, b)
    ensures UnpackGreen(DownCell(g, hs, ws, a, b)) == Mean(Green, g, hs, ws, a, b)
    ensures UnpackBlue(DownCell(g, hs, ws, a, b)) == Mean(Blue, g, hs, ws, a, b)
  {
    PackUnpack(Mean(Red, g, hs, ws, a, b), Mean(Green, g, hs, ws, a, b), Mean(Blue, g, hs, ws, a, b));
  }

  /** Valid scales give a grid of shape `(H/hs) x (W/ws)` whose every cell
      is a 24-bit colour that unpacks to the truncated per-channel means of
      its block, rows `a*hs ..< a*hs+hs` and columns `b*ws ..< b*ws+ws`;
      each mean is a byte (see Mean). */
  lemma DownSampledCells(g: Grid, hs: int, ws: int)
    requires IsImage(g) && ScalesValid(|g|, Width(g), hs, ws)
    ensures IsRect(DownSampled(g, hs, ws), |g| / hs, Width(g) / ws)
    ensures forall a, b :: 0 <= a < |g| / hs && 0 <= b < Width(g) / ws ==>
      0 <= DownSampled(g, hs, ws)[a][b] < ColorRange &&
      UnpackRed(DownSampled(g, hs, ws)[a][b]) == Mean(Red, g, hs, ws, a, b) &&
      UnpackGreen(DownSampled(g, hs, ws)[a][b]) == Mean(Green, g, hs, ws, a, b) &&
      UnpackBlue(DownSampled(g, hs, ws)[a][b]) == Mean(Blue, g, hs, ws, a, b)
  {
    var r := DownSampled(g, hs, ws);
    forall a, b | 0 <= a < |g| / hs && 0 <= b < Width(g) / ws
      ensures r[a][b] == DownCell(g, hs, ws, a, b)
    {
    }
    forall a, b | 0 <= a < |g| / hs && 0 <= b < Width(g) / ws
      ensures 0 <= DownCell(g, hs, ws, a, b) < ColorRange
      ensures UnpackRed(DownCell(g, hs, ws, a, b)) == Mean(Red, g, hs, ws, a, b)
      ensures UnpackGreen(DownCell(g, hs, ws, a, b)) == Mean(Green, g, hs, ws, a, b)
      ensures UnpackBlue(DownCell(g, hs, ws, a, b)) == Mean(Blue, g, hs, ws, a, b)
    {
      DownCellUnpacks(g, hs, ws, a, b);
    }
  }

  /** Invalid scales leave the grid unchanged. */
  lemma DownSampledInvalid(g: Grid, hs: int, ws: int)
    requires IsImage(g)
    requires hs < 1 || hs > |g| || ws < 1 || ws > Width(g) || |g| % hs != 0 || Width(g) % ws != 0
    ensures DownSampled(g, hs, ws) == g
  {
  }

  /** A row segment of one colour sums to `n` times its channel. */
  lemma {:induction false} RowSumUniform(c: Channel, row: seq<Word>, col: nat, n: nat, rgb: Word)
    requires col + n <= |row|
    requires forall j :: col <= j < col + n ==> row[j] == rgb
    ensures RowSum(c, row, col, n) == n * ChannelOf(c, rgb)
  {
    if n > 0 {
      RowSumUniform(c, row, col, n - 1, rgb);
      var v := ChannelOf(c, rgb);
      assert n * v == (n - 1) * v + v;
    }
  }

  /** A block of one colour sums to its cell count times its channel. */
  lemma {:induction false} BlockSumUniform(c: Channel, g: Grid, row: nat, col: nat, hs: nat, ws: nat, rgb: Word)
    requires row + hs <= |g|
    requires forall i :: row <= i < row + hs ==> col + ws <= |g[i]|
    requires forall i, j :: row <= i < row + hs && col <= j < col + ws ==> g[i][j] == rgb
    ensures BlockSum(c, g, row, col, hs, ws) == (hs * ws) * ChannelOf(c, rgb)
  {
    if hs > 0 {
      BlockSumUniform(c, g, row, col, hs - 1, ws, rgb);
      RowSumUniform(c, g[row + hs - 1], col, ws, rgb);
      MulStep(hs, ws, ChannelOf(c, rgb));
    }
  }

  /** Every cell of block `(a, b)` holds `rgb`. */
  predicate BlockIs(g: Grid, hs: int, ws: int, a: nat, b: nat, rgb: Word) {
    forall i, j :: 0 <= i < |g| && 0 <= j < |g[i]| && a * hs <= i < a * hs + hs && b * ws <= j < b * ws + ws
      ==> g[i][j] == rgb
  }

  /** A block filled with one 24-bit colour averages to that colour: the
      white corner block of an otherwise black image stays white, the rest
      stays black. */
  lemma DownSampledUniformBlock(g: Grid, hs: int, ws: int, a: nat, b: nat, rgb: Word)
    requires IsImage(g) && ScalesValid(|g|, Width(g), hs, ws)
    requires a < |g| / hs && b < Width(g) / ws
    requires 0 <= rgb < ColorRange
    requires BlockIs(g, hs, ws, a, b, rgb)
    ensures DownSampled(g, hs, ws)[a][b] == rgb
  {
    assert DownSampled(g, hs, ws)[a][b] == DownCell(g, hs, ws, a, b);
    MeanUniform(Red, g, hs, ws, a, b, rgb);
    MeanUniform(Green, g, hs, ws, a, b, rgb);
    MeanUniform(Blue, g, hs, ws, a, b, rgb);
    var red, green, blue := UnpackRed(rgb), UnpackGreen(rgb), UnpackBlue(rgb);
    assert DownCell(g, hs, ws, a, b) == PackInt(red, green, blue);
    RepackColor(rgb);
  }

  /** The mean of a block of one colour is that colour's channel. */
  lemma MeanUniform(c: Channel, g: Grid, hs: nat, ws: nat, a: nat, b: nat, rgb: Word)
    requires IsImage(g) && hs >= 1 && ws >= 1
    requires |g| % hs == 0 && Width(g) % ws == 0
    requires a < |g| / hs && b < Width(g) / ws
    requires BlockIs(g, hs, ws, a, b, rgb)
    ensures Mean(c, g, hs, ws, a, b) == ChannelOf(c, rgb)
  {
    BlockInside(a, hs, |g|);
    BlockInside(b, ws, Width(g));
    var row, col, n := a * hs, b * ws, hs * ws;
    assert Mean(c, g, hs, ws, a, b) == BlockSum(c, g, row, col, hs, ws) / n;
    BlockSumUniform(c, g, row, col, hs, ws, rgb);
    DivExact(n, ChannelOf(c, rgb));
  }

  /** Down-sampling by 1 x 1 keeps the shape and reduces every word to its
      24 colour bits: any alpha byte is dropped. */
  lemma DownSampledByOne(g: Grid)
    requires IsImage(g)
    ensures IsRect(DownSampled(g, 1, 1), |g|, Width(g))
    ensures forall a, b :: 0 <= a < |g| && 0 <= b < Width(g) ==>
      DownSampled(g, 1, 1)[a][b] == g[a][b] % ColorRange
  {
    forall a, b | 0 <= a < |g| && 0 <= b < Width(g)
      ensures DownSampled(g, 1, 1)[a][b] == g[a][b] % ColorRange
    {
      assert DownSampled(g, 1, 1)[a][b] == DownCell(g, 1, 1, a, b);
      forall c: Channel
        ensures Mean(c, g, 1, 1, a, b) == ChannelOf(c, g[a][b])
      {
        assert BlockSum(c, g, a, b, 1, 1) == RowSum(c, g[a], b, 1);
      }
      UnpackPack(g[a][b]);
    }
  }
}
