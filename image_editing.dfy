/** The editor: the current image and the three operations that rebuild or
    change it. Every operation leaves the image as it is when its arguments
    are invalid. */
module ImageEditing {
  import opened ColorCodec
  import opened PixelBuffer
  import opened Rotation
  import opened Downsampling
  import opened Patching

  /** One pass of the rotation loop: a fresh `W x H` buffer whose cell
      `(j, i)` is the source cell `(H-1-i, j)`. */
  method TurnClockwise(src: array2<Word>) returns (pix: array2<Word>)
    requires src.Length0 >= 1 && src.Length1 >= 1
    ensures fresh(pix) && pix.Length0 == src.Length1 && pix.Length1 == src.Length0
    ensures Cells(pix) == RotateStep(Cells(src))
  {
    var h, w := src.Length0, src.Length1;
    pix := new Word[w, h];
    for i := 0 to h
      modifies pix
      invariant forall i', j :: 0 <= i' < i && 0 <= j < w ==> pix[j, i'] == src[h - 1 - i', j]
    {
      for j := 0 to w
        modifies pix
        invariant forall i', j' :: 0 <= i' < i && 0 <= j' < w ==> pix[j', i'] == src[h - 1 - i', j']
        invariant forall j' :: 0 <= j' < j ==> pix[j', i] == src[h - 1 - i, j']
      {
        pix[j, i] := src[h - 1 - i, j];
      }
    }
    CellsAre(pix, RotateStep(Cells(src)));
  }

  /** The body of the down-sampling loop for output cell `(a, b)`: the three
      channel sums over its `hs x ws` block, each divided by `hs * ws`. */
  method BlockAverages(src: array2<Word>, hs: nat, ws: nat, a: nat, b: nat)
    returns (avgred: int, avggreen: int, avgblue: int)
    requires src.Length0 >= 1 && src.Length1 >= 1 && hs >= 1 && ws >= 1
    requires src.Length0 % hs == 0 && src.Length1 % ws == 0
    requires a < src.Length0 / hs && b < src.Length1 / ws
    ensures avgred == Mean(Red, Cells(src), hs, ws, a, b)
    ensures avggreen == Mean(Green, Cells(src), hs, ws, a, b)
    ensures avgblue == Mean(Blue, Cells(src), hs, ws, a, b)
  {
    ghost var g := Cells(src);
    BlockInside(a, hs, src.Length0);
    BlockInside(b, ws, src.Length1);
    avgred, avgblue, avggreen := 0, 0, 0;
    for c := 0 to hs
      invariant avgred == BlockSum(Red, g, a * hs, b * ws, c, ws)
      invariant avggreen == BlockSum(Green, g, a * hs, b * ws, c, ws)
      invariant avgblue == BlockSum(Blue, g, a * hs, b * ws, c, ws)
    {
      for d := 0 to ws
        invariant avgred == BlockSum(Red, g, a * hs, b * ws, c, ws) + RowSum(Red, g[a * hs + c], b * ws, d)
        invariant avggreen == BlockSum(Green, g, a * hs, b * ws, c, ws) + RowSum(Green, g[a * hs + c], b * ws, d)
        invariant avgblue == BlockSum(Blue, g, a * hs, b * ws, c, ws) + RowSum(Blue, g[a * hs + c], b * ws, d)
      {
        avgred := avgred + UnpackRed(src[a * hs + c, b * ws + d]);
        avgblue := avgblue + UnpackBlue(src[a * hs + c, b * ws + d]);
        avggreen := avggreen + UnpackGreen(src[a * hs + c, b * ws + d]);
      }
    }
    avgred := avgred / (hs * ws);
    avgblue := avgblue / (hs * ws);
    avggreen := avggreen / (hs * ws);
  }

  /** The inner loop of `downSample` for output row `a`: each cell becomes
      the packed averages of its block. */
  method DownSampleRow(downScaled: array2<Word>, out: array2<Word>, hs: int, ws: int, a: nat,
                       ghost g: Grid)
    requires downScaled.Length0 >= 1 && downScaled.Length1 >= 1 && g == Cells(downScaled)
    requires ScalesValid(downScaled.Length0, downScaled.Length1, hs, ws)
    requires out != downScaled && out.Length0 == downScaled.Length0 / hs && out.Length1 == downScaled.Length1 / ws
    requires a < out.Length0
    requires forall a', b' :: 0 <= a' < a && 0 <= b' < out.Length1 ==> out[a', b'] == DownCell(g, hs, ws, a', b')
    modifies out
    ensures forall a', b' :: 0 <= a' <= a && 0 <= b' < out.Length1 ==> out[a', b'] == DownCell(g, hs, ws, a', b')
    ensures forall a', b' :: a < a' < out.Length0 && 0 <= b' < out.Length1 ==> out[a', b'] == old(out[a', b'])
  {
    for b := 0 to out.Length1
      modifies out
      invariant forall a', b' :: 0 <= a' < a && 0 <= b' < out.Length1 ==> out[a', b'] == DownCell(g, hs, ws, a', b')
      invariant forall a', b' :: a < a' < out.Length0 && 0 <= b' < out.Length1 ==> out[a', b'] == old(out[a', b'])
      invariant forall b' :: 0 <= b' < b ==> out[a, b'] == DownCell(g, hs, ws, a, b')
    {
      var avgred, avggreen, avgblue := BlockAverages(downScaled, hs, ws, a, b);
      out[a, b] := PackInt(avgred, avggreen, avgblue);
    }
  }

  class ImageEditor {
    /** The current image, row-major. */
    var image: array2<Word>

    ghost predicate Valid()
      reads this
    {
      image.Length0 >= 1 && image.Length1 >= 1
    }

    /** Installs a decoded image as the current one, as `load` does. */
    constructor (pixels: array2<Word>)
      requires pixels.Length0 >= 1 && pixels.Length1 >= 1
      ensures Valid() && image == pixels
    {
      image := pixels;
    }

    /** Rotates the image `degree` degrees clockwise in 90-degree steps, each
        into a fresh buffer; an invalid degree leaves the image alone. */
    method Rotate(degree: int)
      requires Valid()
      modifies this
      ensures Valid()
      ensures Cells(image) == Rotated(old(Cells(image)), degree)
      ensures degree < 0 || degree % 90 != 0 || degree == 0 ==> image == old(image)
    {
      if degree < 0 || degree % 90 != 0 {
        return;
      }
      ghost var start := Cells(image);
      var turns := degree / 90;
      for times := 0 to turns
        invariant Valid()
        invariant Cells(image) == RotateN(start, times)
        invariant turns == 0 ==> image == old(image)
      {
        ghost var before := Cells(image);
        var pix := TurnClockwise(image);
        image := pix;
        assert Cells(image) == RotateStep(before);
      }
    }

    /** Replaces the image by its block averages over `heightScale x
        widthScale` blocks; invalid scales leave the image alone. */
    method DownSample(heightScale: int, widthScale: int)
      requires Valid()
      modifies this
      ensures Valid()
      ensures Cells(image) == DownSampled(old(Cells(image)), heightScale, widthScale)
      ensures !ScalesValid(old(image.Length0), old(image.Length1), heightScale, widthScale) ==>
        image == old(image)
    {
      if heightScale < 1 || heightScale > image.Length0 {
        return;
      }
      if widthScale < 1 || widthScale > image.Length1 {
        return;
      }
      if image.Length0 % heightScale != 0 || image.Length1 % widthScale != 0 {
        return;
      }
      var downScaled := image;
      ghost var g := Cells(downScaled);
      image := new Word[downScaled.Length0 / heightScale, downScaled.Length1 / widthScale];
      var out := image;
      for a := 0 to out.Length0
        modifies out
        invariant forall a', b' :: 0 <= a' < a && 0 <= b' < out.Length1 ==>
          out[a', b'] == DownCell(g, heightScale, widthScale, a', b')
      {
        DownSampleRow(downScaled, out, heightScale, widthScale, a, g);
      }
      CellsAre(out, DownSampled(g, heightScale, widthScale));
    }

    /** Copies every cell of `patchImage` that differs from the packed
        transparent colour onto the image at `(startRow, startColumn)` and
        returns how many it copied; a placement that fails a check copies
        nothing and returns 0. */
    method Patch(startRow: int, startColumn: int, patchImage: array2<Word>,
                 transparentRed: Word, transparentGreen: Word, transparentBlue: Word)
      returns (patch: int)
      requires Valid() && patchImage.Length0 >= 1
      modifies image
      ensures Valid() && image == old(image)
      ensures var accepted := PatchAccepted(image.Length0, image.Length1,
                                            patchImage.Length0, patchImage.Length1, startRow, startColumn);
        var trans := PackInt(transparentRed, transparentGreen, transparentBlue);
        if accepted then
          patch == CountOpaque(old(Cells(patchImage)), trans) &&
          Cells(image) == Patched(old(Cells(image)), startRow, startColumn, old(Cells(patchImage)), trans)
        else
          patch == 0 && Cells(image) == old(Cells(image))
    {
      patch := 0;
      if startRow < 0 || startRow > image.Length0 {
        return 0;
      }
      if startColumn < 0 || startColumn > image.Length1 {
        return 0;
      }
      if patchImage.Length0 > image.Length0 || patchImage.Length1 > image.Length1 {
        return 0;
      }
      if patchImage.Length1 == image.Length1 && startColumn > 0 {
        return 0;
      }
      if startRow + patchImage.Length0 > image.Length0 || startColumn + patchImage.Length1 > image.Length1 {
        return 0;
      }
      var trans := PackInt(transparentRed, transparentGreen, transparentBlue);
      ghost var g := Cells(image);
      ghost var p := Cells(patchImage);
      for a := 0 to patchImage.Length0
        invariant patch == CountUpTo(p, patchImage.Length1, trans, a, 0)
        invariant Cells(patchImage) == p
        invariant forall x, y :: 0 <= x < image.Length0 && 0 <= y < image.Length1 ==>
          image[x, y] == CellAfter(g, startRow, startColumn, p, patchImage.Length1, trans, a, 0, x, y)
      {
        patch := PatchRow(a, startRow, startColumn, patchImage, trans, g, p, patch);
      }
      CellAfterComplete(g, startRow, startColumn, p, trans);
      CellsAre(image, Patched(g, startRow, startColumn, p, trans));
    }

    /** The inner loop of `patch` over row `a` of the patch: copies each
        non-transparent cell and counts it. */
    method PatchRow(a: nat, startRow: nat, startColumn: nat, patchImage: array2<Word>, trans: Word,
                    ghost g: Grid, ghost p: Grid, count: nat)
      returns (patch: nat)
      requires IsImage(g) && IsRect(g, image.Length0, image.Length1)
      requires p == Cells(patchImage) && a < patchImage.Length0
      requires startRow + patchImage.Length0 <= image.Length0 && startColumn + patchImage.Length1 <= image.Length1
      requires count == CountUpTo(p, patchImage.Length1, trans, a, 0)
      requires forall x, y :: 0 <= x < image.Length0 && 0 <= y < image.Length1 ==>
        image[x, y] == CellAfter(g, startRow, startColumn, p, patchImage.Length1, trans, a, 0, x, y)
      modifies image
      ensures Cells(patchImage) == p
      ensures patch == CountUpTo(p, patchImage.Length1, trans, a + 1, 0)
      ensures forall x, y :: 0 <= x < image.Length0 && 0 <= y < image.Length1 ==>
        image[x, y] == CellAfter(g, startRow, startColumn, p, patchImage.Length1, trans, a + 1, 0, x, y)
    {
      var pw := patchImage.Length1;
      patch := count;
      assert patchImage == image ==> startRow == 0 && startColumn == 0;
      for b := 0 to pw
        invariant patch == CountUpTo(p, pw, trans, a, b)
        invariant forall x, y :: 0 <= x < patchImage.Length0 && 0 <= y < pw ==> patchImage[x, y] == p[x][y]
        invariant forall x, y :: 0 <= x < image.Length0 && 0 <= y < image.Length1 ==>
          image[x, y] == CellAfter(g, startRow, startColumn, p, pw, trans, a, b, x, y)
      {
        CellAfterStep(g, startRow, startColumn, p, pw, trans, a, b);
        if patchImage[a, b] == trans {
          continue;
        }
        patch := patch + 1;
        image[a + startRow, b + startColumn] := patchImage[a, b];
      }
      CellsAre(patchImage, p);
      CellAfterRowEnd(g, startRow, startColumn, p, pw, trans, a);
    }
  }
}
