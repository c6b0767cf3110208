# Image editing program: a verified model

`ImageEditingProgram.java` keeps one image, a static `int[][] image`, in
row-major order. Each pixel is a Java `int` packed as `[unused][red][green][blue]`,
one byte per field. The program edits the image in place, or replaces it
with three operations:

- `rotate(degree)` turns the image clockwise in 90-degree steps. Each step
  builds a fresh `W x H` array.
- `downSample(heightScale, widthScale)` replaces every `heightScale x
  widthScale` block with one pixel: the truncated mean of each channel,
  repacked.
- `patch(...)` copies a patch image onto the image at a given row and
  column and returns how many pixels it copied. It skips the patch pixels
  that equal a packed transparent colour.

Every operation leaves the image unchanged (or copies nothing) when its
arguments are invalid.

The model has six modules:

- `ColorCodec` models the pixel codec. A pixel is a `Word`, a 32-bit
  signed integer.
  - The unpack functions use Euclidean `/` and `%`. These read a negative
    word through its two's-complement bits, as Java's masks do.
  - `PackInt` wraps its sum into 32 bits, as Java's shifts and additions do.
- `PixelBuffer` defines grids (`seq<seq<Word>>`) and `Cells`, the grid view
  of an `array2`. The operations are specified on this view.
- `Rotation`, `Downsampling` and `Patching` state each operation as a
  function on grids and prove its properties.
- `ImageEditing` is the imperative program:
  - class `ImageEditor` holds the `image` field as an `array2<Word>`;
  - `Rotate`, `DownSample` and `Patch` are methods with the source's loops.
  - Each method is proved to leave `Cells(image)` equal to the
    corresponding grid function of the old image.

The full-width check at line 282 reads as if it ruled out some placements
the other checks allow. It does not. A patch as wide as the
image, placed at a positive column, already fails the fit check at
line 287. So `patch` accepts a placement exactly when the start is
non-negative and the whole patch fits (`Patching.PatchAcceptedIff`).

## Model

| member | source | states |
|---|---|---|
| ColorCodec.Wrap | ImageEditingProgram.java:130-134 | the 32-bit result of Java arithmetic on an unbounded value: congruent to it modulo 2^32, and equal to it when it already fits in an `int` |
| ColorCodec.UnpackRed | ImageEditingProgram.java:97-99 | the red field of any packed word, negative ones included, is a byte 0..255 |
| ColorCodec.UnpackGreen | ImageEditingProgram.java:107-109 | the green field of any packed word is a byte 0..255 |
| ColorCodec.UnpackBlue | ImageEditingProgram.java:117-119 | the blue field of any packed word is a byte 0..255 |
| ColorCodec.PackInt | ImageEditingProgram.java:121-134 | packing three bytes yields a word that uses only the 24 colour bits, 0 .. 2^24-1 |
| ColorCodec.PackUnpack | ImageEditingProgram.java:91-134 | round trip: unpacking a packed byte triple returns each red, green and blue byte exactly |
| ColorCodec.UnpackPack | ImageEditingProgram.java:91-134 | the other round trip: repacking the three unpacked fields of any word gives that word's low 24 bits |
| ColorCodec.RepackColor | ImageEditingProgram.java:91-134 | a word within 0 .. 2^24-1 is rebuilt exactly from its unpacked fields, so pack and unpack are a bijection between byte triples and 24-bit colours |
| ColorCodec.UnpackIgnoresHighBits | ImageEditingProgram.java:91-119 | adding any multiple of 2^24 (an alpha byte, or the sign bit) changes none of the three unpacked fields |
| ColorCodec.FieldIgnoresHighBits | ImageEditingProgram.java:97-119 | one field at weight 1, 2^8 or 2^16 is unchanged when 256 units of that weight are added to the word, any number of times |
| PixelBuffer.Cells | ImageEditingProgram.java:24 | the grid view of the image array has the array's height and width |
| PixelBuffer.CellsAre | ImageEditingProgram.java:24 | an array whose every cell matches a grid of the same shape has that grid as its view |
| Rotation.RotateStep | ImageEditingProgram.java:175-181 | one clockwise step of an `H x W` image is a non-empty `W x H` image |
| Rotation.RotateStepMovesCell | ImageEditingProgram.java:177-181 | source cell `(row, col)` lands at `(col, H-1-row)` after one step |
| Rotation.RotateN | ImageEditingProgram.java:174-183 | any number of clockwise steps yields a non-empty rectangular image |
| Rotation.RotateNShape | ImageEditingProgram.java:174-183 | an even number of steps keeps the shape; an odd number swaps height and width |
| Rotation.TwoSteps | ImageEditingProgram.java:174-183 | two steps (180 degrees) keep the shape and send cell `(p, q)` to `(H-1-p, W-1-q)` |
| Rotation.ThreeSteps | ImageEditingProgram.java:174-183 | three steps (270 degrees) are a counter-clockwise quarter turn |
| Rotation.FourStepsIdentity | ImageEditingProgram.java:174-183 | four steps (360 degrees) return the original image |
| Rotation.RotateNPlusFour | ImageEditingProgram.java:174-183 | four more steps change nothing |
| Rotation.RotateNMod4 | ImageEditingProgram.java:174-183 | `n` steps equal `n mod 4` steps |
| Rotation.Rotated | ImageEditingProgram.java:167-187 | `rotate` on a grid, valid degree or not, yields a non-empty rectangular image |
| Rotation.RotatedNormalized | ImageEditingProgram.java:167-187 | a valid rotation by `degree` is `(degree / 90) mod 4` steps, and adding 360 degrees changes nothing |
| Rotation.RotatedIdentity | ImageEditingProgram.java:167-187 | a negative degree, a degree that is not a multiple of 90, or a multiple of 360 leaves the image unchanged |
| Rotation.RotateExample | ImageEditingProgram.java:167-187 | rotating `[[1,2,3],[4,5,6]]` by 90 degrees gives `[[4,1],[5,2],[6,3]]` |
| Downsampling.ChannelOf | ImageEditingProgram.java:229-233 | each channel read inside the block loop is a byte |
| Downsampling.RowSum | ImageEditingProgram.java:228-234 | the sum of one channel over `n` cells of a row lies within 0 .. 255*n |
| Downsampling.BlockSum | ImageEditingProgram.java:226-236 | the accumulated sum of one channel over a block is never negative |
| Downsampling.BlockSumBound | ImageEditingProgram.java:226-236 | the sum of one channel over an `hs x ws` block is at most `255 * hs * ws` |
| Downsampling.Mean | ImageEditingProgram.java:223-239 | the truncated mean of one channel over a block is a byte 0..255 |
| Downsampling.DownCell | ImageEditingProgram.java:237-240 | the packed averages of one output cell are a 24-bit colour, 0 .. 2^24-1 |
| Downsampling.ScalesValid | ImageEditingProgram.java:204-215 | scales that pass the three checks cut the image exactly into at least one whole block in each direction |
| Downsampling.DownSampled | ImageEditingProgram.java:201-243 | `downSample` on a grid, valid scales or not, yields a non-empty rectangular image |
| Downsampling.DownCellUnpacks | ImageEditingProgram.java:237-240 | an output cell is a 24-bit colour whose red, green and blue fields are the three block means |
| Downsampling.DownSampledCells | ImageEditingProgram.java:217-242 | valid scales give an `(H/hs) x (W/ws)` image in which each cell `(a, b)` is a 24-bit colour that unpacks to the truncated means of rows `a*hs ..< a*hs+hs` and columns `b*ws ..< b*ws+ws` |
| Downsampling.DownSampledInvalid | ImageEditingProgram.java:204-215 | a scale below 1, above the dimension, or not dividing it leaves the image unchanged |
| Downsampling.RowSumUniform | ImageEditingProgram.java:228-234 | a run of `n` equal cells sums to `n` times its channel value |
| Downsampling.BlockSumUniform | ImageEditingProgram.java:226-236 | a one-colour block sums to its cell count times its channel value |
| Downsampling.MeanUniform | ImageEditingProgram.java:223-239 | the mean of a one-colour block is that colour's channel value |
| Downsampling.DownSampledUniformBlock | ImageEditingProgram.java:217-242 | a block filled with one 24-bit colour becomes a cell of exactly that colour |
| Downsampling.DownSampledByOne | ImageEditingProgram.java:217-242 | scales `1 x 1` keep the shape and reduce every cell to its 24 colour bits |
| Patching.PatchAccepted | ImageEditingProgram.java:270-290 | a placement that passes the five checks has a non-negative start and lies wholly inside the image |
| Patching.PatchAcceptedIff | ImageEditingProgram.java:270-290 | the five checks accept a placement if and only if the start is non-negative and the patch fits inside the image |
| Patching.CountInRow | ImageEditingProgram.java:295-303 | the number of non-transparent cells among the first `n` of a row is at most `n` |
| Patching.CountUpTo | ImageEditingProgram.java:294-304 | the counter after the first `m` rows and `n` more cells never exceeds the number of cells visited, `m * pw + n` |
| Patching.CountOpaque | ImageEditingProgram.java:292-305 | the count `patch` returns is at most the patch's cell total |
| Patching.CellAfter | ImageEditingProgram.java:294-301 | at any point of the visit, each image cell holds either its old value or the non-transparent patch cell placed over it |
| Patching.CountUpToIsCard | ImageEditingProgram.java:294-304 | after any prefix of the row-major visit, the counter equals the number of non-transparent positions visited |
| Patching.CountOpaqueMeaning | ImageEditingProgram.java:292-305 | the returned count is the number of positions of the patch whose cell differs from the transparent word, and at most the patch's cell total |
| Patching.Patched | ImageEditingProgram.java:292-305 | a patched image keeps the image's shape |
| Patching.CellAfterStep | ImageEditingProgram.java:296-301 | visiting patch cell `(a, b)` changes only image cell `(a+sr, b+sc)`, and that one only when the patch cell is not transparent |
| Patching.CellAfterRowEnd | ImageEditingProgram.java:294-295 | the end of one patch row is the start of the next |
| Patching.CellAfterComplete | ImageEditingProgram.java:294-305 | once every patch cell has been visited, the image is the patched one |
| Patching.PatchedCells | ImageEditingProgram.java:292-305 | non-transparent patch cells are copied to `(a+sr, b+sc)`; image cells under transparent ones keep their value; every cell outside the patch rectangle keeps its value |
| Patching.PatchedIdempotent | ImageEditingProgram.java:292-305 | patching twice with the same patch at the same place is the same as patching once |
| Patching.PatchedAllTransparent | ImageEditingProgram.java:292-305 | a patch whose every cell is transparent changes nothing and counts 0 |
| ImageEditing.TurnClockwise | ImageEditingProgram.java:175-181 | one pass of the rotation loop returns a fresh `W x H` array equal to one clockwise step of the source |
| ImageEditing.BlockAverages | ImageEditingProgram.java:223-239 | the three accumulators of one output cell end up as the three channel means of its block |
| ImageEditing.DownSampleRow | ImageEditingProgram.java:222-241 | after output row `a`, every cell of rows `0..a` holds its packed block means, and every row after `a` keeps its old cells |
| ImageEditing.ImageEditor.constructor | ImageEditingProgram.java:68-70 | installs a non-empty decoded array as the current image, as `load` does |
| ImageEditing.ImageEditor.Rotate | ImageEditingProgram.java:167-187 | the new image is the rotated old one; an invalid degree or degree 0 keeps the very same array |
| ImageEditing.ImageEditor.DownSample | ImageEditingProgram.java:201-243 | the new image is the down-sampled old one; invalid scales keep the very same array |
| ImageEditing.ImageEditor.Patch | ImageEditingProgram.java:266-306 | an accepted placement returns the number of non-transparent patch cells, and the image becomes the patched old image; a rejected one returns 0 and changes nothing |
| ImageEditing.ImageEditor.PatchRow | ImageEditingProgram.java:295-303 | one row of the patch loop copies that row's non-transparent cells and adds their number to the count; the patch itself stays the same even when it is the image array |

## Left out

- `open`, `load`'s file read, `save` and `printImage`: they are file and console I/O. The constructor takes the decoded pixel array, and the alpha masking at line 55 is not modelled.
- `main` is a driver over concrete files and is not modelled.
- The block sums in `downSample` are unbounded integers. A Java `int` sum overflows only for blocks of more than about 8 million pixels, and the model does not capture that overflow.
- Ragged arrays are not modelled: every image is an `array2`, so all rows have the width of row 0. The source measures `image[i].length` and `patchImage[a].length` row by row. A patch must have at least one row, because the source reads `patchImage[0]`.
- ImageEditing.ImageEditor.Patch: rows shared between arrays are not modelled. A Java `int[][]` can hold the same row object twice, or a row of the image itself. `patch` then reads patch rows it has already overwritten. The model reads every patch cell as it was before the call. It does handle a patch that is the image array itself.
- ImageEditing.ImageEditor.Patch: overflow in the fit check is not modelled. The sums `startRow + patchImage.length` and `startColumn + patchImage[0].length` at line 287 are 32-bit and wrap when a dimension exceeds 2^30. The model adds unbounded integers.
- A `null` image or patch and Java's exceptions for them are not modelled. The editor's image is always a non-empty `array2`.
- Each `rotate`, `downSample` and `patch` loop nest is split into a helper method (`TurnClockwise`, `DownSampleRow`, `BlockAverages`, `PatchRow`). The helpers run the same loops over the same arrays.
