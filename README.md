# Image processor raster core, in Dafny

This project models the integer raster operations of a small Java image editor's
`ImageProcessor` class and proves properties about them:

- **Binarisation** (`binarize`): each pixel becomes 1 (object) when the floor of its red,
  green and blue mean is below 128, and 0 (background) otherwise.
- **Rendering** (`arrayToImage`): each grid cell becomes opaque black when it holds 1 and
  opaque white otherwise.
- **Grey-level morphology** (`applyErosion`, `applyDilation`): the output starts as a copy
  of the source. Each interior pixel is then rewritten, one channel at a time (alpha, red,
  green, blue), with the minimum (erosion) or maximum (dilation) over its 3x3 window in the
  source.
- **Zhang-Suen thinning** (`applyZhangSuen`): each iteration has two sub-passes. A sub-pass
  collects the deletable cells against the grid as it stood before the sub-pass and clears
  them after the scan. The iterations stop when one deletes nothing.
- **Stentiford thinning** (`applyStentiford`) and its helpers `isEndpoint`,
  `getTransitions`, `preservesConnectivity` and `matchesTemplate`. Each round runs four
  directional templates in order: north, south, east, west. A template's deletions are
  applied before the next template scans. Rounds stop when one deletes nothing.

## Structure

- `pixels.dfy` (module `Pixels`): packed 32-bit ARGB pixels. `getRGB`/`setRGB` words are
  read as unsigned numbers. `(rgb >> s) & 0xFF` becomes division by 256 and remainder
  modulo 256. The shift-and-or packing becomes a sum of shifted bytes.
- `raster.dfy` (module `Raster`): images and grids as `seq<seq<_>>` values indexed `[x][y]`,
  as `new int[width][height]` is. `Snapshot` gives the value held by an `array2`. It also
  defines the foreground count, `Shrinks` ("only cells cleared to 0") and `BorderKept`
  ("same shape and same border ring").
- `binarization.dfy`: `Binarize` and `ArrayToImage` as loops over `array2`, each proved
  against a value function (`Binarized`, `Rendered`).
- `morphology.dfy`: `Apply` (shared by `ApplyErosion` and `ApplyDilation`) and the 3x3
  window loops, proved equal to `Morph`, the per-pixel specification.
- `neighbourhood.dfy`: p2..p9, the neighbour sum B and the circular 0-to-1 transition
  count A, shared by both thinning algorithms.
- `zhang_suen.dfy` and `stentiford.dfy`: each algorithm's loops as methods over an
  `array2<int>` grid. Each is proved equal to a recursive value function `Thin`, whose
  `decreases` clause is the foreground count.

Both thinning methods are proved to return the rendering of `Thin` of the binarized input.
`Thin` only clears cells and keeps the border ring. No sub-pass or template would delete
anything more from its result. An object cell with at most one object neighbour is never
deleted.

The Stentiford connectivity test is modelled as the code writes it: a cell is eligible only
when its transition count is not 1. `Stentiford.PolarityCanIsolate` shows a concrete grid on
which this lets the north template cut a pixel off from the rest of the object.

## Model

| member | source | states |
|---|---|---|
| Pixels.ChannelOf | ImageProcessor.java:169-172 | channel c of a packed word, `(rgb >> 24/16/8/0) & 0xFF`, read as division by 256 and remainder modulo 256; always a byte |
| Pixels.Pack | ImageProcessor.java:180 | the bitwise or of `a << 24`, `r << 16`, `g << 8` and `b`, as a sum of shifted bytes; always a 32-bit word |
| Pixels.UnpackPack | ImageProcessor.java:169-172 | the shift-and-mask of each channel gives back the byte packed at line 180: the four channels never overlap |
| Pixels.PackUnpack | ImageProcessor.java:180 | packing a pixel's four channels gives back the pixel |
| Binarization.Gray | ImageProcessor.java:239-244 | the grey level `(r + g + b) / 3`, floored, from the red, green and blue channels (alpha ignored); always between 0 and 255 |
| Binarization.Ink | ImageProcessor.java:244-251 | a pixel's cell is 0 or 1 |
| Binarization.Binarize | ImageProcessor.java:228-255 | the grid has the image's width and height, and each cell is the threshold of its pixel |
| Binarization.BinarizedCells | ImageProcessor.java:236-253 | the binarized grid is rectangular, holds only 0 and 1, and holds 1 exactly where `(r+g+b)/3 < 128` |
| Binarization.InkIsDark | ImageProcessor.java:244-247 | a pixel is object exactly when r + g + b < 384 |
| Binarization.ThresholdBoundary | ImageProcessor.java:234-251 | grey level 127 is object and 128 is background, on concrete grey pixels too; alpha plays no part |
| Binarization.Render | ImageProcessor.java:269-273 | a cell holding 1 becomes `Color.BLACK`, any other value `Color.WHITE` |
| Binarization.ArrayToImage | ImageProcessor.java:260-277 | the image is a newly allocated width by height array; a cell holding 1 gives 0xFF000000 (opaque black), any other value 0xFFFFFFFF (opaque white) |
| Binarization.ArrayToImageRendered | ImageProcessor.java:265-276 | the drawn image equals the rendering function of the grid's value |
| Binarization.InkOfRender | ImageProcessor.java:269-273 | rendered pixels are opaque; binarizing a rendered cell gives 1 for 1 and 0 otherwise |
| Binarization.BinarizeRendered | ImageProcessor.java:228-277 | binarizing the rendering of a 0/1 grid gives back the grid |
| Morphology.MorphPixel | ImageProcessor.java:163-183 | a border pixel keeps the copied source value; an interior pixel is the packing of the four per-channel folds over its 3x3 window |
| Morphology.WindowExtreme | ImageProcessor.java:165-180 | the ky/kx loops with four accumulators produce the packed per-channel fold of the 3x3 window |
| Morphology.WindowRow | ImageProcessor.java:167-178 | one kx row advances each accumulator's fold by three window pixels |
| Morphology.WindowStep | ImageProcessor.java:168-177 | the pixel read at (x+kx, y+ky) is the next window pixel, and the min/max step extends the fold by it |
| Morphology.Apply | ImageProcessor.java:155-183 | the copy-then-rewrite loops produce, in a newly allocated array, `Morph` of the source: border pixels copied, interior pixels read only from the source |
| Morphology.ApplyErosion | ImageProcessor.java:151-185 | the output is a newly allocated array of the source's size holding the erosion of the source |
| Morphology.ApplyDilation | ImageProcessor.java:187-221 | the output is a newly allocated array of the source's size holding the dilation of the source |
| Morphology.ExtremeIsAttained | ImageProcessor.java:174-177 | folding with min (or max) from 255 (or 0) gives a value at most (or at least) every channel value and equal to one of them |
| Morphology.ErosionIsWindowMinimum | ImageProcessor.java:158-183 | border pixels are unchanged; each interior channel is the minimum of that channel over the window, hence at most the source value |
| Morphology.DilationIsWindowMaximum | ImageProcessor.java:194-220 | border pixels are unchanged; each interior channel is the maximum of that channel over the window, hence at least the source value |
| Morphology.WindowExtremeChannel | ImageProcessor.java:163-183 | each channel of a rewritten pixel is bounded by and attained in the window, whose centre is the source pixel |
| Morphology.MorphChannel | ImageProcessor.java:180 | each channel of a rewritten pixel is its own channel's fold; channels do not mix |
| Morphology.UniformFixed | ImageProcessor.java:163-183 | a uniform image is left unchanged by erosion and by dilation |
| Morphology.ErodeDilateUniform | ImageProcessor.java:151-221 | dilating the erosion of a uniform image gives back the image |
| Morphology.ErosionBelowDilation | ImageProcessor.java:151-221 | at every pixel and channel, erosion is at most dilation |
| Neighbourhood.ReadNeighbours | ImageProcessor.java:298-307 | the eight reads are p2..p9, clockwise from north |
| Neighbourhood.Transitions | ImageProcessor.java:446-449 | A, the number of 0-to-1 steps on the circular walk p2, p3, ..., p9, p2; at most the number of neighbours |
| Neighbourhood.CountNeighbourhood | ImageProcessor.java:309-319 | the counting loop, with its p[7]/p[0] wrap step, yields B (the neighbour sum) and A (the circular 0-to-1 count) |
| Neighbourhood.DeleteAll | ImageProcessor.java:333-336 | exactly the listed cells become 0, and every other cell keeps its value |
| Neighbourhood.NoTransitionsIffUniform | ImageProcessor.java:441-451 | on 0/1 values, A is 0 exactly when all eight neighbours are equal |
| Neighbourhood.NeighbourSumShrinks | ImageProcessor.java:434-439 | clearing cells of a 0/1 grid never raises a cell's neighbour count |
| Raster.ForegroundShrinks | ImageProcessor.java:290-385 | clearing cells never raises the foreground count and lowers it when anything changed; this is the thinning loops' termination measure |
| Raster.ShrinksBinary | ImageProcessor.java:333-336 | clearing cells of a 0/1 grid leaves a 0/1 grid |
| ZhangSuen.Deletable | ImageProcessor.java:321-372 | the deletion rule of each sub-pass (lines 321-326 and 367-372): an interior cell holding 1 with 2 to 6 object neighbours, A = 1, and P2·P4·P6 = P4·P6·P8 = 0 (first) or P2·P4·P8 = P2·P6·P8 = 0 (second) |
| ZhangSuen.CheckCell | ImageProcessor.java:296-329 | the per-cell test marks a cell exactly when it is deletable in the current sub-pass |
| ZhangSuen.ScanRow | ImageProcessor.java:295-330 | the x loop appends exactly row y's deletable cells |
| ZhangSuen.CollectDeletable | ImageProcessor.java:294-331 | the listed cells are exactly the deletable cells of the grid as it stands |
| ZhangSuen.SubPass | ImageProcessor.java:294-337 | a sub-pass only clears cells and keeps the border ring |
| ZhangSuen.RunSubPass | ImageProcessor.java:294-337 | scan then clear equals `SubPass` of the grid before the scan; the flag is set exactly when the grid changed |
| ZhangSuen.Iteration | ImageProcessor.java:290-384 | an iteration only clears cells and keeps the border ring |
| ZhangSuen.Thin | ImageProcessor.java:290-385 | the thinned grid only clears input cells, keeps the border ring, and is left unchanged by both sub-passes |
| ZhangSuen.StableIteration | ImageProcessor.java:385 | an iteration that changes nothing means neither sub-pass deletes anything |
| ZhangSuen.IterationProgress | ImageProcessor.java:290-385 | an iteration changes the grid exactly when a sub-pass deleted something; a change lowers the foreground count; the final result is the same before and after |
| ZhangSuen.ApplyZhangSuen | ImageProcessor.java:282-388 | the output is a newly allocated array of the input's size holding the rendering of `Thin` of the binarized input |
| ZhangSuen.SubPassDeletes | ImageProcessor.java:321-328 | a sub-pass changes a cell exactly when it is deletable; it is then an interior object cell with 2 to 6 object neighbours and one transition, and becomes 0 |
| ZhangSuen.KeepsEndpoints | ImageProcessor.java:322-326 | an object cell with at most one object neighbour survives thinning |
| ZhangSuen.SurvivesSubPass | ImageProcessor.java:321-372 | such a cell survives either sub-pass: the first (lines 322-326) and the second (lines 368-372) both require 2 to 6 object neighbours |
| Stentiford.IsEndpoint | ImageProcessor.java:434-439 | `isEndpoint`: the eight neighbours sum to at most 1 |
| Stentiford.PreservesConnectivity | ImageProcessor.java:453-456 | `preservesConnectivity` as written: true when A differs from 1 |
| Stentiford.MatchesTemplate | ImageProcessor.java:458-480 | `matchesTemplate`: the north, south, east and west patterns over p2..p9 for indices 0 to 3, false for any other index |
| Stentiford.Eligible | ImageProcessor.java:408-418 | a template lists an interior non-zero cell that is not an endpoint, passes the connectivity test as written and matches the template |
| Stentiford.CheckCell | ImageProcessor.java:408-418 | the endpoint, connectivity and template tests accept a cell exactly when it is eligible |
| Stentiford.SumOfEight | ImageProcessor.java:435-437 | the written-out sum of the eight neighbours is B |
| Stentiford.GetTransitions | ImageProcessor.java:441-451 | the loop over `(i + 1) % 8` counts the circular 0-to-1 transitions A |
| Stentiford.ScanRow | ImageProcessor.java:407-419 | the x loop appends exactly row y's eligible cells |
| Stentiford.CollectEligible | ImageProcessor.java:404-420 | the listed cells are exactly the eligible cells of the grid as it stands |
| Stentiford.RunTemplate | ImageProcessor.java:404-425 | scan then clear equals `TemplatePass`; the flag is set exactly when the grid changed |
| Stentiford.TemplatePass | ImageProcessor.java:404-425 | a template pass only clears cells and keeps the border ring |
| Stentiford.Passes | ImageProcessor.java:403-426 | templates run in order, each on the grid the previous one left; together they only clear cells and keep the border ring |
| Stentiford.Thin | ImageProcessor.java:400-427 | the thinned grid only clears input cells, keeps the border ring, and is left unchanged by all four templates |
| Stentiford.StableRound | ImageProcessor.java:400-427 | a round that changes nothing means no template deletes anything |
| Stentiford.StablePass | ImageProcessor.java:403-426 | if templates 0..k change nothing, neither do templates 0..k-1 nor template k |
| Stentiford.PassProgress | ImageProcessor.java:422-425 | after template k the round has changed the grid exactly when it had before or template k deleted something |
| Stentiford.RoundProgress | ImageProcessor.java:400-427 | a round that changes the grid lowers the foreground count; the final result is the same before and after it |
| Stentiford.ApplyStentiford | ImageProcessor.java:393-430 | the output is a newly allocated array of the input's size holding the rendering of `Thin` of the binarized input |
| Stentiford.TemplatePassDeletes | ImageProcessor.java:408-418 | a pass changes a cell exactly when it is eligible: never an endpoint, never a cell with A = 1, never a cell off the template, never the border |
| Stentiford.KeepsEndpoints | ImageProcessor.java:434-439 | an object cell with at most one object neighbour survives thinning |
| Stentiford.EndpointSurvivesRound | ImageProcessor.java:403-426 | such a cell survives a round and remains one |
| Stentiford.EndpointSurvivesPass | ImageProcessor.java:411 | such a cell survives a template pass and remains one |
| Stentiford.PolarityCanIsolate | ImageProcessor.java:453-456 | with the test as written, the north template deletes a junction cell with A = 3 and leaves a pixel with no object neighbour |
| Stentiford.TemplatesOpposite | ImageProcessor.java:469-477 | south is north turned half a circle, west is east turned, and opposite templates never both match |

## Left out

- `rotateImage` and `resizeImage` (ImageProcessor.java:16-64): floating-point trigonometry, `AffineTransform` and `Graphics2D` interpolation happen inside library code that is not part of this model.
- `applyConvolution` and its wrappers `applyBoxBlur`, `applySharpen`, `applyGaussianBlur` and `applyEdgeDetection` (ImageProcessor.java:72-146): float kernels handed to `java.awt.image.ConvolveOp`, which is library code. The kernels are the 3x3 box (each weight 1/9), sharpen (0, -1, 0 / -1, 5, -1 / 0, -1, 0), Gaussian (1, 2, 1 / 2, 4, 2 / 1, 2, 1, over 16) and edge (-1, -1, -1 / -1, 8, -1 / -1, -1, -1).
- Morphology.Apply: the `Graphics2D.drawImage` copy at the start of erosion and dilation (ImageProcessor.java:159-161, 195-197) is modelled as an exact pixel copy. `drawImage` actually composites source-over onto a transparent canvas. So a fully transparent border pixel comes out as 0x00000000 rather than its own value, and a translucent one may be rounded. The "border pixels are unchanged" clauses of `Morphology.ErosionIsWindowMinimum` and `Morphology.DilationIsWindowMaximum` hold for the model, and for opaque images in the source.
- Colour models: images are modelled as `TYPE_INT_ARGB` rasters of packed words. Conversions that `getRGB`/`setRGB` perform for other image types (a dropped alpha, indexed or grey colour models) are not modelled. Neither is the exception `new BufferedImage` raises for `TYPE_CUSTOM` in erosion and dilation.
- Null images: `applyErosion` and `applyDilation` return `null` for a `null` input (ImageProcessor.java:153, 189). `applyZhangSuen` and `applyStentiford` dereference a `null` input and throw (ImageProcessor.java:283, 394). Dafny arrays are never null, so neither case is modelled.
- Zero-size images: Java cannot create them. The model accepts them, and then every loop runs zero times.
- The deletion list is a `java.util.List<Point>` in the source. It is a `seq<(int, int)>` here. Zhang-Suen reuses and clears one list, whereas the model builds a fresh one per sub-pass. Either way each sub-pass starts from an empty list.
- `ImageEditor.java` (Swing frame, painting, menus, timer-driven rotation, zoom limits), `ImageFileManager.java` (file dialogs, `ImageIO` read and write) and `Main.java` (look-and-feel, launch) are user interface and I/O. They are not part of this model.
- Stentiford.Thin: no connectivity or one-pixel-width guarantee is stated for the skeleton. With the connectivity test as written, connectivity does not hold (`Stentiford.PolarityCanIsolate`).
- ZhangSuen.Thin: no connectivity or one-pixel-width guarantee is stated for the skeleton either. The contract states what the loop guarantees: cells are only cleared, the border ring is kept, and the result is a fixed point of both sub-passes.
