# Image effects of pset2.py, modelled in Dafny

The model covers the `Image` class of `pset2.py`: a grayscale image held as a row-major list of pixels,
with its width and height. It covers:

- pixel access (`get_pixel`, `set_pixel`, `Image.new`);
- the pointwise map `apply_per_pixel` and `inverted`;
- the convolution pipeline `apply_kernel_per_pixel` → `add_extra_borders` → `use_kernel`;
- the effects built on that pipeline: `blurred`, `sharpened`, `edges`;
- `__eq__`.

The Dafny follows the code, including the behaviour in which it differs from the textbook filters:

- `inverted` maps c to 256 - c.
- `aux = result.copy()` is a shallow copy. The rows that `add_extra_borders` pads are therefore the very
  lists of `result`, and `use_kernel` writes every output value back into them, in the padded column x.
  Later windows read those written values.
- The r row copies inserted at `lt == height - 1` copy the row standing there after the r top copies went
  in. That is image row `height - 1 - r`, or a copy of row 0 when `height <= r`. For a 3×3 kernel (r = 1)
  it is image row `height - 2`. The copies stand at index `height - 1`, not at the bottom.
- `use_kernel` reads only nine taps, at offsets -r, 0 and +r, and adds them r times.
  A 1×1 kernel therefore gives zeros, and a 5×5 box kernel weighs 18/25 in total.
- With height 1 and a kernel of radius at least 1, `add_extra_borders` raises an IndexError.
- `sharpened` reads the module-level `image`, which is `self` at its only call site. It overwrites
  `self.pixels` in place, does not clip, and returns `self`.
- `edges` returns the list of rows, not an `Image`.

## Where the code differs from textbook filters

A textbook inversion maps c to 255 - c. A textbook correlation reads only the input image, replicates its
edges and weighs every tap of the kernel once. A textbook sharpen returns a new image clipped to [0, 255].
The model follows the code in each of these cases:

- Inversion uses 256 - c, not 255 - c. `PixelGrid.InvertCheckerboard` shows the checkerboard 0, 255, 255, 0
  becoming 256, 1, 1, 256.
- Sharpening is in place and unclipped, and it returns the same object. It is not a clipped new grid
  (`Images.Image.Sharpened`, `PixelGrid.SharpenRange`).
- Blur of a uniform grid does not return the grid for every odd size. A white image under the 5×5 box
  kernel starts with the pixel 184 (`Effects.LargeBoxDarkens`).
- The gradients of a uniform grid are not zero everywhere. On a 2×2 image of gray 100 the horizontal
  gradient emits 0, 0, 200, 200 (`Effects.GradientFeedsBack`).
- The 1×1 kernel [[2]] over 10, 20, 30 gives 0, 0, 0, not 20, 40, 60 (`Effects.UnitKernelZeros`).

## Layout

| file | module | what |
|---|---|---|
| `numeric.dfy` | `Maybe`, `Rounding` | the Option type; Python 3 `round` (half to even) and the clip to [0, 255] |
| `kernels.dfy` | `Kernels` | kernels as lists of rows of reals, the radius, the box kernel of the menu, the two gradient kernels |
| `pixel_grid.dfy` | `PixelGrid` | list addressing `x + width*y` with Python's negative indices, the pointwise map, inversion, sharpening on values |
| `borders.dfy` | `Borders` | `add_extra_borders` on values: each row of aux tagged with whether it is a list of result or a copy |
| `correlation.dfy` | `Correlation` | `use_kernel` and `apply_kernel_per_pixel` on values, including the write-back through the shared rows |
| `image.dfy` | `Images` | the `Image` class and the `Row` objects of the pipeline, imperative, proved against the value-level functions |
| `effects.dfy` | `Effects` | what the effects do to uniform images and to a 2×2 example |
| `first_row.dfy` | `FirstRow` | output row 0 of a 3×3 kernel is the textbook correlation with edge replication |

The imperative methods carry ghost coordinates and ghost values of aux. Each method of the border and
kernel pipeline has an `ensures` that ties its rows and pixel list to `Borders.AddBorders`, `Correlation.Walk` and `Correlation.Filter`. The properties
are proved about those functions.

`Images.Image.GetPixel` (get_pixel) and `Images.Image.Equals` (`__eq__`) are definitions without a
contract of their own. `Images.Image.SetPixel`, `PixelGrid.GetAfterSet` and `Images.InvertTwiceEquals`
state what they mean.

## Model

| member | source | states |
|---|---|---|
| Rounding.RoundHalfEven | pset2.py:97 | the result is within one half of the sum, and a tie goes to the even integer (Python 3 round) |
| Rounding.RoundOfWhole | pset2.py:123 | rounding an integer gives it back, so the round in sharpened changes nothing |
| Rounding.Clamp | pset2.py:99-103 | the result lies in [0, 255]; it is the value inside the range, 255 above it and 0 below it |
| Kernels.Radius | pset2.py:55-56 | extra_kernels is len(k[0]) // 2, and the kernel has 2r + 1 rows |
| Kernels.BoxKernel | pset2.py:280-288 | the menu's kernel has size rows of size weights, each weight times size*size being 1 |
| Kernels.BoxTapWeights | pset2.py:78-96 | the nine taps read from the 3×3 box weigh 1; the 5×5 box has radius 2, and its taps summed twice weigh 18/25 |
| Kernels.SobelShape | pset2.py:309-317 | both gradient kernels are 3×3 with radius 1, and their nine taps sum to 0 |
| PixelGrid.Slot | pset2.py:21 | Python indexing: an index in [-n, 0) counts from the end, and the slot lies in [0, n) |
| PixelGrid.PixelAt | pset2.py:19-21 | definition of get_pixel on values: the list entry at x + width*y, with Python negative indexing; `PixelGrid.GetAfterSet`, `PixelGrid.FlatInRange` and `PixelGrid.Unflatten` state what it reads |
| PixelGrid.WithPixel | pset2.py:25 | the item assignment keeps the list length |
| PixelGrid.GetAfterSet | pset2.py:19-25 | get_pixel after set_pixel reads c back, and every other slot reads as before |
| PixelGrid.FlatInjective | pset2.py:20 | inside the grid, distinct coordinates address distinct list indices |
| PixelGrid.FlatInRange | pset2.py:20 | inside a width × height grid, the index lies in [0, width*height) |
| PixelGrid.Unflatten | pset2.py:20 | every index below width*height is the index of some in-grid (x, y), namely (i % width, i / width); with `PixelGrid.FlatInjective` that (x, y) is unique |
| PixelGrid.MapPixels | pset2.py:32-34 | the mapped list has the same length, and entry i is func of entry i |
| PixelGrid.PaintStart | pset2.py:28 | before the loops the new image's list holds width*height zeros (Image.new) |
| PixelGrid.PaintStep | pset2.py:32-34 | setting (x, y) to func of the source pixel advances the column-major fill by one position |
| PixelGrid.PaintColumnEnd | pset2.py:30-31 | finishing column x is starting column x + 1 |
| PixelGrid.PaintDone | pset2.py:30-35 | after the last column the new list is the pointwise map of the first width*height pixels |
| PixelGrid.Invert | pset2.py:112 | definition of the inverted function c -> 256 - c; `PixelGrid.InvertRange`, `PixelGrid.InvertCheckerboard` and `PixelGrid.InvertTwice` state what it does |
| PixelGrid.InvertRange | pset2.py:112 | gray levels go to [1, 256], and 256 comes exactly from 0 |
| PixelGrid.InvertCheckerboard | pset2.py:112 | 0, 255, 255, 0 inverts to 256, 1, 1, 256 |
| PixelGrid.InvertTwice | pset2.py:112 | mapping c to 256 - c twice gives every list back |
| PixelGrid.Sharpen | pset2.py:122-123 | sharpening keeps the list length |
| PixelGrid.SharpenStep | pset2.py:122-123 | step i of the loop reads the untouched pixel i and extends the sharpened prefix by one |
| PixelGrid.SharpenRange | pset2.py:119-124 | with gray inputs each sharpened value lies in [-255, 510] (no clip) and satisfies new + blurred == 2 * old; pixels past the blurred list stay |
| Borders.Pad | pset2.py:63-65 | one padding pass adds two cells |
| Borders.PadAt | pset2.py:63-65 | a padded row is edge replication: cell i is the original cell nearest to column i - 1 |
| Borders.Initial | pset2.py:54 | the shallow copy as values: |lines| == |rows|, row j tagged as the list result[j]; `Borders.InitialTracks` states that each list sits at its own index |
| Borders.BorderStep | pset2.py:59-65 | definition of one inner pass, None for the IndexError; `Borders.StepProgress`, `Borders.StepTracks`, `Borders.StepPadded` and `Borders.StepUniform` state what it does |
| Borders.AddBorders | pset2.py:57-65 | definition of the two loops of add_extra_borders, None for the IndexError; `Borders.BordersDefined`, `Borders.BordersTrack`, `Borders.BordersPadded` and `Borders.BordersLayout3` state what it computes |
| Borders.Insert | pset2.py:60-62 | list.insert: the rows before i stay, the new row is at i, and the rows after shift by one |
| Borders.StepProgress | pset2.py:59-65 | one inner pass succeeds on a well-formed aux; it inserts a copy only at lt 0 and height - 1, pads row lt, and shifts the rows after it |
| Borders.NextRowProgress | pset2.py:57-58 | after r passes at lt, row lt is padded r times and the outer loop moves on |
| Borders.BordersFrom | pset2.py:57-65 | from any well-formed state the loops finish, and aux has height + 2r rows of at least width + 2r cells |
| Borders.BordersRadiusZero | pset2.py:57-58 | for a 1×1 kernel aux is result's rows untouched |
| Borders.CrashAtTop | pset2.py:59-63 | height 1: while the top copies go in, the loops end in an IndexError |
| Borders.CrashAfterTop | pset2.py:57-63 | height 1: after the top copies, the outer loop indexes past the end of aux |
| Borders.BordersDefined | pset2.py:52-67 | add_extra_borders finishes if and only if the kernel is 1×1 or the image has height ≥ 2 and width ≥ 1, and then aux has height + 2r rows of at least width + 2r cells |
| Borders.InitialTracks | pset2.py:54 | the shallow copy holds list result[j] at index j and nothing else |
| Borders.ReplaceTracks | pset2.py:63-65 | padding a row in place keeps which rows are lists of result |
| Borders.InsertCopyTracks | pset2.py:60-62 | inserting a copy adds no list of result |
| Borders.StepTracks | pset2.py:59-65 | one inner pass keeps every list of result in aux exactly once |
| Borders.BordersTrackFrom | pset2.py:57-65 | the loops keep every list of result in aux exactly once |
| Borders.BordersTrack | pset2.py:52-67 | after add_extra_borders every list result[j] is in aux exactly once, and every other row is a copy |
| Borders.StepPadded | pset2.py:58-65 | one inner step keeps every list of result at its padding count: an inserted copy takes index lt and is the row padded, otherwise the row at lt gains two cells |
| Borders.NextRowPadded | pset2.py:57-58 | closing the inner loop, the list at lt has its r paddings and the one at lt + 1 none yet |
| Borders.PaddedDone | pset2.py:57 | once the outer loop has run over all height + 2r indices, every list of result is width + 2r cells long |
| Borders.PaddedFrom | pset2.py:57-65 | from any state with that padding count, the loops, when they finish, leave every list of result width + 2r cells long |
| Borders.BordersPadded | pset2.py:52-67 | after add_extra_borders every list of result has been padded exactly r times, so it is width + 2r cells long; only the copies can be longer |
| Borders.StepUniform | pset2.py:59-65 | one pass only copies and repeats cells, so a uniform aux stays uniform |
| Borders.BordersUniformFrom | pset2.py:57-65 | a uniform image gives a uniform aux |
| Borders.BottomCopyStep | pset2.py:61-65 | at lt = height - 1 the copy of image row height - 2 is inserted at index height - 1 and padded |
| Borders.EarlyStep | pset2.py:63-65 | between the two copies, outer index lt only pads row lt |
| Borders.EarlyRun | pset2.py:57-65 | from lt = 1 the loops end in the 3×3 layout |
| Borders.LateRun | pset2.py:57-65 | after lt = height - 1 the remaining passes pad the last two rows once each |
| Borders.BordersLayout3 | pset2.py:52-67 | for a 3×3 kernel and height ≥ 2, aux is: a padded copy of row 0; the padded lists result[0..height-3]; a padded copy of row height - 2; the padded lists result[height-2] and result[height-1] |
| Correlation.Window | pset2.py:80-96 | definition of the nine products read by one pass of the i-loop; `Correlation.WindowUniform`, `FirstRow.WindowOfBlock` and `Effects.SobelExample` state what it sums to |
| Correlation.Repeat | pset2.py:78-96 | the loop over i adds the same window r times, r * window in all |
| Correlation.Pixel | pset2.py:76-103 | every value use_kernel computes is in [0, 255] |
| Correlation.Stored | pset2.py:97-103 | the stored value is in [0, 255] |
| Correlation.WriteThrough | pset2.py:106 | the write result[y][x] = v as aux sees it; it keeps the number of rows, and `Correlation.WalkShape`, `Correlation.WalkKeeps` and `Effects.WriteExample` state what it changes |
| Correlation.Walk | pset2.py:74-107 | definition of the loops of use_kernel; `Correlation.WalkCount`, `Correlation.WalkRange`, `Correlation.WalkWrites` and `Correlation.WalkUniform` state what it emits and leaves |
| Correlation.KernelStep | pset2.py:76-107 | one inner step emits the stored value, writes it through result, and moves on one column |
| Correlation.KernelRowEnd | pset2.py:74-75 | the end of an output row is the start of the next |
| Correlation.ImageRow | pset2.py:42-44 | row j of the image has width cells |
| Correlation.RowInside | pset2.py:43 | the running count of row j stays below width*height |
| Correlation.Rows | pset2.py:38-44 | result starts as height rows of width cells |
| Correlation.ImageRowAt | pset2.py:41-44 | cell t of row j is get_pixel(t, j) |
| Correlation.RemainingClosed | pset2.py:74-75 | the loops still have (height - y) * width - x positions to go from (x, y) |
| Correlation.WalkCount | pset2.py:74-107 | from (x, y) the loops append exactly the remaining count and keep what was emitted before |
| Correlation.WalkRange | pset2.py:97-107 | when every value is in [lo, hi], every emitted pixel is |
| Correlation.WalkShape | pset2.py:106 | the writes change cells only: aux keeps its rows, their origins and their lengths |
| Correlation.WalkKeeps | pset2.py:74-107 | every write from (x, y) on goes to a later position, so cell t of result[j] at an earlier position keeps its value |
| Correlation.WalkWrites | pset2.py:74-107 | the pixel emitted for (x, y), entry width*y + x of image_pixels_list, is the value cell x of result[y] holds when the loops end |
| Correlation.PassRowLengths | pset2.py:74-107 | the writes leave every list of result as long as it was in aux |
| Correlation.PassRows | pset2.py:74-107 | when the lists of result sit at distinct indices of aux and have at least width cells, cell x of result[y] ends up holding pixel width*y + x of image_pixels_list |
| Correlation.PaddedApart | pset2.py:52-67 | after add_extra_borders the lists of result sit at distinct indices of aux, each width + 2r cells long |
| Correlation.FilterRowLengths | pset2.py:37-50 | each row list apply_kernel_per_pixel returns is width + 2r cells long |
| Correlation.FilterRows | pset2.py:37-50 | in each row list y that apply_kernel_per_pixel returns, cell x (x < width) holds pixel width*y + x of the new Image |
| Correlation.WalkFirst | pset2.py:74-107 | the first emitted pixel is the value at (0, 0) of aux before any write |
| Correlation.WalkUniform | pset2.py:74-107 | when every value over a uniform aux is c, the whole walk emits c and aux stays uniform |
| Correlation.StoredRadiusZero | pset2.py:78 | for a 1×1 kernel the sum loop never runs, and every value is 0 |
| Correlation.Filter | pset2.py:37-50 | definition of apply_kernel_per_pixel on values; `Correlation.FilterDefined`, `Correlation.FilterRows`, `Correlation.FilterUniform` and `FirstRow.FirstRowCorrelation` state what it computes |
| Correlation.FilterFrom | pset2.py:46-50 | apply_kernel_per_pixel is the walk over the padded rows, read back through result |
| Correlation.FilterDefined | pset2.py:37-50 | apply_kernel_per_pixel returns if and only if the kernel is 1×1 or the image has height ≥ 2 and width ≥ 1. Its list then has width*height pixels in [0, 255], and result has height rows. A 1×1 kernel gives zeros |
| Correlation.WindowUniform | pset2.py:80-96 | over a uniform aux of gray c the nine products add up to c times the tap weight |
| Correlation.StoredUniform | pset2.py:76-103 | over a uniform aux the stored value depends only on c and the kernel |
| Correlation.WellShapedInAux | pset2.py:80-96 | in a well-shaped aux every tap read is in bounds |
| Correlation.RowsUniform | pset2.py:38-44 | a uniform image gives uniform rows |
| Correlation.FilterUniform | pset2.py:37-50 | over a uniform image the first pixel is the settled value, and when that value is c itself the whole image and all rows stay c |
| Images.Row.constructor | pset2.py:38-44 | a row list of result or aux as an object; the new row holds the given cells |
| Images.Row.PadEnds | pset2.py:63-65 | the first cell is inserted in front and the last appended, in place |
| Images.Row.SetCell | pset2.py:106 | item assignment into a row list |
| Images.RepresentsInitial | pset2.py:54 | the shallow copy of result is represented by the rows of result, each tagged as itself |
| Images.SharedIsResult | pset2.py:54 | a row of aux tagged as list result[j] is the object result[j] |
| Images.FilterOfRows | pset2.py:46-50 | after use_kernel, the rows of result and the pixel list are exactly Filter of the image |
| Images.InsertCopy | pset2.py:60-62 | aux.insert(lt, aux[lt].copy()) puts a new list with the same cells at lt, and the other objects keep their places |
| Images.Accumulate | pset2.py:76-96 | the accumulated value is the nine-tap window summed r times |
| Images.Image.constructor | pset2.py:13-17 | the fields are the arguments |
| Images.Image.New | pset2.py:165-173 | a fresh image of the given size with width*height zeros |
| Images.Image.GetPixel | pset2.py:19-21 | get_pixel: `PixelGrid.PixelAt` of the image's list; `PixelGrid.GetAfterSet` states what it reads after set_pixel |
| Images.Image.SetPixel | pset2.py:23-25 | the list is the old one with slot x + width*y set to c, and get_pixel reads c back |
| Images.Image.ApplyPerPixel | pset2.py:27-35 | a fresh image of the same size whose pixel i is func of this image's pixel i; this image is not modified |
| Images.Image.AddExtraBorders | pset2.py:52-67 | extra is the radius. aux holds AddBorders of the rows. Its rows are lists of result or new copies, each object once |
| Images.Image.BorderRows | pset2.py:57-65 | the outer loop takes aux from its first values to AddBorders of them |
| Images.Image.BorderRow | pset2.py:58-65 | the inner loop at lt moves AddBorders on by one outer index |
| Images.Image.BorderPass | pset2.py:59-65 | one pass moves aux by one BorderStep: the copy at lt 0 and height - 1, then the padding of aux[lt] |
| Images.Image.KernelValue | pset2.py:76-103 | the value at (h, w) is the stored value of the model and lies in [0, 255] |
| Images.Image.WriteResult | pset2.py:106 | result[h - extra][w - extra] = value writes through the shared list of aux and nowhere else |
| Images.Image.UseKernelPixel | pset2.py:76-107 | one inner step of use_kernel is one step of the walk: value, write, append |
| Images.Image.UseKernelRow | pset2.py:75-107 | the inner loop takes the walk from (0, y) to (0, y + 1) |
| Images.Image.UseKernel | pset2.py:69-109 | use_kernel returns result itself, and aux and the pixel list end as the walk over the padded rows does |
| Images.Image.PixelRows | pset2.py:38-44 | result is height new lists holding the image rows in row-major order |
| Images.Image.FillRow | pset2.py:42-44 | the inner copy loop fills row h from the count width*h on |
| Images.Image.ApplyKernelPerPixel | pset2.py:37-50 | a fresh image of the same size and new rows, together equal to Filter of this image's pixels; this image is not modified |
| Images.Image.Blurred | pset2.py:115-117 | the returned image's pixels are Filter's pixel list |
| Images.Image.Sharpened | pset2.py:119-124 | returns this image itself. Pixel i, for each i below the blurred length, becomes 2 * old - blurred, unclipped |
| Images.Image.SharpenWith | pset2.py:122-123 | the loop leaves the sharpened list |
| Images.Image.Edges | pset2.py:126-128 | the returned rows (new lists, not an Image) hold Filter's rows, whose length and content `Correlation.FilterRowLengths` and `Correlation.FilterRows` state |
| Images.Image.Inverted | pset2.py:111-113 | a fresh image of the same size whose pixels are 256 - c |
| Images.Image.Equals | pset2.py:134-136 | `__eq__`: same height, width and pixel list; `Images.InvertTwiceEquals` states where it holds |
| Images.InvertTwiceEquals | pset2.py:134-136 | inverting twice gives an image equal to the original under `__eq__` |
| Effects.SettleBox3 | pset2.py:280-288 | the 3×3 box kernel weighs a gray level back to itself |
| Effects.BoxBlurKeepsFlat | pset2.py:115-117 | the 3×3 box blur of a uniform image (height ≥ 2) returns the same gray everywhere, in the list and in the rows |
| Effects.SharpenKeepsFlat | pset2.py:119-124 | sharpening a uniform image with the 3×3 box leaves it unchanged |
| Effects.LargeBoxDarkens | pset2.py:78-97 | a white image under the 5×5 box starts with pixel 184, not 255 |
| Effects.GradientsOfFlat | pset2.py:309-319 | both gradient kernels emit 0 first over a uniform image, and 0 everywhere over a black one |
| Effects.UnitKernelZeros | pset2.py:78-107 | the 1×1 kernel [[2]] over 10, 20, 30 emits 0, 0, 0 |
| Effects.FlatRows2 | pset2.py:38-44 | the 2×2 image of gray 100 has two rows of 100, 100 |
| Effects.FlatLayout2 | pset2.py:59-65 | its padded aux is two copies, then result[0] and result[1], each four cells of 100 |
| Effects.ExamplePositions | pset2.py:54 | in that aux, result[0] is row 2 and result[1] is row 3 |
| Effects.FlatBorders2 | pset2.py:52-67 | add_extra_borders of the 2×2 image gives that aux |
| Effects.WriteExample | pset2.py:106 | a write at (x, y) changes cell x of result[y] only |
| Effects.SobelExample | pset2.py:76-103 | the copied rows of gray 100 weigh to zero, so the horizontal gradient there depends on the two shared rows only |
| Effects.FirstGradientLeft | pset2.py:74-107 | pixel (0, 0) is 0 and is written into result[0] |
| Effects.FirstGradientRight | pset2.py:74-107 | pixel (1, 0) is 0 and is written into result[0] |
| Effects.FirstGradientRow | pset2.py:74-107 | output row 0 is 0, 0, and it leaves zeros in result[0] |
| Effects.SecondGradientLeft | pset2.py:74-107 | pixel (0, 1) reads those zeros and is 200 |
| Effects.SecondGradientRight | pset2.py:74-107 | pixel (1, 1) is 200 and ends the walk |
| Effects.SecondGradientRow | pset2.py:74-107 | output row 1 is 200, 200 |
| Effects.GradientFeedsBack | pset2.py:54-109 | the horizontal gradient of the flat 2×2 image is 0, 0, 200, 200: the write-back feeds later rows |
| FirstRow.FirstRowFrom | pset2.py:74-107 | while output row 0 is written, each value is the one read from aux before any write, because the writes land in columns the later windows no longer read |
| FirstRow.AgreeWindow | pset2.py:80-96 | the window at column x of row 0 reads row 1 only from column x on |
| FirstRow.AgreeWrite | pset2.py:106 | writing pixel (x, 0) changes only cell x of the list result[0] |
| FirstRow.LayoutCell | pset2.py:59-65 | rows 0 to 2 of the 3×3 aux hold image rows -1, 0 and 1, edge-replicated in both directions |
| FirstRow.LayoutBlock | pset2.py:59-65 | columns x to x + 2 of those rows are the 3×3 neighbourhood of (x, 0) |
| FirstRow.WindowOfBlock | pset2.py:80-96 | over that block, the nine products are the textbook correlation without a kernel flip |
| FirstRow.StoredOfBlock | pset2.py:76-103 | the stored value is that correlation, rounded half to even and clipped |
| FirstRow.StoredFirstRow | pset2.py:76-103 | before any write, the value at (x, 0) is the textbook correlation, rounded and clipped |
| FirstRow.FirstRowReads | pset2.py:80-96 | the value rule of row 0 does not see writes to earlier columns |
| FirstRow.FirstRowCorrelation | pset2.py:78-103 | for a 3×3 kernel and height ≥ 3, output row 0 is the textbook correlation with edge replication, rounded half to even and clipped to [0, 255] |

## Left out

- `load`, `save`, `gif_data`, `show`, `on_resize`, the Tk bootstrap and the interactive menu are file I/O and user interface. The menu's box kernel (`Kernels.BoxKernel`) and the two gradient kernels are kept as values.
- The edge-magnitude combination of the menu (square root of gx² + gy², then clipped) is floating point and outside the `Image` class. `edges` is modelled up to the rows it returns.
- `__repr__` is formatting only.
- Weights are exact reals, not IEEE-754 doubles, so the round-off of weights such as 1/9 is not modelled. A sum that lands on a tie in floating point but not in exact arithmetic, or the reverse, can round differently.
- Widths and heights are natural numbers. Negative sizes are not modelled.
- Images.Image.ApplyPerPixel: requires at least width*height pixels. A shorter list makes get_pixel raise an IndexError, which is not modelled as an error value. The same holds for ApplyKernelPerPixel, Blurred, Sharpened and Edges.
- Images.Image.ApplyKernelPerPixel: requires a square kernel of odd size, because an even size makes use_kernel index past the kernel. Non-square kernels are excluded because no caller passes one; the source would accept some, such as a 5×3 kernel, of which only rows 0-2 are read. It also requires a 1×1 kernel or height ≥ 2 and width ≥ 1. Otherwise `Correlation.Filter` is None: that is the IndexError, and `Correlation.FilterDefined` says exactly when it happens.
- Images.Image.Sharpened: the module-level `image` that sharpened reads is modelled as this image, which is the object its only caller passes.
- Images.Image: `pixels` is a value, so an Image that shares its pixel list with another object, as the constructor allows, is not modelled. Within the modelled operations no list is shared between two Images.
- Images.Image.GetPixel: requires the index x + width*y to lie in [-len, len) of the pixel list. Outside that range get_pixel raises an IndexError, which the precondition excludes rather than models as an error value. `PixelGrid.PixelAt` has the same precondition.
- Images.Image.SetPixel: requires the index x + width*y to lie in [-len, len) of the pixel list. Outside that range set_pixel raises an IndexError, which the precondition excludes rather than models as an error value. `PixelGrid.WithPixel` has the same precondition.
- Images.Image.GetPixel and Images.Image.Equals are plain definitions. Their meaning is stated through `Images.Image.SetPixel`, `PixelGrid.GetAfterSet` and `Images.InvertTwiceEquals`.
- For kernels larger than 3×3, and for output rows after the first, only counts, ranges, the write-back into the rows of result, uniform images and the 2×2 example are proved. `Correlation.Filter` nevertheless defines every value exactly.
