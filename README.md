# Image handler pixel engine, modelled in Dafny

This project models the `ImageHandler` class of `M1/main.py`. The class holds two decoded
images (`image_1`, `image_2`, numpy `uint8` grids of shape height x width x 3 in BGR order) and a
result grid that starts as a copy of `image_1`. Every operation runs one nested driver,
`iterate`. It visits each `(x, y, z)` with `x < height`, `y < width` and `z < 3`, calls a per-cell
closure, and swallows any exception so that only that one cell is skipped.

The operations are:

- integer arithmetic of the two images (`+` as the mean, `-`, `*`, `/`);
- colour isolation;
- grayscale reduction;
- grayscale mean and weighted mean;
- thresholding;
- convolution with a square mask.

Layout:

- `wrappers.dfy`: module `Wrappers`. `Option` stands for "the closure returned" (`Some`) or
  "the closure raised" (`None`).
- `pixels.dfy`: module `Pixels`. It holds the `Image` datatype (`Colour` for a three-dimensional
  grid, `Gray` for the two-dimensional grid that grayscale reduction leaves) and numpy's indexing
  of each kind. It also holds the uint8 store, the truncating division, the luminance formula and
  the grayscale buffer.
- `convolution.dfy`: module `Convolution`. It holds the convolution closure as a pure function,
  its window, and the lemmas about which cells it writes and what a box mask computes.
- `cells.dfy`: module `Cells`. Each closure is a pure per-cell computation (`Calculation`, `Step`).
  A skipped cell keeps its value (`Visit`). `PixelAfter` is what the three channel visits leave in
  a pixel. The module also holds the per-operation lemmas.
- `visits.dfy`: module `Traversal`. It gives the order of the driver's visits and proves that this
  order enumerates the grid.
- `handler.dfy`: module `Handler`. It holds class `ImageHandler` with `image1` and `image2`, which
  the methods reassign, and `result`, an `array3<int>` that the methods update in place. It also
  holds the driver (split into its pixel, row and grid loops), the convolution accumulator
  loops, grayscale reduction and the seven public operations.

Modelling decisions:

- **Which closures the driver runs.** `Iterate` is the driver for every closure that writes the
  result. The grayscale closure writes two local buffers instead. So `ApplyGrayScale` walks the same
  `(x, y, z)` index space with its own copy of the loop.
- **Indexing by grid kind.** Indexing follows numpy for each kind of grid. `img[x][y][z]` raises on
  a two-dimensional grid, and `int(img[x][y])` raises on a colour grid. One consequence is that a
  second grayscale reduction, for example `thresholding` after `arithmetic_average`, raises at every
  cell. It therefore replaces both images with zeros (`Cells.SecondReductionBlanks`).
- **Storing values.** A value written into a uint8 cell goes through `Store`. Python's `/` followed
  by that store truncates toward zero (`TruncDiv`). The grayscale weights 0.07, 0.72 and 0.21 are
  the exact rationals 7/100, 72/100 and 21/100, clipped to [0, 255] and floored.
- **Shapes.** The two images have the same shape. This is part of `ImageHandler.Valid()`; the
  source never checks it.

The source keeps these behaviours, and so does the model:

- the result starts as a copy of `image_1`, not as zeros (M1/main.py:12);
- writes into the result are not clamped, so out-of-range values wrap;
- even-sized and empty masks are not rejected. An empty mask makes every cell raise, and an even
  mask gives a lopsided window (`Convolution.Interior`);
- the two images' shapes are never compared.

## Model

| member | source | states |
|---|---|---|
| `Handler.ImageHandler.constructor` | M1/main.py:9-12 | both images are the decoded colour grids and the result is a cell-for-cell copy of the first |
| `Handler.ImageHandler.Iterate` | M1/main.py:14-28 | the visits are exactly `GridVisits(h, w)` (row-major, channel fastest). Every result pixel ends as its three channel visits leave it; a visit whose closure raises leaves the pixel unchanged. The images are untouched and the result stays a uint8 grid |
| `Handler.ImageHandler.VisitRow` | M1/main.py:22-28 | the column loop of row `x` visits the row's pixels left to right (`RowVisits(x, w)`), leaves each as `PixelAfter` says and changes no other row |
| `Handler.ImageHandler.VisitPixel` | M1/main.py:24-28 | the channel loop visits `(x, y, 0)`, `(x, y, 1)`, `(x, y, 2)` in order, changes only pixel `(x, y)` and leaves it as `PixelAfter` says |
| `Cells.Visit` | M1/main.py:25-28 | a call that raises leaves the pixel exactly as it was; otherwise the pixel becomes what the closure left. A pixel of bytes stays a pixel of bytes |
| `Cells.Visits` | M1/main.py:24-28 | the pixel after the first `n` channel visits, channels `0 .. n-1` in order, each skipped if it raises; the pixel keeps three channels, and a pixel of bytes stays one |
| `Cells.PixelAfter` | M1/main.py:24-28 | what the three channel visits of `iterate` leave in pixel `(x, y)`; three channels, bytes preserved |
| `Cells.Step` | M1/main.py:52-125 | one closure call on a pixel. A channelwise closure (`+ - * /`, convolution) raises exactly when its channel value raises and changes no other channel. A whole-pixel closure (average, weighted average, threshold) writes one value to all three channels. Bytes in give bytes out |
| `Handler.ImageHandler.Calculate` | M1/main.py:25-28 | one call of the closure: pixel `(x, y)` takes the closure's value or, if it raises, keeps its old value; every other cell is unchanged |
| `Traversal.GridVisitsEnumerate` | M1/main.py:20-24 | the driver's visit sequence is strictly increasing in row-major order, has no repeats, and contains exactly the `(x, y, z)` with `x < h`, `y < w`, `z < 3` |
| `Traversal.GridVisitsCount` | M1/main.py:20-24 | there are `h * w * 3` visits, one per cell |
| `Pixels.Store` | M1/main.py:53-62 | a value written into a uint8 cell is a byte, congruent to the value modulo 256, and equal to it when it already is a byte |
| `Pixels.TruncDiv` | M1/main.py:53-62 | Python's true division stored into an integer cell truncates toward zero: the magnitude is the floor quotient of the magnitudes, a non-zero result is negative exactly when the operands' signs differ, and for a non-negative numerator and positive divisor it is floor division |
| `Pixels.Luma` | M1/main.py:35-38 | the clipped, truncated luminance is always a byte |
| `Pixels.LumaIsWeightedAverage` | M1/main.py:35-38 | for 8-bit channels the clip never triggers, the luminance lies between the darkest and brightest channel, and a neutral pixel keeps its level |
| `Pixels.GrayPlane` | M1/main.py:34-44 | the buffer grayscale reduction produces has the image's height and width and holds bytes only |
| `Pixels.GrayCell` | M1/main.py:35-38 | the grayscale reading raises on a two-dimensional grid, and otherwise gives a byte |
| `Pixels.GrayPlaneAt` | M1/main.py:34-44 | at a cell inside the image, the grayscale reading gives exactly the buffer's value; on a two-dimensional grid it raises and the buffer holds 0 there |
| `Handler.ImageHandler.ApplyGrayScale` | M1/main.py:30-44 | `image1` becomes the luminance plane of the old first image (zeros if it was already grayscale). `image2` becomes the luminance plane of the old second image if the first was colour, zeros otherwise. The result is untouched |
| `Handler.ReducePixel` | M1/main.py:34-38 | the three grayscale calls at `(x, y)`: the first buffer takes the first image's luminance when that reading succeeds. The second buffer takes the second image's luminance only when both readings succeed, because a failed first reading raises before the second. No other cell of either buffer changes |
| `Cells.SecondReductionBlanks` | M1/main.py:30-44 | reducing a grid that is already grayscale gives zeros, after which thresholding at a level >= 0 and averaging write black |
| `Handler.ImageHandler.Arithmetic` | M1/main.py:47-71 | `+ - * /` run their closure over every cell; any other operation string leaves every result cell unchanged |
| `Cells.ArithmeticOf` | M1/main.py:64-71 | `+`, `-`, `*` and `/` each select their own closure, and every other string selects none |
| `Pixels.Sample3` | M1/main.py:53 | `int(img[x][y][z])` raises on a two-dimensional grid and outside the grid; otherwise it reads that sample |
| `Pixels.Sample2` | M1/main.py:102 | `int(img[x][y])` raises on a colour grid, whose pixel is a row of three samples, and outside the grid; otherwise it reads that grey level |
| `Pixels.SamplesByKind` | M1/main.py:52-62 | on an image of the handler's shape, the three-index reading succeeds exactly on a colour grid, the two-index reading and the grayscale reading exactly on their own kinds, and every successful reading is a byte |
| `Cells.SumCell` | M1/main.py:52-53 | the `+` closure raises exactly when either reading raises; it stores a byte, namely `(a + b) / 2` for byte samples |
| `Cells.SubtractionCell` | M1/main.py:55-56 | the `-` closure raises exactly when either reading raises; it stores the byte congruent to `a - b` modulo 256 |
| `Cells.MultiplicationCell` | M1/main.py:58-59 | the `*` closure raises exactly when either reading raises; it stores the byte congruent to `a * b` modulo 256 |
| `Cells.DivisionCell` | M1/main.py:61-62 | the `/` closure raises exactly when either reading raises or the divisor is 0, and otherwise stores a byte |
| `Cells.ChannelsIndependent` | M1/main.py:52-62 | under a channelwise closure, each channel receives its own value, or keeps its old value when its computation raises, independently of the other channels |
| `Cells.SumIsMeanAndSymmetric` | M1/main.py:52-53 | `+` writes `(a + b) / 2` per channel and is symmetric in the two images |
| `Cells.SubtractionOfSelfIsZero` | M1/main.py:55-56 | `-` of an image with itself writes 0 in every channel |
| `Cells.SubtractionStoresDifference` | M1/main.py:55-56 | `-` writes the difference modulo 256 in every channel, so a negative difference wraps |
| `Cells.MultiplicationStoresProduct` | M1/main.py:58-59 | `*` writes the product modulo 256 in every channel |
| `Cells.DivisionSkipsZeroDivisors` | M1/main.py:61-62 | `/` keeps the previous value exactly in the channels whose divisor is 0 and writes `a / b` in the others |
| `Cells.ConstantPixelsScenario` | M1/main.py:52-62 | with levels 100 and 50, `+ - * /` write 75, 50, 136 (5000 wrapped) and 2 |
| `Handler.ImageHandler.Isolate` | M1/main.py:73-95 | `red`, `green`, `blue` run their closure over every cell; any other colour leaves every result cell unchanged |
| `Cells.IsolateOf` | M1/main.py:90-95 | `red`, `green` and `blue` each select their own closure, and every other string selects none |
| `Cells.IsolationKeepsOneChannel` | M1/main.py:78-88 | red keeps channel 2, green channel 1 and blue channel 0, and the other two channels become 0 |
| `Cells.IsolationIdempotent` | M1/main.py:78-95 | applying the same isolation twice gives what applying it once gives |
| `Cells.WholePixelWritesGrey` | M1/main.py:101-125 | the average, weighted average and threshold closures assign one value to all three channels, or leave the pixel unchanged when they raise |
| `Cells.WholePixelSkipsColour` | M1/main.py:101-125 | those closures raise on a colour grid, so run before reduction they change nothing |
| `Cells.WeightedCell` | M1/main.py:101-117 | the average and weighted-average closures raise exactly when either two-index reading raises, and otherwise store a byte |
| `Cells.ThresholdCell` | M1/main.py:124-125 | the threshold closure raises exactly when the reading of `image_1` raises; otherwise it stores 255 when the grey level is strictly above the level and 0 otherwise |
| `Cells.WeightedAverageOnGray` | M1/main.py:101-117 | on grayscale grids with non-negative weights, every channel receives `(g1 * w1 + g2 * w2) / 2` modulo 256. The plain average is the byte `(g1 + g2) / 2` |
| `Cells.WeightedAverageTruncates` | M1/main.py:113-114 | with weights of any sign, every channel receives the weighted sum halved toward zero and then wrapped modulo 256 |
| `Handler.ImageHandler.ArithmeticAverage` | M1/main.py:97-105 | grayscale reduction as in `ApplyGrayScale`, then every result pixel as the average closure leaves it |
| `Cells.AverageOfReducedColour` | M1/main.py:97-105 | starting from colour images, every channel of the pixel receives the mean of the two luminances |
| `Handler.ImageHandler.ArithmeticWeightedAverage` | M1/main.py:107-117 | grayscale reduction, then every result pixel as the weighted closure (default weights 7 and 3) leaves it |
| `Handler.ImageHandler.Thresholding` | M1/main.py:119-128 | grayscale reduction, then every result pixel as the threshold closure (default level 127) leaves it |
| `Cells.ThresholdIsBinary` | M1/main.py:124-125 | all three channels become 255 when the first grey sample is strictly above the level, 0 otherwise |
| `Cells.ThresholdOfReducedColour` | M1/main.py:119-128 | starting from a colour image, the pixel turns white exactly when its luminance is strictly above the level |
| `Handler.ImageHandler.Convolution` | M1/main.py:130-149 | every result pixel ends as the convolution closure leaves it, and neither image changes |
| `Handler.ImageHandler.ConvolveCell` | M1/main.py:135-147 | the column-by-column accumulation loop returns exactly `ConvCell`: `None` when a sampled position leaves the image, the grid has no channel index, a mask line is short or the mask is empty, and otherwise the sum divided by the mask's area |
| `Handler.ImageHandler.AccumulateColumn` | M1/main.py:142-146 | the line loop for one mask column succeeds exactly when every sampled column is inside the image, the grid is a colour grid and every mask line has an entry for that column, and then returns that column's tap sum (`LineSum`) |
| `Convolution.ConvCell` | M1/main.py:135-147 | the convolution closure writes exactly when the mask is non-empty, every sampled position is inside the image, the grid is a colour grid and every mask line has an entry for every column; what it writes is a byte |
| `Convolution.WindowInsideIffInterior` | M1/main.py:138-145 | for a non-empty mask, every sampled position is inside the image if and only if the cell is at least `k/2` rows from the top, `k-1-k/2` from the bottom, `k-1-k/2` columns from the left and `k/2` from the right |
| `Convolution.ConvolutionWritesIff` | M1/main.py:135-147 | a cell is written if and only if the mask is non-empty with lines long enough, the image is a colour grid and the cell is interior |
| `Cells.ConvolutionPerChannel` | M1/main.py:135-149 | each channel of an interior pixel receives the normalised window sum; otherwise the channel keeps its previous value |
| `Convolution.BoxMaskKeepsUniformLevel` | M1/main.py:135-147 | a k x k mask of ones writes the byte `v` at every interior cell whose window (the k x k positions the mask samples around it) holds `v` in that channel; the rest of the image does not matter |

## Left out

- `cv2.imread` in `__init__`: the constructor takes the decoded grids. `show_image`, `run_all` and
  the `__main__` block are file decoding, display and script glue.
- Pixels.Store: it wraps out-of-range values modulo 256. That is what numpy 1.x does with
  out-of-range Python integers, and what the float-to-uint8 cast gives on common platforms.
  numpy 2 raises `OverflowError` for an out-of-range Python integer from `-` or `*`; the driver
  would then skip that cell instead. The model does not capture that behaviour.
- Pixels.TruncDiv and Pixels.Luma: both use exact rational arithmetic. Binary floating-point
  rounding of the quotients and of the weights 0.07, 0.72 and 0.21 is not modelled.
- Convolution.ConvCell: the accumulator is an exact integer. In the source, `temp` becomes a
  numpy uint8 scalar after the first product and can wrap; that is not modelled.
- The bare `except:` swallows any exception. The model makes these failure causes explicit:
  - indexing a grid of the wrong kind;
  - a zero divisor;
  - a sampled position outside the image;
  - a short mask line;
  - an empty mask.

  Weights, levels and mask entries are integers in the model, so no fault from a non-numeric
  operand arises in it.
- Handler.ImageHandler.ArithmeticWeightedAverage: the weights are `int`. The source accepts any
  Python number, for example `arithmetic_weighted_average(0.7, 0.3)`; float weights are not modelled.
- Handler.ImageHandler.Thresholding: the level is an `int`. The source accepts any Python number,
  for example `thresholding(127.5)`; a float level is not modelled.
- Handler.ImageHandler.Convolution: the mask is a `seq<seq<int>>`. The source accepts a mask with
  fractional entries; float masks and the float sums they bring are not modelled.
- Images of different shapes: the source never checks them. The model requires equal shapes in
  `ImageHandler.Valid()`.
