# gridmedian grid core in Dafny

This project models `grid.h` of gridmedian. The program cuts each video frame into a grid of
cells and reports the median sample of every cell. The model covers the three parts of
`grid.h`:

- `divCeil` is ceiling division of positive integers (`Grid.DivCeil`).
- `cellSplitter` does the balanced partitioning. Along each axis it makes `numCeil` cells of
  `ceil` samples, followed by cells of `floor` samples. It walks the grid row by row, keeping
  the running offsets `matrixX` and `matrixY`. It applies a caller-supplied aggregator to every
  cell and collects the results in row-major order.
  - `Grid.CellSplitter` is an imperative method with the source's two nested loops.
  - It is proved equal to the specification function `Grid.Split`.
  - The properties of that function and of the axis geometry are separate lemmas.
- `cellMedian` is the default aggregator. It collects the samples of a rectangle row by row,
  sorts them, and reads off the middle element. For an even count it reads off the mean of the
  two middle elements, truncated toward zero as C++ `/` does.
  - `Grid.CellMedian` is an imperative method with the source's loops.
  - It is proved equal to the function `Grid.CellMedianOf`.
  - It is also proved equal to the middle of every ascending arrangement of the samples, so
    the result does not depend on which sort is used.

Supporting modules:

- `Matrices` defines the read-only matrix of samples and the row-major sample sequence of a
  rectangle.
- `Sorting` is the stand-in for `std::sort`. The model relies only on its contract: the result
  is ascending and a permutation of the input. `Sorting.SortedUnique` shows that this contract
  determines the result.
- `GridTests` proves the values that `unittest_grid.cc` asserts. It includes that file's summing
  aggregator, `GridTests.CellSum`.

## Model

| member | source | states |
|---|---|---|
| Grid.DivCeil | grid.h:8-13 | for positive `x` and `y` the result `r` satisfies `(r - 1) * y < x <= r * y` |
| Grid.DivCeilLeast | grid.h:8-13 | no integer `k` below `DivCeil(x, y)` has `x <= k * y`: the result is the least such multiple count |
| Grid.SplitAxis | grid.h:53-60 | for `1 <= gridLen <= matrixLen`: `1 <= floor <= ceil <= floor + 1`, `0 <= numCeil < gridLen`, `numCeil == 0` exactly when `ceil == floor`, and `numCeil * ceil + (gridLen - numCeil) * floor == matrixLen` |
| Grid.SplitAxisWellFormed | grid.h:53-60 | when some cells are ceil-sized, `ceil` is exactly `floor + 1`, and `floor >= 1` |
| Grid.SizesBalanced | grid.h:68-74 | along an axis every cell is non-empty, sizes differ by at most one, and a later cell is never larger than an earlier one (ceil-sized cells come first) |
| Grid.AxisCell | grid.h:68-78 | cell `i` starts at a non-negative offset, is at least one sample long, ends where cell `i + 1` starts, and does not pass the end of the axis |
| Grid.AxisEnd | grid.h:78-81 | the offset after the last cell equals the axis length: after a grid row `matrixX == width`, and after the last row `matrixY == height` |
| Grid.AxisDisjoint | grid.h:64-82 | an earlier cell along an axis ends no later than a later cell starts |
| Grid.AxisCellOf | grid.h:64-82 | every position `0 <= p < matrixLen` lies inside the cell it returns, and that index is a valid cell |
| Grid.CellSize | grid.h:68-74 | no contract: cell `i` is `ceil` long when `i < numCeil`, else `floor` long; its properties are in `SizesBalanced` and `AxisCell` |
| Grid.CellOffset | grid.h:64-81 | no contract: the start of cell `i` in closed form, `i * floor + min(i, numCeil)`; `OffsetStep` and `OffsetIsSumOfSizes` tie it to the running offset |
| Grid.OffsetIsSumOfSizes | grid.h:71-78 | the closed-form offset of cell `i` equals the sum of the sizes of cells `0 .. i-1`, which is what `matrixX += currentCellWidth` accumulates |
| Grid.OffsetStep | grid.h:78 | the closed-form offset `i * floor + min(i, numCeil)` advances by exactly the size of cell `i` |
| Grid.CellRect | grid.h:64-77 | every rectangle handed to the aggregator is non-empty and lies inside the matrix |
| Grid.CellsCover | grid.h:64-82 | every sample of the matrix lies in some cell |
| Grid.CellsDisjoint | grid.h:64-82 | a sample lies in at most one cell |
| Grid.SplitRows | grid.h:65-82 | after `rows` grid rows the result holds `rows * gridWidth` values |
| Grid.Split | grid.h:44-85 | the result holds exactly `gridWidth * gridHeight` values |
| Grid.SplitAt | grid.h:65-77 | entry `gy * gridWidth + gx` is in range and is the aggregate of cell `(gx, gy)`: row-major order |
| Grid.SplitRowsAt | grid.h:65-77 | the row-major indexing of `SplitAt` holds for every prefix of grid rows |
| Grid.CellSplitter | grid.h:44-85 | the nested loops with running offsets return exactly `Split`, one aggregate per cell in row-major order |
| Grid.TruncDiv | grid.h:39 | division by a positive divisor truncates toward zero: the remainder has the sign of the dividend and is smaller than the divisor |
| Grid.MiddleOf | grid.h:33-39 | the value read off an ascending non-empty sequence lies between its two middle elements |
| Grid.Median | grid.h:31-39 | the median lies between some sample and some sample, and is itself a sample when the count is odd |
| Grid.MedianOfAnySort | grid.h:31 | the middle of any ascending permutation of the samples is the median: the result does not depend on the sort used |
| Grid.MedianOfEveryArrangement | grid.h:31-39 | the median equals the middle of every ascending arrangement of the samples |
| Grid.MiddleOfSortIsMedian | grid.h:31-39 | what the source reads off its sorted vector equals the middle of every ascending arrangement of the collected samples, not only of the one `Sort` produced |
| Grid.CellMedianOf | grid.h:17-40 | the median of a rectangle lies between its least and greatest sample, and is one of its samples when `width * height` is odd |
| Grid.CellMedianBounds | grid.h:17-40 | the bounds of `CellMedianOf`, stated in terms of the matrix positions of the rectangle |
| Grid.CellMedian | grid.h:17-40 | the loops, the sort and the middle read-off return `CellMedianOf`, which is also the middle of every ascending arrangement of the rectangle's samples |
| Grid.MedianOfOneSample | grid.h:34-36 | the median of a one-sample rectangle is that sample |
| Grid.UnitCell | grid.h:53-77 | with as many cells as samples on both axes, cell `(gx, gy)` is the single sample `(gx, gy)` |
| Grid.AxisOfUnitCells | grid.h:53-60 | splitting an axis into as many cells as samples gives `ceil == floor == 1` and `numCeil == 0` |
| Grid.PassThrough | grid.h:44-85 | with one cell per sample and an aggregator that keeps single samples, the splitter returns the matrix in row-major order |
| Grid.PassThroughRows | grid.h:64-82 | the same pass-through for every prefix of grid rows |
| Grid.MedianPassThrough | grid.h:17-85 | splitting with the median aggregator into one cell per sample returns the samples unchanged |
| Matrices.CellSamples | grid.h:25-29 | the samples collected for a rectangle number `width * height` |
| Matrices.CellSamplesAt | grid.h:25-29 | sample `(x, y)` of the rectangle sits at index `y * width + x`: row-major order |
| Matrices.CellSamplesMembers | grid.h:25-29 | a value occurs among the collected samples exactly when some position of the rectangle holds it |
| Sorting.Insert | grid.h:31 | inserting into an ascending sequence keeps it ascending and adds exactly one occurrence of the value |
| Sorting.Sort | grid.h:31 | the result is ascending, a permutation of the input, and of the same length |
| Sorting.SortedUnique | grid.h:31 | two ascending sequences with the same elements are equal, so every sort meeting the contract gives the same result |
| GridTests.DivCeilExamples | unittest_grid.cc:133-134 | `DivCeil(7, 5) == 2` and `DivCeil(8, 3) == 3` |
| GridTests.MedianOddExample | unittest_grid.cc:43 | the median of the whole 3 by 3 test matrix is 5 |
| GridTests.MedianEvenExample | unittest_grid.cc:44 | the median of the 2 by 2 block at (1, 1), samples 9 5 1 6, is the truncated mean 5 |
| GridTests.MedianSingleExample | unittest_grid.cc:45 | the median of the single sample at (0, 0) is 8 |
| GridTests.MedianPairExample | unittest_grid.cc:46 | the median of the pair 9 9 is 9 |
| GridTests.MiddleTruncatesTowardZero | grid.h:39 | the even-count mean truncates toward zero: -3 and -2 give -2, while 2 and 3 give 2 |
| GridTests.CellSum | unittest_grid.cc:50-59 | no contract: the sum of the rectangle's row-major samples |
| GridTests.SumKeepsSingleSamples | unittest_grid.cc:50-59 | the summing aggregator accepts every in-bounds rectangle and returns a single sample unchanged |
| GridTests.SplitSquare4Into2By2 | unittest_grid.cc:71-76 | the 4 by 4 test matrix split 2 by 2 with sums gives `[10, 18, 22, 10]` |
| GridTests.SplitSquare4Into3By2 | unittest_grid.cc:78-85 | the 4 by 4 test matrix split 3 by 2 with sums gives `[10, 8, 10, 22, 4, 6]` |
| GridTests.SplitSquare3Into2By2 | unittest_grid.cc:93-98 | the 3 by 3 test matrix split 2 by 2 gives `[8, 7, 13, 8]`: the larger cells come first |
| GridTests.SplitSingleSample | unittest_grid.cc:100-103 | the 1 by 1 matrix `{1}` split 1 by 1 with sums gives `[1]` |
| GridTests.SplitSquare2Medians | unittest_grid.cc:109-114 | the 2 by 2 matrix split 2 by 2 with medians gives its samples `[1, 2, 3, 4]` |
| GridTests.SplitWideMedians | unittest_grid.cc:124-128 | the 10 by 6 matrix split 3 by 2 with medians gives six entries, with entry 0 equal to 3, entry 1 equal to 4 and entry 5 equal to 4 |

## Left out

- C++ `int` overflow is not modelled; integers are unbounded. This affects `values[..] + values[..]` in the even-count median and the running sums of the test aggregator.
- `std::sort` is represented by an insertion sort (`Sorting.Sort`). Only its contract matters, and `Sorting.SortedUnique` shows that the contract fixes the result. The sort's in-place update of the vector is not modelled; `Grid.CellMedian` reassigns a sequence instead.
- Grid.CellMedian: requires `x0 >= 0`, `y0 >= 0`, `width > 0` and `height > 0` as well as the two upper bounds the source asserts. A negative origin would read outside the matrix in the source. An empty rectangle fails the source's non-empty assertion after the loops.
- Grid.CellSplitter: the source asserts only `matrix width >= gridWidth` and `matrix height >= gridHeight`. The model also requires a grid of at least one cell (`gridWidth >= 1`, `gridHeight >= 1`), because `divCeil` asserts a positive divisor. The command-line caller does not guarantee this: `parseDimensions` (gridmedian.cc:19-38) accepts a zero or negative grid size, and `main` checks only the upper bounds (gridmedian.cc:81) before calling `cellSplitter` (gridmedian.cc:88). Such an input fails the assert of grid.h:11, and the model does not describe that run.
- The aggregator is a pure function value, so calls to it cannot have side effects. The C++ template accepts any callable.
- The matrix type is a value with a sample accessor. The pixel accessor of the video frame class (`video.h`, `video.cc`) is not part of this model.
- `video.cc` and `video.h` (libav decoding, frame buffers, PGM dumping) are foreign calls and I/O, and are not part of this model.
- `gridmedian.cc` (`main`, the CSV output with floating-point timestamps, and `parseDimensions` over `stringstream`) is command-line plumbing and I/O, and is not part of this model.
- GridTests.CellSum: the test file's summing aggregator is modelled as the sum of the row-major samples of the rectangle, not as its nested loop.
- GridTests.SplitWideMedians: states only the entries the test asserts (0, 1 and 5), as the test does.
