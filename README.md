# Hough line finder, modelled in Dafny

This project models the core of a small line finder for 2-D data that uses a Hough
transform. It has five parts:

- **Point detector** (`PointsFinder`, pointsfinder.dfy). It marks the cells that equal the
  maximum of their 5×5 window and whose window spread (max − min) exceeds a threshold. It
  groups the marked cells into 4-connected components. Each component is reported as the
  midpoint `(start + stop − 1) / 2` of its bounding box. Labelling and bounding boxes
  (`ndimage.label`, `ndimage.find_objects`) are in `Labelling` (labelling.dfy).
- **Hough accumulator** (`LinesFinder`, linesfinder.dfy). Each detected point gets an r value at
  every θ sample. The r values are binned against `linspace(min r, max r, bins[0])`. The votes
  are tallied into a `bins[0] × bins[1]` array. The peaks of that array, found by the same
  detector, become lines `(r, θ)`.
- **Line geometry** (`Geometry`, geometry.dfy): the three formulas `x`, `y` and `r` of
  src/functions.py.
- **Pixel binning of the data generator** (`DataGenerator`, datagenerator.dfy). Coordinates
  are digitised against `linspace(0, 1, bins)`, and the upper bound of the r range is clamped.
- **Command-line validators** (`FindLines`, findlines.dfy): the parsing of the `bins` option,
  the split structure of `thresholds`, and the generated output directory name.

Shared pieces:

- `Binning` (binning.dfy) holds numpy's `linspace` and `digitize` over exact reals.
- `Errors` (errors.dfy) holds the Python exceptions the model raises as values.

Cosine and sine are not computed. The model takes them as inputs: the per-θ sequences `cs`
and `ss`, or the reals `c` and `s` of one angle. π is an abstract positive real `pi`.

Notes on the code as modelled:

- The detector window is the fixed 5×5 max/min filter of pointsfinder.py:38-42.
- Centres are `(start + stop − 1) / 2`, the midpoint of the first and last index of each
  slice (pointsfinder.py:49-51).
- The bounding-box rows (axis 0) give `xs` and the columns (axis 1) give `ys`.

## Model

| member | source | states |
|---|---|---|
| PointsFinder.CheckShape | src/linefinder/pointsfinder.py:26-27 | data of any rank other than 2 is rejected with ValueError "'points' must be a 2D array"; 2-D data passes with its two dimensions |
| PointsFinder.WindowMax | src/linefinder/pointsfinder.py:38-39 | the value bounds every cell of the 5×5 window clipped to the grid and is attained in it, which is maximum_filter of size 5 |
| PointsFinder.WindowMin | src/linefinder/pointsfinder.py:38-41 | the value is below every cell of the clipped 5×5 window and attained in it (minimum_filter) |
| PointsFinder.Marked | src/linefinder/pointsfinder.py:39-43 | a cell is marked when it equals its window maximum and window max − min > threshold (a predicate; DetectMaxima's mask is exactly the marked cells) |
| PointsFinder.DetectMaxima | src/linefinder/pointsfinder.py:38-43 | the fresh mask has the data's shape; a cell is set exactly when it equals its window maximum and window max − min > threshold |
| PointsFinder.MarkedDominatesWindow | src/linefinder/pointsfinder.py:39-40 | a marked cell is ≥ every value in its window |
| PointsFinder.ThresholdMonotone | src/linefinder/pointsfinder.py:41-43 | a cell marked at a higher threshold is marked at every lower one, so raising the threshold never adds cells |
| PointsFinder.ConstantGridUnmarked | src/linefinder/pointsfinder.py:41-43 | for threshold ≥ 0 no cell of a constant grid is marked |
| PointsFinder.NoMarkedNoPoints | src/linefinder/pointsfinder.py:44-53 | a grid with no marked cell yields no labels and so no centres |
| PointsFinder.ConstantNoPoints | src/linefinder/pointsfinder.py:37-53 | a constant grid with threshold ≥ 0 yields no points; with Find's "no points, no accumulator and no lines" this gives no lines |
| PointsFinder.Centre | src/linefinder/pointsfinder.py:49-51 | (start + stop − 1) / 2 of a half-open slice (a definition; CentreInside states its bounds) |
| PointsFinder.CentreInside | src/linefinder/pointsfinder.py:49-51 | the centre of a half-open slice lies between its first and last index, inside [0, n−1], and is a whole or half integer |
| PointsFinder.Centres | src/linefinder/pointsfinder.py:47-53 | one x and one y per bounding box, in box order, each the centre of that box's row or column slice |
| PointsFinder.IsolatedCellCentre | src/linefinder/pointsfinder.py:45-52 | a marked cell with no marked 4-neighbour is a component whose box is exactly that cell, so its centre is the cell itself |
| PointsFinder.LabelBoxes | src/linefinder/pointsfinder.py:45-46 | the labels form a labelling of the mask, every label from 1 to count has a box, and every box lies inside the grid |
| PointsFinder.Detects | src/linefinder/pointsfinder.py:37-53 | a predicate tying one detection to a grid and threshold: mask, labelling, bounding boxes and centres as the stages of _find_points compute them |
| PointsFinder.FindPoints | src/linefinder/pointsfinder.py:37-53 | returns the centres of the detection it makes, which satisfies Detects: the mask is exactly the marked cells; its labelling has count components; there are count centres in label order, each the centre of that label's bounding box; the returned centres pair up and lie inside [0, W−1]×[0, H−1] |
| Labelling.Label | src/linefinder/pointsfinder.py:45 | ndimage.label with the cross structure: label 0 exactly on unmarked cells, labels 1..count elsewhere, 4-neighbouring marked cells share a label, every cell of label k is connected to the seed of component k, and the components are numbered in raster order of their first cell |
| Labelling.SameLabelIffLinked | src/linefinder/pointsfinder.py:45 | two marked cells carry the same label if and only if a 4-connected path of marked cells joins them |
| Labelling.LabelledMarked | src/linefinder/pointsfinder.py:44 | a labelling with at least one label has a marked cell |
| Labelling.FindObjects | src/linefinder/pointsfinder.py:46 | find_objects: one entry per label 1..maxLabel; None exactly for a label that does not occur, otherwise the smallest half-open box holding every cell of that label |
| Labelling.EveryComponentBoxed | src/linefinder/pointsfinder.py:46-48 | for a labelling, every label has a box, so the centre loop never meets None |
| Labelling.BoxInGrid | src/linefinder/pointsfinder.py:46 | every box is a non-empty slice pair inside the grid |
| LinesFinder.Thetas | src/linefinder/linesfinder.py:36-38 | bins[1] angles from 0 to π, both included, strictly increasing when π > 0 |
| LinesFinder.ThetaIndices | src/linefinder/linesfinder.py:63 | digitize(thetas, thetas) − 1, one index per angle |
| LinesFinder.ThetaIndexIsPosition | src/linefinder/linesfinder.py:63 | digitize(thetas, thetas) − 1 gives the k-th θ sample the index k |
| LinesFinder.RMatrix | src/linefinder/linesfinder.py:57-59 | one row per point and one r value per θ sample |
| LinesFinder.MatMin | src/linefinder/linesfinder.py:60 | the minimum of all r values: below every entry and attained |
| LinesFinder.MatMax | src/linefinder/linesfinder.py:60 | the maximum of all r values: above every entry and attained |
| LinesFinder.RBins | src/linefinder/linesfinder.py:60-61 | bins[0] sorted edges, the first the minimum r and the last the maximum r |
| LinesFinder.BinIndex | src/linefinder/linesfinder.py:62 | digitize(r, r_bins) − 1 for one r value, between −1 and the number of edges − 1 |
| LinesFinder.BinnedRs | src/linefinder/linesfinder.py:62 | the binned r matrix, of the same shape as the r matrix |
| LinesFinder.BinIndexBracket | src/linefinder/linesfinder.py:60-62 | every r gets a bin i in [0, bins[0]−1] with r_bins[i] ≤ r, and r < r_bins[i+1] unless i is the last bin |
| LinesFinder.BinnedInRange | src/linefinder/linesfinder.py:62 | every binned r lies in [0, bins[0]−1] |
| LinesFinder.MaxInLastBin | src/linefinder/linesfinder.py:60-62 | the maximum r falls into bin bins[0]−1 |
| LinesFinder.MinInFirstBin | src/linefinder/linesfinder.py:60-62 | the minimum r falls into bin 0, except when all r are equal and there are several bins, where it falls into the last bin |
| LinesFinder.NoVotesIffMissed | src/linefinder/linesfinder.py:64-73 | a cell has no votes exactly when no point's binned r at that θ is that bin |
| LinesFinder.ColumnSum | src/linefinder/linesfinder.py:65-73 | the votes of one θ column over all bins add up to the number of points |
| LinesFinder.TotalSum | src/linefinder/linesfinder.py:65-73 | all votes add up to N · bins[1] |
| LinesFinder.Conservation | src/linefinder/linesfinder.py:65-73 | every column sums to N and the total is N · bins[1] |
| LinesFinder.AddVotes | src/linefinder/linesfinder.py:72-73 | adding one point's row of binned r values adds one vote to exactly one cell per θ column and changes nothing else |
| LinesFinder.Tally | src/linefinder/linesfinder.py:64-73 | starting from zeros, the array ends with cell (i, k) equal to the number of points whose binned r at θ_k is i |
| LinesFinder.Accumulates | src/linefinder/linesfinder.py:56-74 | a predicate saying that an array is the accumulator of the points: bins[0] × bins[1], each cell the number of votes it gets |
| LinesFinder.CreateAccumulator | src/linefinder/linesfinder.py:56-74 | a fresh bins[0] × bins[1] array whose cell (i, k) counts the points voting for it (Accumulates), the r edges and binned values as above, with every column summing to N and the total N · bins[1] |
| LinesFinder.Trunc | src/linefinder/linesfinder.py:88 | int() truncates toward zero |
| LinesFinder.DetectedPoints | src/linefinder/pointsfinder.py:37-53 | the points are the (x, y) rows of the centres of a detection satisfying Detects for the grid and threshold, every one inside [0, W−1]×[0, H−1] |
| LinesFinder.VoteLines | src/linefinder/linesfinder.py:82-90 | after the empty guard: the accumulator of the points, the r edges, the peaks as the centres of a detection in the accumulator, and one Line(r_bins[int(row)], thetas[int(col)]) per peak in order |
| LinesFinder.Zip | src/linefinder/pointsfinder.py:53 | the centres xs and ys as (x, y) rows, one per index |
| LinesFinder.PeaksToLines | src/linefinder/linesfinder.py:87-90 | one Line per peak, in peak order, with r = r_bins[int(row)] and θ = thetas[int(col)] |
| LinesFinder.Find | src/linefinder/linesfinder.py:76-90 | the points are the centres detected in the data and lie in the grid; with no points there is no accumulator and there are no lines; otherwise the accumulator holds the votes of the points, the peaks are the centres detected in the accumulator, and each peak gives Line(r_bins[int(row)], thetas[int(col)]) with both indices in range |
| Geometry.R | src/functions.py:19 | r(θ, x, y) = x cos θ + y sin θ, with cos θ and sin θ given (a definition; ROfOrigin to OnLineIffY state its properties) |
| Geometry.X | src/functions.py:7 | for cos θ ≠ 0 the x it returns lies on the line: r(θ, x, y) equals the given r |
| Geometry.Y | src/functions.py:13 | for sin θ ≠ 0 the y it returns lies on the line |
| Geometry.ROfOrigin | src/functions.py:19 | r(θ, 0, 0) = 0 |
| Geometry.RAdditive | src/functions.py:19 | r is additive in (x, y) |
| Geometry.RHomogeneous | src/functions.py:19 | r scales with (x, y) |
| Geometry.XRoundTrip | src/functions.py:7-19 | for cos θ ≠ 0, x(y, r(θ, x, y), θ) = x |
| Geometry.YRoundTrip | src/functions.py:13-19 | for sin θ ≠ 0, y(x, r(θ, x, y), θ) = y |
| Geometry.OnLineIffX | src/functions.py:7-19 | for cos θ ≠ 0 a point lies on (r, θ) if and only if its x is x(y, r, θ) |
| Geometry.OnLineIffY | src/functions.py:13-19 | for sin θ ≠ 0 a point lies on (r, θ) if and only if its y is y(x, r, θ) |
| Binning.Linspace | src/datagenerator/datagenerator.py:17-22 | n evenly spaced values from lo to hi, both ends included, sorted and strictly sorted when lo < hi |
| Binning.Digitize | src/linefinder/linesfinder.py:62-63 | np.digitize with increasing edges: the number of edges ≤ v, never more than the number of edges |
| Binning.DigitizeBracket | src/linefinder/linesfinder.py:62 | for sorted edges the index m has every edge below it ≤ v and every edge from it on > v |
| Binning.DigitizeUnique | src/linefinder/linesfinder.py:62 | the index is the only one with that bracketing property |
| Binning.DigitizeMonotone | src/datagenerator/datagenerator.py:113-114 | digitize is nondecreasing in the value |
| Binning.DigitizeEdge | src/linefinder/linesfinder.py:63 | for strictly increasing edges the k-th edge gets the index k + 1 |
| Binning.DigitizeOutside | src/datagenerator/datagenerator.py:113-114 | values below the first edge get 0; values at or above the last edge get the number of edges |
| Binning.DigitizeLinspace | src/datagenerator/datagenerator.py:113-114 | inside [lo, hi) the index against linspace is ⌊(v − lo)/step⌋ + 1 |
| DataGenerator.PixelEdges | src/datagenerator/datagenerator.py:17-22 | bins sorted edges linspace(0, 1, bins) |
| DataGenerator.PixelIndex | src/datagenerator/datagenerator.py:113-114 | digitize of one coordinate against those edges, at most bins |
| DataGenerator.CoordinatesToPixel | src/datagenerator/datagenerator.py:112-115 | one pixel per point, the first from x only and the second from y only |
| DataGenerator.PixelIndexCounts | src/datagenerator/datagenerator.py:113-114 | the pixel index is the number of edges of linspace(0, 1, bins) that are ≤ the coordinate |
| DataGenerator.PixelIndexMonotone | src/datagenerator/datagenerator.py:113-114 | the pixel index is nondecreasing in the coordinate |
| DataGenerator.PixelIndexInside | src/datagenerator/datagenerator.py:113-114 | a coordinate in [0, 1) gets ⌊v·(bins−1)⌋ + 1, inside [1, bins−1]; 0 gets 1 |
| DataGenerator.PixelIndexOutside | src/datagenerator/datagenerator.py:113-114 | a coordinate ≥ 1 gets bins and one < 0 gets 0, with no clamping |
| DataGenerator.CornerRs | src/datagenerator/datagenerator.py:45-49 | r at the four unit-square corners, the first being the origin with r = 0 |
| DataGenerator.RRange | src/datagenerator/datagenerator.py:45-53 | the clamped lower bound is exactly 0; the upper bound lies in [0, 1], and is the largest corner r when none exceeds 1 and 1 otherwise |
| FindLines.Split | find_lines.py:63-65 | str.split with one separator: at least one field, none containing the separator |
| FindLines.SplitCount | find_lines.py:63-65 | k separators give k + 1 fields |
| FindLines.JoinSplit | find_lines.py:63-65 | joining the fields with the separator gives back the string |
| FindLines.SplitJoin | find_lines.py:63-65 | splitting a join of separator-free fields gives back the fields |
| FindLines.ParseInt | find_lines.py:64-66 | int() accepts exactly an optional sign followed by decimal digits, and raises ValueError "invalid literal for int() with base 10" otherwise |
| FindLines.ParseShow | find_lines.py:64 | int(str(n)) = n |
| FindLines.ParseAll | find_lines.py:64 | the tuple of int() of every field in order, or the error of the first field int() rejects |
| FindLines.HandleBins | find_lines.py:61-68 | text with an x gives int() of every x-separated field; a mapping gives (bins["r"], bins["theta"]), or KeyError for "r" first and then "theta" when a key is missing |
| FindLines.HandleBinsPair | find_lines.py:63-65 | "AxB" parses to (A, B) |
| FindLines.HandleBinsFields | find_lines.py:63-65 | a string with k letters x that parses gives k + 1 integers, and its fields are the pieces between the x's |
| FindLines.HandleBinsWithoutX | find_lines.py:63-66 | a string without x always raises: TypeError when int() accepts it, else int()'s ValueError |
| FindLines.DefaultBinsRaise | find_lines.py:66 | the default "500" raises TypeError |
| FindLines.HandleThresholds | find_lines.py:70-74 | text gives one field per comma-separated piece, which join back to the text; a mapping gives (xy, rtheta), or KeyError for "xy" first and then "rtheta" when a key is missing |
| FindLines.ReplaceChar | find_lines.py:88-92 | str.replace for one character: the same length, with each occurrence replaced and every other character kept |
| FindLines.RemoveChar | find_lines.py:93 | no occurrence remains and every other character keeps its count |
| FindLines.RemoveConcat | find_lines.py:93 | removal works piece by piece on a concatenation, so the kept characters stay in order |
| FindLines.RemoveOne | find_lines.py:93 | a single character is dropped exactly when it is the removed one |
| FindLines.Join | find_lines.py:86-91 | sep.join(parts) (a definition; JoinSplit and SplitJoin relate it to Split) |
| FindLines.Show | find_lines.py:64 | str(n) of an integer, in decimal with a leading - for negatives; the helper of the int(str(n)) round trip that ParseShow states |
| FindLines.Entry | find_lines.py:88 | f"{key}={value}" with / replaced by a backslash (a definition; OutputNameClean states what the name holds) |
| FindLines.OutputName | find_lines.py:85-94 | the entries of the fields joined by "_", then . replaced by , and spaces removed (a definition; OutputNameClean and OutputNamePlain state its properties) |
| FindLines.OutputNameClean | find_lines.py:84-95 | the generated name contains no /, no . and no space |
| FindLines.OutputNamePlain | find_lines.py:84-95 | for keys and values without /, . or space, the name is the key=value entries joined by "_" in field order |
| FindLines.HandleOutput | find_lines.py:84-97 | an empty path becomes found_lines/ plus the generated name; any other path is placed under found_lines/ |

## Left out

- HDF5 input and output, and the checks on the file suffix and the "data" key (pointsfinder.py:17-25, linesfinder.py:39-47, 92-93). They are file I/O.
- Plotting (`_plot`, `_plot_points`, the Plotter calls in `find`). It is rendering only.
- The random data generation: `_create_image`, the sampling in `_points_on_line`, and the noise points. Only the deterministic parts are modelled: the r-range clamp and `_coordinates_to_pixel`.
- cos, sin and π are inputs, not computed. Floating-point rounding is not modelled: all arithmetic is over exact reals.
- The argparse, yaml and pydantic-settings wrappers, the `main` functions, `handle_input` (a file-existence check), and the `is_file`/`mkdir` side effects of `handle_output`, including its ValueError when the path is a file. They are filesystem effects.
- HandleThresholds: `float()` of each field is not modelled, so the fields are returned as text. Float parsing has no exact counterpart over reals.
- ParseInt: Python's `int()` also accepts surrounding whitespace, underscores between digits and non-ASCII digits. The model accepts only an ASCII sign and digits. Its error message quotes the text as `'` + text + `'`, whereas Python uses `repr()`, which differs for text holding a quote, a backslash or a non-printable character.
- HandleOutput: path normalisation by `pathlib` is not modelled. This covers an absolute user path replacing `found_lines`, and an empty generated name giving `found_lines` itself. The path is a plain string join with "/".
- OutputName: the validated values are passed in as their `str()` text. Their formatting by pydantic is not modelled.
- `Line.points_on_line` (linesfinder.py:89) is not defined in any file of this model. `Line` is modelled as the record (r, θ). The two-argument call at linesfinder.py:88 does not match the four-argument constructor at src/objects.py:44-51. `self.thetas[int(theta_)]` is a length-1 row of a column array; the model uses its value.
- The mis-wiring in `find` is not reproduced:
  - linesfinder.py:49 passes `xy_spread` as the PointsFinder's `output`.
  - linesfinder.py:83 passes `self.rtheta_spread` as the second PointsFinder's `output` in the same way.
  - `PointsFinder.find` returns None (pointsfinder.py:33-35).

  The model feeds `_find_points` of the data into the accumulator, and `_find_points` of the accumulator into the peak loop. `Find` returns its lines instead of writing them. The `print("No points found")` of linesfinder.py:80 is left out with the other output; the model returns no accumulator and no lines there.
- LinesFinder.Find: `rtheta_threshold` is declared `int` at linesfinder.py:24, so `@validate_call` refuses a non-integral value; `Find` accepts any real `rthetaThreshold`.
- LinesFinder.CreateAccumulator: requires at least one point, at least one θ sample and bins[0] ≥ 1. `find` guards the first; numpy raises on the others, and those errors are not modelled.
- LinesFinder.CreateAccumulator: the accumulator is `array2<real>`, as `np.zeros` creates a float array. The `np.unique` counting is modelled as a loop adding one vote per (point, θ). It ends in the same counts, which `Tally` proves.
- Labelling.Label: the labels are computed by a raster scan with a flood fill, not by scipy's two-pass algorithm. Its contract characterises the result of `ndimage.label`: components, raster numbering and 4-connectivity.
- PointsFinder.WindowMax, PointsFinder.WindowMin: use a window clipped to the grid. Under scipy's default `reflect` boundary the reflected cells repeat cells already in the clipped window, so the max and min are the same.
- PointsFinder.Centres: requires every box to be present. `EveryComponentBoxed` proves this holds for the output of `ndimage.label`.
- LinesFinder.MinInFirstBin: when every r is equal and bins[0] ≥ 2, all edges coincide and the minimum lands in the last bin, not bin 0. The contract states that case as the code computes it.
- The pydantic `validate_call` shape checks and the type aliases of src/types.py become preconditions. PointsFinder.CheckShape: `@validate_call` on `__init__` checks `data` against the 2-D image type before line 26 runs, so a non-2-D array is refused first by pydantic's ValidationError with pydantic's own message; the ValueError of pointsfinder.py:26-27 that the model states is unreachable in practice.
