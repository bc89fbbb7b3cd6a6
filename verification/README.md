# Lane aggregator of laneDetection, in Dafny

This project models the lane aggregator of the `laneDetection` prototype. That
is the part of `laneDetect.py` that turns a frame's batch of detected line
segments into a left and a right lane line, or into nothing. It has two
functions:

- `avg_slope_intercept` fits a degree-1 line through each segment's endpoints.
  It puts segments with strictly negative slope in the left group and all
  others in the right group, then averages each group's (slope, intercept)
  pairs component-wise. It reconstructs both lines inside a single `try`, and
  any exception there makes it return `None` for the whole frame.
- `make_coordinates` turns one (slope, intercept) pair into a line from row
  `y1 = height` up to row `y2 = int(height * 3/5)`. Each column is
  `x = int((y - b) / m)`.

Modules:

- `Options`: the `Option` type. It stands in for `None` and for the exceptions
  the source catches.
- `Truncation`: `Trunc`, Python's `int()` on a finite float, which rounds
  toward zero.
- `Fitting`: segments, fits, the slope-sign partition and the component-wise
  mean.
- `Reconstruction`: `make_coordinates`.
- `Aggregator`: `avg_slope_intercept`, in two forms. `AvgSlopeIntercept` is a
  pure function. `AggregateFrame` is the loop as written, with the averages
  recomputed inside the loop body. It is proved equal to the function.

Floats are modelled as exact `real`s. A frame is represented by its height, the
only part of the image that the aggregator reads.

The three exceptions the `try` catches are modelled like this:

- **Empty group.** `np.average` of an empty list is a scalar NaN, which cannot
  be unpacked into slope and intercept. `Average` returns `None` for it.
- **Zero averaged slope.** The division gives an infinity or NaN, and `int()`
  rejects it. `MakeCoordinates` returns `None` for it.
- **Empty batch.** The averages are never bound, which raises a `NameError`.
  `AggregateFrame` models the unbound names explicitly. `AvgSlopeIntercept`
  reaches `None` through the empty-group case.

The main result is `Aggregator.SucceedsIff`. A frame yields lane lines exactly
when it holds at least one segment of negative slope and at least one of
positive slope. This follows from two facts:

- A non-empty left group always averages to a negative slope.
- A right group averages to slope zero exactly when all its members are
  horizontal.

## Model

| member | source | states |
|---|---|---|
| Truncation.Trunc | laneDetect.py:72-75 | `int()` rounds toward zero: for `r >= 0` the result is within `(r-1, r]`, for `r < 0` within `[r, r+1)` |
| Truncation.TruncNear | laneDetect.py:72-75 | the truncated value is less than one away from `r` and no larger than `r` in magnitude |
| Truncation.TruncUnique | laneDetect.py:72-75 | the rounding-toward-zero bounds determine the integer uniquely |
| Truncation.TruncMonotone | laneDetect.py:72-75 | `int()` is monotone |
| Fitting.FitSegment | laneDetect.py:49-52 | the degree-1 fit of a non-vertical segment passes through both endpoints |
| Fitting.FitUnique | laneDetect.py:50-52 | every line through both endpoints equals the computed fit, so the two-point least-squares fit is exact |
| Fitting.FitSlopeSign | laneDetect.py:50-54 | the fitted slope is negative (positive) exactly when rise times run is negative (positive) in integers |
| Fitting.Fits | laneDetect.py:48-52 | one fit per segment, in order, each the fit of the segment at that position |
| Fitting.FitsPermutation | laneDetect.py:48-52 | permuting the segments permutes their fits |
| Fitting.Partition | laneDetect.py:54-57 | the left group has only negative slopes, the right only non-negative ones (zero included); together they are the input as a multiset, with sizes adding up |
| Fitting.PartitionExact | laneDetect.py:54-57 | each fit lands in exactly one group, as often as it occurs in the input: the left if its slope is negative, the right otherwise |
| Fitting.PartitionMembership | laneDetect.py:54-57 | a fit of negative slope is in the left group; any other is in the right group |
| Fitting.PartitionPermutation | laneDetect.py:48-57 | the groups, as multisets, do not depend on segment order |
| Fitting.Average | laneDetect.py:58-59 | an empty group has no mean; otherwise each component of the mean times the group size is that component's sum |
| Fitting.AverageSingleton | laneDetect.py:58-59 | the mean of a one-member group is that member |
| Fitting.AverageConstant | laneDetect.py:58-59 | the mean of N copies of `(m, b)` is `(m, b)` for every N > 0 |
| Fitting.TotalPermutation | laneDetect.py:58-59 | the component-wise sum of a group does not depend on the order of its members |
| Fitting.AveragePermutation | laneDetect.py:58-59 | the mean does not depend on the order of the group's members |
| Fitting.AverageNegative | laneDetect.py:54-59 | a non-empty group of negative slopes averages to a negative slope |
| Fitting.AverageNonNegative | laneDetect.py:54-59 | a non-empty group of non-negative slopes averages to a non-negative slope, which is zero exactly when every slope is zero |
| Reconstruction.UpperRow | laneDetect.py:71-72 | the upper row lies in `[0, height]` and satisfies `5*y2 <= 3*height < 5*y2 + 5` |
| Reconstruction.ColumnAt | laneDetect.py:73-75 | the column is less than one pixel from `(y - b)/m` and no farther from zero; the line misses the point vertically by less than `abs(m)` |
| Reconstruction.MakeCoordinates | laneDetect.py:69-76 | succeeds exactly when the parameters are a pair with non-zero slope; then `y1 = height`, `y2` is the upper row, and both endpoints lie on the line up to truncation |
| Reconstruction.LaneLineLeans | laneDetect.py:69-76 | with a negative slope the top end is at or to the right of the bottom end; with a positive slope it is at or to the left |
| Aggregator.AvgSlopeIntercept | laneDetect.py:45-67 | an empty batch yields `None`; a result's two lines share `y1 = height` and `y2 = int(3*height/5)`; the first line's endpoints are the left group's mean crossing those rows and the second's the right group's, each truncated toward zero, and both means exist with non-zero slope |
| Aggregator.LeftGroupNonEmptyIff | laneDetect.py:54-59 | the left group is non-empty exactly when some segment has negative slope, and then its mean slope is negative |
| Aggregator.RightSlopeNonZeroIff | laneDetect.py:54-59 | the right group has a non-zero mean slope exactly when some segment has positive slope |
| Aggregator.SucceedsIff | laneDetect.py:61-67 | the frame yields lane lines exactly when some segment has negative slope and some has positive slope; otherwise `None` |
| Aggregator.OneSidedFrameDiscarded | laneDetect.py:61-67 | with left evidence only, the left line alone would reconstruct, but the frame still yields `None`, never a one-sided result |
| Aggregator.LeftThenRight | laneDetect.py:62-64 | a result is ordered `[left, right]`: the first line leans right as it rises, the second leans left |
| Aggregator.OrderIrrelevant | laneDetect.py:45-67 | permuting the segments does not change the result |
| Aggregator.GroupsStep | laneDetect.py:54-57 | one loop iteration appends the new segment's fit to the group its slope sign selects |
| Aggregator.AggregateFrame | laneDetect.py:45-67 | the loop, with averages recomputed on each iteration and left unbound for an empty batch, and the `try` block after it, returns exactly `AvgSlopeIntercept` |

## Left out

- `canny` (laneDetect.py:5-16): grayscale conversion, Gaussian blur and Canny edge detection are opaque OpenCV library calls.
- `region_of_interest` (laneDetect.py:20-31): the mask comes from `cv2.fillPoly`, an opaque OpenCV library call whose pixel-boundary rule the model cannot state.
- `display_lines` (laneDetect.py:34-42): drawing with `cv2.line`.
- The video loop (laneDetect.py:79-94): capture, `HoughLinesP`, blending, display and key handling are I/O and external primitives. The segment batch is the model's input.
- `lines is None`: when `HoughLinesP` finds nothing, the source crashes at laneDetect.py:48, which is outside the `try`. The model takes a sequence of segments, and it claims nothing about this case.
- Vertical segments (`x1 == x2`): `np.polyfit` returns a minimum-norm least-squares solution for them and does not raise. Every member requires non-vertical segments.
- Float64 rounding: `np.polyfit`, `np.average`, the division and `height * (3/5)` are modelled over exact reals. For example, `0.6` as a float is slightly below 3/5. Rounding-dependent results are not modelled, including a NaN from an overflow.
- The printed error message at laneDetect.py:66 is console output and is not modelled.
