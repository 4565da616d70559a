# Adaptive keypoint detection of the proslam stereo front-end

This project models the perception front-end of the `rslam` stereo
visual-odometry pipeline, and proves properties of it in Dafny.

- **Detector grid.** The stereo frame-point generator splits each image into a
  grid of regions. Each region has its own FAST detector with a threshold
  stored beside it.
- **Detection.** `detect_keypoints` runs each detector on its crop of the
  image and moves the keypoints it finds into image coordinates. It
  concatenates them row by row.
- **Threshold controller.** For every region, a proportional controller
  reacts to how far the region's keypoint count is from the per-region
  target. It stores a new threshold, and `adjust_detector_thresholds` pushes
  the stored thresholds into the detectors before the next frame.
- **Initialize.** `initialize` runs detection on the left image and then the
  right image of a `Frame`, and pushes the thresholds. It records the average
  keypoint count and computes descriptors. Last, it updates the descriptor
  distance bound that matches must stay under.
- **Draft generator.** The earlier single-image generator
  (`frame_point_generator.rs`) shares the grid and the controller.
- **Smaller pieces.** The model also covers the stereo point constructor
  (`StereoFramepoint::new`), the dataset cursor (`DatasetIterator`), and the
  count check of `IntensityFeatureMatcher::set_fatures`.

Modules:

- `Casts` (casts.dfy) holds the Rust numeric conversions the code relies on,
  written out on `real`:
  - `f32::round`;
  - the saturating `f32 as i32`;
  - the wrapping `usize as i32`;
  - `f32::min` and `f32::max`.
- `Features` (features.dfy) holds keypoints, rectangles and images, the
  detection and extraction capabilities as function values, and the
  translation into image coordinates.
- `DetectorGrids` (detector_grids.dfy) holds what both generators share:
  - region geometry;
  - building the grid;
  - the keypoint targets;
  - the controller;
  - detection over the grid;
  - the threshold push.
- `StereoFramePointGeneration` (stereo_frame_point_generator.dfy) holds the
  configuration, its finalisation, the epipolar offsets, `Frame`, and the
  generator class with `detect_keypoints`, `adjust_detector_thresholds` and
  `initialize`.
- `FramePointGeneration` (frame_point_generator.dfy) holds the draft
  generator.
- `StereoFramepoints` (stereo_framepoint.dfy) holds the stereo point, with its
  disparity as written and as intended.
- `Datasets` (datasets.dfy) holds the dataset and its cursor.
- `IntensityFeatureMatchers` (intensity_feature_matchers.dfy) holds the count
  check of the matcher.
- `Wrappers` (wrappers.dfy) holds `Option` and `Result`.

Three points where the code behaves differently from what its names suggest;
the model follows the code:

- **Step size of the controller.** A saturating controller would clamp the
  decrease at `−maximum_change` and the increase at `+maximum_change`. The
  code uses `max(delta, maximum_change)` going down and
  `min(delta, maximum_change)` going up:
  - downward, for a non-negative `maximum_change` such as the default 0.5,
    the relative step is never negative, so `min(…, −1)` always picks −1 and
    every downward step is exactly one unit, floored at the minimum
    (`DownwardStepIsOneUnit`). A negative `maximum_change` is accepted by the
    configuration and then gives larger steps;
  - upward, the step is at most `max(maximum_change·threshold, 1)`, with no
    ceiling: `detector_threshold_maximum` is never read.
- **Descriptor distance.** The bound `current_maximum_descriptor_distance_triangulation`
  is meant to tighten when few points are found. In the code it starts at
  `0.1·256`, only ever shrinks from the previous value, and is floored at
  that same `0.1·256`, so it never moves (`DescriptorDistancePinned`).
- **Feature lattices.** `initialize` ends with a to-do for loading the
  matchers of both sides (proslam/src/stereo_frame_point_generator.rs:210);
  the model does nothing there either.

## Model

| member | source | states |
|---|---|---|
| Casts.Trunc | proslam/src/stereo_frame_point_generator.rs:81-82 | the integer part kept by an `as` cast: non-negative input gives the floor, negative input gives the ceiling |
| Casts.Round | proslam/src/stereo_frame_point_generator.rs:79-80 | `f32::round` gives a whole number within one half of its input |
| Casts.CastF32ToI32 | proslam/src/stereo_frame_point_generator.rs:79-82 | `f32 as i32` stays within `i32`, truncates in range and saturates beyond it |
| Casts.CastUsizeToI32 | proslam/src/stereo_frame_point_generator.rs:74 | `usize as i32` is congruent to its input modulo 2^32 and is the identity up to `i32::MAX` |
| Casts.Min | proslam/src/stereo_frame_point_generator.rs:203-203 | `f32::min` on non-NaN values: a lower bound of both arguments that is one of them (also the clamps at lines 248 and 254) |
| Casts.Max | proslam/src/stereo_frame_point_generator.rs:206-206 | `f32::max` on non-NaN values: an upper bound of both arguments that is one of them (also the clamps at lines 246 and 256) |
| Casts.FloorOfQuotient | proslam/src/stereo_frame_point_generator.rs:110-111 | the floor of an `f32` quotient of integers is integer division |
| Casts.TruncOfQuotient | proslam/src/stereo_frame_point_generator.rs:81-82 | truncating a non-negative quotient is integer division |
| Features.Translate | proslam/src/stereo_frame_point_generator.rs:261-269 | every keypoint is moved by the region's top-left corner, with count, order and all other fields kept |
| Features.TranslateInverse | proslam/src/stereo_frame_point_generator.rs:261-269 | translating back by the negated corner restores the region-local keypoints |
| Features.TranslateAppend | proslam/src/stereo_frame_point_generator.rs:263-271 | translation distributes over concatenation |
| Features.TranslateInsideRegion | proslam/src/stereo_frame_point_generator.rs:234-236 | keypoints found inside the crop land inside the region in image coordinates |
| Features.Shift | proslam/src/stereo_frame_point_generator.rs:261-266 | a keypoint moved by a region corner differs from the original by exactly that corner, with every other field kept |
| DetectorGrids.RegionRect | proslam/src/stereo_frame_point_generator.rs:63-83 | the rectangle of region (r, c), computed in `f32`, rounded and cast as the code does; no contract of its own, its closed form is RegionRectClosedForm |
| DetectorGrids.RegionRectClosedForm | proslam/src/stereo_frame_point_generator.rs:63-83 | region (r, c) starts at `(round(c·W/cols), round(r·H/rows))` and spans `(W/cols, H/rows)` in integer division |
| DetectorGrids.RegionInsideImage | proslam/src/stereo_frame_point_generator.rs:78-83 | every region lies inside the image |
| DetectorGrids.NeighbouringRegions | proslam/src/stereo_frame_point_generator.rs:78-83 | neighbouring regions do not overlap and leave at most a one-pixel gap, on the same row or column |
| DetectorGrids.BuildDetectorGrid | proslam/src/stereo_frame_point_generator.rs:68-105 | `rows × cols` cells, each with a detector at the minimum threshold cast to `i32`, its region, and the minimum stored as its threshold |
| DetectorGrids.FlattenLength | proslam/src/stereo_frame_point_generator.rs:231-232 | a rectangular grid of `rows` rows of `cols` regions has rows·cols regions in row-major order |
| DetectorGrids.FlattenCell | proslam/src/stereo_frame_point_generator.rs:231-232 | region (r, c) is at position r·cols + c of the row-major order |
| DetectorGrids.TargetNumberOfKeypoints | proslam/src/stereo_frame_point_generator.rs:110-113 | the target is `(⌊W/bin⌋+1)·(⌊H/bin⌋+1)`, at least one |
| DetectorGrids.TargetPerRegion | proslam/src/stereo_frame_point_generator.rs:107-120 | the per-region targets add up to the total target, and are positive when it is |
| DetectorGrids.Deviation | proslam/src/stereo_frame_point_generator.rs:240-242 | the relative deviation δ of a count from the target satisfies δ·target = count − target, and is never below −1 |
| DetectorGrids.DeviationBands | proslam/src/stereo_frame_point_generator.rs:240-253 | the deviation is below the band exactly when the count is below `target·(1−tol)`, and above it exactly when the count is above `target·(1+tol)` |
| DetectorGrids.Response | proslam/src/stereo_frame_point_generator.rs:245-257 | the controller from a deviation: below the band never under the minimum, above the band at least one higher, within the band unchanged |
| DetectorGrids.ThresholdUpdate | proslam/src/stereo_frame_point_generator.rs:238-259 | too few keypoints: the new threshold is at the minimum, or at least one below the current one and never under the minimum; too many: at least one above, and at most `max(maximal change·t, 1)` above; within the band: unchanged |
| DetectorGrids.ResponseBelowBand | proslam/src/stereo_frame_point_generator.rs:245-252 | below the tolerance band the new threshold is never under the minimum, and is either the minimum or at least one below the current threshold |
| DetectorGrids.ResponseAboveBand | proslam/src/stereo_frame_point_generator.rs:253-257 | above the band the threshold rises by at least one and, from a non-negative threshold, by at most `max(maximum_change·t, 1)` |
| DetectorGrids.DownwardResponse | proslam/src/stereo_frame_point_generator.rs:245-252 | for a deviation below the band with a non-negative threshold and maximal change, the response is `max(minimum, t − 1)` |
| DetectorGrids.DeviationMonotone | proslam/src/stereo_frame_point_generator.rs:240-242 | a larger keypoint count never has a smaller relative deviation |
| DetectorGrids.RaiseMonotone | proslam/src/stereo_frame_point_generator.rs:253-257 | of two deviations above the band, the larger raises the threshold at least as far |
| DetectorGrids.ResponseMonotone | proslam/src/stereo_frame_point_generator.rs:245-259 | a larger deviation never gives a lower new threshold, while the live threshold is non-negative and at or above the minimum, for any tolerance and maximum change |
| DetectorGrids.DownwardStepIsOneUnit | proslam/src/stereo_frame_point_generator.rs:245-252 | with a non-negative threshold and maximal change, a region with too few keypoints steps down by exactly one, floored at the minimum |
| DetectorGrids.ThresholdUpdateMonotone | proslam/src/stereo_frame_point_generator.rs:240-257 | more keypoints in a region never give it a lower new threshold, while the live threshold is non-negative and at or above the minimum, for any tolerance and maximum change |
| DetectorGrids.AdaptRegion | proslam/src/stereo_frame_point_generator.rs:238-259 | one region after detection: the live threshold and the region are kept, the stored threshold is the controller's update from the region's count |
| DetectorGrids.Found | proslam/src/stereo_frame_point_generator.rs:233-237 | the region-local keypoints the region's detector reports on its crop at its live threshold; no contract of its own, see DetectGridDependsOnDetectors |
| DetectorGrids.RegionKeypoints | proslam/src/stereo_frame_point_generator.rs:261-269 | a region's keypoints moved into image coordinates; no contract of its own, see Translate |
| DetectorGrids.DetectRow | proslam/src/stereo_frame_point_generator.rs:232-271 | the keypoints of a run of regions, concatenated left to right; no contract of its own, see DetectRowAppend and DetectInRow |
| DetectorGrids.DetectGrid | proslam/src/stereo_frame_point_generator.rs:231-271 | the keypoints of all rows, concatenated top to bottom; no contract of its own, see DetectGridIsRowMajor, DetectGridLength and Detect |
| DetectorGrids.AdaptRow | proslam/src/stereo_frame_point_generator.rs:232-259 | one row of regions after detection: same length, each region replaced by AdaptRegion of its own count; AdaptGrid applies it to every row and DetectInRow is proved to compute it |
| DetectorGrids.AdaptGrid | proslam/src/stereo_frame_point_generator.rs:231-259 | updating the stored thresholds keeps the grid's shape and whether it has any region |
| DetectorGrids.AdaptKeepsDetectors | proslam/src/stereo_frame_point_generator.rs:259 | detection writes only the stored thresholds: live thresholds and regions are unchanged |
| DetectorGrids.DetectGridDependsOnDetectors | proslam/src/stereo_frame_point_generator.rs:233-238 | detection reads only the live thresholds and the regions, never the stored thresholds |
| DetectorGrids.SecondDetectionOverwritesFirst | proslam/src/stereo_frame_point_generator.rs:173-176 | after detecting on the left and then the right image, the stored thresholds reflect only the right image's counts, and the right image is detected as if the left pass had not run |
| DetectorGrids.DetectGridLength | proslam/src/stereo_frame_point_generator.rs:263-271 | the result holds exactly as many keypoints as all regions found together |
| DetectorGrids.DetectRowAppend | proslam/src/stereo_frame_point_generator.rs:271 | the keypoints of two runs of regions are the keypoints of the first run followed by those of the second |
| DetectorGrids.DetectGridIsRowMajor | proslam/src/stereo_frame_point_generator.rs:231-232 | the grid's keypoints are the regions' keypoints concatenated in row-major order |
| DetectorGrids.DetectInRow | proslam/src/stereo_frame_point_generator.rs:232-272 | the inner loop returns its row's translated keypoints in order, and that row with every stored threshold adapted |
| DetectorGrids.Detect | proslam/src/stereo_frame_point_generator.rs:226-275 | the nested loop returns the translated keypoints of all regions in row-major order, and the grid with every stored threshold adapted |
| DetectorGrids.AdaptKeepsMinimum | proslam/src/stereo_frame_point_generator.rs:248-252 | no stored threshold falls below the minimum as long as no live threshold is below it |
| DetectorGrids.PushThresholds | proslam/src/stereo_frame_point_generator.rs:277-284 | every live threshold replaced by its stored threshold cast to `i32`, keeping the number of rows; the rest is PushKeepsRegions and PushKeepsMinimum |
| DetectorGrids.PushKeepsMinimum | proslam/src/stereo_frame_point_generator.rs:280 | pushing keeps every threshold at or above a whole-number minimum that fits in `i32` |
| DetectorGrids.PushKeepsRegions | proslam/src/stereo_frame_point_generator.rs:277-284 | the push changes only the live thresholds: shape, regions and stored thresholds are kept |
| StereoFramePointGeneration.StereoFramePointGeneratorCfg.Default | proslam/src/stereo_frame_point_generator.rs:34-51 | the default settings: a 1×1 grid, tolerance 0.1, maximum change 0.5, thresholds 15/15/100, bins of 25 pixels, ORB-256 and no epipolar band; no contract of its own, its consequences are DefaultConfiguration |
| StereoFramePointGeneration.DefaultConfiguration | proslam/src/stereo_frame_point_generator.rs:34-51 | the default gives one region covering the image, a threshold of 15, a matching distance of `(0.2·256) as i32 = 51`, a region target equal to the bin count, and only the nominal epipolar line |
| StereoFramePointGeneration.StereoFramePointGeneratorCfg.Finalize | proslam/src/stereo_frame_point_generator.rs:55-151 | fails exactly for a descriptor type other than ORB-256; otherwise it returns a valid generator with the built grid, the targets, the bootstrap distance bound and the epipolar offsets |
| StereoFramePointGeneration.EpipolarOffsets | proslam/src/stereo_frame_point_generator.rs:130-134 | `2·(max−1)+1` offsets (only 0 when max ≤ 1); position k holds `(k+1)/2` when k is odd and `−k/2` when k is even |
| StereoFramePointGeneration.EpipolarOffsetsCoverBand | proslam/src/stereo_frame_point_generator.rs:130-134 | the offsets are 0 and every integer strictly between −max and max, each once |
| StereoFramePointGeneration.BuildEpipolarOffsets | proslam/src/stereo_frame_point_generator.rs:130-134 | the push loop builds exactly the offset sequence |
| StereoFramePointGeneration.Frame.constructor | proslam/src/stereo_frame_point_generator.rs:319-338 | a new frame keeps its two images, holds no keypoints or descriptors, has a count of 0 and is localizing |
| StereoFramePointGeneration.AvailableRatio | proslam/src/stereo_frame_point_generator.rs:201-203 | the ratio lies in [0, 1]; it is 1 once the target is met, and otherwise is the detected count divided by the target |
| StereoFramePointGeneration.NextMaximumDescriptorDistance | proslam/src/stereo_frame_point_generator.rs:198-207 | the bound is never below `0.1·256`; it resets when localizing; when tracking it never exceeds the previous bound or the floor, keeps the previous bound when the target was met, and below the target is `max(detected/target·previous, 0.1·256)`, stated as `next·target = max(detected·previous, 0.1·256·target)` |
| StereoFramePointGeneration.DescriptorDistancePinned | proslam/src/stereo_frame_point_generator.rs:148-207 | starting at the bootstrap value `0.1·256`, the update leaves the bound there for any status and count |
| StereoFramePointGeneration.AverageKeypointCount | proslam/src/stereo_frame_point_generator.rs:178-179 | the count is the floor of the mean of the left and right keypoint counts |
| StereoFramePointGeneration.StereoFramePointGenerator.constructor | proslam/src/stereo_frame_point_generator.rs:137-150 | the generator holds the given grid, targets, controller constants, distance bound and offsets, with a keypoint count of 0 |
| StereoFramePointGeneration.StereoFramePointGenerator.DetectKeypoints | proslam/src/stereo_frame_point_generator.rs:226-275 | returns the row-major translated keypoints found at the live thresholds, stores every region's adapted threshold and keeps the generator's invariant |
| StereoFramePointGeneration.StereoFramePointGenerator.AdjustDetectorThresholds | proslam/src/stereo_frame_point_generator.rs:277-284 | sets every live threshold to its stored threshold cast to `i32`, keeping the invariant |
| StereoFramePointGeneration.StereoFramePointGenerator.DetectStereoPair | proslam/src/stereo_frame_point_generator.rs:173-176 | both images are detected at the same live thresholds, and the push leaves the grid adapted to the right image |
| StereoFramePointGeneration.StereoFramePointGenerator.UpdateMaximumDescriptorDistance | proslam/src/stereo_frame_point_generator.rs:198-207 | the bound becomes the status-dependent update of the previous bound |
| StereoFramePointGeneration.StereoFramePointGenerator.Initialize | proslam/src/stereo_frame_point_generator.rs:171-212 | with extraction on: the live thresholds become the push of the grid adapted to the right image; the count is the average of both images' detections, which go to the descriptor extractor; the bound is updated from the frame's status. With extraction off, nothing changes |
| FramePointGeneration.FramePointGeneratorCfg.Finalize | proslam/src/frame_point_generator.rs:38-113 | a valid draft generator with the built grid, the per-region target and the controller constants |
| FramePointGeneration.FramePointGenerator.constructor | proslam/src/frame_point_generator.rs:106-112 | the draft generator holds the given grid and controller constants |
| FramePointGeneration.FramePointGenerator.DetectKeypoints | proslam/src/frame_point_generator.rs:125-172 | returns the row-major translated keypoints found at the live thresholds and stores every region's adapted threshold |
| FramePointGeneration.FramePointGeneratorCfg.Default | proslam/src/frame_point_generator.rs:22-35 | the draft's default settings: a 1×1 grid, tolerance 0.1, maximum change 0.5, thresholds 15/15/100 and bins of 25 pixels; no contract of its own, its consequences are DefaultConfiguration |
| FramePointGeneration.DefaultConfiguration | proslam/src/frame_point_generator.rs:22-35 | the draft default gives one region covering the image, a threshold of 15 and a region target equal to the bin count |
| StereoFramepoints.NewAsWritten | proslam/src/stereo_framepoint.rs:12-25 | keeps both keypoints and descriptors; the disparity is the left column minus the right **row** |
| StereoFramepoints.New | proslam/src/stereo_framepoint.rs:12-25 | keeps both keypoints and descriptors; the disparity is the left column minus the right column |
| StereoFramepoints.DisparityUsesRowCoordinate | proslam/src/stereo_framepoint.rs:23 | a pair 5 pixels apart on row 50 gets disparity 0 as written, and 5 as intended |
| StereoFramepoints.AsWrittenAgreesOnlyOnDiagonal | proslam/src/stereo_framepoint.rs:23 | the two constructors agree exactly when the right keypoint's row equals its column |
| StereoFramepoints.DisparityIgnoresRows | proslam/src/stereo_framepoint.rs:23 | the intended disparity does not change when both keypoints move along rows or shift sideways together |
| Datasets.Dataset.Iter | rslam-core/src/dataset.rs:34-39 | a fresh cursor over this dataset, at index 0, having returned nothing |
| Datasets.Yielded | rslam-core/src/dataset.rs:23-27 | the first n calls of `next` return `get(0) … get(n−1)` in order |
| Datasets.YieldedPrefix | rslam-core/src/dataset.rs:23-27 | later calls extend, and never revise, what earlier calls returned |
| Datasets.NotFused | rslam-core/src/dataset.rs:23-27 | a missing item does not end the walk: nothing at index 0 and an item at index 1 give `None`, then the item |
| Datasets.DatasetIterator.constructor | rslam-core/src/dataset.rs:9-17 | the cursor starts at index 0 over the given dataset |
| Datasets.DatasetIterator.Next | rslam-core/src/dataset.rs:23-27 | returns `get` at the cursor, and always advances the cursor by one, adding the answer to the history |
| IntensityFeatureMatchers.SetFeatures | proslam/src/intensity_feature_matcher.rs:7-16 | always an error; it is a count mismatch exactly when the keypoint and descriptor counts differ |

## Left out

- External capabilities: FAST detection, ORB extraction and image cropping
  are parameters of the model, given as function values. The errors they can
  raise are not modelled, and neither is detector creation failing in
  `finalize`.
- Logging (`log::info!`, `log::debug!`) is left out because it changes no
  state.
- `f32` arithmetic is modelled on exact reals. Rounding error, NaN and
  infinity are not modelled.
- Zero grid dimension: the source's per-region target would then be `f32`
  infinity. The grid then has no region (`HasRegion` is false): no rows when
  the vertical count is 0, or that many empty rows when only the horizontal
  count is 0. The target is never read, so the model stores 0.0.
- StereoFramePointGeneration.StereoFramePointGeneratorCfg.Finalize: requires a positive bin size. With a
  bin size of 0 the source divides by zero in `f32`, which this model does
  not cover.
- FramePointGeneration.FramePointGeneratorCfg.Finalize: requires a positive bin size, for the
  same reason.
- StereoFramePointGeneration.StereoFramePointGeneratorCfg.Finalize: an unsupported descriptor type
  makes the source panic through `unimplemented!()`. The model returns
  `Err(UnsupportedDescriptorType)` instead.
- The descriptor extractor's state (an OpenCV ORB object) is not stored in
  the generator. `Initialize` receives the extraction as a parameter.
- Descriptors are modelled as byte rows (`seq<bv8>`), not OpenCV `Mat`s.
- `compute` and `Frame::create_framepoint` are empty
  stubs in the source, so they are not modelled.
- The feature lattices and the epipolar matcher are not part of this model.
- The KITTI dataset reader is not part of this model. A dataset is any
  `get` function with a length.
- Datasets.DatasetIterator.Next: the cursor is an unbounded `nat`. It does not model
  `usize` overflow after 2^64 calls.
- DetectorGrids.RegionRectClosedForm: proved only for image sides up to
  `i32::MAX`, where the casts do not saturate.
- DetectorGrids.RegionInsideImage: proved only for image sides up to
  `i32::MAX`, because it rests on RegionRectClosedForm.
- DetectorGrids.NeighbouringRegions: proved only for image sides up to
  `i32::MAX`, because it rests on RegionRectClosedForm.
- IntensityFeatureMatchers.SetFeatures: with equal counts the source reaches
  `unimplemented!()` and panics. The model returns `Err(NotImplemented)`
  instead.
- The `detector_threshold_initial` and `detector_threshold_maximum`
  settings are stored in the configuration. The source never reads them,
  and neither does the model.
- The invariant that no threshold is below the minimum is stated only for a
  minimum that fits in `i32`. Beyond that, `usize as i32` wraps the detectors'
  starting threshold.

## Findings

| source | as written | input that shows it | evidently intended | confidence | as-written member | corrected member |
|---|---|---|---|---|---|---|
| proslam/src/stereo_framepoint.rs:23 | disparity = left.x − right.y | left keypoint at (50, 50), right keypoint at (45, 50): disparity 0 instead of 5 | disparity = left.x − right.x, the horizontal offset between rectified views | high; not executed | StereoFramepoints.NewAsWritten (StereoFramepoints.DisparityUsesRowCoordinate, StereoFramepoints.AsWrittenAgreesOnlyOnDiagonal) | StereoFramepoints.New (StereoFramepoints.DisparityIgnoresRows) |
