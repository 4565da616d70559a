/** The grid of FAST detectors shared by both frame-point generators: the
    partition of an image into rows × columns of regions, the keypoint targets,
    the per-region proportional threshold controller, and detection over the
    grid with translation of region-local keypoints into image coordinates. */
module DetectorGrids {
  import opened Casts
  import opened Features

  /** One cell of the grid: the live threshold held by its FAST detector, the
      region it detects in, and the threshold the controller last stored for
      it (pushed into the detector only by a separate step). */
  datatype RegionDetector = RegionDetector(detectorThreshold: int, region: Rect, threshold: real)

  /** Rows of cells, top to bottom; each row left to right. */
  type Grid = seq<seq<RegionDetector>>

  // ---------------------------------------------------------------------------
  // Geometry of the partition

  /** The rectangle of region (r, c) when the image is split into
      `rows × cols` regions, computed in `f32` and cast to `i32`. */
  function RegionRect(r: nat, c: nat, rows: nat, cols: nat, width: nat, height: nat): Rect
    requires rows > 0 && cols > 0
  {
    var pixelRowsPerDetector := height as real / rows as real;
    var pixelColsPerDetector := width as real / cols as real;
    Rect(CastF32ToI32(Round(c as real * pixelColsPerDetector)),
         CastF32ToI32(Round(r as real * pixelRowsPerDetector)),
         CastF32ToI32(pixelColsPerDetector),
         CastF32ToI32(pixelRowsPerDetector))
  }

  /** Rounding `k·n/d` half up, in integers. */
  function RoundedOffset(k: nat, n: nat, d: nat): nat
    requires d > 0
  {
    (2 * k * n + d) / (2 * d)
  }

  lemma MulMonotone(a: nat, b: nat, k: nat)
    requires a <= b
    ensures a * k <= b * k
  {
  }

  /** Products of naturals are non-negative. */
  lemma MulNonnegative(a: nat, b: nat)
    ensures a * b >= 0
  {
  }

  /** A positive multiple of `d` is at least `d`. */
  lemma MulAtLeastFactor(x: int, d: nat)
    ensures x >= 1 ==> x * d >= d
  {
    if x >= 1 {
      MulNonnegative(x - 1, d);
      assert x * d == (x - 1) * d + d;
    }
  }

  /** `k·d <= n` implies `k <= n / d`. */
  lemma DivLowerBound(k: int, n: int, d: int)
    requires d > 0 && k * d <= n
    ensures k <= n / d
  {
    var q := n / d;
    assert q * d + n % d == n;
    assert (k - q) * d < d;
    MulAtLeastFactor(k - q, d);
  }

  /** `n < (k + 1)·d` implies `n / d <= k`. */
  lemma DivUpperBound(k: int, n: int, d: int)
    requires d > 0 && n < (k + 1) * d
    ensures n / d <= k
  {
    var q := n / d;
    assert q * d + n % d == n;
    assert (q - k) * d < d;
    MulAtLeastFactor(q - k, d);
  }

  /** `k·(n/d) + 1/2` is the exact quotient `(2kn + d)/(2d)`. */
  lemma HalfShiftedQuotient(k: nat, n: nat, d: nat)
    requires d > 0
    ensures k as real * (n as real / d as real) >= 0.0
    ensures k as real * (n as real / d as real) + 0.5 == (2 * k * n + d) as real / (2 * d) as real
  {
    var q := n as real / d as real;
    assert q * d as real == n as real;
    assert q >= 0.0;
    var z := (2 * k * n + d) as real / (2 * d) as real;
    assert z * (2 * d) as real == (2 * k * n + d) as real;
    assert (k as real * q + 0.5) * (2 * d) as real == 2.0 * k as real * (q * d as real) + d as real;
    assert (2 * k * n + d) as real == 2.0 * k as real * n as real + d as real;
    CancelFactor(k as real * q + 0.5, z, (2 * d) as real);
  }

  lemma CancelFactor(a: real, b: real, c: real)
    requires c != 0.0 && a * c == b * c
    ensures a == b
  {
    assert (a - b) * c == 0.0;
  }

  /** A rounded offset along an axis never passes the axis length. */
  lemma RoundedOffsetWithin(k: nat, n: nat, d: nat)
    requires d > 0 && k <= d
    ensures RoundedOffset(k, n, d) <= n
  {
    MulMonotone(k, d, n);
    assert 2 * k * n + d < (n + 1) * (2 * d);
    DivUpperBound(n, 2 * k * n + d, 2 * d);
  }

  /** `f32::round` of `k·(n/d)` is the integer rounding. */
  lemma RoundOfScaledQuotient(k: nat, n: nat, d: nat)
    requires d > 0
    ensures Round(k as real * (n as real / d as real)) == RoundedOffset(k, n, d) as real
  {
    HalfShiftedQuotient(k, n, d);
    FloorOfQuotient(2 * k * n + d, 2 * d);
  }

  /** One axis of a region's corner: rounding `k·(n/d)` then casting gives the
      integer rounding, provided the image side fits in `i32`. */
  lemma OffsetClosedForm(k: nat, n: nat, d: nat)
    requires d > 0 && k <= d && n <= I32_MAX
    ensures CastF32ToI32(Round(k as real * (n as real / d as real))) == RoundedOffset(k, n, d)
  {
    RoundOfScaledQuotient(k, n, d);
    RoundedOffsetWithin(k, n, d);
  }

  lemma ExtentClosedForm(n: nat, d: nat)
    requires d > 0 && n <= I32_MAX
    ensures CastF32ToI32(n as real / d as real) == n / d
  {
    TruncOfQuotient(n, d);
    var x := n as real / d as real;
    MulMonotone(1, d, n + 1);
    DivUpperBound(n, n, d);
    if x >= I32_MAX as real {
      assert (n / d) as real > x - 1.0;
      assert n / d == I32_MAX;
    }
  }

  /** Region (r, c) has top-left `(round(c·W/cols), round(r·H/rows))` and
      extent `(W / cols, H / rows)` in integer division. */
  lemma RegionRectClosedForm(r: nat, c: nat, rows: nat, cols: nat, width: nat, height: nat)
    requires r < rows && c < cols && width <= I32_MAX && height <= I32_MAX
    ensures RegionRect(r, c, rows, cols, width, height) ==
      Rect(RoundedOffset(c, width, cols), RoundedOffset(r, height, rows), width / cols, height / rows)
  {
    OffsetClosedForm(c, width, cols);
    OffsetClosedForm(r, height, rows);
    ExtentClosedForm(width, cols);
    ExtentClosedForm(height, rows);
  }

  /** Along one axis, region k ends within the image side. */
  lemma OffsetPlusExtentWithin(k: nat, n: nat, d: nat)
    requires k < d
    ensures RoundedOffset(k, n, d) + n / d <= n
  {
    var q := n / d;
    assert q * d + n % d == n;
    MulMonotone(k, d - 1, n);
    assert 2 * k * n <= 2 * (d - 1) * n;
    assert 2 * k * n + d < (n - q + 1) * (2 * d);
    DivUpperBound(n - q, 2 * k * n + d, 2 * d);
  }

  lemma DivSumLower(a: nat, b: nat, d: nat)
    requires d > 0
    ensures a / d + b / d <= (a + b) / d
  {
    assert (a / d) * d + a % d == a;
    assert (b / d) * d + b % d == b;
    assert (a / d + b / d) * d <= a + b;
    DivLowerBound(a / d + b / d, a + b, d);
  }

  lemma DivSumUpper(a: nat, b: nat, d: nat)
    requires d > 0
    ensures (a + b) / d <= a / d + b / d + 1
  {
    assert (a / d) * d + a % d == a;
    assert (b / d) * d + b % d == b;
    assert a + b < (a / d + b / d + 1 + 1) * d;
    DivUpperBound(a / d + b / d + 1, a + b, d);
  }

  lemma HalfDiv(n: nat, d: nat)
    requires d > 0
    ensures (2 * n) / (2 * d) == n / d
  {
    assert (n / d) * d + n % d == n;
    assert (n / d) * (2 * d) <= 2 * n;
    DivLowerBound(n / d, 2 * n, 2 * d);
    assert 2 * n < (n / d + 1) * (2 * d);
    DivUpperBound(n / d, 2 * n, 2 * d);
  }

  /** Along one axis, the next region starts where this one ends, or one
      pixel later. */
  lemma NeighbourOffsets(k: nat, n: nat, d: nat)
    requires d > 0
    ensures RoundedOffset(k, n, d) + n / d <= RoundedOffset(k + 1, n, d) <= RoundedOffset(k, n, d) + n / d + 1
  {
    assert 2 * (k + 1) * n + d == (2 * k * n + d) + 2 * n;
    HalfDiv(n, d);
    DivSumLower(2 * k * n + d, 2 * n, 2 * d);
    DivSumUpper(2 * k * n + d, 2 * n, 2 * d);
  }

  /** Every region lies inside the image. */
  lemma RegionInsideImage(r: nat, c: nat, rows: nat, cols: nat, width: nat, height: nat)
    requires r < rows && c < cols && width <= I32_MAX && height <= I32_MAX
    ensures var rect := RegionRect(r, c, rows, cols, width, height);
      0 <= rect.x && rect.x + rect.width <= width &&
      0 <= rect.y && rect.y + rect.height <= height
  {
    RegionRectClosedForm(r, c, rows, cols, width, height);
    OffsetPlusExtentWithin(c, width, cols);
    OffsetPlusExtentWithin(r, height, rows);
  }

  /** Horizontally neighbouring regions do not overlap and leave at most a
      one-pixel gap; the same holds vertically. */
  lemma NeighbouringRegions(r: nat, c: nat, rows: nat, cols: nat, width: nat, height: nat)
    requires r < rows && c < cols && width <= I32_MAX && height <= I32_MAX
    ensures var here := RegionRect(r, c, rows, cols, width, height);
      (c + 1 < cols ==>
        var right := RegionRect(r, c + 1, rows, cols, width, height);
        here.x + here.width <= right.x <= here.x + here.width + 1 && right.y == here.y) &&
      (r + 1 < rows ==>
        var below := RegionRect(r + 1, c, rows, cols, width, height);
        here.y + here.height <= below.y <= here.y + here.height + 1 && below.x == here.x)
  {
    RegionRectClosedForm(r, c, rows, cols, width, height);
    NeighbourOffsets(c, width, cols);
    NeighbourOffsets(r, height, rows);
    if c + 1 < cols {
      RegionRectClosedForm(r, c + 1, rows, cols, width, height);
    }
    if r + 1 < rows {
      RegionRectClosedForm(r + 1, c, rows, cols, width, height);
    }
  }

  // ---------------------------------------------------------------------------
  // Building the grid

  /** `rows × cols` detectors, each created with the minimum threshold (cast
      from `usize` to `i32`), its region, and the minimum stored as the
      region's threshold. */
  method BuildDetectorGrid(rows: nat, cols: nat, width: nat, height: nat, thresholdMinimum: nat)
    returns (grid: Grid)
    ensures |grid| == rows
    ensures forall r :: 0 <= r < rows ==> |grid[r]| == cols
    ensures forall r, c :: 0 <= r < rows && 0 <= c < cols ==>
      grid[r][c] == RegionDetector(CastUsizeToI32(thresholdMinimum),
                                   RegionRect(r, c, rows, cols, width, height),
                                   thresholdMinimum as real)
  {
    grid := [];
    var r := 0;
    while r < rows
      invariant r <= rows
      invariant |grid| == r
      invariant forall i :: 0 <= i < r ==> |grid[i]| == cols
      invariant forall i, j :: 0 <= i < r && 0 <= j < cols ==>
        grid[i][j] == RegionDetector(CastUsizeToI32(thresholdMinimum),
                                     RegionRect(i, j, rows, cols, width, height),
                                     thresholdMinimum as real)
    {
      var subDetectors := [];
      var c := 0;
      while c < cols
        invariant c <= cols
        invariant |subDetectors| == c
        invariant forall j :: 0 <= j < c ==>
          subDetectors[j] == RegionDetector(CastUsizeToI32(thresholdMinimum),
                                            RegionRect(r, j, rows, cols, width, height),
                                            thresholdMinimum as real)
      {
        var rect := RegionRect(r, c, rows, cols, width, height);
        subDetectors := subDetectors + [RegionDetector(CastUsizeToI32(thresholdMinimum), rect, thresholdMinimum as real)];
        c := c + 1;
      }
      grid := grid + [subDetectors];
      r := r + 1;
    }
  }

  /** The cells in row-major order. */
  function Flatten(grid: Grid): seq<RegionDetector>
  {
    if grid == [] then [] else Flatten(grid[..|grid| - 1]) + grid[|grid| - 1]
  }

  predicate Rectangular(grid: Grid, cols: nat)
  {
    forall r :: 0 <= r < |grid| ==> |grid[r]| == cols
  }

  lemma RowMajorBound(r: nat, c: nat, n: nat, cols: nat)
    requires r < n && c < cols
    ensures r * cols + c < n * cols
  {
    MulMonotone(r + 1, n, cols);
  }

  /** A rectangular grid has `rows·cols` cells. */
  lemma {:induction false} FlattenLength(grid: Grid, cols: nat)
    requires Rectangular(grid, cols)
    ensures |Flatten(grid)| == |grid| * cols
  {
    if grid != [] {
      var n := |grid|;
      FlattenLength(grid[..n - 1], cols);
      assert |Flatten(grid)| == (n - 1) * cols + cols;
    }
  }

  /** Cell (r, c) of a rectangular grid is at position `r·cols + c` of the
      row-major order. */
  lemma {:induction false} FlattenCell(grid: Grid, cols: nat, r: nat, c: nat)
    requires Rectangular(grid, cols) && r < |grid| && c < cols
    ensures r * cols + c < |Flatten(grid)|
    ensures Flatten(grid)[r * cols + c] == grid[r][c]
    decreases |grid|
  {
    var n := |grid|;
    var front := grid[..n - 1];
    FlattenLength(grid, cols);
    FlattenLength(front, cols);
    RowMajorBound(r, c, n, cols);
    assert Flatten(grid) == Flatten(front) + grid[n - 1];
    if r < n - 1 {
      FlattenCell(front, cols, r, c);
      assert front[r] == grid[r];
    } else {
      assert r * cols + c == |Flatten(front)| + c;
    }
  }

  // ---------------------------------------------------------------------------
  // Keypoint targets

  /** The total keypoint target: one keypoint per bin of `bin × bin` pixels,
      `(⌊W/bin⌋+1)·(⌊H/bin⌋+1)`, computed in `f32`. */
  function TargetNumberOfKeypoints(width: nat, height: nat, binSizePixels: nat): (target: real)
    requires binSizePixels > 0
    ensures target == ((width / binSizePixels + 1) * (height / binSizePixels + 1)) as real
    ensures target >= 1.0
  {
    FloorOfQuotient(width, binSizePixels);
    FloorOfQuotient(height, binSizePixels);
    var numberOfColsBin := (width as real / binSizePixels as real).Floor as real + 1.0;
    var numberOfRowsBin := (height as real / binSizePixels as real).Floor as real + 1.0;
    assert numberOfColsBin * numberOfRowsBin
        == ((width / binSizePixels + 1) * (height / binSizePixels + 1)) as real;
    numberOfColsBin * numberOfRowsBin
  }

  /** The total target shared evenly among the regions. */
  function TargetPerRegion(target: real, numberOfDetectors: nat): (perRegion: real)
    requires numberOfDetectors > 0
    ensures perRegion * numberOfDetectors as real == target
    ensures target > 0.0 ==> perRegion > 0.0
  {
    target / numberOfDetectors as real
  }

  // ---------------------------------------------------------------------------
  // The threshold controller

  /** The controller's constants: per-region target, relative tolerance,
      maximum relative change, and the threshold floor. */
  datatype Controller = Controller(targetPerRegion: real, tolerance: real, maximumChange: real, minimum: real)

  /** Relative deviation of a region's keypoint count from the target. */
  function Deviation(count: nat, target: real): (delta: real)
    requires target > 0.0
    ensures delta * target == count as real - target
    ensures delta >= -1.0
  {
    var delta := (count as real - target) / target;
    assert (delta + 1.0) * target == count as real;
    SignOfProduct(delta + 1.0, target);
    delta
  }

  /** The deviation bands in terms of counts: below the tolerance band means
      fewer than `target·(1 − tolerance)` keypoints, above it more than
      `target·(1 + tolerance)`. */
  lemma DeviationBands(count: nat, target: real, tolerance: real)
    requires target > 0.0
    ensures Deviation(count, target) < -tolerance <==> count as real < target * (1.0 - tolerance)
    ensures Deviation(count, target) > tolerance <==> count as real > target * (1.0 + tolerance)
  {
    var delta := Deviation(count, target);
    assert delta * target == count as real - target;
    assert target * (1.0 - tolerance) == target - tolerance * target;
    assert target * (1.0 + tolerance) == target + tolerance * target;
    if delta < -tolerance {
      assert delta * target < -tolerance * target;
    }
    if count as real < target * (1.0 - tolerance) {
      assert delta * target < -tolerance * target;
    }
    if delta > tolerance {
      assert delta * target > tolerance * target;
    }
    if count as real > target * (1.0 + tolerance) {
      assert delta * target > tolerance * target;
    }
  }

  /** The controller's response to a relative deviation `delta`, from the
      live threshold `current` of the region's detector. */
  function Response(delta: real, current: int, ctl: Controller): (next: real)
    ensures delta < -ctl.tolerance ==> next >= ctl.minimum
    ensures !(delta < -ctl.tolerance) && delta > ctl.tolerance ==> next >= current as real + 1.0
    ensures -ctl.tolerance <= delta <= ctl.tolerance ==> next == current as real
  {
    var detectorThreshold := current as real;
    if delta < -ctl.tolerance then
      var change := Max(delta, ctl.maximumChange);
      var lowered := detectorThreshold + Min(change * detectorThreshold, -1.0);
      if lowered < ctl.minimum then ctl.minimum else lowered
    else if delta > ctl.tolerance then
      var change := Min(delta, ctl.maximumChange);
      detectorThreshold + Max(change * detectorThreshold, 1.0)
    else
      detectorThreshold
  }

  /** The count-based adjustment of one region's threshold, from the live
      threshold of its detector. */
  function ThresholdUpdate(count: nat, current: int, ctl: Controller): (next: real)
    requires ctl.targetPerRegion > 0.0
    ensures var delta := Deviation(count, ctl.targetPerRegion);
      (delta < -ctl.tolerance ==>
         next >= ctl.minimum && (next == ctl.minimum || next <= current as real - 1.0)) &&
      (!(delta < -ctl.tolerance) && delta > ctl.tolerance ==>
         next >= current as real + 1.0 &&
         (current >= 0 ==> next <= current as real + Max(ctl.maximumChange * current as real, 1.0))) &&
      (-ctl.tolerance <= delta <= ctl.tolerance ==> next == current as real)
  {
    var delta := Deviation(count, ctl.targetPerRegion);
    ResponseBelowBand(delta, current, ctl);
    ResponseAboveBand(delta, current, ctl);
    Response(delta, current, ctl)
  }

  /** Below the band the threshold is floored at the minimum and otherwise
      drops by at least one. */
  lemma ResponseBelowBand(delta: real, current: int, ctl: Controller)
    ensures delta < -ctl.tolerance ==>
      var next := Response(delta, current, ctl);
      next >= ctl.minimum && (next == ctl.minimum || next <= current as real - 1.0)
  {
    if delta < -ctl.tolerance {
      var t := current as real;
      var lowered := t + Min(Max(delta, ctl.maximumChange) * t, -1.0);
      assert Response(delta, current, ctl) == if lowered < ctl.minimum then ctl.minimum else lowered;
    }
  }

  /** Above the band the threshold rises by at least one and, from a
      non-negative threshold, by at most `max(maximumChange·t, 1)`. */
  lemma ResponseAboveBand(delta: real, current: int, ctl: Controller)
    ensures !(delta < -ctl.tolerance) && delta > ctl.tolerance ==>
      var next := Response(delta, current, ctl);
      next >= current as real + 1.0 &&
      (current >= 0 ==> next <= current as real + Max(ctl.maximumChange * current as real, 1.0))
  {
    if !(delta < -ctl.tolerance) && delta > ctl.tolerance {
      var t := current as real;
      var change := Min(delta, ctl.maximumChange);
      assert Response(delta, current, ctl) == t + Max(change * t, 1.0);
      if current >= 0 {
        ScaleMonotone(change, ctl.maximumChange, t);
      }
    }
  }

  /** Below the band, a non-negative maximal change makes the relative step
      non-negative, so the `min(…, −1)` always picks −1. */
  lemma DownwardResponse(delta: real, current: int, ctl: Controller)
    requires current >= 0 && ctl.maximumChange >= 0.0 && delta < -ctl.tolerance
    ensures Response(delta, current, ctl) == Max(ctl.minimum, current as real - 1.0)
  {
    var t := current as real;
    var change := Max(delta, ctl.maximumChange);
    ScaleMonotone(0.0, change, t);
    assert Response(delta, current, ctl) ==
      (if t + Min(change * t, -1.0) < ctl.minimum then ctl.minimum else t + Min(change * t, -1.0));
  }

  /** As written, a region with too few keypoints lowers its threshold by
      exactly one (down to the minimum), however far below target it is: the
      clamp `max(delta, maximumChange)` is never negative. */
  lemma DownwardStepIsOneUnit(count: nat, current: int, ctl: Controller)
    requires ctl.targetPerRegion > 0.0 && current >= 0 && ctl.maximumChange >= 0.0
    requires Deviation(count, ctl.targetPerRegion) < -ctl.tolerance
    ensures ThresholdUpdate(count, current, ctl) == Max(ctl.minimum, current as real - 1.0)
  {
    DownwardResponse(Deviation(count, ctl.targetPerRegion), current, ctl);
  }

  /** A larger count never has a smaller deviation. */
  lemma DeviationMonotone(fewer: nat, more: nat, target: real)
    requires target > 0.0 && fewer <= more
    ensures Deviation(fewer, target) <= Deviation(more, target)
  {
    var d1 := Deviation(fewer, target);
    var d2 := Deviation(more, target);
    assert d1 * target == fewer as real - target;
    assert d2 * target == more as real - target;
    assert (d2 - d1) * target == more as real - fewer as real;
    SignOfProduct(d2 - d1, target);
  }

  lemma MaxMonotone(a: real, b: real, c: real)
    requires a <= b
    ensures Max(a, c) <= Max(b, c)
  {
  }

  /** Above the band, the response is the threshold plus the larger of the
      clamped relative step and one. */
  lemma RaisedResponse(delta: real, current: int, ctl: Controller)
    requires !(delta < -ctl.tolerance) && delta > ctl.tolerance
    ensures Response(delta, current, ctl) ==
      current as real + Max(Min(delta, ctl.maximumChange) * current as real, 1.0)
  {
  }

  /** Two deviations above the band: the larger one raises at least as far. */
  lemma RaiseMonotone(d1: real, d2: real, current: int, ctl: Controller)
    requires d1 <= d2 && current >= 0
    ensures !(d1 < -ctl.tolerance) && d1 > ctl.tolerance ==>
      Response(d1, current, ctl) <= Response(d2, current, ctl)
  {
    if !(d1 < -ctl.tolerance) && d1 > ctl.tolerance {
      var t := current as real;
      var c1 := Min(d1, ctl.maximumChange);
      var c2 := Min(d2, ctl.maximumChange);
      RaisedResponse(d1, current, ctl);
      RaisedResponse(d2, current, ctl);
      assert c1 <= c2 by {
        if c2 == d2 { assert c1 <= d1; } else { assert c1 <= ctl.maximumChange; }
      }
      ScaleMonotone(c1, c2, t);
      MaxMonotone(c1 * t, c2 * t, 1.0);
    }
  }

  lemma MinMonotone(a: real, b: real, c: real)
    requires a <= b
    ensures Min(a, c) <= Min(b, c)
  {
  }

  /** The downward branch with the relative step already scaled: the
      threshold lowered by at least one, floored at the minimum. */
  function Lowered(step: real, t: real, minimum: real): real
  {
    var lowered := t + Min(step, -1.0);
    if lowered < minimum then minimum else lowered
  }

  lemma LoweredMonotone(s1: real, s2: real, t: real, minimum: real)
    requires s1 <= s2
    ensures Lowered(s1, t, minimum) <= Lowered(s2, t, minimum)
  {
    MinMonotone(s1, s2, -1.0);
  }

  lemma BelowBandResponse(delta: real, current: int, ctl: Controller)
    requires delta < -ctl.tolerance
    ensures Response(delta, current, ctl) ==
      Lowered(Max(delta, ctl.maximumChange) * current as real, current as real, ctl.minimum)
  {
  }

  /** Two deviations below the band: the larger one lowers the threshold no
      further than the smaller one. */
  lemma LowerMonotone(d1: real, d2: real, current: int, ctl: Controller)
    requires d1 <= d2 && current >= 0
    ensures d2 < -ctl.tolerance ==> Response(d1, current, ctl) <= Response(d2, current, ctl)
  {
    if d2 < -ctl.tolerance {
      BelowBandResponse(d1, current, ctl);
      BelowBandResponse(d2, current, ctl);
      LoweredStepMonotone(d1, d2, ctl.maximumChange, current as real, ctl.minimum);
    }
  }

  /** The clamped, scaled downward step is monotone in the deviation. */
  lemma LoweredStepMonotone(d1: real, d2: real, maximumChange: real, t: real, minimum: real)
    requires d1 <= d2 && t >= 0.0
    ensures Lowered(Max(d1, maximumChange) * t, t, minimum) <= Lowered(Max(d2, maximumChange) * t, t, minimum)
  {
    var c1 := Max(d1, maximumChange);
    var c2 := Max(d2, maximumChange);
    MaxMonotone(d1, d2, maximumChange);
    ScaleMonotone(c1, c2, t);
    LoweredMonotone(c1 * t, c2 * t, t, minimum);
  }

  /** Below the band the response never exceeds a live threshold that is at
      or above the minimum. */
  lemma LoweredAtMostCurrent(delta: real, current: int, ctl: Controller)
    requires ctl.minimum <= current as real
    ensures delta < -ctl.tolerance ==> Response(delta, current, ctl) <= current as real
  {
    if delta < -ctl.tolerance {
      var t := current as real;
      var lowered := t + Min(Max(delta, ctl.maximumChange) * t, -1.0);
      assert Response(delta, current, ctl) == if lowered < ctl.minimum then ctl.minimum else lowered;
    }
  }

  /** A larger deviation never gives a lower response, from a live threshold
      that is non-negative and at or above the minimum. */
  lemma ResponseMonotone(d1: real, d2: real, current: int, ctl: Controller)
    requires d1 <= d2
    requires current >= 0 && ctl.minimum <= current as real
    ensures Response(d1, current, ctl) <= Response(d2, current, ctl)
  {
    LowerMonotone(d1, d2, current, ctl);
    LoweredAtMostCurrent(d1, current, ctl);
    RaiseMonotone(d1, d2, current, ctl);
  }

  /** The response is monotone in the count: more keypoints never give a lower
      threshold, once the live threshold is at or above the minimum. */
  lemma ThresholdUpdateMonotone(fewer: nat, more: nat, current: int, ctl: Controller)
    requires ctl.targetPerRegion > 0.0 && fewer <= more
    requires current >= 0 && ctl.minimum <= current as real
    ensures ThresholdUpdate(fewer, current, ctl) <= ThresholdUpdate(more, current, ctl)
  {
    DeviationMonotone(fewer, more, ctl.targetPerRegion);
    ResponseMonotone(Deviation(fewer, ctl.targetPerRegion), Deviation(more, ctl.targetPerRegion), current, ctl);
  }

  /** A region cell after the controller has seen `count` keypoints in it. */
  function AdaptRegion(d: RegionDetector, count: nat, ctl: Controller): (adapted: RegionDetector)
    requires ctl.targetPerRegion > 0.0
    ensures adapted.detectorThreshold == d.detectorThreshold && adapted.region == d.region
    ensures adapted.threshold == ThresholdUpdate(count, d.detectorThreshold, ctl)
  {
    d.(threshold := ThresholdUpdate(count, d.detectorThreshold, ctl))
  }

  // ---------------------------------------------------------------------------
  // Detection over the grid

  /** The raw keypoints the region's detector reports, region-local. */
  function Found(d: RegionDetector, image: Image, fast: FastDetection): seq<KeyPoint>
  {
    fast(image, d.region, d.detectorThreshold)
  }

  /** A region's keypoints in image coordinates. */
  function RegionKeypoints(d: RegionDetector, image: Image, fast: FastDetection): seq<KeyPoint>
  {
    Translate(Found(d, image, fast), d.region)
  }

  /** The keypoints of a sequence of regions, concatenated in order. */
  function DetectRow(row: seq<RegionDetector>, image: Image, fast: FastDetection): seq<KeyPoint>
  {
    if row == [] then []
    else DetectRow(row[..|row| - 1], image, fast) + RegionKeypoints(row[|row| - 1], image, fast)
  }

  /** The keypoints of a grid, row after row. */
  function DetectGrid(grid: Grid, image: Image, fast: FastDetection): seq<KeyPoint>
  {
    if grid == [] then []
    else DetectGrid(grid[..|grid| - 1], image, fast) + DetectRow(grid[|grid| - 1], image, fast)
  }

  /** Number of keypoints the regions of a row report. */
  function RowCount(row: seq<RegionDetector>, image: Image, fast: FastDetection): nat
  {
    if row == [] then 0
    else RowCount(row[..|row| - 1], image, fast) + |Found(row[|row| - 1], image, fast)|
  }

  function GridCount(grid: Grid, image: Image, fast: FastDetection): nat
  {
    if grid == [] then 0
    else GridCount(grid[..|grid| - 1], image, fast) + RowCount(grid[|grid| - 1], image, fast)
  }

  predicate HasRegion(grid: Grid)
  {
    exists r :: 0 <= r < |grid| && grid[r] != []
  }

  function AdaptRow(row: seq<RegionDetector>, image: Image, fast: FastDetection, ctl: Controller): (adapted: seq<RegionDetector>)
    requires row != [] ==> ctl.targetPerRegion > 0.0
    ensures |adapted| == |row|
  {
    seq(|row|, c requires 0 <= c < |row| => AdaptRegion(row[c], |Found(row[c], image, fast)|, ctl))
  }

  /** The grid after one detection call: every stored threshold replaced by
      the controller's response to that region's count. */
  function AdaptGrid(grid: Grid, image: Image, fast: FastDetection, ctl: Controller): (adapted: Grid)
    requires HasRegion(grid) ==> ctl.targetPerRegion > 0.0
    ensures |adapted| == |grid|
    ensures forall r :: 0 <= r < |grid| ==> |adapted[r]| == |grid[r]|
    ensures HasRegion(adapted) <==> HasRegion(grid)
  {
    seq(|grid|, r requires 0 <= r < |grid| =>
      assert grid[r] != [] ==> HasRegion(grid);
      AdaptRow(grid[r], image, fast, ctl))
  }

  /** Two grids of the same shape whose detectors hold the same live
      thresholds over the same regions. */
  predicate SameDetectors(a: Grid, b: Grid)
  {
    |a| == |b| &&
    (forall r :: 0 <= r < |a| ==> |a[r]| == |b[r]|) &&
    (forall r, c :: 0 <= r < |a| && 0 <= c < |a[r]| && c < |b[r]| ==>
      a[r][c].detectorThreshold == b[r][c].detectorThreshold && a[r][c].region == b[r][c].region)
  }

  lemma {:induction false} DetectRowDependsOnDetectors(a: seq<RegionDetector>, b: seq<RegionDetector>, image: Image, fast: FastDetection)
    requires |a| == |b|
    requires forall c :: 0 <= c < |a| ==> a[c].detectorThreshold == b[c].detectorThreshold && a[c].region == b[c].region
    ensures DetectRow(a, image, fast) == DetectRow(b, image, fast)
    ensures RowCount(a, image, fast) == RowCount(b, image, fast)
  {
    if a != [] {
      DetectRowDependsOnDetectors(a[..|a| - 1], b[..|b| - 1], image, fast);
    }
  }

  /** Detection reads only the live thresholds and the regions; the stored
      thresholds play no part in it. */
  lemma {:induction false} DetectGridDependsOnDetectors(a: Grid, b: Grid, image: Image, fast: FastDetection)
    requires SameDetectors(a, b)
    ensures DetectGrid(a, image, fast) == DetectGrid(b, image, fast)
    ensures GridCount(a, image, fast) == GridCount(b, image, fast)
  {
    if a != [] {
      var n := |a| - 1;
      DetectGridDependsOnDetectors(a[..n], b[..n], image, fast);
      DetectRowDependsOnDetectors(a[n], b[n], image, fast);
    }
  }

  /** Adapting the grid changes only the stored thresholds. */
  lemma AdaptKeepsDetectors(grid: Grid, image: Image, fast: FastDetection, ctl: Controller)
    requires HasRegion(grid) ==> ctl.targetPerRegion > 0.0
    ensures SameDetectors(AdaptGrid(grid, image, fast, ctl), grid)
    ensures HasRegion(AdaptGrid(grid, image, fast, ctl)) == HasRegion(grid)
  {
    var adapted: Grid := AdaptGrid(grid, image, fast, ctl);
    forall r | 0 <= r < |grid| ensures |adapted[r]| == |grid[r]| && (adapted[r] == [] <==> grid[r] == []) {
      assert grid[r] != [] ==> HasRegion(grid);
    }
    if HasRegion(grid) {
      var r :| 0 <= r < |grid| && grid[r] != [];
      assert adapted[r] != [];
    }
    if HasRegion(adapted) {
      var r :| 0 <= r < |adapted| && adapted[r] != [];
      assert grid[r] != [];
    }
  }

  /** Two detection calls before the thresholds are pushed: the second
      image's counts replace every threshold the first stored. */
  lemma SecondDetectionOverwritesFirst(grid: Grid, first: Image, second: Image, fast: FastDetection, ctl: Controller)
    requires HasRegion(grid) ==> ctl.targetPerRegion > 0.0
    ensures AdaptGrid(AdaptGrid(grid, first, fast, ctl), second, fast, ctl) == AdaptGrid(grid, second, fast, ctl)
    ensures DetectGrid(AdaptGrid(grid, first, fast, ctl), second, fast) == DetectGrid(grid, second, fast)
  {
    AdaptKeepsDetectors(grid, first, fast, ctl);
    var once := AdaptGrid(grid, first, fast, ctl);
    var twice := AdaptGrid(once, second, fast, ctl);
    var direct := AdaptGrid(grid, second, fast, ctl);
    forall r | 0 <= r < |grid| ensures twice[r] == direct[r] {
      assert grid[r] != [] ==> HasRegion(grid);
      assert |twice[r]| == |direct[r]|;
      forall c | 0 <= c < |grid[r]| ensures twice[r][c] == direct[r][c] {
        assert once[r][c] == AdaptRegion(grid[r][c], |Found(grid[r][c], first, fast)|, ctl);
      }
    }
    DetectGridDependsOnDetectors(once, grid, second, fast);
  }

  lemma {:induction false} DetectRowLength(row: seq<RegionDetector>, image: Image, fast: FastDetection)
    ensures |DetectRow(row, image, fast)| == RowCount(row, image, fast)
  {
    if row != [] {
      DetectRowLength(row[..|row| - 1], image, fast);
    }
  }

  /** The detected keypoints number exactly the sum of the per-region counts. */
  lemma {:induction false} DetectGridLength(grid: Grid, image: Image, fast: FastDetection)
    ensures |DetectGrid(grid, image, fast)| == GridCount(grid, image, fast)
  {
    if grid != [] {
      DetectGridLength(grid[..|grid| - 1], image, fast);
      DetectRowLength(grid[|grid| - 1], image, fast);
    }
  }

  lemma {:induction false} DetectRowAppend(a: seq<RegionDetector>, b: seq<RegionDetector>, image: Image, fast: FastDetection)
    ensures DetectRow(a + b, image, fast) == DetectRow(a, image, fast) + DetectRow(b, image, fast)
  {
    if b != [] {
      var front := b[..|b| - 1];
      assert (a + b)[..|a + b| - 1] == a + front;
      DetectRowAppend(a, front, image, fast);
    } else {
      assert a + b == a;
    }
  }

  /** Detecting over the grid equals detecting over its cells in row-major
      order, one region after another. */
  lemma {:induction false} DetectGridIsRowMajor(grid: Grid, image: Image, fast: FastDetection)
    ensures DetectGrid(grid, image, fast) == DetectRow(Flatten(grid), image, fast)
  {
    if grid != [] {
      var front := grid[..|grid| - 1];
      DetectGridIsRowMajor(front, image, fast);
      DetectRowAppend(Flatten(front), grid[|grid| - 1], image, fast);
    }
  }

  /** The inner loop of `detect_keypoints`: one row of regions, left to right. */
  method DetectInRow(row: seq<RegionDetector>, image: Image, fast: FastDetection, ctl: Controller)
    returns (keypoints: seq<KeyPoint>, adapted: seq<RegionDetector>)
    requires row != [] ==> ctl.targetPerRegion > 0.0
    ensures keypoints == DetectRow(row, image, fast)
    ensures adapted == AdaptRow(row, image, fast, ctl)
  {
    keypoints := [];
    adapted := row;
    var c := 0;
    while c < |row|
      invariant c <= |row| && |adapted| == |row|
      invariant keypoints == DetectRow(row[..c], image, fast)
      invariant forall j :: 0 <= j < c ==> adapted[j] == AdaptRegion(row[j], |Found(row[j], image, fast)|, ctl)
      invariant forall j :: c <= j < |row| ==> adapted[j] == row[j]
    {
      var d := row[c];
      var keypointsPerDetector := fast(image, d.region, d.detectorThreshold);
      var detectorThreshold := ThresholdUpdate(|keypointsPerDetector|, d.detectorThreshold, ctl);
      adapted := adapted[c := d.(threshold := detectorThreshold)];
      assert row[..c + 1][..c] == row[..c];
      keypoints := keypoints + Translate(keypointsPerDetector, d.region);
      c := c + 1;
    }
    assert row[..|row|] == row;
  }

  /** One call of `detect_keypoints` over a grid: the row-major concatenation
      of every region's translated keypoints, and the grid with each stored
      threshold set by the controller from that region's count. */
  method Detect(grid: Grid, image: Image, fast: FastDetection, ctl: Controller)
    returns (keypoints: seq<KeyPoint>, adapted: Grid)
    requires HasRegion(grid) ==> ctl.targetPerRegion > 0.0
    ensures keypoints == DetectGrid(grid, image, fast)
    ensures adapted == AdaptGrid(grid, image, fast, ctl)
  {
    keypoints := [];
    adapted := grid;
    var r := 0;
    while r < |grid|
      invariant r <= |grid| && |adapted| == |grid|
      invariant keypoints == DetectGrid(grid[..r], image, fast)
      invariant forall i :: 0 <= i < r ==> adapted[i] == AdaptGrid(grid, image, fast, ctl)[i]
      invariant forall i :: r <= i < |grid| ==> adapted[i] == grid[i]
    {
      assert grid[r] != [] ==> HasRegion(grid);
      var rowKeypoints, adaptedRow := DetectInRow(grid[r], image, fast, ctl);
      adapted := adapted[r := adaptedRow];
      assert grid[..r + 1][..r] == grid[..r];
      keypoints := keypoints + rowKeypoints;
      r := r + 1;
    }
    assert grid[..|grid|] == grid;
  }

  // ---------------------------------------------------------------------------
  // Pushing stored thresholds into the detectors

  /** Each detector's live threshold replaced by its stored threshold, cast
      from `f32` to `i32`. */
  function PushThresholds(grid: Grid): (pushed: Grid)
    ensures |pushed| == |grid|
  {
    seq(|grid|, r requires 0 <= r < |grid| =>
      seq(|grid[r]|, c requires 0 <= c < |grid[r]| =>
        grid[r][c].(detectorThreshold := CastF32ToI32(grid[r][c].threshold))))
  }

  /** Every live and stored threshold is at least `m`. */
  predicate AtLeastMinimum(grid: Grid, m: real)
  {
    forall r, c :: 0 <= r < |grid| && 0 <= c < |grid[r]| ==>
      grid[r][c].detectorThreshold as real >= m && grid[r][c].threshold >= m
  }

  /** The controller never stores a threshold below the minimum, as long as
      the live thresholds are not below it. */
  lemma AdaptKeepsMinimum(grid: Grid, image: Image, fast: FastDetection, ctl: Controller)
    requires HasRegion(grid) ==> ctl.targetPerRegion > 0.0
    requires AtLeastMinimum(grid, ctl.minimum)
    ensures AtLeastMinimum(AdaptGrid(grid, image, fast, ctl), ctl.minimum)
  {
    var adapted: Grid := AdaptGrid(grid, image, fast, ctl);
    forall r: int, c: int | 0 <= r < |adapted| && 0 <= c < |adapted[r]|
      ensures adapted[r][c].detectorThreshold as real >= ctl.minimum && adapted[r][c].threshold >= ctl.minimum
    {
      assert grid[r] != [] ==> HasRegion(grid);
      assert adapted[r][c] == AdaptRegion(grid[r][c], |Found(grid[r][c], image, fast)|, ctl);
    }
  }

  /** Pushing keeps every threshold at or above a whole-number minimum that
      fits in `i32`. */
  lemma PushKeepsMinimum(grid: Grid, m: nat)
    requires m <= I32_MAX
    requires AtLeastMinimum(grid, m as real)
    ensures AtLeastMinimum(PushThresholds(grid), m as real)
  {
    var pushed: Grid := PushThresholds(grid);
    forall r: int, c: int | 0 <= r < |pushed| && 0 <= c < |pushed[r]|
      ensures pushed[r][c].detectorThreshold as real >= m as real && pushed[r][c].threshold >= m as real
    {
      assert pushed[r][c] == grid[r][c].(detectorThreshold := CastF32ToI32(grid[r][c].threshold));
      CastKeepsWholeMinimum(grid[r][c].threshold, m);
    }
  }

  lemma CastKeepsWholeMinimum(x: real, m: nat)
    requires m <= I32_MAX && x >= m as real
    ensures CastF32ToI32(x) >= m
  {
  }

  /** Pushing changes only the live thresholds, so the grid keeps its shape
      and regions. */
  lemma PushKeepsRegions(grid: Grid)
    ensures |PushThresholds(grid)| == |grid|
    ensures forall r :: 0 <= r < |grid| ==> |PushThresholds(grid)[r]| == |grid[r]|
    ensures forall r, c :: 0 <= r < |grid| && 0 <= c < |grid[r]| ==>
      PushThresholds(grid)[r][c].region == grid[r][c].region &&
      PushThresholds(grid)[r][c].threshold == grid[r][c].threshold
    ensures HasRegion(PushThresholds(grid)) == HasRegion(grid)
  {
    var pushed: Grid := PushThresholds(grid);
    if HasRegion(grid) {
      var r :| 0 <= r < |grid| && grid[r] != [];
      assert pushed[r] != [];
    }
    if HasRegion(pushed) {
      var r :| 0 <= r < |pushed| && pushed[r] != [];
      assert grid[r] != [];
    }
  }
}
