/** The stereo frame-point generator: configuration and its finalisation for
    an image size, keypoint detection on both images of a frame with the
    per-region threshold controller, the push of adapted thresholds into the
    detectors, and the adaptive descriptor-distance bound of `initialize`. */
module StereoFramePointGeneration {
  import opened Casts
  import opened Wrappers
  import opened Features
  import opened DetectorGrids

  /** The only descriptor type the configuration accepts. */
  const ORB_256: string := "ORB-256"

  /** Descriptor distance a match must stay under: a tenth of the 256-bit
      ORB descriptor's largest distance. */
  const BOOTSTRAP_DESCRIPTOR_DISTANCE: real := 0.1 * 256.0

  datatype ConfigError = UnsupportedDescriptorType(descriptorType: string)

  datatype StereoFramePointGeneratorCfg = StereoFramePointGeneratorCfg(
    numberOfDetectorsVertical: nat,
    numberOfDetectorsHorizontal: nat,
    targetNumberOfKeypointsTolerance: real,
    detectorThresholdMaximumChange: real,
    detectorThresholdInitial: nat,
    detectorThresholdMinimum: nat,
    detectorThresholdMaximum: nat,
    binSizePixels: nat,
    maximumMatchingDistanceTriangulation: int,
    descriptorType: string,
    maximumEpipolarSearchOffsetPixels: int)
  {
    static function Default(): StereoFramePointGeneratorCfg
    {
      StereoFramePointGeneratorCfg(
        numberOfDetectorsVertical := 1,
        numberOfDetectorsHorizontal := 1,
        targetNumberOfKeypointsTolerance := 0.1,
        detectorThresholdMaximumChange := 0.5,
        detectorThresholdInitial := 15,
        detectorThresholdMinimum := 15,
        detectorThresholdMaximum := 100,
        binSizePixels := 25,
        maximumMatchingDistanceTriangulation := CastF32ToI32(0.2 * 256.0),
        descriptorType := ORB_256,
        maximumEpipolarSearchOffsetPixels := 0)
    }

    /** Builds the generator for images of `width × height` pixels: the
        detector grid, the keypoint targets, the descriptor binding and the
        epipolar offsets. An unknown descriptor type is refused. */
    method Finalize(width: nat, height: nat) returns (result: Result<StereoFramePointGenerator, ConfigError>)
      requires binSizePixels > 0
      ensures result.Err? <==> descriptorType != ORB_256
      ensures result.Err? ==> result.error == UnsupportedDescriptorType(descriptorType)
      ensures result.Ok? ==>
        var g := result.value;
        && fresh(g) && g.Valid()
        && |g.detectors| == numberOfDetectorsVertical
        && (forall r :: 0 <= r < numberOfDetectorsVertical ==> |g.detectors[r]| == numberOfDetectorsHorizontal)
        && (forall r, c :: 0 <= r < numberOfDetectorsVertical && 0 <= c < numberOfDetectorsHorizontal ==>
              g.detectors[r][c] == RegionDetector(CastUsizeToI32(detectorThresholdMinimum),
                RegionRect(r, c, numberOfDetectorsVertical, numberOfDetectorsHorizontal, width, height),
                detectorThresholdMinimum as real))
        && g.targetNumberOfKeypoints == TargetNumberOfKeypoints(width, height, binSizePixels)
        && (numberOfDetectorsVertical * numberOfDetectorsHorizontal > 0 ==>
              g.targetNumberOfKeypointsPerDetector ==
                TargetPerRegion(g.targetNumberOfKeypoints, numberOfDetectorsVertical * numberOfDetectorsHorizontal))
        && g.targetNumberOfKeypointsTolerance == targetNumberOfKeypointsTolerance
        && g.detectorThresholdMaximumChange == detectorThresholdMaximumChange
        && g.detectorThresholdMinimum == detectorThresholdMinimum as real
        && g.numberOfDetectedKeypoints == 0
        && g.currentMaximumDescriptorDistanceTriangulation == BOOTSTRAP_DESCRIPTOR_DISTANCE
        && g.epipolarSearchDistance == EpipolarOffsets(maximumEpipolarSearchOffsetPixels)
    {
      var detectors := BuildDetectorGrid(numberOfDetectorsVertical, numberOfDetectorsHorizontal,
                                         width, height, detectorThresholdMinimum);
      var numberOfDetectors := numberOfDetectorsHorizontal * numberOfDetectorsVertical;
      var targetNumberOfKeypoints := TargetNumberOfKeypoints(width, height, binSizePixels);
      var targetNumberOfKeypointsPerDetector :=
        if numberOfDetectors > 0 then TargetPerRegion(targetNumberOfKeypoints, numberOfDetectors) else 0.0;
      if descriptorType != ORB_256 {
        return Err(UnsupportedDescriptorType(descriptorType));
      }
      var epipolarSearchOffsetPixels := BuildEpipolarOffsets(maximumEpipolarSearchOffsetPixels);
      if HasRegion(detectors) {
        var r :| 0 <= r < |detectors| && detectors[r] != [];
        assert numberOfDetectors > 0;
      }
      var g := new StereoFramePointGenerator(
        detectors, targetNumberOfKeypoints, targetNumberOfKeypointsPerDetector,
        targetNumberOfKeypointsTolerance, detectorThresholdMaximumChange,
        detectorThresholdMinimum as real, BOOTSTRAP_DESCRIPTOR_DISTANCE, epipolarSearchOffsetPixels);
      result := Ok(g);
    }
  }

  /** The default configuration is a single region covering the whole image,
      whose stored and live thresholds start at the minimum of 15; its
      matching-distance setting `(0.2·256) as i32` is 51. */
  lemma DefaultConfiguration(width: nat, height: nat)
    requires width <= I32_MAX && height <= I32_MAX
    ensures var cfg := StereoFramePointGeneratorCfg.Default();
      && cfg.numberOfDetectorsVertical * cfg.numberOfDetectorsHorizontal == 1
      && RegionRect(0, 0, cfg.numberOfDetectorsVertical, cfg.numberOfDetectorsHorizontal, width, height)
           == Rect(0, 0, width, height)
      && CastUsizeToI32(cfg.detectorThresholdMinimum) == 15
      && cfg.maximumMatchingDistanceTriangulation == 51
      && TargetPerRegion(TargetNumberOfKeypoints(width, height, cfg.binSizePixels), 1)
           == ((width / 25 + 1) * (height / 25 + 1)) as real
      && EpipolarOffsets(cfg.maximumEpipolarSearchOffsetPixels) == [0]
  {
    RegionRectClosedForm(0, 0, 1, 1, width, height);
    assert Trunc(0.2 * 256.0) == 51;
  }

  // ---------------------------------------------------------------------------
  // Epipolar offsets

  /** The epipolar row offsets in search order: 0, then `i, −i` for
      `i = 1 .. maximum − 1`. */
  function EpipolarOffsets(maximum: int): (offsets: seq<int>)
    ensures |offsets| == 1 + 2 * (if maximum > 1 then maximum - 1 else 0)
    ensures forall k :: 0 <= k < |offsets| ==>
      offsets[k] == (if k % 2 == 1 then (k + 1) / 2 else -(k / 2))
    decreases if maximum > 1 then maximum else 1
  {
    if maximum <= 1 then [0] else EpipolarOffsets(maximum - 1) + [maximum - 1, -(maximum - 1)]
  }

  /** Every offset strictly between `−maximum` and `maximum` is tried
      exactly once, and nothing else (only 0 when `maximum <= 1`). */
  lemma EpipolarOffsetsCoverBand(maximum: int)
    ensures forall k :: k in EpipolarOffsets(maximum) <==> k == 0 || -maximum < k < maximum
    ensures forall i, j :: 0 <= i < j < |EpipolarOffsets(maximum)| ==>
      EpipolarOffsets(maximum)[i] != EpipolarOffsets(maximum)[j]
  {
    var offsets := EpipolarOffsets(maximum);
    forall k | k == 0 || -maximum < k < maximum
      ensures k in offsets
    {
      var index := if k > 0 then 2 * k - 1 else -2 * k;
      assert offsets[index] == k;
    }
  }

  /** The push loop of `finalize` that builds the offset list. */
  method BuildEpipolarOffsets(maximum: int) returns (offsets: seq<int>)
    ensures offsets == EpipolarOffsets(maximum)
  {
    offsets := [0];
    var i := 1;
    while i < maximum
      invariant 1 <= i <= (if maximum > 1 then maximum else 1)
      invariant offsets == EpipolarOffsets(i)
    {
      offsets := offsets + [i];
      offsets := offsets + [-i];
      assert offsets == EpipolarOffsets(i) + [i, -i];
      i := i + 1;
    }
    if maximum <= 1 {
      assert EpipolarOffsets(maximum) == [0] == EpipolarOffsets(1);
    }
  }

  // ---------------------------------------------------------------------------
  // The frame and its status

  datatype FrameStatus = Localizing | Tracking

  /** One stereo frame: both images, their keypoints and descriptors, the
      averaged keypoint count, and the lifecycle status. */
  class Frame {
    var keypointsLeft: seq<KeyPoint>
    var keypointsRight: seq<KeyPoint>
    var descriptorsLeft: seq<Descriptor>
    var descriptorsRight: seq<Descriptor>
    var intensityImageLeft: Image
    var intensityImageRight: Image
    var numberOfDetectedKeypoints: nat
    var status: FrameStatus

    /** A new frame holds no keypoints or descriptors and is localizing. */
    constructor (intensityImageLeft: Image, intensityImageRight: Image)
      ensures this.intensityImageLeft == intensityImageLeft
      ensures this.intensityImageRight == intensityImageRight
      ensures keypointsLeft == [] && keypointsRight == []
      ensures descriptorsLeft == [] && descriptorsRight == []
      ensures numberOfDetectedKeypoints == 0
      ensures status == Localizing
    {
      keypointsLeft := [];
      keypointsRight := [];
      descriptorsLeft := [];
      descriptorsRight := [];
      this.intensityImageLeft := intensityImageLeft;
      this.intensityImageRight := intensityImageRight;
      numberOfDetectedKeypoints := 0;
      status := Localizing;
    }
  }

  // ---------------------------------------------------------------------------
  // The descriptor-distance bound

  /** The share of the keypoint target that was detected, capped at 1. */
  function AvailableRatio(detected: nat, target: real): (ratio: real)
    requires target > 0.0
    ensures 0.0 <= ratio <= 1.0
    ensures detected as real >= target ==> ratio == 1.0
    ensures detected as real < target ==> ratio * target == detected as real
  {
    QuotientFacts(detected as real, target);
    Min(detected as real / target, 1.0)
  }

  lemma QuotientFacts(a: real, t: real)
    requires a >= 0.0 && t > 0.0
    ensures (a / t) * t == a
    ensures a / t >= 0.0
    ensures a >= t ==> a / t >= 1.0
  {
    var q := a / t;
    assert q * t == a;
    assert 0.0 * t == 0.0 && 1.0 * t == t;
    ScaleOrder(0.0, q, t);
    ScaleOrder(1.0, q, t);
  }

  /** The bound for the next matching pass: reset when localizing; when
      tracking, the previous bound scaled by the share of the target that
      was detected (at most 1), but never below the bootstrap bound. */
  function NextMaximumDescriptorDistance(status: FrameStatus, detected: nat, target: real, previous: real): (next: real)
    requires target > 0.0
    ensures next >= BOOTSTRAP_DESCRIPTOR_DISTANCE
    ensures status == Localizing ==> next == BOOTSTRAP_DESCRIPTOR_DISTANCE
    ensures previous >= 0.0 ==> next <= Max(previous, BOOTSTRAP_DESCRIPTOR_DISTANCE)
    ensures status == Tracking && detected as real >= target ==> next == Max(previous, BOOTSTRAP_DESCRIPTOR_DISTANCE)
    ensures status == Tracking && detected as real < target ==>
      next * target == Max(detected as real * previous, BOOTSTRAP_DESCRIPTOR_DISTANCE * target)
  {
    if status == Localizing then BOOTSTRAP_DESCRIPTOR_DISTANCE
    else
      var ratioAvailablePoints := AvailableRatio(detected, target);
      assert previous >= 0.0 ==> ratioAvailablePoints * previous <= previous by {
        if previous >= 0.0 {
          ScaleMonotone(ratioAvailablePoints, 1.0, previous);
        }
      }
      ScaledBound(ratioAvailablePoints, detected as real, target, previous);
      Max(ratioAvailablePoints * previous, BOOTSTRAP_DESCRIPTOR_DISTANCE)
  }

  /** A bound scaled by `ratio = detected / target` and floored, multiplied
      back by the target. */
  lemma ScaledBound(ratio: real, detected: real, target: real, previous: real)
    requires target > 0.0
    ensures detected < target && ratio * target == detected ==>
      Max(ratio * previous, BOOTSTRAP_DESCRIPTOR_DISTANCE) * target
        == Max(detected * previous, BOOTSTRAP_DESCRIPTOR_DISTANCE * target)
  {
    if detected < target && ratio * target == detected {
      var scaled := ratio * previous;
      assert scaled * target == (ratio * target) * previous;
      ScaleOrder(scaled, BOOTSTRAP_DESCRIPTOR_DISTANCE, target);
    }
  }

  /** Starting from the bootstrap bound, the bound never moves: it is pinned
      at `0.1·256` whatever the status and counts. */
  lemma DescriptorDistancePinned(status: FrameStatus, detected: nat, target: real)
    requires target > 0.0
    ensures NextMaximumDescriptorDistance(status, detected, target, BOOTSTRAP_DESCRIPTOR_DISTANCE)
      == BOOTSTRAP_DESCRIPTOR_DISTANCE
  {
  }

  /** The averaged keypoint count of a frame, in `usize` division. */
  function AverageKeypointCount(left: seq<KeyPoint>, right: seq<KeyPoint>): (n: nat)
    ensures 2 * n <= |left| + |right| < 2 * n + 2
  {
    (|left| + |right|) / 2
  }

  // ---------------------------------------------------------------------------
  // The generator

  class StereoFramePointGenerator {
    var detectors: Grid
    const targetNumberOfKeypoints: real
    const targetNumberOfKeypointsPerDetector: real
    const targetNumberOfKeypointsTolerance: real
    const detectorThresholdMaximumChange: real
    const detectorThresholdMinimum: real
    var numberOfDetectedKeypoints: nat
    var currentMaximumDescriptorDistanceTriangulation: real
    const epipolarSearchDistance: seq<int>

    /** The generator's invariant: positive targets, a whole-number minimum
        that no threshold is below (when it fits in `i32`), and the
        descriptor-distance bound at its bootstrap value. */
    ghost predicate Valid()
      reads this
    {
      && targetNumberOfKeypoints >= 1.0
      && (HasRegion(detectors) ==> targetNumberOfKeypointsPerDetector > 0.0)
      && detectorThresholdMinimum >= 0.0
      && detectorThresholdMinimum == detectorThresholdMinimum.Floor as real
      && (detectorThresholdMinimum <= I32_MAX as real ==> AtLeastMinimum(detectors, detectorThresholdMinimum))
      && currentMaximumDescriptorDistanceTriangulation == BOOTSTRAP_DESCRIPTOR_DISTANCE
    }

    function ControllerOf(): Controller
      reads this
    {
      Controller(targetNumberOfKeypointsPerDetector, targetNumberOfKeypointsTolerance,
                 detectorThresholdMaximumChange, detectorThresholdMinimum)
    }

    constructor (detectors: Grid, targetNumberOfKeypoints: real, targetNumberOfKeypointsPerDetector: real,
                 targetNumberOfKeypointsTolerance: real, detectorThresholdMaximumChange: real,
                 detectorThresholdMinimum: real, currentMaximumDescriptorDistanceTriangulation: real,
                 epipolarSearchDistance: seq<int>)
      ensures this.detectors == detectors
      ensures this.targetNumberOfKeypoints == targetNumberOfKeypoints
      ensures this.targetNumberOfKeypointsPerDetector == targetNumberOfKeypointsPerDetector
      ensures this.targetNumberOfKeypointsTolerance == targetNumberOfKeypointsTolerance
      ensures this.detectorThresholdMaximumChange == detectorThresholdMaximumChange
      ensures this.detectorThresholdMinimum == detectorThresholdMinimum
      ensures this.numberOfDetectedKeypoints == 0
      ensures this.currentMaximumDescriptorDistanceTriangulation == currentMaximumDescriptorDistanceTriangulation
      ensures this.epipolarSearchDistance == epipolarSearchDistance
    {
      this.detectors := detectors;
      this.targetNumberOfKeypoints := targetNumberOfKeypoints;
      this.targetNumberOfKeypointsPerDetector := targetNumberOfKeypointsPerDetector;
      this.targetNumberOfKeypointsTolerance := targetNumberOfKeypointsTolerance;
      this.detectorThresholdMaximumChange := detectorThresholdMaximumChange;
      this.detectorThresholdMinimum := detectorThresholdMinimum;
      this.numberOfDetectedKeypoints := 0;
      this.currentMaximumDescriptorDistanceTriangulation := currentMaximumDescriptorDistanceTriangulation;
      this.epipolarSearchDistance := epipolarSearchDistance;
    }

    /** Detects on every region of `image` at its detector's live threshold,
        stores the controller's new threshold for every region, and returns
        the keypoints in image coordinates, row-major. */
    method DetectKeypoints(image: Image, fast: FastDetection) returns (keypoints: seq<KeyPoint>)
      requires Valid()
      modifies this`detectors
      ensures Valid()
      ensures keypoints == DetectGrid(old(detectors), image, fast)
      ensures detectors == AdaptGrid(old(detectors), image, fast, ControllerOf())
    {
      var adapted;
      keypoints, adapted := Detect(detectors, image, fast, ControllerOf());
      if detectorThresholdMinimum <= I32_MAX as real {
        AdaptKeepsMinimum(detectors, image, fast, ControllerOf());
      }
      detectors := adapted;
    }

    /** Pushes every region's stored threshold into its detector. */
    method AdjustDetectorThresholds()
      requires Valid()
      modifies this`detectors
      ensures Valid()
      ensures detectors == PushThresholds(old(detectors))
    {
      var r := 0;
      while r < |detectors|
        invariant r <= |detectors| && |detectors| == |old(detectors)|
        invariant forall i :: 0 <= i < r ==> detectors[i] == PushThresholds(old(detectors))[i]
        invariant forall i :: r <= i < |detectors| ==> detectors[i] == old(detectors)[i]
      {
        var c := 0;
        while c < |detectors[r]|
          invariant |detectors| == |old(detectors)| && |detectors[r]| == |old(detectors)[r]|
          invariant c <= |detectors[r]|
          invariant forall i :: 0 <= i < r ==> detectors[i] == PushThresholds(old(detectors))[i]
          invariant forall i :: r < i < |detectors| ==> detectors[i] == old(detectors)[i]
          invariant forall j :: 0 <= j < c ==>
            detectors[r][j] == old(detectors)[r][j].(detectorThreshold := CastF32ToI32(old(detectors)[r][j].threshold))
          invariant forall j :: c <= j < |detectors[r]| ==> detectors[r][j] == old(detectors)[r][j]
        {
          var d := detectors[r][c];
          detectors := detectors[r := detectors[r][c := d.(detectorThreshold := CastF32ToI32(d.threshold))]];
          c := c + 1;
        }
        assert detectors[r] == PushThresholds(old(detectors))[r];
        r := r + 1;
      }
      assert detectors == PushThresholds(old(detectors));
      PushKeepsRegions(old(detectors));
      if detectorThresholdMinimum <= I32_MAX as real {
        PushKeepsMinimum(old(detectors), detectorThresholdMinimum.Floor);
      }
    }

    /** The detection half of `initialize`: the left image, then the right
        one, at the same live thresholds; then the push, which leaves the
        right image's adaptation in force. */
    method DetectStereoPair(imageLeft: Image, imageRight: Image, fast: FastDetection)
      returns (left: seq<KeyPoint>, right: seq<KeyPoint>)
      requires Valid()
      modifies this`detectors
      ensures Valid()
      ensures left == DetectGrid(old(detectors), imageLeft, fast)
      ensures right == DetectGrid(old(detectors), imageRight, fast)
      ensures detectors == PushThresholds(AdaptGrid(old(detectors), imageRight, fast, ControllerOf()))
    {
      ghost var start := detectors;
      left := DetectKeypoints(imageLeft, fast);
      right := DetectKeypoints(imageRight, fast);
      SecondDetectionOverwritesFirst(start, imageLeft, imageRight, fast, ControllerOf());
      AdjustDetectorThresholds();
    }

    /** The bound update at the end of `initialize`. */
    method UpdateMaximumDescriptorDistance(status: FrameStatus)
      requires Valid()
      modifies this`currentMaximumDescriptorDistanceTriangulation
      ensures Valid()
      ensures currentMaximumDescriptorDistanceTriangulation == NextMaximumDescriptorDistance(
        status, numberOfDetectedKeypoints, targetNumberOfKeypoints, old(currentMaximumDescriptorDistanceTriangulation))
    {
      if status == Localizing {
        currentMaximumDescriptorDistanceTriangulation := BOOTSTRAP_DESCRIPTOR_DISTANCE;
      } else {
        var ratioAvailablePoints := AvailableRatio(numberOfDetectedKeypoints, targetNumberOfKeypoints);
        currentMaximumDescriptorDistanceTriangulation :=
          Max(ratioAvailablePoints * currentMaximumDescriptorDistanceTriangulation, BOOTSTRAP_DESCRIPTOR_DISTANCE);
      }
      DescriptorDistancePinned(status, numberOfDetectedKeypoints, targetNumberOfKeypoints);
    }

    /** Prepares a frame: when `extractFeatures` is set, detects on the left
        and then the right image, pushes the thresholds, records the average
        keypoint count, computes descriptors on both sides and updates the
        descriptor-distance bound from the frame's status. */
    method Initialize(frame: Frame, extractFeatures: bool, fast: FastDetection, describe: DescriptorExtraction)
      requires Valid()
      modifies this, frame
      ensures Valid()
      ensures !extractFeatures ==> unchanged(this) && unchanged(frame)
      ensures extractFeatures ==>
        var left := DetectGrid(old(detectors), old(frame.intensityImageLeft), fast);
        var right := DetectGrid(old(detectors), old(frame.intensityImageRight), fast);
        && detectors == PushThresholds(AdaptGrid(old(detectors), old(frame.intensityImageRight), fast, ControllerOf()))
        && numberOfDetectedKeypoints == AverageKeypointCount(left, right)
        && frame.numberOfDetectedKeypoints == numberOfDetectedKeypoints
        && (frame.keypointsLeft, frame.descriptorsLeft) == describe(old(frame.intensityImageLeft), left)
        && (frame.keypointsRight, frame.descriptorsRight) == describe(old(frame.intensityImageRight), right)
        && currentMaximumDescriptorDistanceTriangulation == NextMaximumDescriptorDistance(
             old(frame.status), numberOfDetectedKeypoints, targetNumberOfKeypoints,
             old(currentMaximumDescriptorDistanceTriangulation))
        && frame.intensityImageLeft == old(frame.intensityImageLeft)
        && frame.intensityImageRight == old(frame.intensityImageRight)
        && frame.status == old(frame.status)
    {
      if extractFeatures {
        var left, right := DetectStereoPair(frame.intensityImageLeft, frame.intensityImageRight, fast);

        numberOfDetectedKeypoints := AverageKeypointCount(left, right);
        frame.numberOfDetectedKeypoints := numberOfDetectedKeypoints;

        var described := describe(frame.intensityImageLeft, left);
        frame.keypointsLeft, frame.descriptorsLeft := described.0, described.1;
        described := describe(frame.intensityImageRight, right);
        frame.keypointsRight, frame.descriptorsRight := described.0, described.1;

        UpdateMaximumDescriptorDistance(frame.status);
      }
    }
  }
}
