/** The earlier, single-image keypoint generator: the same detector grid and
    threshold controller as the stereo generator, without descriptors,
    epipolar offsets or a per-frame keypoint count. */
module FramePointGeneration {
  import opened Casts
  import opened Features
  import opened DetectorGrids

  datatype FramePointGeneratorCfg = FramePointGeneratorCfg(
    numberOfDetectorsVertical: nat,
    numberOfDetectorsHorizontal: nat,
    targetNumberOfKeypointsTolerance: real,
    detectorThresholdMaximumChange: real,
    detectorThresholdInitial: nat,
    detectorThresholdMinimum: nat,
    detectorThresholdMaximum: nat,
    binSizePixels: nat)
  {
    static function Default(): FramePointGeneratorCfg
    {
      FramePointGeneratorCfg(
        numberOfDetectorsVertical := 1,
        numberOfDetectorsHorizontal := 1,
        targetNumberOfKeypointsTolerance := 0.1,
        detectorThresholdMaximumChange := 0.5,
        detectorThresholdInitial := 15,
        detectorThresholdMinimum := 15,
        detectorThresholdMaximum := 100,
        binSizePixels := 25)
    }

    /** Builds the generator for images of `width × height` pixels: every
        region of the grid starts at the minimum threshold, and the
        per-region target is the image's bin count shared over the regions. */
    method Finalize(width: nat, height: nat) returns (g: FramePointGenerator)
      requires binSizePixels > 0
      ensures fresh(g) && g.Valid()
      ensures |g.detectors| == numberOfDetectorsVertical
      ensures forall r :: 0 <= r < numberOfDetectorsVertical ==> |g.detectors[r]| == numberOfDetectorsHorizontal
      ensures forall r, c :: 0 <= r < numberOfDetectorsVertical && 0 <= c < numberOfDetectorsHorizontal ==>
        g.detectors[r][c] == RegionDetector(CastUsizeToI32(detectorThresholdMinimum),
          RegionRect(r, c, numberOfDetectorsVertical, numberOfDetectorsHorizontal, width, height),
          detectorThresholdMinimum as real)
      ensures numberOfDetectorsVertical * numberOfDetectorsHorizontal > 0 ==>
        g.targetNumberOfKeypointsPerDetector ==
          TargetPerRegion(TargetNumberOfKeypoints(width, height, binSizePixels),
                          numberOfDetectorsVertical * numberOfDetectorsHorizontal)
      ensures g.targetNumberOfKeypointsTolerance == targetNumberOfKeypointsTolerance
      ensures g.detectorThresholdMaximumChange == detectorThresholdMaximumChange
      ensures g.detectorThresholdMinimum == detectorThresholdMinimum as real
    {
      var detectors := BuildDetectorGrid(numberOfDetectorsVertical, numberOfDetectorsHorizontal,
                                         width, height, detectorThresholdMinimum);
      var numberOfDetectors := numberOfDetectorsHorizontal * numberOfDetectorsVertical;
      var targetNumberOfKeypoints := TargetNumberOfKeypoints(width, height, binSizePixels);
      var targetNumberOfKeypointsPerDetector :=
        if numberOfDetectors > 0 then TargetPerRegion(targetNumberOfKeypoints, numberOfDetectors) else 0.0;
      if HasRegion(detectors) {
        var r :| 0 <= r < |detectors| && detectors[r] != [];
        assert numberOfDetectors > 0;
      }
      g := new FramePointGenerator(detectors, targetNumberOfKeypointsPerDetector,
                                   targetNumberOfKeypointsTolerance, detectorThresholdMaximumChange,
                                   detectorThresholdMinimum as real);
    }
  }

  class FramePointGenerator {
    var detectors: Grid
    const targetNumberOfKeypointsPerDetector: real
    const targetNumberOfKeypointsTolerance: real
    const detectorThresholdMaximumChange: real
    const detectorThresholdMinimum: real

    /** A positive per-region target whenever there is a region to detect
        in, and a whole-number minimum no threshold falls below. */
    ghost predicate Valid()
      reads this
    {
      && (HasRegion(detectors) ==> targetNumberOfKeypointsPerDetector > 0.0)
      && detectorThresholdMinimum >= 0.0
      && (detectorThresholdMinimum <= I32_MAX as real ==> AtLeastMinimum(detectors, detectorThresholdMinimum))
    }

    function ControllerOf(): Controller
      reads this
    {
      Controller(targetNumberOfKeypointsPerDetector, targetNumberOfKeypointsTolerance,
                 detectorThresholdMaximumChange, detectorThresholdMinimum)
    }

    constructor (detectors: Grid, targetNumberOfKeypointsPerDetector: real,
                 targetNumberOfKeypointsTolerance: real, detectorThresholdMaximumChange: real,
                 detectorThresholdMinimum: real)
      ensures this.detectors == detectors
      ensures this.targetNumberOfKeypointsPerDetector == targetNumberOfKeypointsPerDetector
      ensures this.targetNumberOfKeypointsTolerance == targetNumberOfKeypointsTolerance
      ensures this.detectorThresholdMaximumChange == detectorThresholdMaximumChange
      ensures this.detectorThresholdMinimum == detectorThresholdMinimum
    {
      this.detectors := detectors;
      this.targetNumberOfKeypointsPerDetector := targetNumberOfKeypointsPerDetector;
      this.targetNumberOfKeypointsTolerance := targetNumberOfKeypointsTolerance;
      this.detectorThresholdMaximumChange := detectorThresholdMaximumChange;
      this.detectorThresholdMinimum := detectorThresholdMinimum;
    }

    /** Detects on every region of `image` at its live threshold, stores
        each region's new threshold, and returns the keypoints in image
        coordinates, row-major. */
    method DetectKeypoints(image: Image, fast: FastDetection) returns (keypoints: seq<KeyPoint>)
      requires Valid()
      modifies this`detectors
      ensures Valid()
      ensures keypoints == DetectGrid(old(detectors), image, fast)
      ensures detectors == AdaptGrid(old(detectors), image, fast, ControllerOf())
    {
      var adapted;
      keypoints, adapted := Detect(detectors, image, fast, ControllerOf());
      if detectorThresholdMinimum <= I32_MAX as real {
        AdaptKeepsMinimum(detectors, image, fast, ControllerOf());
      }
      detectors := adapted;
    }
  }

  /** The default configuration finalises to one region covering the whole
      image, with a per-region target equal to the image's bin count. */
  lemma DefaultConfiguration(width: nat, height: nat)
    requires width <= I32_MAX && height <= I32_MAX
    ensures var cfg := FramePointGeneratorCfg.Default();
      && cfg.numberOfDetectorsVertical * cfg.numberOfDetectorsHorizontal == 1
      && RegionRect(0, 0, cfg.numberOfDetectorsVertical, cfg.numberOfDetectorsHorizontal, width, height)
           == Rect(0, 0, width, height)
      && CastUsizeToI32(cfg.detectorThresholdMinimum) == 15
      && TargetPerRegion(TargetNumberOfKeypoints(width, height, cfg.binSizePixels), 1)
           == ((width / 25 + 1) * (height / 25 + 1)) as real
  {
    RegionRectClosedForm(0, 0, 1, 1, width, height);
  }
}
