/** The image-side values the core exchanges with its detection and
    description capabilities: keypoints, rectangles, images and descriptors. */
module Features {

  /** An OpenCV `KeyPoint`: a sub-pixel location plus metadata that the core
      carries along without reading. OpenCV's `class_id` is omitted: nothing
      in the core sets or reads it. */
  datatype KeyPoint = KeyPoint(x: real, y: real, size: real, angle: real, response: real, octave: int)

  /** An OpenCV `Rect`: top-left corner `(x, y)` and extent. */
  datatype Rect = Rect(x: int, y: int, width: int, height: int)

  /** A grayscale image; its pixels matter only to the capabilities. */
  datatype Image = Image(rows: nat, cols: nat, intensities: seq<bv8>)

  /** One row of a descriptor matrix. */
  type Descriptor = seq<bv8>

  /** FAST detection on the crop of an image to a region, at an integer
      threshold; the keypoints are in the crop's own coordinates. */
  type FastDetection = (Image, Rect, int) -> seq<KeyPoint>

  /** Descriptor computation: may rewrite the keypoints it is given and returns
      one descriptor row per keypoint it keeps. */
  type DescriptorExtraction = (Image, seq<KeyPoint>) -> (seq<KeyPoint>, seq<Descriptor>)

  /** Moves a keypoint by an integer offset, converted to `f32`. */
  function Shift(k: KeyPoint, dx: int, dy: int): (moved: KeyPoint)
    ensures moved.x - k.x == dx as real && moved.y - k.y == dy as real
    ensures moved.(x := 0.0, y := 0.0) == k.(x := 0.0, y := 0.0)
  {
    k.(x := k.x + dx as real, y := k.y + dy as real)
  }

  /** Region-local keypoints moved into image coordinates by adding the
      region's top-left corner. */
  function Translate(keypoints: seq<KeyPoint>, region: Rect): (moved: seq<KeyPoint>)
    ensures |moved| == |keypoints|
    ensures forall i :: 0 <= i < |keypoints| ==>
      moved[i].x - keypoints[i].x == region.x as real &&
      moved[i].y - keypoints[i].y == region.y as real &&
      moved[i].(x := 0.0, y := 0.0) == keypoints[i].(x := 0.0, y := 0.0)
  {
    seq(|keypoints|, i requires 0 <= i < |keypoints| => Shift(keypoints[i], region.x, region.y))
  }

  /** Translating back by the negated corner restores the region-local points. */
  lemma TranslateInverse(keypoints: seq<KeyPoint>, region: Rect)
    ensures Translate(Translate(keypoints, region), Rect(-region.x, -region.y, region.width, region.height)) == keypoints
  {
    var back := Translate(Translate(keypoints, region), Rect(-region.x, -region.y, region.width, region.height));
    assert |back| == |keypoints|;
    forall i | 0 <= i < |keypoints|
      ensures back[i] == keypoints[i]
    {
      assert back[i] == Shift(Shift(keypoints[i], region.x, region.y), -region.x, -region.y);
    }
  }

  /** Translation distributes over concatenation. */
  lemma TranslateAppend(a: seq<KeyPoint>, b: seq<KeyPoint>, region: Rect)
    ensures Translate(a + b, region) == Translate(a, region) + Translate(b, region)
  {
    assert forall i :: 0 <= i < |a + b| ==>
      Translate(a + b, region)[i] == (Translate(a, region) + Translate(b, region))[i];
  }

  /** A point lies inside a rectangle (half-open extent). */
  predicate Inside(k: KeyPoint, region: Rect)
  {
    region.x as real <= k.x < (region.x + region.width) as real &&
    region.y as real <= k.y < (region.y + region.height) as real
  }

  /** Points inside the crop end up inside the region once translated. */
  lemma TranslateInsideRegion(keypoints: seq<KeyPoint>, region: Rect)
    requires forall i :: 0 <= i < |keypoints| ==> Inside(keypoints[i], Rect(0, 0, region.width, region.height))
    ensures forall i :: 0 <= i < |keypoints| ==> Inside(Translate(keypoints, region)[i], region)
  {
  }
}
