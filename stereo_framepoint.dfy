/** A stereo point: a left keypoint matched with a right keypoint, their
    descriptors, and the horizontal disparity between the two. */
module StereoFramepoints {
  import opened Features

  datatype StereoFramepoint = StereoFramepoint(
    keypointLeft: KeyPoint,
    keypointRight: KeyPoint,
    descriptorLeft: Descriptor,
    descriptorRight: Descriptor,
    disparityPixels: real)

  /** The constructor as it is written: the disparity subtracts the right
      keypoint's row coordinate from the left keypoint's column coordinate. */
  function NewAsWritten(kl: KeyPoint, kr: KeyPoint, dl: Descriptor, dr: Descriptor): (p: StereoFramepoint)
    ensures p.keypointLeft == kl && p.keypointRight == kr
    ensures p.descriptorLeft == dl && p.descriptorRight == dr
    ensures p.disparityPixels + kr.y == kl.x
  {
    StereoFramepoint(kl, kr, dl, dr, kl.x - kr.y)
  }

  /** The constructor with the intended disparity: the column offset of the
      left keypoint from its match on the right image. */
  function New(kl: KeyPoint, kr: KeyPoint, dl: Descriptor, dr: Descriptor): (p: StereoFramepoint)
    ensures p.keypointLeft == kl && p.keypointRight == kr
    ensures p.descriptorLeft == dl && p.descriptorRight == dr
    ensures p.disparityPixels + kr.x == kl.x
  {
    StereoFramepoint(kl, kr, dl, dr, kl.x - kr.x)
  }

  /** A point 50 pixels in on the left and 45 on the right, both on row 50,
      lies 5 pixels apart; the constructor as written reports 0. */
  lemma DisparityUsesRowCoordinate()
    ensures var kl := KeyPoint(50.0, 50.0, 7.0, 0.0, 0.0, 0);
            var kr := KeyPoint(45.0, 50.0, 7.0, 0.0, 0.0, 0);
            && New(kl, kr, [], []).disparityPixels == 5.0
            && NewAsWritten(kl, kr, [], []).disparityPixels == 0.0
  {
  }

  /** The two constructors agree exactly when the right keypoint lies on the
      diagonal, where its row equals its column. */
  lemma AsWrittenAgreesOnlyOnDiagonal(kl: KeyPoint, kr: KeyPoint, dl: Descriptor, dr: Descriptor)
    ensures NewAsWritten(kl, kr, dl, dr) == New(kl, kr, dl, dr) <==> kr.x == kr.y
  {
    if NewAsWritten(kl, kr, dl, dr) == New(kl, kr, dl, dr) {
      assert NewAsWritten(kl, kr, dl, dr).disparityPixels == New(kl, kr, dl, dr).disparityPixels;
    }
  }

  /** The intended disparity depends on columns only: moving both keypoints
      along their rows, or shifting both images sideways together, leaves
      it unchanged. */
  lemma DisparityIgnoresRows(kl: KeyPoint, kr: KeyPoint, dl: Descriptor, dr: Descriptor, dx: int, dy: int, ey: int)
    ensures New(Shift(kl, dx, dy), Shift(kr, dx, ey), dl, dr).disparityPixels == New(kl, kr, dl, dr).disparityPixels
  {
  }
}
