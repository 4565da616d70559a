/** Handing a frame's keypoints and descriptors to the intensity matcher. */
module IntensityFeatureMatchers {
  import opened Wrappers
  import opened Features

  datatype MatcherError =
    | CountMismatch(keypoints: nat, descriptors: nat)
    | NotImplemented

  /** Refuses keypoints and descriptors of different counts; with matching
      counts, the matcher itself is not yet written and reports so. */
  function SetFeatures(keypoints: seq<KeyPoint>, descriptors: seq<Descriptor>): (r: Result<(), MatcherError>)
    ensures r.Err?
    ensures r.error.CountMismatch? <==> |keypoints| != |descriptors|
    ensures r.error.CountMismatch? ==> r.error == CountMismatch(|keypoints|, |descriptors|)
  {
    if |keypoints| != |descriptors| then Err(CountMismatch(|keypoints|, |descriptors|)) else Err(NotImplemented)
  }
}
