/**
 * Per-frame keypoint vector: the left-hand block followed by the right-hand
 * block, each the flattened (x, y, z) coordinates of the hand's landmarks, a
 * hand that was not detected contributing a block of zeros. Both Python
 * services assemble the vector the same way.
 */
module Keypoints {
  import opened Common

  const LandmarksPerHand := 21
  const CoordsPerLandmark := 3
  /** 21 * 3 = 63 values per hand. */
  const HandWidth := LandmarksPerHand * CoordsPerLandmark
  /** 126 values per frame. */
  const KeypointWidth := 2 * HandWidth

  datatype Landmark = Landmark(x: real, y: real, z: real)

  /**
   * What the landmark detector reports for one image: for each hand, nothing
   * or its list of landmarks. The detector itself is an oracle.
   */
  datatype Detection = Detection(leftHand: Option<seq<Landmark>>, rightHand: Option<seq<Landmark>>)

  /** Loading an image and running the landmark detector on it. */
  datatype ImageOutcome =
    | Unreadable                    // the image cannot be decoded
    | DetectorFailed                // the detector raised, or yielded no result
    | Detected(detection: Detection)

  /** The hand model of the detector reports 21 landmarks per detected hand. */
  predicate WellFormed(d: Detection) {
    && (d.leftHand.Some? ==> |d.leftHand.value| == LandmarksPerHand)
    && (d.rightHand.Some? ==> |d.rightHand.value| == LandmarksPerHand)
  }

  /** `[[l.x, l.y, l.z] for l in landmarks]` flattened. */
  function Flatten(lms: seq<Landmark>): (r: seq<real>)
    ensures |r| == CoordsPerLandmark * |lms|
    ensures forall j :: 0 <= j < |lms| ==>
              r[3 * j] == lms[j].x && r[3 * j + 1] == lms[j].y && r[3 * j + 2] == lms[j].z
  {
    if lms == [] then []
    else
      var last := lms[|lms| - 1];
      Flatten(lms[..|lms| - 1]) + [last.x, last.y, last.z]
  }

  function Zeros(n: nat): (r: seq<real>)
    ensures |r| == n
  {
    seq(n, _ => 0.0)
  }

  /** One hand's block: its flattened landmarks, or 63 zeros when absent. */
  function HandBlock(hand: Option<seq<Landmark>>): seq<real> {
    match hand
    case None => Zeros(HandWidth)
    case Some(lms) => Flatten(lms)
  }

  /** Width of a hand's block: 63 when absent, three per landmark otherwise. */
  function BlockWidth(hand: Option<seq<Landmark>>): nat {
    match hand
    case None => HandWidth
    case Some(lms) => CoordsPerLandmark * |lms|
  }

  /** `extract_keypoints`: the left block, then the right block. */
  function ExtractKeypoints(d: Detection): (r: seq<real>)
    ensures |r| == BlockWidth(d.leftHand) + BlockWidth(d.rightHand)
    ensures WellFormed(d) ==> |r| == KeypointWidth
    ensures d.leftHand.None? ==> forall i :: 0 <= i < HandWidth ==> r[i] == 0.0
    ensures d.rightHand.None? ==> forall i :: BlockWidth(d.leftHand) <= i < |r| ==> r[i] == 0.0
    ensures d.leftHand.Some? ==>
              var lms := d.leftHand.value;
              forall j :: 0 <= j < |lms| ==>
                r[3 * j] == lms[j].x && r[3 * j + 1] == lms[j].y && r[3 * j + 2] == lms[j].z
    ensures d.rightHand.Some? ==>
              var lms, off := d.rightHand.value, BlockWidth(d.leftHand);
              forall j :: 0 <= j < |lms| ==>
                r[off + 3 * j] == lms[j].x && r[off + 3 * j + 1] == lms[j].y && r[off + 3 * j + 2] == lms[j].z
  {
    HandBlock(d.leftHand) + HandBlock(d.rightHand)
  }

  /** `np.all(keypoints == 0)`. */
  predicate AllZero(v: seq<real>) {
    forall i :: 0 <= i < |v| ==> v[i] == 0.0
  }

  /** A hand contributes only zeros: it is absent, or every coordinate it reports is 0. */
  predicate SilentHand(hand: Option<seq<Landmark>>) {
    hand.Some? ==> forall j :: 0 <= j < |hand.value| ==> hand.value[j] == Landmark(0.0, 0.0, 0.0)
  }

  lemma AllZeroConcat(a: seq<real>, b: seq<real>)
    ensures AllZero(a + b) <==> AllZero(a) && AllZero(b)
  {
    if AllZero(a + b) {
      assert forall i :: 0 <= i < |a| ==> a[i] == (a + b)[i];
      assert forall i :: 0 <= i < |b| ==> b[i] == (a + b)[|a| + i];
    }
  }

  lemma {:induction false} FlattenAllZero(lms: seq<Landmark>)
    ensures AllZero(Flatten(lms)) <==> SilentHand(Some(lms))
  {
    if lms != [] {
      var init, last := lms[..|lms| - 1], lms[|lms| - 1];
      FlattenAllZero(init);
      AllZeroConcat(Flatten(init), [last.x, last.y, last.z]);
      assert forall j :: 0 <= j < |init| ==> init[j] == lms[j];
    }
  }

  /**
   * The vector is all zeros exactly when each hand is absent or reports only
   * zero coordinates; in particular an image with no detected hand gives an
   * all-zero vector.
   */
  lemma AllZeroIffSilent(d: Detection)
    ensures AllZero(ExtractKeypoints(d)) <==> SilentHand(d.leftHand) && SilentHand(d.rightHand)
  {
    var l, r := HandBlock(d.leftHand), HandBlock(d.rightHand);
    var v := ExtractKeypoints(d);
    assert v == l + r;
    AllZeroConcat(l, r);
    if d.leftHand.Some? { FlattenAllZero(d.leftHand.value); }
    if d.rightHand.Some? { FlattenAllZero(d.rightHand.value); }
  }
}
