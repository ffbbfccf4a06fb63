/**
 * Feature extraction over a window of frames (`extract_advanced_features`),
 * restricted to the features that are exact: the hand trajectories, the
 * sequence of hand shapes, the two-hands flag, the dominant hand and the
 * movement direction.
 */
module Features {

  import opened Options
  import opened Landmarks
  import opened HandShape
  import opened Movement

  datatype Side = Left | Right

  datatype Dominance = LeftDominant | RightDominant | BothHands

  datatype Features = Features(
    leftTrajectory: seq<Vec3>,
    rightTrajectory: seq<Vec3>,
    shapeSequence: seq<(Side, Shape)>,
    twoHands: bool,
    dominantHand: Dominance,
    movementDirection: Option<Direction>)

  /** Fewer frames than this yield no features at all. */
  const MIN_FRAMES: nat := 3

  /** The direction is computed only from more positions than this. */
  const MIN_DIRECTION_POSITIONS: nat := 2

  /** The hand seen in more frames dominates; equal counts mean both. */
  function DominantHand(leftCount: nat, rightCount: nat): (d: Dominance)
    ensures d == LeftDominant <==> leftCount > rightCount
    ensures d == RightDominant <==> rightCount > leftCount
    ensures d == BothHands <==> leftCount == rightCount
  {
    if leftCount > rightCount then LeftDominant
    else if rightCount > leftCount then RightDominant
    else BothHands
  }

  /** Centres of the left hands, one per frame that shows a left hand, in frame order. */
  function LeftCenters(frames: seq<Frame>): (cs: seq<Vec3>)
    ensures |cs| <= |frames|
  {
    if frames == [] then []
    else
      var init, f := LeftCenters(frames[..|frames| - 1]), frames[|frames| - 1];
      if HasLeft(f) then init + [HandCenter(f.leftHand)] else init
  }

  function RightCenters(frames: seq<Frame>): (cs: seq<Vec3>)
    ensures |cs| <= |frames|
  {
    if frames == [] then []
    else
      var init, f := RightCenters(frames[..|frames| - 1]), frames[|frames| - 1];
      if HasRight(f) then init + [HandCenter(f.rightHand)] else init
  }

  /** Per frame, the shape of its left hand and then of its right hand, when present. */
  function ShapeSequence(frames: seq<Frame>): (ss: seq<(Side, Shape)>)
    ensures |ss| <= 2 * |frames|
  {
    if frames == [] then []
    else
      var init, f := ShapeSequence(frames[..|frames| - 1]), frames[|frames| - 1];
      init
        + (if HasLeft(f) then [(Left, ShapeOf(f.leftHand))] else [])
        + (if HasRight(f) then [(Right, ShapeOf(f.rightHand))] else [])
  }

  /** How many entries of a shape sequence belong to the given hand. */
  function CountSide(ss: seq<(Side, Shape)>, side: Side): (n: nat)
    ensures n <= |ss|
  {
    if ss == [] then 0
    else CountSide(ss[..|ss| - 1], side) + (if ss[|ss| - 1].0 == side then 1 else 0)
  }

  lemma {:induction false} CountSideAppend(a: seq<(Side, Shape)>, b: seq<(Side, Shape)>, side: Side)
    ensures CountSide(a + b, side) == CountSide(a, side) + CountSide(b, side)
  {
    if b != [] {
      CountSideAppend(a, b[..|b| - 1], side);
      assert (a + b)[..|a + b| - 1] == a + b[..|b| - 1];
    } else {
      assert a + b == a;
    }
  }

  /**
   * Each hand contributes one shape entry per trajectory point: the entries
   * tagged left are as many as the left centres, and likewise for the right.
   */
  lemma {:induction false} ShapesPerHand(frames: seq<Frame>)
    ensures CountSide(ShapeSequence(frames), Left) == |LeftCenters(frames)|
    ensures CountSide(ShapeSequence(frames), Right) == |RightCenters(frames)|
  {
    if frames != [] {
      var init, f := frames[..|frames| - 1], frames[|frames| - 1];
      ShapesPerHand(init);
      var l: seq<(Side, Shape)> := if HasLeft(f) then [(Left, ShapeOf(f.leftHand))] else [];
      var r: seq<(Side, Shape)> := if HasRight(f) then [(Right, ShapeOf(f.rightHand))] else [];
      assert ShapeSequence(frames) == ShapeSequence(init) + l + r;
      CountSideAppend(ShapeSequence(init) + l, r, Left);
      CountSideAppend(ShapeSequence(init), l, Left);
      CountSideAppend(ShapeSequence(init) + l, r, Right);
      CountSideAppend(ShapeSequence(init), l, Right);
      assert CountSide(l, Left) == |l| && CountSide(l, Right) == 0 by {
        if l != [] { assert l[..0] == []; }
      }
      assert CountSide(r, Right) == |r| && CountSide(r, Left) == 0 by {
        if r != [] { assert r[..0] == []; }
      }
    }
  }

  /** The features of a window, or `None` when it has fewer than three frames. */
  function FeaturesOf(frames: seq<Frame>): (r: Option<Features>)
    ensures r.None? <==> |frames| < MIN_FRAMES
  {
    if |frames| < MIN_FRAMES then None
    else
      var left, right := LeftCenters(frames), RightCenters(frames);
      var all := left + right;
      Some(Features(
        left, right, ShapeSequence(frames),
        |left| > 0 && |right| > 0,
        DominantHand(|left|, |right|),
        if |all| > MIN_DIRECTION_POSITIONS then MovementDirection(all) else None))
  }

  /**
   * The method form: one pass over the frames appending to the position
   * lists and the shape sequence, then the summary flags.
   */
  method ExtractFeatures(frames: seq<Frame>) returns (r: Option<Features>)
    ensures r == FeaturesOf(frames)
    ensures r.Some? ==> |r.value.leftTrajectory| + |r.value.rightTrajectory| == |r.value.shapeSequence|
  {
    if |frames| < MIN_FRAMES {
      return None;
    }
    var left: seq<Vec3> := [];
    var right: seq<Vec3> := [];
    var shapes: seq<(Side, Shape)> := [];
    for i := 0 to |frames|
      invariant left == LeftCenters(frames[..i])
      invariant right == RightCenters(frames[..i])
      invariant shapes == ShapeSequence(frames[..i])
      invariant |left| + |right| == |shapes|
    {
      assert frames[..i + 1][..i] == frames[..i];
      var frame := frames[i];
      if HasLeft(frame) {
        left := left + [HandCenter(frame.leftHand)];
        var shape := DetectHandShape(frame.leftHand);
        shapes := shapes + [(Left, shape)];
      }
      if HasRight(frame) {
        right := right + [HandCenter(frame.rightHand)];
        var shape := DetectHandShape(frame.rightHand);
        shapes := shapes + [(Right, shape)];
      }
    }
    assert frames[..|frames|] == frames;
    var twoHands := |left| > 0 && |right| > 0;
    var dominant := DominantHand(|left|, |right|);
    var all := left + right;
    var direction: Option<Direction> := None;
    if |all| > MIN_DIRECTION_POSITIONS {
      direction := MovementDirection(all);
    }
    r := Some(Features(left, right, shapes, twoHands, dominant, direction));
  }

  predicate SomeLeft(frames: seq<Frame>)
  {
    exists i :: 0 <= i < |frames| && HasLeft(frames[i])
  }

  predicate SomeRight(frames: seq<Frame>)
  {
    exists i :: 0 <= i < |frames| && HasRight(frames[i])
  }

  lemma {:induction false} LeftCentersEmpty(frames: seq<Frame>)
    ensures |LeftCenters(frames)| > 0 <==> SomeLeft(frames)
  {
    if frames != [] {
      var init := frames[..|frames| - 1];
      LeftCentersEmpty(init);
      if SomeLeft(init) {
        var i :| 0 <= i < |init| && HasLeft(init[i]);
        assert HasLeft(frames[i]);
      }
      if SomeLeft(frames) && !HasLeft(frames[|frames| - 1]) {
        var i :| 0 <= i < |frames| && HasLeft(frames[i]);
        assert HasLeft(init[i]);
      }
    }
  }

  lemma {:induction false} RightCentersEmpty(frames: seq<Frame>)
    ensures |RightCenters(frames)| > 0 <==> SomeRight(frames)
  {
    if frames != [] {
      var init := frames[..|frames| - 1];
      RightCentersEmpty(init);
      if SomeRight(init) {
        var i :| 0 <= i < |init| && HasRight(init[i]);
        assert HasRight(frames[i]);
      }
      if SomeRight(frames) && !HasRight(frames[|frames| - 1]) {
        var i :| 0 <= i < |frames| && HasRight(frames[i]);
        assert HasRight(init[i]);
      }
    }
  }

  /** `two_hands` holds exactly when some frame shows a left hand and some frame a right hand. */
  lemma TwoHandsIff(frames: seq<Frame>)
    requires |frames| >= MIN_FRAMES
    ensures FeaturesOf(frames).value.twoHands <==> SomeLeft(frames) && SomeRight(frames)
  {
    LeftCentersEmpty(frames);
    RightCentersEmpty(frames);
  }

  /**
   * A window has a movement direction exactly when its two trajectories
   * together hold more than two hand positions.
   */
  lemma DirectionPresence(frames: seq<Frame>)
    requires |frames| >= MIN_FRAMES
    ensures var f := FeaturesOf(frames).value;
      f.movementDirection.Some? <==> |f.leftTrajectory| + |f.rightTrajectory| > MIN_DIRECTION_POSITIONS
  {
    MovementDirectionCases(LeftCenters(frames) + RightCenters(frames));
  }

  /** The frames with their left and right hands exchanged. */
  function Mirror(frames: seq<Frame>): (m: seq<Frame>)
    ensures |m| == |frames|
    ensures forall i :: 0 <= i < |frames| ==>
      m[i] == Frame(frames[i].rightHand, frames[i].leftHand)
  {
    if frames == [] then []
    else
      var last := frames[|frames| - 1];
      Mirror(frames[..|frames| - 1]) + [Frame(last.rightHand, last.leftHand)]
  }

  function Swapped(d: Dominance): Dominance
  {
    match d
    case LeftDominant => RightDominant
    case RightDominant => LeftDominant
    case BothHands => BothHands
  }

  lemma {:induction false} MirrorCenters(frames: seq<Frame>)
    ensures LeftCenters(Mirror(frames)) == RightCenters(frames)
    ensures RightCenters(Mirror(frames)) == LeftCenters(frames)
  {
    if frames != [] {
      var init := frames[..|frames| - 1];
      MirrorCenters(init);
      assert Mirror(frames)[..|frames| - 1] == Mirror(init);
    }
  }

  /**
   * Exchanging the hands in every frame exchanges the dominant hand, keeps
   * the two-hands flag, and swaps the two trajectories.
   */
  lemma MirrorSwapsHands(frames: seq<Frame>)
    requires |frames| >= MIN_FRAMES
    ensures FeaturesOf(Mirror(frames)).value.dominantHand == Swapped(FeaturesOf(frames).value.dominantHand)
    ensures FeaturesOf(Mirror(frames)).value.twoHands == FeaturesOf(frames).value.twoHands
    ensures FeaturesOf(Mirror(frames)).value.leftTrajectory == FeaturesOf(frames).value.rightTrajectory
    ensures FeaturesOf(Mirror(frames)).value.rightTrajectory == FeaturesOf(frames).value.leftTrajectory
  {
    MirrorCenters(frames);
  }
}
