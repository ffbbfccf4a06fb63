/**
 * Hand landmarks and frames as the recogniser receives them, and the
 * landmark-count guard shared by its per-hand helpers.
 *
 * Coordinates are Dafny `real`s: the model uses idealised arithmetic where
 * the recogniser uses floating point.
 */
module Landmarks {

  /** A three-component coordinate: a landmark `[x, y, z]` or a hand centre. */
  datatype Vec3 = Vec3(x: real, y: real, z: real)

  /** The landmark list of one hand, in detector order. */
  type Hand = seq<Vec3>

  /**
   * One captured frame. An empty list stands for every falsy value the
   * recogniser's `frame.get(...)` can see: a missing key, `None` or `[]`.
   */
  datatype Frame = Frame(leftHand: Hand, rightHand: Hand)

  /** A complete hand has 21 landmarks; shorter lists are rejected by every helper. */
  const HAND_LANDMARKS: nat := 21
  const WRIST: nat := 0
  const MIDDLE_BASE: nat := 9

  const ORIGIN: Vec3 := Vec3(0.0, 0.0, 0.0)

  predicate IsFullHand(hand: Hand)
  {
    |hand| >= HAND_LANDMARKS
  }

  predicate HasLeft(frame: Frame)
  {
    |frame.leftHand| > 0
  }

  predicate HasRight(frame: Frame)
  {
    |frame.rightHand| > 0
  }

  /**
   * The hand centre: the midpoint of the wrist and the base of the middle
   * finger, or the origin when the hand has fewer than 21 landmarks.
   */
  function HandCenter(hand: Hand): (c: Vec3)
    ensures !IsFullHand(hand) ==> c == ORIGIN
  {
    if !IsFullHand(hand) then ORIGIN
    else
      var wrist, middleBase := hand[WRIST], hand[MIDDLE_BASE];
      Vec3((wrist.x + middleBase.x) / 2.0,
           (wrist.y + middleBase.y) / 2.0,
           (wrist.z + middleBase.z) / 2.0)
  }

  /** The centre lies halfway between the wrist and the middle-finger base; short hands give the origin. */
  lemma HandCenterIsMidpoint(hand: Hand)
    ensures !IsFullHand(hand) ==> HandCenter(hand) == ORIGIN
    ensures IsFullHand(hand) ==>
      var c := HandCenter(hand);
      && c.x - hand[WRIST].x == hand[MIDDLE_BASE].x - c.x
      && c.y - hand[WRIST].y == hand[MIDDLE_BASE].y - c.y
      && c.z - hand[WRIST].z == hand[MIDDLE_BASE].z - c.z
  {
  }

  /** Squared Euclidean distance in the image plane (the first two components). */
  function PlanarDistSq(a: Vec3, b: Vec3): (d: real)
    ensures d >= 0.0
  {
    (a.x - b.x) * (a.x - b.x) + (a.y - b.y) * (a.y - b.y)
  }
}
