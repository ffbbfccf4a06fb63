/**
 * Hand-shape classification (`detect_hand_shape_detailed`): which fingers
 * are extended, and the shape name chosen from that list.
 */
module HandShape {

  import opened Landmarks

  datatype Finger = Thumb | Index | Middle | Ring | Pinky

  datatype Shape = Unknown | Fist | Open | Point | ThumbsUp | Peace | LShape | Three | Partial

  /** The fingers in the order the recogniser visits them. */
  const FINGERS: seq<Finger> := [Thumb, Index, Middle, Ring, Pinky]

  const PALM_BASE: nat := 0

  /** A finger is extended when its tip is more than 1.2 times as far from the palm base as its base is. */
  const EXTENSION_RATIO: real := 1.2

  function Tip(f: Finger): (i: nat)
    ensures i < HAND_LANDMARKS
  {
    match f
    case Thumb => 4
    case Index => 8
    case Middle => 12
    case Ring => 16
    case Pinky => 20
  }

  function Base(f: Finger): (i: nat)
    ensures i < Tip(f)
  {
    match f
    case Thumb => 2
    case Index => 5
    case Middle => 9
    case Ring => 13
    case Pinky => 17
  }

  /** Distances are non-negative, so comparing distances equals comparing their squares. */
  lemma RatioTestBySquares(tipDist: real, baseDist: real)
    requires tipDist >= 0.0 && baseDist >= 0.0
    ensures tipDist > EXTENSION_RATIO * baseDist
        <==> tipDist * tipDist > EXTENSION_RATIO * EXTENSION_RATIO * (baseDist * baseDist)
  {
    var b := EXTENSION_RATIO * baseDist;
    assert b >= 0.0;
    assert b * b == EXTENSION_RATIO * EXTENSION_RATIO * (baseDist * baseDist);
    // t*t - b*b factors as (t - b) * (t + b), whose second factor is non-negative
    assert tipDist * tipDist - b * b == (tipDist - b) * (tipDist + b);
    var u, v := tipDist - b, tipDist + b;
    if tipDist > b {
      assert u > 0.0 && v > 0.0;
      assert u * v > 0.0;
    } else {
      assert -u >= 0.0 && v >= 0.0;
      assert (-u) * v >= 0.0;
    }
  }

  /** The extension test, on squared planar distances to the palm base. */
  predicate IsExtended(hand: Hand, f: Finger)
    requires IsFullHand(hand)
    ensures IsExtended(hand, f) ==> PlanarDistSq(hand[Tip(f)], hand[PALM_BASE]) > 0.0
  {
    PlanarDistSq(hand[Tip(f)], hand[PALM_BASE])
      > EXTENSION_RATIO * EXTENSION_RATIO * PlanarDistSq(hand[Base(f)], hand[PALM_BASE])
  }

  /** The fingers of `fs` that are extended, in the order of `fs`. */
  function ExtendedAmong(hand: Hand, fs: seq<Finger>): (ext: seq<Finger>)
    requires IsFullHand(hand)
    ensures |ext| <= |fs|
  {
    if fs == [] then []
    else
      var init := ExtendedAmong(hand, fs[..|fs| - 1]);
      var f := fs[|fs| - 1];
      if IsExtended(hand, f) then init + [f] else init
  }

  /** A finger is listed exactly when it is among `fs` and extended. */
  lemma {:induction false} ExtendedAmongElements(hand: Hand, fs: seq<Finger>, f: Finger)
    requires IsFullHand(hand)
    ensures f in ExtendedAmong(hand, fs) <==> f in fs && IsExtended(hand, f)
  {
    if fs != [] {
      var init := fs[..|fs| - 1];
      ExtendedAmongElements(hand, init, f);
      assert fs == init + [fs[|fs| - 1]];
    }
  }

  /** The shape named by a list of extended fingers. */
  function ClassifyShape(extended: seq<Finger>): (s: Shape)
    ensures s != Unknown
  {
    var n := |extended|;
    if n == 0 then Fist
    else if n == 5 then Open
    else if n == 1 && Index in extended then Point
    else if n == 1 && Thumb in extended then ThumbsUp
    else if n == 2 && Index in extended && Middle in extended then Peace
    else if n == 2 && Index in extended && Thumb in extended then LShape
    else if n == 3 then Three
    else Partial
  }

  /** The shape of a hand: `Unknown` for fewer than 21 landmarks. */
  function ShapeOf(hand: Hand): (s: Shape)
    ensures s == Unknown <==> !IsFullHand(hand)
  {
    if !IsFullHand(hand) then Unknown
    else ClassifyShape(ExtendedAmong(hand, FINGERS))
  }

  /**
   * The method form: the fingers are visited in order and the extended ones
   * appended to a list, which is then classified.
   */
  method DetectHandShape(hand: Hand) returns (shape: Shape)
    ensures shape == ShapeOf(hand)
  {
    if !IsFullHand(hand) {
      return Unknown;
    }
    var extended: seq<Finger> := [];
    for j := 0 to |FINGERS|
      invariant extended == ExtendedAmong(hand, FINGERS[..j])
    {
      var f := FINGERS[j];
      var tip, base := hand[Tip(f)], hand[Base(f)];
      var palm := hand[PALM_BASE];
      if PlanarDistSq(tip, palm) > EXTENSION_RATIO * EXTENSION_RATIO * PlanarDistSq(base, palm) {
        extended := extended + [f];
      }
      assert FINGERS[..j + 1][..j] == FINGERS[..j];
    }
    assert FINGERS[..|FINGERS|] == FINGERS;
    shape := ClassifyShape(extended);
  }

  /** The set of extended fingers of a complete hand. */
  function ExtendedSet(hand: Hand): (e: set<Finger>)
    requires IsFullHand(hand)
  {
    set f | f in FINGERS && IsExtended(hand, f)
  }

  /**
   * Reference table: the shape as a function of the SET of extended fingers,
   * written independently of the list the recogniser builds.
   */
  function ShapeOfSet(e: set<Finger>): Shape
  {
    if e == {} then Fist
    else if e == {Thumb, Index, Middle, Ring, Pinky} then Open
    else if e == {Index} then Point
    else if e == {Thumb} then ThumbsUp
    else if e == {Index, Middle} then Peace
    else if e == {Index, Thumb} then LShape
    else if |e| == 3 then Three
    else Partial
  }

  predicate Distinct(s: seq<Finger>)
  {
    forall i, j :: 0 <= i < j < |s| ==> s[i] != s[j]
  }

  function Elements(s: seq<Finger>): set<Finger>
  {
    set f | f in s
  }

  /** Filtering a list of distinct fingers keeps them distinct. */
  lemma {:induction false} ExtendedAmongDistinct(hand: Hand, fs: seq<Finger>)
    requires IsFullHand(hand) && Distinct(fs)
    ensures Distinct(ExtendedAmong(hand, fs))
  {
    if fs != [] {
      var init := fs[..|fs| - 1];
      ExtendedAmongDistinct(hand, init);
      var last := fs[|fs| - 1];
      ExtendedAmongElements(hand, init, last);
      assert last !in init;
    }
  }

  /** A list of distinct fingers is as long as the set of its elements is large. */
  lemma {:induction false} DistinctCard(s: seq<Finger>)
    requires Distinct(s)
    ensures |Elements(s)| == |s|
  {
    if s != [] {
      var init := s[..|s| - 1];
      var last := s[|s| - 1];
      assert Distinct(init);
      DistinctCard(init);
      assert last !in Elements(init);
      assert s == init + [last];
      assert Elements(s) == Elements(init) + {last};
    }
  }

  /** A subset as large as the whole set is the whole set. */
  lemma SameSizeSubset(sub: set<Finger>, e: set<Finger>)
    requires sub <= e && |sub| == |e|
    ensures sub == e
  {
    assert e == sub + (e - sub);
    assert |e - sub| == 0;
  }

  /** On a list without repetitions, the list-based branches agree with the set table. */
  lemma ClassifyBySet(ext: seq<Finger>)
    requires Distinct(ext)
    ensures ClassifyShape(ext) == ShapeOfSet(Elements(ext))
  {
    var e := Elements(ext);
    DistinctCard(ext);
    var all := {Thumb, Index, Middle, Ring, Pinky};
    assert |all| == 5;
    assert e <= all by {
      forall f | f in e ensures f in all {
        match f
        case Thumb => case Index => case Middle => case Ring => case Pinky =>
      }
    }
    if |ext| == 5 {
      SameSizeSubset(e, all);
    } else if |ext| == 1 && Index in ext {
      SameSizeSubset({Index}, e);
    } else if |ext| == 1 && Thumb in ext {
      SameSizeSubset({Thumb}, e);
    } else if |ext| == 2 && Index in ext && Middle in ext {
      SameSizeSubset({Index, Middle}, e);
    } else if |ext| == 2 && Index in ext && Thumb in ext {
      SameSizeSubset({Index, Thumb}, e);
    }
  }

  /**
   * Classification is total and depends only on WHICH fingers are extended:
   * the recogniser's list-based branches agree with the set-based table.
   */
  lemma ShapeBySet(hand: Hand)
    requires IsFullHand(hand)
    ensures ShapeOf(hand) == ShapeOfSet(ExtendedSet(hand))
  {
    var ext := ExtendedAmong(hand, FINGERS);
    ExtendedAmongDistinct(hand, FINGERS);
    ClassifyBySet(ext);
    forall f ensures f in Elements(ext) <==> f in ExtendedSet(hand) {
      ExtendedAmongElements(hand, FINGERS, f);
    }
    assert Elements(ext) == ExtendedSet(hand);
  }
}
