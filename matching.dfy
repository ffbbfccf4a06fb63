/**
 * Best-match selection (`recognize_gesture`): every database entry is
 * scored against the window's features, and the first entry with the
 * highest score above 0.6 is the recognised word.
 *
 * The scoring (`advanced_compare`) is a parameter: any total function from
 * the window's features and an entry's stored data to a score.
 */
module Matching {

  import opened Options
  import opened Landmarks
  import opened Features

  /** A database entry: the sign's name and its stored data, in database order. */
  datatype Sign<S> = Sign(name: string, data: S)

  /** A score must exceed this to be accepted. */
  const THRESHOLD: real := 0.6

  function Scores<S>(db: seq<Sign<S>>, compare: (Features, S) -> real, f: Features): (s: seq<real>)
    ensures |s| == |db|
    ensures forall k :: 0 <= k < |db| ==> s[k] == compare(f, db[k].data)
  {
    if db == [] then []
    else Scores(db[..|db| - 1], compare, f) + [compare(f, db[|db| - 1].data)]
  }

  /** `k` is the first index of a maximal score, and that score exceeds the threshold. */
  predicate IsFirstBest(scores: seq<real>, k: nat)
  {
    && k < |scores|
    && scores[k] > THRESHOLD
    && (forall i :: 0 <= i < |scores| ==> scores[i] <= scores[k])
    && (forall i :: 0 <= i < k ==> scores[i] < scores[k])
  }

  /**
   * The index the selection loop ends on, defined one entry at a time: the
   * last entry replaces the best so far only when it scores strictly higher
   * (and above the threshold).
   */
  function Best(scores: seq<real>): (r: Option<nat>)
    ensures r.None? <==> forall i :: 0 <= i < |scores| ==> scores[i] <= THRESHOLD
    ensures r.Some? ==> IsFirstBest(scores, r.value)
  {
    if scores == [] then None
    else
      var prev := Best(scores[..|scores| - 1]);
      var last := scores[|scores| - 1];
      var bestScore := if prev.None? then 0.0 else scores[prev.value];
      assert forall i :: 0 <= i < |scores| - 1 ==> scores[..|scores| - 1][i] == scores[i];
      if last > bestScore && last > THRESHOLD then Some(|scores| - 1) else prev
  }

  /** The first-best index is unique, so the contract of `Best` determines it. */
  lemma FirstBestUnique(scores: seq<real>, j: nat, k: nat)
    requires IsFirstBest(scores, j) && IsFirstBest(scores, k)
    ensures j == k
  {
  }

  /** The name of the best-scoring entry for the given features, if any. */
  function BestMatch<S>(db: seq<Sign<S>>, compare: (Features, S) -> real, f: Features): (r: Option<string>)
    ensures r.Some? ==> exists k :: 0 <= k < |db| && db[k].name == r.value
  {
    match Best(Scores(db, compare, f))
    case None => None
    case Some(k) => Some(db[k].name)
  }

  /** The word recognised in a window of frames. */
  function GestureOf<S>(db: seq<Sign<S>>, compare: (Features, S) -> real, frames: seq<Frame>): (r: Option<string>)
    ensures |frames| < MIN_FRAMES ==> r == None
  {
    match FeaturesOf(frames)
    case None => None
    case Some(f) => BestMatch(db, compare, f)
  }

  /** `GestureOf` as a value, for the sequence recogniser. */
  function Recognizer<S>(db: seq<Sign<S>>, compare: (Features, S) -> real): (recognize: seq<Frame> -> Option<string>)
    ensures forall frames :: |frames| < MIN_FRAMES ==> recognize(frames) == None
  {
    frames => GestureOf(db, compare, frames)
  }

  /**
   * The best match: `None` when no
   * entry scores above 0.6; otherwise the name of the first entry whose
   * score is maximal (ties go to the earlier entry).
   */
  lemma BestMatchIsFirstBest<S>(db: seq<Sign<S>>, compare: (Features, S) -> real, f: Features)
    ensures var scores := Scores(db, compare, f);
      var r := BestMatch(db, compare, f);
      && (r.None? <==> forall i :: 0 <= i < |db| ==> compare(f, db[i].data) <= THRESHOLD)
      && (r.Some? ==> exists k: nat :: IsFirstBest(scores, k) && db[k].name == r.value)
  {
  }

  /** The method form: one pass over the database keeping the best score seen so far. */
  method RecognizeGesture<S>(db: seq<Sign<S>>, compare: (Features, S) -> real, frames: seq<Frame>)
    returns (r: Option<string>)
    ensures r == GestureOf(db, compare, frames)
  {
    var features := ExtractFeatures(frames);
    if features.None? {
      return None;
    }
    var f := features.value;
    ghost var scores := Scores(db, compare, f);
    var bestMatch: Option<string> := None;
    var bestScore: real := 0.0;
    ghost var best: Option<nat> := None;
    for j := 0 to |db|
      invariant best == Best(scores[..j])
      invariant best.Some? ==> best.value < j
      invariant bestScore == if best.None? then 0.0 else scores[best.value]
      invariant bestMatch == if best.None? then None else Some(db[best.value].name)
    {
      assert scores[..j + 1][..j] == scores[..j];
      var score := compare(f, db[j].data);
      if score > bestScore && score > THRESHOLD {
        bestScore := score;
        bestMatch := Some(db[j].name);
        best := Some(j);
      }
    }
    assert scores[..|db|] == scores;
    r := bestMatch;
  }
}
