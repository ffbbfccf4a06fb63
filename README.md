# Gesture recogniser: discrete core

This project models the discrete logic of the sign-language gesture recogniser in `gesture_recognizer.py` and proves properties of it. The recogniser takes a list of frames, each carrying optional left- and right-hand landmark lists. It slides a window over the frames, extracts features per window, scores each window against a database of signs, and returns the list of recognised words.

The model covers:

- **Hand shapes** (`HandShape`): which fingers are extended, and the shape name chosen from that list.
- **Movement direction** (`Movement`): the direction of the displacement from the first to the last hand position.
- **Feature extraction** (`Features`): hand trajectories, the per-hand shape sequence, the two-hands flag, the dominant hand, and the movement direction of a window.
- **Best-match selection** (`Matching`): a strict `> 0.6` threshold with a strict improvement test, so the earliest of several equal best scores wins.
- **Sequence recognition** (`Sequence`): windows of 15 frames every 10 frames, consecutive repeats dropped, and `HELLO` when nothing was recognised.

The `GestureRecognizer` object is not a class here. None of its methods changes a field after construction: the database is loaded once, and `previous_gesture` and `gesture_cooldown` are never updated. So the database is a parameter, given as a sequence of `(name, data)` entries in the order the recogniser iterates them. The scoring function `advanced_compare` is a second parameter, and it may be any total function from features and stored data to a score.

Modelling decisions:

- **Missing hands.** A hand that is missing, `None` or `[]` is an empty landmark list. All three are falsy for `frame.get(...)`.
- **Arithmetic.** Coordinates and scores are Dafny `real`s, so arithmetic is idealised rather than floating point. The constants 0.6 and 1.2 are exact rationals.
- **Finger test.** The test `tip_dist > base_dist * 1.2` needs square roots. The model compares squared distances instead (`tip² > 1.44 · base²`). `RatioTestBySquares` proves the two comparisons agree for non-negative distances.
- **Truthy words.** `recognize_sequence` keeps a word only when it is truthy. So a database entry named `""` is never kept, just like `None` (`IsWord`).
- **Recogniser parameter.** `RecognizeSequence` takes the per-window recogniser as a function parameter. The recogniser the source uses is `Recognizer(db, compare)`, i.e. `GestureOf`, and the method `RecognizeGesture` computes it. `WindowsHaveFeatures` shows that with this recogniser every window yields features.
- **Movement endpoints.** `extract_advanced_features` measures the direction over `left_positions + right_positions`. The displacement therefore runs from the first left-hand centre to the last right-hand centre when both hands appear. The model keeps this as written.

## Model

| member | source | states |
|---|---|---|
| `Landmarks.HandCenter` | gesture_recognizer.py:153-163 | models `get_hand_center`; its contract gives the origin for a hand with fewer than 21 landmarks, and `HandCenterIsMidpoint` states the midpoint property |
| `Landmarks.HandCenterIsMidpoint` | gesture_recognizer.py:153-163 | a hand with fewer than 21 landmarks has centre `[0, 0, 0]`; otherwise the centre lies exactly halfway between the wrist (0) and the middle-finger base (9) |
| `Landmarks.PlanarDistSq` | gesture_recognizer.py:199-200 | squared distance in the image plane (x, y only), never negative |
| `HandShape.IsExtended` | gesture_recognizer.py:195-202 | models the per-finger test `tip_dist > base_dist * 1.2` on squared planar distances to landmark 0; an extended finger's tip is never at the palm base |
| `HandShape.RatioTestBySquares` | gesture_recognizer.py:202 | for non-negative distances, `tip > 1.2 · base` holds iff `tip² > 1.44 · base²`, which justifies the square-free test |
| `HandShape.ExtendedAmong` | gesture_recognizer.py:191-203 | models the list `extended` built by the loop: never longer than the fingers visited; `ExtendedAmongElements` states its members |
| `HandShape.ExtendedAmongElements` | gesture_recognizer.py:194-203 | a finger is in the extended list iff it is among the fingers visited and passes the extension test |
| `HandShape.ExtendedAmongDistinct` | gesture_recognizer.py:183-203 | the extended list never repeats a finger |
| `HandShape.ClassifyShape` | gesture_recognizer.py:206-225 | classification of any extended list yields a named shape, never `unknown` |
| `HandShape.ShapeOf` | gesture_recognizer.py:178-180 | `unknown` exactly when the hand has fewer than 21 landmarks |
| `HandShape.DetectHandShape` | gesture_recognizer.py:178-225 | the loop over thumb, index, middle, ring and pinky that appends the extended fingers and then classifies them computes `ShapeOf` |
| `HandShape.ClassifyBySet` | gesture_recognizer.py:206-225 | on a repetition-free list, the branches on length and membership agree with the set table: {} fist, all five open, {index} point, {thumb} thumbs_up, {index, middle} peace, {index, thumb} L_shape, any three three, anything else partial |
| `HandShape.ShapeBySet` | gesture_recognizer.py:178-225 | the shape of a complete hand is the set table applied to the set of its extended fingers, so it is total and independent of visiting order |
| `Movement.MovementDirection` | gesture_recognizer.py:279-292 | models `calculate_movement_direction`: no direction exactly when there are fewer than 2 positions; `MovementDirectionCases` states the four directions |
| `Movement.MovementDirectionCases` | gesture_recognizer.py:279-292 | `None` iff fewer than 2 positions; otherwise exactly: horizontal iff \|dx\| > \|dy\| and dx > 0, horizontal_left iff \|dx\| > \|dy\| and dx ≤ 0, vertical_up iff \|dx\| ≤ \|dy\| and dy < 0, vertical_down iff \|dx\| ≤ \|dy\| and dy ≥ 0 |
| `Movement.ReversedPathOpposite` | gesture_recognizer.py:283-292 | retracing a path whose endpoints differ in the image plane gives the opposite direction |
| `Movement.ShiftInvariant` | gesture_recognizer.py:283-292 | translating every position by the same offset leaves the direction unchanged |
| `Features.DominantHand` | gesture_recognizer.py:127-132 | `left` iff more left positions, `right` iff more right positions, `both` iff equal counts |
| `Features.LeftCenters` | gesture_recognizer.py:81-86 | models `left_positions`: one centre per frame with a left hand, in frame order, so at most one per frame; `LeftCentersEmpty` and `MirrorCenters` state its properties |
| `Features.RightCenters` | gesture_recognizer.py:100-103 | models `right_positions`, likewise for the right hand; `RightCentersEmpty` and `MirrorCenters` state its properties |
| `Features.ShapeSequence` | gesture_recognizer.py:81-112 | models `hand_shape_sequence`: per frame the left entry then the right entry, at most two per frame; `ShapesPerHand` ties it to the trajectories |
| `Features.FeaturesOf` | gesture_recognizer.py:59-61 | no features (None) exactly when the window has fewer than 3 frames |
| `Features.ExtractFeatures` | gesture_recognizer.py:59-151 | the per-frame loop appending hand centres and shapes, followed by the summary flags, computes `FeaturesOf`; the two trajectories together hold as many points as the shape sequence has entries |
| `Features.ShapesPerHand` | gesture_recognizer.py:81-112 | the shape entries tagged left are exactly as many as the left trajectory points, and those tagged right as many as the right ones |
| `Features.DirectionPresence` | gesture_recognizer.py:135-145 | a window has a movement direction iff its left and right trajectories together hold more than two positions |
| `Features.LeftCentersEmpty` | gesture_recognizer.py:81-86 | the left trajectory is non-empty iff some frame shows a left hand |
| `Features.RightCentersEmpty` | gesture_recognizer.py:100-103 | the right trajectory is non-empty iff some frame shows a right hand |
| `Features.TwoHandsIff` | gesture_recognizer.py:124 | `two_hands` holds iff some frame shows a left hand and some frame shows a right hand |
| `Features.MirrorCenters` | gesture_recognizer.py:81-112 | exchanging the hands in every frame exchanges the left and right trajectories |
| `Features.MirrorSwapsHands` | gesture_recognizer.py:124-132 | exchanging the hands in every frame swaps the dominant hand, keeps `two_hands` and swaps the trajectories |
| `Matching.Scores` | gesture_recognizer.py:50-51 | one score per database entry, in database order, each the comparison of the window's features with that entry's data |
| `Matching.Best` | gesture_recognizer.py:47-57 | the strict-improvement scan ends with no index iff no score exceeds 0.6; otherwise with the first index of a maximal score, which exceeds 0.6 |
| `Matching.FirstBestUnique` | gesture_recognizer.py:53 | at most one index is the first maximal score above 0.6, so the contract above determines the result |
| `Matching.BestMatchIsFirstBest` | gesture_recognizer.py:47-57 | the best match is None iff every entry scores at most 0.6; otherwise it is the name of the first entry whose score is maximal (ties go to the earlier entry) |
| `Matching.BestMatch` | gesture_recognizer.py:47-57 | models the database scan's result: any name returned is the name of a database entry; `BestMatchIsFirstBest` states which one |
| `Matching.GestureOf` | gesture_recognizer.py:41-45 | a window with fewer than 3 frames recognises nothing |
| `Matching.RecognizeGesture` | gesture_recognizer.py:41-57 | extracting features and scanning the database while updating `best_score` and `best_match` computes `GestureOf` |
| `Matching.Recognizer` | gesture_recognizer.py:30-45 | the per-window recogniser `self.recognize_gesture` as a function value: it recognises nothing in a window of fewer than 3 frames, and `RecognizeGesture` computes it |
| `Sequence.NumWindows` | gesture_recognizer.py:24-27 | no windows iff fewer than 15 frames; otherwise the last window fits and the next would not, i.e. `(n - 15) // 10 + 1` windows |
| `Sequence.Windows` | gesture_recognizer.py:27-28 | there are `NumWindows(len(frames))` windows |
| `Sequence.WindowAt` | gesture_recognizer.py:27-28 | window k is exactly frames `10k` to `10k + 15`, which lie within the input |
| `Sequence.WindowStarts` | gesture_recognizer.py:27 | the window starts are exactly the multiples of 10 that leave room for 15 frames |
| `Sequence.LoopGuard` | gesture_recognizer.py:27 | the `range` bound `len(frames) - 15 + 1` admits exactly the first `NumWindows` starts |
| `Sequence.Outputs` | gesture_recognizer.py:27-30 | the answers of the recogniser, one per window, in window order |
| `Sequence.OutputAt` | gesture_recognizer.py:28-30 | the answer recorded for window k is the recogniser applied to frames `10k` to `10k + 15` |
| `Sequence.WindowsHaveFeatures` | gesture_recognizer.py:27-30 | with the database recogniser, every window has features and its answer is the best match for them |
| `Sequence.Named` | gesture_recognizer.py:33 | models the `if word` filter: the truthy answers, never more than the answers; `NamedElements` states its members |
| `Sequence.Compress` | gesture_recognizer.py:32-34 | models the duplicate test: never longer than its input, empty iff the input is, and the first word kept; the `Compress…` lemmas state the rest |
| `Sequence.NamedElements` | gesture_recognizer.py:33 | a word is among the truthy answers iff some window answered that non-empty word |
| `Sequence.CompressSnoc` | gesture_recognizer.py:33-34 | appending a word to the input appends it to the compressed output unless it equals the last word |
| `Sequence.KeepStep` | gesture_recognizer.py:30-34 | one loop step (keep a truthy word unless it repeats the last kept word) is one step of compression |
| `Sequence.CompressNoAdjacentDuplicates` | gesture_recognizer.py:32-34 | compression leaves no two equal neighbours |
| `Sequence.CompressElements` | gesture_recognizer.py:32-34 | compression keeps exactly the words that occur: none invented, none lost |
| `Sequence.CompressSubsequence` | gesture_recognizer.py:32-34 | compression keeps the words in their original order (its output is a subsequence of its input) |
| `Sequence.CompressConstant` | gesture_recognizer.py:32-34 | a run of a single repeated word compresses to that one word |
| `Sequence.Collect` | gesture_recognizer.py:36-39 | the collected result is never empty |
| `Sequence.DefaultWhenNothingRecognized` | gesture_recognizer.py:33-37 | when no window yields a truthy word, the result is exactly `['HELLO']` |
| `Sequence.ShortInputDefault` | gesture_recognizer.py:27-37 | with fewer than 15 frames, no window is evaluated and the result is `['HELLO']` |
| `Sequence.DefaultIff` | gesture_recognizer.py:33-37 | the result is `['HELLO']` iff every recognised word (if any) is `HELLO` |
| `Sequence.CollectFromNamed` | gesture_recognizer.py:27-39 | no adjacent duplicates; when some word was recognised, the result is a subsequence of the recognised words in window order and contains every one of them |
| `Sequence.WordsComeFromWindows` | gesture_recognizer.py:27-34 | when some window gave a truthy answer, every word of the result is the truthy answer on some window (a `HELLO` returned by a window included) |
| `Sequence.SequenceResult` | gesture_recognizer.py:20-39 | the specification of `recognize_sequence`: the compressed truthy answers over all windows, or `['HELLO']`; never empty |
| `Sequence.RecognizeSequence` | gesture_recognizer.py:20-39 | the loop over window starts `0, 10, 20, …` with the duplicate test and the fallback computes `SequenceResult`; the result is non-empty and has no adjacent duplicates |

## Left out

- `load_database` (gesture_recognizer.py:13-18) reads a JSON file. That is file-system I/O, so the database is a parameter instead. An entry without a `features` key, which raises `KeyError` in the source, cannot occur in the model's entry type.
- `advanced_compare` (gesture_recognizer.py:317-370) is a weighted floating-point sum with clamping. It is the abstract `compare` parameter, and nothing about its value is assumed.
- Floating-point features are not modelled: hand orientation (`arctan2`), finger extension, velocity, acceleration, average hand distance, smoothness (all built on `euclidean`) and the mean hand height (`np.mean`). They need square roots, trigonometry or floating-point means, and the `Features` datatype does not carry them. For the same reason the `len < 21` guards of `calculate_hand_orientation` and `calculate_finger_extension` (gesture_recognizer.py:166-167, 228-229) are not modelled, since their results feed only those features.
- `RecognizeSequence` is proved for any per-window recogniser, not by calling `RecognizeGesture` inside its loop. The database recogniser is the instance `Recognizer(db, compare)`, which `RecognizeGesture` is proved to compute.
- Floating-point effects are assumed away: rounding in the `1.2` ratio and the `0.6` threshold, and NaN scores (which fail every comparison in the source). The model uses exact real arithmetic.
- The `fastdtw` import and the never-updated fields `previous_gesture` and `gesture_cooldown` (gesture_recognizer.py:5, 10-11) have no behaviour to model.
