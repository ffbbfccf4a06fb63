/**
 * Sliding-window sequence recognition (`recognize_sequence`): windows of 15
 * frames starting every 10 frames, one word per window from a recogniser,
 * a word kept only when it differs from the last kept one, and `HELLO` when
 * nothing was kept.
 */
module Sequence {

  import opened Options
  import opened Landmarks
  import opened Features
  import opened Matching

  const WINDOW_SIZE: nat := 15
  const STEP_SIZE: nat := 10
  const DEFAULT_WORD: string := "HELLO"

  /**
   * How many windows fit: none below 15 frames; otherwise the last window
   * fits and the one after it would not.
   */
  function NumWindows(n: nat): (w: nat)
    ensures w == 0 <==> n < WINDOW_SIZE
    ensures w > 0 ==> STEP_SIZE * (w - 1) + WINDOW_SIZE <= n < STEP_SIZE * w + WINDOW_SIZE
  {
    if n < WINDOW_SIZE then 0 else (n - WINDOW_SIZE) / STEP_SIZE + 1
  }

  /** The windows, defined by taking 15 frames and dropping 10 until fewer than 15 remain. */
  function Windows(frames: seq<Frame>): (ws: seq<seq<Frame>>)
    ensures |ws| == NumWindows(|frames|)
    decreases |frames|
  {
    if |frames| < WINDOW_SIZE then []
    else [frames[..WINDOW_SIZE]] + Windows(frames[STEP_SIZE..])
  }

  /** The loop test of `range(0, n - 15 + 1, 10)` holds for exactly the first `NumWindows(n)` starts. */
  lemma LoopGuard(n: nat, k: nat)
    ensures STEP_SIZE * k < n - WINDOW_SIZE + 1 <==> k < NumWindows(n)
  {
  }

  /** Window `k` has exactly 15 frames and starts at frame `10 * k`. */
  lemma {:induction false} WindowAt(frames: seq<Frame>, k: nat)
    requires k < NumWindows(|frames|)
    ensures STEP_SIZE * k + WINDOW_SIZE <= |frames|
    ensures Windows(frames)[k] == frames[STEP_SIZE * k .. STEP_SIZE * k + WINDOW_SIZE]
    decreases |frames|
  {
    if k > 0 {
      var rest := frames[STEP_SIZE..];
      WindowAt(rest, k - 1);
      assert STEP_SIZE * k == STEP_SIZE * (k - 1) + STEP_SIZE;
      assert rest[STEP_SIZE * (k - 1) .. STEP_SIZE * (k - 1) + WINDOW_SIZE]
          == frames[STEP_SIZE * k .. STEP_SIZE * k + WINDOW_SIZE];
    }
  }

  /** Window starts are exactly the multiples of 10 that leave room for 15 frames. */
  lemma WindowStarts(n: nat, i: nat)
    ensures (i % STEP_SIZE == 0 && i + WINDOW_SIZE <= n)
       <==> (exists k :: 0 <= k < NumWindows(n) && i == STEP_SIZE * k)
  {
    if i % STEP_SIZE == 0 && i + WINDOW_SIZE <= n {
      var k := i / STEP_SIZE;
      assert i == STEP_SIZE * k;
      assert k < NumWindows(n);
    }
  }

  /** The recogniser's answer for each window, in window order. */
  function Outputs(windows: seq<seq<Frame>>, recognize: seq<Frame> -> Option<string>): (outs: seq<Option<string>>)
    ensures |outs| == |windows|
    ensures forall k :: 0 <= k < |windows| ==> outs[k] == recognize(windows[k])
  {
    if windows == [] then []
    else Outputs(windows[..|windows| - 1], recognize) + [recognize(windows[|windows| - 1])]
  }

  /** The answer for window `k` is the recogniser applied to frames `10 * k` up to `10 * k + 15`. */
  lemma OutputAt(frames: seq<Frame>, recognize: seq<Frame> -> Option<string>, k: nat)
    requires k < NumWindows(|frames|)
    ensures STEP_SIZE * k + WINDOW_SIZE <= |frames|
    ensures Outputs(Windows(frames), recognize)[k] == recognize(frames[STEP_SIZE * k .. STEP_SIZE * k + WINDOW_SIZE])
  {
    WindowAt(frames, k);
  }

  /**
   * Windows hold 15 frames, so with the database recogniser the
   * fewer-than-three-frames branch is never taken: each window's answer is
   * the best match for its features.
   */
  lemma WindowsHaveFeatures<S>(db: seq<Sign<S>>, compare: (Features, S) -> real, frames: seq<Frame>, k: nat)
    requires k < NumWindows(|frames|)
    ensures FeaturesOf(Windows(frames)[k]).Some?
    ensures Outputs(Windows(frames), Recognizer(db, compare))[k]
         == BestMatch(db, compare, FeaturesOf(Windows(frames)[k]).value)
  {
    WindowAt(frames, k);
  }

  /** A recognised word counts only when it is truthy: present and non-empty. */
  predicate IsWord(w: Option<string>)
  {
    w.Some? && w.value != ""
  }

  /** The truthy answers, in order. */
  function Named(outs: seq<Option<string>>): (words: seq<string>)
    ensures |words| <= |outs|
  {
    if outs == [] then []
    else
      var init, last := Named(outs[..|outs| - 1]), outs[|outs| - 1];
      if IsWord(last) then init + [last.value] else init
  }

  /** A word is named exactly when some answer is that (non-empty) word. */
  lemma {:induction false} NamedElements(outs: seq<Option<string>>, w: string)
    ensures w in Named(outs) <==> exists k :: 0 <= k < |outs| && IsWord(outs[k]) && outs[k].value == w
  {
    if outs != [] {
      var init := outs[..|outs| - 1];
      NamedElements(init, w);
      assert forall k :: 0 <= k < |init| ==> init[k] == outs[k];
    }
  }

  /** Collapse every run of equal adjacent words to one word (defined from the front). */
  function Compress(s: seq<string>): (c: seq<string>)
    ensures |c| <= |s|
    ensures c == [] <==> s == []
    ensures s != [] ==> c[0] == s[0]
  {
    if |s| <= 1 then s
    else if s[0] == s[1] then Compress(s[1..])
    else [s[0]] + Compress(s[1..])
  }

  predicate NoAdjacentDuplicates(s: seq<string>)
  {
    forall i :: 0 <= i < |s| - 1 ==> s[i] != s[i + 1]
  }

  predicate IsSubsequence(a: seq<string>, b: seq<string>)
    decreases |b|
  {
    if a == [] then true
    else if b == [] then false
    else if a[0] == b[0] then IsSubsequence(a[1..], b[1..])
    else IsSubsequence(a, b[1..])
  }

  lemma {:induction false} CompressLast(s: seq<string>)
    requires s != []
    ensures Compress(s)[|Compress(s)| - 1] == s[|s| - 1]
  {
    if |s| > 1 {
      CompressLast(s[1..]);
    }
  }

  /** Appending one word to the input appends it to the output unless it repeats the last word. */
  lemma {:induction false} CompressSnoc(s: seq<string>, x: string)
    ensures Compress(s + [x]) == if s != [] && s[|s| - 1] == x then Compress(s) else Compress(s) + [x]
  {
    if |s| == 0 {
    } else if |s| == 1 {
      assert (s + [x])[1..] == [x];
    } else {
      assert (s + [x])[1..] == s[1..] + [x];
      CompressSnoc(s[1..], x);
    }
  }

  lemma {:induction false} CompressNoAdjacentDuplicates(s: seq<string>)
    ensures NoAdjacentDuplicates(Compress(s))
  {
    if |s| > 1 {
      CompressNoAdjacentDuplicates(s[1..]);
      if s[0] != s[1] {
        var c := Compress(s[1..]);
        assert c[0] == s[1];
        assert [s[0]] + c == Compress(s);
        forall i | 0 <= i < |Compress(s)| - 1 ensures Compress(s)[i] != Compress(s)[i + 1] {
          if i > 0 {
            assert Compress(s)[i] == c[i - 1] && Compress(s)[i + 1] == c[i];
          }
        }
      }
    }
  }

  /** A run of one repeated word compresses to that word alone. */
  lemma {:induction false} CompressConstant(s: seq<string>, x: string)
    requires forall w :: w in s ==> w == x
    ensures Compress(s) == if s == [] then [] else [x]
  {
    if |s| == 1 {
      assert s[0] in s;
    } else if |s| > 1 {
      assert s[0] in s && s[1] in s;
      assert forall w :: w in s[1..] ==> w in s;
      CompressConstant(s[1..], x);
    }
  }

  /** Compression keeps exactly the words that occur: nothing is invented and no word is lost. */
  lemma {:induction false} CompressElements(s: seq<string>)
    ensures forall w :: w in Compress(s) <==> w in s
  {
    if |s| > 1 {
      CompressElements(s[1..]);
      assert s == [s[0]] + s[1..];
    }
  }

  lemma {:induction false} CompressSubsequence(s: seq<string>)
    ensures IsSubsequence(Compress(s), s)
  {
    if |s| > 1 {
      CompressSubsequence(s[1..]);
      if s[0] == s[1] {
        SubsequencePrepend(Compress(s[1..]), s[1..], s[0]);
        assert [s[0]] + s[1..] == s;
      } else {
        assert ([s[0]] + Compress(s[1..]))[1..] == Compress(s[1..]);
      }
    }
  }

  /** A subsequence of `b` stays one when a word is put in front of `b`. */
  lemma {:induction false} SubsequencePrepend(a: seq<string>, b: seq<string>, x: string)
    requires IsSubsequence(a, b)
    ensures IsSubsequence(a, [x] + b)
    decreases |a| + |b|, 1
  {
    assert ([x] + b)[1..] == b;
    if a != [] && a[0] == x {
      SubsequenceTail(a, b);
    }
  }

  /** Dropping the first word of a subsequence leaves a subsequence. */
  lemma {:induction false} SubsequenceTail(a: seq<string>, b: seq<string>)
    requires IsSubsequence(a, b) && a != []
    ensures IsSubsequence(a[1..], b)
    decreases |a| + |b|, 0
  {
    assert b != [];
    assert [b[0]] + b[1..] == b;
    if a[0] == b[0] {
      SubsequencePrepend(a[1..], b[1..], b[0]);
    } else {
      SubsequenceTail(a, b[1..]);
      SubsequencePrepend(a[1..], b[1..], b[0]);
    }
  }

  /** The words kept from the windows' answers, or `["HELLO"]` if none is kept. */
  function Collect(outs: seq<Option<string>>): (words: seq<string>)
    ensures words != []
  {
    var kept := Compress(Named(outs));
    if kept == [] then [DEFAULT_WORD] else kept
  }

  /** The result for a list of frames, given the per-window recogniser. */
  function SequenceResult(frames: seq<Frame>, recognize: seq<Frame> -> Option<string>): (words: seq<string>)
    ensures words != []
  {
    Collect(Outputs(Windows(frames), recognize))
  }

  /** With no answer naming a word, the result is exactly `["HELLO"]`. */
  lemma DefaultWhenNothingRecognized(outs: seq<Option<string>>)
    requires forall k :: 0 <= k < |outs| ==> !IsWord(outs[k])
    ensures Collect(outs) == [DEFAULT_WORD]
  {
    var named := Named(outs);
    if named != [] {
      NamedElements(outs, named[0]);
    }
  }

  /** Fewer than 15 frames: no window is evaluated and the result is `["HELLO"]`. */
  lemma ShortInputDefault(frames: seq<Frame>, recognize: seq<Frame> -> Option<string>)
    requires |frames| < WINDOW_SIZE
    ensures SequenceResult(frames, recognize) == [DEFAULT_WORD]
  {
    assert Windows(frames) == [];
  }

  predicate AllDefault(words: seq<string>)
  {
    forall w :: w in words ==> w == DEFAULT_WORD
  }

  /** The result is `["HELLO"]` exactly when every named word, if any, is `HELLO`. */
  lemma DefaultIff(outs: seq<Option<string>>)
    ensures Collect(outs) == [DEFAULT_WORD] <==> AllDefault(Named(outs))
  {
    var named := Named(outs);
    var kept := Compress(named);
    CompressElements(named);
    if AllDefault(named) {
      CompressConstant(named, DEFAULT_WORD);
    } else {
      var w :| w in named && w != DEFAULT_WORD;
      assert w in kept;
      assert kept != [DEFAULT_WORD] by {
        assert w !in [DEFAULT_WORD];
      }
    }
  }

  /**
   * Apart from the fallback, the result is the named words in window order
   * with adjacent repeats collapsed: no two neighbours are equal, it is a
   * subsequence of the named words, and every named word occurs in it.
   */
  lemma CollectFromNamed(outs: seq<Option<string>>)
    ensures NoAdjacentDuplicates(Collect(outs))
    ensures Named(outs) != [] ==>
      && IsSubsequence(Collect(outs), Named(outs))
      && (forall w :: w in Named(outs) <==> w in Collect(outs))
  {
    var named := Named(outs);
    CompressNoAdjacentDuplicates(named);
    CompressSubsequence(named);
    CompressElements(named);
  }

  /**
   * Unless the result is the fallback for an input where no window answered,
   * every word of it is the truthy answer on some window.
   */
  lemma WordsComeFromWindows(outs: seq<Option<string>>, j: nat)
    requires Named(outs) != [] && j < |Collect(outs)|
    ensures exists k :: 0 <= k < |outs| && IsWord(outs[k]) && outs[k] == Some(Collect(outs)[j])
  {
    var named := Named(outs);
    CompressElements(named);
    NamedElements(outs, Collect(outs)[j]);
  }

  lemma NamedSnoc(outs: seq<Option<string>>, k: nat)
    requires k < |outs|
    ensures Named(outs[..k + 1])
         == if IsWord(outs[k]) then Named(outs[..k]) + [outs[k].value] else Named(outs[..k])
  {
    assert outs[..k + 1][..k] == outs[..k];
  }

  /** One step of the loop: keeping a word unless it repeats the last kept one is compression. */
  lemma KeepStep(named: seq<string>, words: seq<string>, w: Option<string>)
    requires words == Compress(named)
    ensures Compress(if IsWord(w) then named + [w.value] else named)
         == if IsWord(w) && (words == [] || w.value != words[|words| - 1]) then words + [w.value] else words
  {
    if IsWord(w) {
      CompressSnoc(named, w.value);
      if named != [] {
        CompressLast(named);
      }
    }
  }

  /**
   * The method form: windows start at 0, 10, 20, ... while 15 frames remain;
   * each window's word is kept when it is truthy and differs from the last
   * kept word. The recogniser the source uses is `Recognizer(db, compare)`,
   * which `RecognizeGesture` computes.
   */
  method RecognizeSequence(recognize: seq<Frame> -> Option<string>, frames: seq<Frame>)
    returns (words: seq<string>)
    ensures words == SequenceResult(frames, recognize)
    ensures words != [] && NoAdjacentDuplicates(words)
  {
    ghost var outs := Outputs(Windows(frames), recognize);
    ghost var n := NumWindows(|frames|);
    words := [];
    var i := 0;
    ghost var k: nat := 0;
    ghost var named: seq<string> := [];
    LoopGuard(|frames|, k);
    while i < |frames| - WINDOW_SIZE + 1
      invariant i == STEP_SIZE * k && k <= n
      invariant i < |frames| - WINDOW_SIZE + 1 <==> k < n
      invariant named == Named(outs[..k])
      invariant words == Compress(named)
      decreases |frames| - i
    {
      OutputAt(frames, recognize, k);
      var word := recognize(frames[i..i + WINDOW_SIZE]);
      assert word == outs[k];
      NamedSnoc(outs, k);
      KeepStep(named, words, word);
      if word.Some? && word.value != "" && (words == [] || word.value != words[|words| - 1]) {
        words := words + [word.value];
      }
      named := if IsWord(word) then named + [word.value] else named;
      i := i + STEP_SIZE;
      k := k + 1;
      LoopGuard(|frames|, k);
    }
    assert outs[..k] == outs;
    if words == [] {
      words := [DEFAULT_WORD];
    }
    CollectFromNamed(outs);
  }
}
