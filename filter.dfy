/**
 * The candidate filter, `WordleSolver._filter_words`: a stable filter that keeps a word when it passes
 * three consuming checks, for the Green, then the Yellow, then the Gray positions of a verdict.
 */
module CandidateFilter {
  import opened Words
  import opened Feedback

  /**
   * The Yellow check from position i on, over the word copy wl and the guess copy gl: a Yellow guess
   * letter must still occur in the word copy and must not sit at its own position there; the first
   * occurrence is then consumed, and so is the guess letter. None means the word is rejected.
   */
  function YellowPass(fb: Verdict, wl: seq<Slot>, gl: seq<Slot>, i: nat): (r: Option<(seq<Slot>, seq<Slot>)>)
    requires |wl| == WORD_LENGTH && |gl| == WORD_LENGTH && i <= WORD_LENGTH
    ensures r.Some? ==> |r.value.0| == WORD_LENGTH && |r.value.1| == WORD_LENGTH
    decreases WORD_LENGTH - i
  {
    if i == WORD_LENGTH then Some((wl, gl))
    else if fb[i] == Yellow then
      if gl[i] !in wl || wl[i] == gl[i] then None
      else YellowPass(fb, wl[FirstIndex(wl, gl[i]) := None], gl[i := None], i + 1)
    else YellowPass(fb, wl, gl, i + 1)
  }

  /** The Yellow check consumes guess letters only at the Yellow positions from i on. */
  lemma {:induction false} YellowPassFrame(fb: Verdict, wl: seq<Slot>, gl: seq<Slot>, i: nat)
    requires |wl| == WORD_LENGTH && |gl| == WORD_LENGTH && i <= WORD_LENGTH
    ensures var r := YellowPass(fb, wl, gl, i);
      r.Some? ==> forall j :: 0 <= j < WORD_LENGTH && (j < i || fb[j] != Yellow) ==> r.value.1[j] == gl[j]
    decreases WORD_LENGTH - i
  {
    if i < WORD_LENGTH {
      if fb[i] == Yellow {
        if gl[i] in wl && wl[i] != gl[i] {
          YellowPassFrame(fb, wl[FirstIndex(wl, gl[i]) := None], gl[i := None], i + 1);
        }
      } else {
        YellowPassFrame(fb, wl, gl, i + 1);
      }
    }
  }

  /** The Gray check: no unconsumed guess letter at a Gray position occurs in the word copy. */
  predicate GraysAbsent(fb: Verdict, wl: seq<Slot>, gl: seq<Slot>)
    requires |gl| == WORD_LENGTH
  {
    forall j :: 0 <= j < WORD_LENGTH && fb[j] == Gray && gl[j] != None ==> gl[j] !in wl
  }

  /** The three checks `_filter_words` applies to one word w, for guess g and verdict fb. */
  predicate Consistent(w: Word, g: Word, fb: Verdict) {
    && (forall j :: 0 <= j < WORD_LENGTH && fb[j] == Green ==> w[j] == g[j])
    && match YellowPass(fb, Mask(w, fb), Mask(g, fb), 0)
       case None => false
       case Some(lists) => GraysAbsent(fb, lists.0, lists.1)
  }

  /** The words of ws that pass the checks, in their original order. */
  function Filter(ws: seq<Word>, g: Word, fb: Verdict): seq<Word> {
    if ws == [] then []
    else
      var last := ws[|ws| - 1];
      Filter(ws[..|ws| - 1], g, fb) + if Consistent(last, g, fb) then [last] else []
  }

  /** a can be obtained from b by deleting elements. */
  predicate IsSubsequence<T(==)>(a: seq<T>, b: seq<T>) {
    if a == [] then true
    else if b == [] then false
    else
      (a[|a| - 1] == b[|b| - 1] && IsSubsequence(a[..|a| - 1], b[..|b| - 1]))
      || IsSubsequence(a, b[..|b| - 1])
  }

  /** The checks on one word, with the working lists nulled in place and an early exit on failure. */
  method Admits(word: Word, guess: Word, feedback: Verdict) returns (valid: bool)
    ensures valid == Consistent(word, guess, feedback)
  {
    var wordList := Slots(word);
    var guessList := Slots(guess);

    // Check greens
    var i := 0;
    while i < WORD_LENGTH
      invariant 0 <= i <= WORD_LENGTH && |wordList| == WORD_LENGTH && |guessList| == WORD_LENGTH
      invariant forall j :: 0 <= j < i && feedback[j] == Green ==> word[j] == guess[j]
      invariant forall j :: 0 <= j < WORD_LENGTH ==>
        wordList[j] == if j < i && feedback[j] == Green then None else Some(word[j])
      invariant forall j :: 0 <= j < WORD_LENGTH ==>
        guessList[j] == if j < i && feedback[j] == Green then None else Some(guess[j])
    {
      if feedback[i] == Green && wordList[i] != guessList[i] {
        return false;
      } else if feedback[i] == Green {
        wordList := wordList[i := None];
        guessList := guessList[i := None];
      }
      i := i + 1;
    }
    assert wordList == Mask(word, feedback);
    assert guessList == Mask(guess, feedback);

    // Check yellows
    ghost var afterGreens := YellowPass(feedback, wordList, guessList, 0);
    i := 0;
    while i < WORD_LENGTH
      invariant 0 <= i <= WORD_LENGTH && |wordList| == WORD_LENGTH && |guessList| == WORD_LENGTH
      invariant YellowPass(feedback, wordList, guessList, i) == afterGreens
    {
      if feedback[i] == Yellow {
        if guessList[i] !in wordList || wordList[i] == guessList[i] {
          return false;
        }
        wordList := wordList[FirstIndex(wordList, guessList[i]) := None];
        guessList := guessList[i := None];
      }
      i := i + 1;
    }

    // Check grays
    i := 0;
    while i < WORD_LENGTH
      invariant 0 <= i <= WORD_LENGTH
      invariant forall j :: 0 <= j < i && feedback[j] == Gray && guessList[j] != None ==> guessList[j] !in wordList
    {
      if feedback[i] == Gray && guessList[i] != None {
        if guessList[i] in wordList {
          return false;
        }
      }
      i := i + 1;
    }
    return true;
  }

  /** `_filter_words`: the words that pass the checks, appended in input order. */
  method FilterWords(words: seq<Word>, guess: Word, feedback: Verdict) returns (filtered: seq<Word>)
    ensures filtered == Filter(words, guess, feedback)
  {
    filtered := [];
    for k := 0 to |words|
      invariant filtered == Filter(words[..k], guess, feedback)
    {
      var word := words[k];
      assert words[..k + 1][..k] == words[..k];
      var valid := Admits(word, guess, feedback);
      if valid {
        filtered := filtered + [word];
      }
    }
    assert words[..|words|] == words;
  }

  /** The filter keeps each word either with all its copies or not at all. */
  lemma {:induction false} FilterCount(ws: seq<Word>, g: Word, fb: Verdict, x: Word)
    ensures multiset(Filter(ws, g, fb))[x] == if Consistent(x, g, fb) then multiset(ws)[x] else 0
  {
    if ws != [] {
      var n := |ws| - 1;
      assert ws == ws[..n] + [ws[n]];
      FilterCount(ws[..n], g, fb, x);
    }
  }

  /** The result is the input with some words deleted, in the original order, and no longer. */
  lemma {:induction false} FilterIsSubsequence(ws: seq<Word>, g: Word, fb: Verdict)
    ensures IsSubsequence(Filter(ws, g, fb), ws)
    ensures |Filter(ws, g, fb)| <= |ws|
  {
    if ws != [] {
      var n := |ws| - 1;
      var r := Filter(ws, g, fb);
      FilterIsSubsequence(ws[..n], g, fb);
      if Consistent(ws[n], g, fb) {
        assert r[..|r| - 1] == Filter(ws[..n], g, fb);
      } else {
        assert r == Filter(ws[..n], g, fb);
        if r != [] {
          SubsequenceOfPrefix(r, ws);
        }
      }
    }
  }

  lemma {:induction false} SubsequenceOfPrefix<T>(a: seq<T>, b: seq<T>)
    requires b != [] && IsSubsequence(a, b[..|b| - 1])
    ensures IsSubsequence(a, b)
  {
  }

  /** Every word the filter keeps passes the checks. */
  lemma {:induction false} FilterKeepsOnlyConsistent(ws: seq<Word>, g: Word, fb: Verdict)
    ensures forall w :: w in Filter(ws, g, fb) ==> Consistent(w, g, fb)
  {
    if ws != [] {
      FilterKeepsOnlyConsistent(ws[..|ws| - 1], g, fb);
    }
  }

  /** Filtering a second time with the same guess and verdict changes nothing. */
  lemma {:induction false} FilterIdempotent(ws: seq<Word>, g: Word, fb: Verdict)
    ensures Filter(Filter(ws, g, fb), g, fb) == Filter(ws, g, fb)
  {
    if ws != [] {
      var n := |ws| - 1;
      FilterIdempotent(ws[..n], g, fb);
      var r := Filter(ws, g, fb);
      if Consistent(ws[n], g, fb) {
        assert r[..|r| - 1] == Filter(ws[..n], g, fb) && r[|r| - 1] == ws[n];
        assert Filter(r, g, fb) == Filter(Filter(ws[..n], g, fb), g, fb) + [ws[n]];
      } else {
        assert r == Filter(ws[..n], g, fb);
      }
    }
  }

  /**
   * The Yellow check replays the second pass of the scoring: when the word is the target the verdict
   * was computed for, each Yellow check passes and consumes the very cell the scoring consumed.
   */
  lemma {:induction false} YellowPassReplays(gl0: seq<Slot>, fb: Verdict, tl: seq<Slot>, gl: seq<Slot>, i: nat)
    requires |gl0| == WORD_LENGTH && |tl| == WORD_LENGTH && |gl| == WORD_LENGTH && i <= WORD_LENGTH
    requires forall j :: i <= j < WORD_LENGTH ==> fb[j] != Yellow && gl[j] == gl0[j]
    requires forall j :: i <= j < WORD_LENGTH && gl0[j] != None ==> tl[j] != gl0[j]
    ensures var r := SecondPass(gl0, fb, tl, i);
      var y := YellowPass(r.0, tl, gl, i);
      y.Some? && y.value.0 == r.1
    decreases WORD_LENGTH - i
  {
    if i < WORD_LENGTH {
      if gl0[i] != None && gl0[i] in tl {
        var tl' := tl[FirstIndex(tl, gl0[i]) := None];
        SecondPassEffect(gl0, fb[i := Yellow], tl', i + 1);
        YellowPassReplays(gl0, fb[i := Yellow], tl', gl[i := None], i + 1);
      } else {
        SecondPassEffect(gl0, fb, tl, i + 1);
        YellowPassReplays(gl0, fb, tl, gl, i + 1);
      }
    }
  }

  /**
   * Soundness of the filter against the feedback engine: the word a verdict was computed for passes
   * the checks for that verdict.
   */
  lemma TargetIsConsistent(g: Word, w: Word)
    ensures Consistent(w, g, Score(g, w))
  {
    var first := FirstPass(g, w);
    var gl0 := Mask(g, first);
    var tl0 := Mask(w, first);
    var fb := Score(g, w);
    forall j | 0 <= j < WORD_LENGTH
      ensures (fb[j] == Green <==> g[j] == w[j]) && (fb[j] == Green ==> w[j] == g[j])
    {
      GreenExactly(g, w, j);
    }
    assert Mask(w, fb) == tl0;
    assert Mask(g, fb) == gl0;
    YellowPassReplays(gl0, first, tl0, gl0, 0);
    SecondPassEffect(gl0, first, tl0, 0);
    YellowPassFrame(fb, tl0, gl0, 0);
  }

  /** Filtering with the verdict a word w produced keeps every copy of w. */
  lemma FilterKeepsTarget(ws: seq<Word>, g: Word, w: Word)
    ensures multiset(Filter(ws, g, Score(g, w)))[w] == multiset(ws)[w]
  {
    TargetIsConsistent(g, w);
    FilterCount(ws, g, Score(g, w), w);
  }

  /** With identical working copies the Yellow check fails at the first Yellow position. */
  lemma {:induction false} YellowPassSelf(fb: Verdict, s: seq<Slot>, i: nat)
    requires |s| == WORD_LENGTH && i <= WORD_LENGTH
    ensures YellowPass(fb, s, s, i) == if exists j :: i <= j < WORD_LENGTH && fb[j] == Yellow then None else Some((s, s))
    decreases WORD_LENGTH - i
  {
    if i < WORD_LENGTH && fb[i] != Yellow {
      YellowPassSelf(fb, s, i + 1);
      assert (exists j :: i <= j < WORD_LENGTH && fb[j] == Yellow) == (exists j :: i + 1 <= j < WORD_LENGTH && fb[j] == Yellow);
    }
  }

  /** A guess that is not the target fails the checks for its own verdict. */
  lemma GuessRejected(g: Word, t: Word)
    requires g != t
    ensures !Consistent(g, g, Score(g, t))
  {
    var fb := Score(g, t);
    var s := Mask(g, fb);
    YellowPassSelf(fb, s, 0);
    if !exists j :: 0 <= j < WORD_LENGTH && fb[j] == Yellow {
      AllGreenOnlyForTarget(g, t);
      var j :| 0 <= j < WORD_LENGTH && fb[j] != Green;
      assert fb[j] == Gray && s[j] == Some(g[j]);
    }
  }

  /** When the guess is not the target, the filter removes the guess, so the candidates strictly shrink. */
  lemma FilterDropsGuess(ws: seq<Word>, g: Word, t: Word)
    requires g != t
    ensures g !in Filter(ws, g, Score(g, t))
    ensures g in ws ==> |Filter(ws, g, Score(g, t))| < |ws|
  {
    var fb := Score(g, t);
    GuessRejected(g, t);
    FilterCount(ws, g, fb, g);
    if g in ws {
      FilterStrictlyShrinks(ws, g, fb, g);
    }
  }

  lemma {:induction false} FilterStrictlyShrinks(ws: seq<Word>, g: Word, fb: Verdict, x: Word)
    requires x in ws && !Consistent(x, g, fb)
    ensures |Filter(ws, g, fb)| < |ws|
  {
    var n := |ws| - 1;
    FilterIsSubsequence(ws[..n], g, fb);
    if ws[n] != x {
      assert ws == ws[..n] + [ws[n]];
      FilterStrictlyShrinks(ws[..n], g, fb, x);
    }
  }
}
