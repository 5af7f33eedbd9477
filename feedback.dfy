/**
 * The feedback engine, `WordleSolver._get_feedback`: a guess is scored against the target in two
 * passes over working copies of both words, nulling each letter as soon as it is matched so that no
 * letter of the target is credited twice.
 */
module Feedback {
  import opened Words

  /** The tags after the first pass: Green where guess and target agree, Gray everywhere else. */
  function FirstPass(g: Word, t: Word): Verdict {
    seq(WORD_LENGTH, j requires 0 <= j < WORD_LENGTH => if g[j] == t[j] then Green else Gray)
  }

  /** A working copy of w in which the Green positions of fb are consumed. */
  function Mask(w: Word, fb: Verdict): (s: seq<Slot>)
    ensures |s| == WORD_LENGTH
  {
    seq(WORD_LENGTH, j requires 0 <= j < WORD_LENGTH => if fb[j] == Green then None else Some(w[j]))
  }

  /**
   * The second pass from position i on, over the guess copy gl, the tags fb and the target copy tl:
   * an unconsumed guess letter that still occurs in the target copy turns Yellow and consumes the
   * first such occurrence.
   */
  function SecondPass(gl: seq<Slot>, fb: Verdict, tl: seq<Slot>, i: nat): (r: (Verdict, seq<Slot>))
    requires |gl| == WORD_LENGTH && |tl| == WORD_LENGTH && i <= WORD_LENGTH
    ensures |r.1| == WORD_LENGTH
    decreases WORD_LENGTH - i
  {
    if i == WORD_LENGTH then (fb, tl)
    else if gl[i] != None && gl[i] in tl then
      SecondPass(gl, fb[i := Yellow], tl[FirstIndex(tl, gl[i]) := None], i + 1)
    else
      SecondPass(gl, fb, tl, i + 1)
  }

  /**
   * What the second pass does: it only marks unconsumed positions from i on Yellow, it only ever
   * consumes target cells, and a position it leaves unmarked holds a letter the final target copy
   * lacks.
   */
  lemma {:induction false} SecondPassEffect(gl: seq<Slot>, fb: Verdict, tl: seq<Slot>, i: nat)
    requires |gl| == WORD_LENGTH && |tl| == WORD_LENGTH && i <= WORD_LENGTH
    ensures var r := SecondPass(gl, fb, tl, i);
      && (forall j :: 0 <= j < WORD_LENGTH ==> r.0[j] == fb[j] || (i <= j && gl[j] != None && r.0[j] == Yellow))
      && (forall k :: 0 <= k < WORD_LENGTH ==> r.1[k] == tl[k] || r.1[k] == None)
      && (forall j :: i <= j < WORD_LENGTH && gl[j] != None && r.0[j] != Yellow ==> gl[j] !in r.1)
    decreases WORD_LENGTH - i
  {
    if i == WORD_LENGTH {
    } else if gl[i] != None && gl[i] in tl {
      SecondPassEffect(gl, fb[i := Yellow], tl[FirstIndex(tl, gl[i]) := None], i + 1);
    } else {
      SecondPassEffect(gl, fb, tl, i + 1);
    }
  }

  /** `_get_feedback(g, t)`: the verdict for guess g against target t. */
  function Score(g: Word, t: Word): Verdict {
    var fb := FirstPass(g, t);
    SecondPass(Mask(g, fb), fb, Mask(t, fb), 0).0
  }

  /** The two passes of `_get_feedback`, on working lists updated in place. */
  method GetFeedback(guess: Word, target: Word) returns (feedback: Verdict)
    ensures feedback == Score(guess, target)
  {
    var tags: seq<Tag> := [];
    var targetList := Slots(target);
    var guessList := Slots(guess);
    ghost var first := FirstPass(guess, target);

    // First pass: mark greens
    for i := 0 to WORD_LENGTH
      invariant |tags| == i && |targetList| == WORD_LENGTH && |guessList| == WORD_LENGTH
      invariant forall j :: 0 <= j < i ==> tags[j] == first[j]
      invariant forall j :: 0 <= j < WORD_LENGTH ==>
        targetList[j] == if j < i && first[j] == Green then None else Some(target[j])
      invariant forall j :: 0 <= j < WORD_LENGTH ==>
        guessList[j] == if j < i && first[j] == Green then None else Some(guess[j])
    {
      if guessList[i] == targetList[i] {
        tags := tags + [Green];
        targetList := targetList[i := None];
        guessList := guessList[i := None];
      } else {
        tags := tags + [Gray];
      }
    }
    feedback := tags;
    assert feedback == first;
    assert targetList == Mask(target, first);
    assert guessList == Mask(guess, first);

    // Second pass: mark yellows
    for i := 0 to WORD_LENGTH
      invariant |targetList| == WORD_LENGTH
      invariant SecondPass(guessList, feedback, targetList, i) == SecondPass(guessList, first, Mask(target, first), 0)
    {
      if guessList[i] != None {
        if guessList[i] in targetList {
          feedback := feedback[i := Yellow];
          targetList := targetList[FirstIndex(targetList, guessList[i]) := None];
        }
      }
    }
  }

  /** Position j is Green exactly when guess and target hold the same letter there. */
  lemma GreenExactly(g: Word, t: Word, j: nat)
    requires j < WORD_LENGTH
    ensures Score(g, t)[j] == Green <==> g[j] == t[j]
  {
    var fb := FirstPass(g, t);
    SecondPassEffect(Mask(g, fb), fb, Mask(t, fb), 0);
    assert Mask(g, fb)[j] == None <==> g[j] == t[j];
  }

  /** A word scored against itself is all green. */
  lemma SelfScoreAllGreen(w: Word)
    ensures AllGreen(Score(w, w))
  {
    forall j | 0 <= j < WORD_LENGTH
      ensures Score(w, w)[j] == Green
    {
      GreenExactly(w, w, j);
    }
  }

  /** Any other target leaves at least one position that is not green. */
  lemma AllGreenOnlyForTarget(g: Word, t: Word)
    ensures AllGreen(Score(g, t)) <==> g == t
  {
    if AllGreen(Score(g, t)) {
      forall j | 0 <= j < WORD_LENGTH
        ensures g[j] == t[j]
      {
        GreenExactly(g, t, j);
      }
    } else {
      if g == t {
        SelfScoreAllGreen(g);
      }
    }
  }

  /** The guess letters credited by a verdict: g[j] where the tag is Green or Yellow, None elsewhere. */
  function Credited(g: Word, fb: Verdict): (s: seq<Slot>)
    ensures |s| == WORD_LENGTH
  {
    seq(WORD_LENGTH, j requires 0 <= j < WORD_LENGTH => if fb[j] != Gray then Some(g[j]) else None)
  }

  /** The number of Green or Yellow positions of fb whose guess letter is c. */
  function Claimed(g: Word, fb: Verdict, c: char): nat {
    Remaining(Credited(g, fb), c)
  }

  /** Consuming one cell that holds c lowers the count of c by one and leaves other letters alone. */
  lemma ConsumeOne(s: seq<Slot>, k: nat, c: char, d: char)
    requires k < |s| && s[k] == Some(c)
    ensures Remaining(s[k := None], d) == if d == c then Remaining(s, d) - 1 else Remaining(s, d)
  {
    assert s == s[..k] + [s[k]] + s[k + 1..];
    assert s[k := None] == s[..k] + [None] + s[k + 1..];
  }

  /** Turning a Gray position Yellow credits its guess letter once more. */
  lemma CreditYellow(g: Word, fb: Verdict, i: nat, c: char)
    requires i < WORD_LENGTH && fb[i] == Gray
    ensures Claimed(g, fb[i := Yellow], c) == Claimed(g, fb, c) + (if g[i] == c then 1 else 0)
  {
    var before := Credited(g, fb);
    assert before[i] == None;
    assert Credited(g, fb[i := Yellow]) == before[i := Some(g[i])];
    ConsumeOne(before[i := Some(g[i])], i, g[i], c);
    assert before[i := Some(g[i])][i := None] == before;
  }

  /**
   * During the second pass every consumed target letter is credited to exactly one guess position:
   * the letters c credited so far plus the copies of c still in the target copy stay constant.
   */
  lemma {:induction false} SecondPassAccounts(g: Word, gl: seq<Slot>, fb: Verdict, tl: seq<Slot>, i: nat, c: char)
    requires |gl| == WORD_LENGTH && |tl| == WORD_LENGTH && i <= WORD_LENGTH
    requires forall j :: i <= j < WORD_LENGTH && gl[j] != None ==> gl[j] == Some(g[j]) && fb[j] == Gray
    ensures var r := SecondPass(gl, fb, tl, i);
      Claimed(g, r.0, c) + Remaining(r.1, c) == Claimed(g, fb, c) + Remaining(tl, c)
    decreases WORD_LENGTH - i
  {
    if i < WORD_LENGTH && gl[i] != None && gl[i] in tl {
      var k := FirstIndex(tl, gl[i]);
      CreditYellow(g, fb, i, c);
      ConsumeOne(tl, k, g[i], c);
      SecondPassAccounts(g, gl, fb[i := Yellow], tl[k := None], i + 1, c);
    } else if i < WORD_LENGTH {
      SecondPassAccounts(g, gl, fb, tl, i + 1, c);
    }
  }

  /**
   * Two copies of the same word, where at each position exactly one copy holds the letter and the
   * other a None, hold between them each letter as often as the word does.
   */
  lemma {:induction false} SplitCounts(a: seq<Slot>, b: seq<Slot>, w: string, c: char)
    requires |a| == |w| && |b| == |w|
    requires forall j :: 0 <= j < |w| ==>
      (a[j] == Some(w[j]) && b[j] == None) || (a[j] == None && b[j] == Some(w[j]))
    ensures Remaining(a, c) + Remaining(b, c) == multiset(w)[c]
    decreases |w|
  {
    if |w| > 0 {
      var n := |w| - 1;
      assert a == a[..n] + [a[n]];
      assert b == b[..n] + [b[n]];
      assert w == w[..n] + [w[n]];
      SplitCounts(a[..n], b[..n], w[..n], c);
    }
  }

  /** The letters credited to the guess plus those left in the target copy are the target's letters. */
  lemma ScoreAccounts(g: Word, t: Word, c: char)
    ensures var first := FirstPass(g, t);
      Claimed(g, Score(g, t), c) + Remaining(SecondPass(Mask(g, first), first, Mask(t, first), 0).1, c)
        == multiset(t)[c]
  {
    var first := FirstPass(g, t);
    SecondPassAccounts(g, Mask(g, first), first, Mask(t, first), 0, c);
    SplitCounts(Credited(g, first), Mask(t, first), t, c);
  }

  /**
   * For every letter c, the guess positions holding c that come out Green or Yellow are no more than
   * the occurrences of c in the target.
   */
  lemma LetterBudget(g: Word, t: Word, c: char)
    ensures Claimed(g, Score(g, t), c) <= multiset(t)[c]
  {
    ScoreAccounts(g, t, c);
  }

  /** A Gray position means every occurrence of its letter in the target is already credited. */
  lemma GrayExhausts(g: Word, t: Word, j: nat)
    requires j < WORD_LENGTH && Score(g, t)[j] == Gray
    ensures Claimed(g, Score(g, t), g[j]) == multiset(t)[g[j]]
  {
    var first := FirstPass(g, t);
    var r := SecondPass(Mask(g, first), first, Mask(t, first), 0);
    SecondPassEffect(Mask(g, first), first, Mask(t, first), 0);
    GreenExactly(g, t, j);
    assert Mask(g, first)[j] == Some(g[j]);
    assert Some(g[j]) !in r.1;
    ScoreAccounts(g, t, g[j]);
  }

  /** A guess letter missing from the target copy can never turn Yellow later in the second pass. */
  lemma {:induction false} AbsentStaysUnmarked(gl: seq<Slot>, fb: Verdict, tl: seq<Slot>, i: nat, x: Slot, k: nat)
    requires |gl| == WORD_LENGTH && |tl| == WORD_LENGTH && i <= k < WORD_LENGTH
    requires x != None && x !in tl && gl[k] == x
    ensures SecondPass(gl, fb, tl, i).0[k] == fb[k]
    decreases WORD_LENGTH - i
  {
    if i == k {
      SecondPassEffect(gl, fb, tl, i + 1);
    } else if gl[i] != None && gl[i] in tl {
      var tl' := tl[FirstIndex(tl, gl[i]) := None];
      assert x !in tl';
      AbsentStaysUnmarked(gl, fb[i := Yellow], tl', i + 1, x, k);
    } else {
      AbsentStaysUnmarked(gl, fb, tl, i + 1, x, k);
    }
  }

  lemma {:induction false} SecondPassLeftmost(gl: seq<Slot>, fb: Verdict, tl: seq<Slot>, i: nat, j: nat, k: nat)
    requires |gl| == WORD_LENGTH && |tl| == WORD_LENGTH && i <= j < k < WORD_LENGTH
    requires gl[j] != None && gl[j] == gl[k] && fb[k] != Yellow
    requires SecondPass(gl, fb, tl, i).0[j] != Yellow
    ensures SecondPass(gl, fb, tl, i).0[k] != Yellow
    decreases WORD_LENGTH - i
  {
    if i == j {
      if gl[i] != None && gl[i] in tl {
        SecondPassEffect(gl, fb[i := Yellow], tl[FirstIndex(tl, gl[i]) := None], i + 1);
        assert false;
      }
      AbsentStaysUnmarked(gl, fb, tl, i + 1, gl[j], k);
    } else if gl[i] != None && gl[i] in tl {
      SecondPassLeftmost(gl, fb[i := Yellow], tl[FirstIndex(tl, gl[i]) := None], i + 1, j, k);
    } else {
      SecondPassLeftmost(gl, fb, tl, i + 1, j, k);
    }
  }

  /**
   * Repeated letters: when a letter occurs at two positions that are not Green, a Yellow on the later
   * one implies a Yellow on the earlier one, so the leftmost occurrences are served first.
   */
  lemma LeftmostYellow(g: Word, t: Word, j: nat, k: nat)
    requires j < k < WORD_LENGTH && g[j] == g[k] && g[j] != t[j]
    requires Score(g, t)[k] == Yellow
    ensures Score(g, t)[j] == Yellow
  {
    var first := FirstPass(g, t);
    var gl := Mask(g, first);
    assert gl[j] == Some(g[j]);
    if g[k] == t[k] {
      GreenExactly(g, t, k);
    } else if Score(g, t)[j] != Yellow {
      assert gl[k] == gl[j];
      SecondPassLeftmost(gl, first, Mask(t, first), 0, j, k);
    }
  }
}
