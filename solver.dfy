/**
 * The solve loop, `WordleSolver.solve`: guess the first remaining candidate, score it, record the
 * attempt in the solver's history, stop on an all-green verdict and otherwise filter the candidates.
 */
module Solver {
  import opened Words
  import opened Feedback
  import opened CandidateFilter

  /** One entry of `attempt_history`: the pair (guess, feedback). */
  datatype Attempt = Attempt(guess: Word, feedback: Verdict)

  /** What one run of the loop produces: the attempts it records and the word it finds, if any. */
  datatype Trace = Trace(attempts: seq<Attempt>, found: Option<Word>)

  /** The exceptions `solve` can raise before the loop starts. */
  datatype SolveError =
    | WrongLength    // ValueError: the target is not 5 letters long
    | EmptyWordList  // IndexError: random.choice on an empty word list

  /** What `solve` does: raise, or return the pair (found word or None, attempt history). */
  datatype Outcome = Raised(error: SolveError) | Returned(found: Option<Word>, history: seq<Attempt>)

  /** An attempt whose guess is not the target removes that guess from the candidates. */
  lemma FilterShrinks(remaining: seq<Word>, target: Word)
    requires remaining != [] && !AllGreen(Score(remaining[0], target))
    ensures |Filter(remaining, remaining[0], Score(remaining[0], target))| < |remaining|
  {
    AllGreenOnlyForTarget(remaining[0], target);
    FilterDropsGuess(remaining, remaining[0], target);
  }

  /** One turn of the loop: record the attempt, then carry on with the filtered candidates. */
  lemma RunStep(ws: seq<Word>, t: Word, fb: Verdict, next: seq<Word>)
    requires ws != [] && fb == Score(ws[0], t) && !AllGreen(fb) && next == Filter(ws, ws[0], fb)
    ensures |next| < |ws|
    ensures Run(ws, t).attempts == [Attempt(ws[0], fb)] + Run(next, t).attempts
    ensures Run(ws, t).found == Run(next, t).found
  {
    FilterShrinks(ws, t);
  }

  /** The last turn of the loop: an all-green verdict ends the run with the guess found. */
  lemma RunFinish(ws: seq<Word>, t: Word)
    requires ws != [] && AllGreen(Score(ws[0], t))
    ensures Run(ws, t) == Trace([Attempt(ws[0], Score(ws[0], t))], Some(ws[0]))
  {
  }

  /** The loop of `solve`, from the candidate list `remaining`, as a function of that list and the target. */
  function Run(remaining: seq<Word>, target: Word): Trace
    decreases |remaining|
  {
    if remaining == [] then Trace([], None)
    else
      var guess := remaining[0];
      var fb := Score(guess, target);
      if AllGreen(fb) then Trace([Attempt(guess, fb)], Some(guess))
      else
        var next := Filter(remaining, guess, fb);
        if next == [] then Trace([Attempt(guess, fb)], None)
        else
          FilterShrinks(remaining, target);
          var rest := Run(next, target);
          Trace([Attempt(guess, fb)] + rest.attempts, rest.found)
  }

  /** The word `solve` actually plays against: the requested one if listed, else the randomly picked one. */
  function Substitute(targetWord: Word, wordlist: seq<Word>, pick: nat): (t: Word)
    requires targetWord in wordlist || wordlist != []
    ensures t in wordlist
    ensures targetWord in wordlist ==> t == targetWord
  {
    if targetWord in wordlist then targetWord else wordlist[pick % |wordlist|]
  }

  lemma FilterWithin(ws: seq<Word>, g: Word, fb: Verdict, x: Word)
    requires x in Filter(ws, g, fb)
    ensures x in ws
  {
    FilterCount(ws, g, fb, x);
  }

  /** Each attempt guesses a word of the list and records the verdict for that guess against the target. */
  lemma {:induction false} RunScoresListedGuesses(ws: seq<Word>, t: Word)
    ensures forall a :: a in Run(ws, t).attempts ==> a.guess in ws && a.feedback == Score(a.guess, t)
    decreases |ws|
  {
    if ws != [] {
      var guess := ws[0];
      var fb := Score(guess, t);
      var next := Filter(ws, guess, fb);
      if !AllGreen(fb) && next != [] {
        FilterShrinks(ws, t);
        RunScoresListedGuesses(next, t);
        var rest := Run(next, t);
        assert Run(ws, t).attempts == [Attempt(guess, fb)] + rest.attempts;
        forall a | a in rest.attempts
          ensures a.guess in ws
        {
          FilterWithin(ws, guess, fb, a.guess);
        }
      }
    }
  }

  /** The first guess is the first word of the list. */
  lemma RunStartsWithFirstWord(ws: seq<Word>, t: Word)
    requires ws != []
    ensures Run(ws, t).attempts != [] && Run(ws, t).attempts[0] == Attempt(ws[0], Score(ws[0], t))
  {
  }

  /** No attempt before the last is all green: the loop stops at the first all-green verdict. */
  lemma {:induction false} RunStopsAtFirstGreen(ws: seq<Word>, t: Word)
    ensures var r := Run(ws, t);
      forall i :: 0 <= i < |r.attempts| - 1 ==> !AllGreen(r.attempts[i].feedback)
    decreases |ws|
  {
    if ws != [] {
      var guess := ws[0];
      var fb := Score(guess, t);
      var next := Filter(ws, guess, fb);
      if !AllGreen(fb) && next != [] {
        FilterShrinks(ws, t);
        RunStopsAtFirstGreen(next, t);
        assert Run(ws, t).attempts == [Attempt(guess, fb)] + Run(next, t).attempts;
        PrependNonGreen(Attempt(guess, fb), Run(next, t).attempts);
      }
    }
  }

  lemma PrependNonGreen(a: Attempt, rest: seq<Attempt>)
    requires !AllGreen(a.feedback)
    requires forall i :: 0 <= i < |rest| - 1 ==> !AllGreen(rest[i].feedback)
    ensures var s := [a] + rest;
      forall i :: 0 <= i < |s| - 1 ==> !AllGreen(s[i].feedback)
  {
    var s := [a] + rest;
    forall i | 1 <= i < |s| - 1
      ensures !AllGreen(s[i].feedback)
    {
      assert s[i] == rest[i - 1];
    }
  }

  /** A word is found exactly when the last attempt is all green, and the word found is the last guess. */
  lemma {:induction false} RunFoundIsLastGuess(ws: seq<Word>, t: Word)
    ensures var r := Run(ws, t);
      && (r.found.Some? <==> r.attempts != [] && AllGreen(r.attempts[|r.attempts| - 1].feedback))
      && (r.found.Some? ==> r.found.value == r.attempts[|r.attempts| - 1].guess)
    decreases |ws|
  {
    if ws != [] {
      var guess := ws[0];
      var fb := Score(guess, t);
      var next := Filter(ws, guess, fb);
      if !AllGreen(fb) && next != [] {
        RunStep(ws, t, fb, next);
        RunFoundIsLastGuess(next, t);
        RunStartsWithFirstWord(next, t);
        LastOfPrepend(Attempt(guess, fb), Run(next, t).attempts);
      }
    }
  }

  lemma LastOfPrepend(a: Attempt, rest: seq<Attempt>)
    requires rest != []
    ensures var s := [a] + rest; s[|s| - 1] == rest[|rest| - 1]
  {
  }

  /** The loop never issues more guesses than there are candidates. */
  lemma {:induction false} RunBound(ws: seq<Word>, t: Word)
    ensures |Run(ws, t).attempts| <= |ws|
    decreases |ws|
  {
    if ws != [] {
      var fb := Score(ws[0], t);
      var next := Filter(ws, ws[0], fb);
      if !AllGreen(fb) && next != [] {
        FilterShrinks(ws, t);
        RunBound(next, t);
      }
    }
  }

  /** The loop finds the target exactly when the target is among the candidates, and finds nothing else. */
  lemma {:induction false} RunFindsTarget(ws: seq<Word>, t: Word)
    ensures Run(ws, t).found == if t in ws then Some(t) else None
    decreases |ws|
  {
    if ws != [] {
      var guess := ws[0];
      var fb := Score(guess, t);
      var next := Filter(ws, guess, fb);
      AllGreenOnlyForTarget(guess, t);
      if !AllGreen(fb) {
        FilterKeepsTarget(ws, guess, t);
        if t in ws {
          assert t in next;
        } else if t in next {
          FilterWithin(ws, guess, fb, t);
        }
        if next != [] {
          FilterShrinks(ws, t);
          RunFindsTarget(next, t);
        }
      }
    }
  }

  /** No word is guessed twice in one run. */
  lemma {:induction false} RunGuessesDistinct(ws: seq<Word>, t: Word)
    ensures var r := Run(ws, t);
      forall i, j :: 0 <= i < j < |r.attempts| ==> r.attempts[i].guess != r.attempts[j].guess
    decreases |ws|
  {
    if ws != [] {
      var guess := ws[0];
      var fb := Score(guess, t);
      var next := Filter(ws, guess, fb);
      if !AllGreen(fb) && next != [] {
        FilterShrinks(ws, t);
        RunGuessesDistinct(next, t);
        RunScoresListedGuesses(next, t);
        AllGreenOnlyForTarget(guess, t);
        FilterDropsGuess(ws, guess, t);
        assert Run(ws, t).attempts == [Attempt(guess, fb)] + Run(next, t).attempts;
        PrependFreshGuess(Attempt(guess, fb), Run(next, t).attempts);
      }
    }
  }

  lemma PrependFreshGuess(a: Attempt, rest: seq<Attempt>)
    requires forall b :: b in rest ==> b.guess != a.guess
    requires forall i, j :: 0 <= i < j < |rest| ==> rest[i].guess != rest[j].guess
    ensures var s := [a] + rest;
      forall i, j :: 0 <= i < j < |s| ==> s[i].guess != s[j].guess
  {
    var s := [a] + rest;
    forall i, j | 0 <= i < j < |s|
      ensures s[i].guess != s[j].guess
    {
      assert s[j] == rest[j - 1];
      if i > 0 {
        assert s[i] == rest[i - 1];
      }
    }
  }

  /** Put together: a listed target is found within as many guesses as the list has words. */
  lemma SolvesListedTarget(ws: seq<Word>, t: Word)
    requires t in ws
    ensures var r := Run(ws, t);
      r.found == Some(t) && 1 <= |r.attempts| <= |ws|
      && r.attempts[|r.attempts| - 1] == Attempt(t, Score(t, t))
  {
    RunFindsTarget(ws, t);
    RunBound(ws, t);
    RunFoundIsLastGuess(ws, t);
  }

  /** The solver: a fixed word list and an attempt history that every call of Solve extends. */
  class WordleSolver {
    const wordlist: seq<Word>
    var attemptHistory: seq<Attempt>

    /** `__init__`, given the already loaded word list. */
    constructor (wordlist: seq<Word>)
      ensures this.wordlist == wordlist && attemptHistory == []
    {
      this.wordlist := wordlist;
      attemptHistory := [];
    }

    /**
     * `solve(target_word)`, with `pick` standing for the index random.choice returns (taken modulo
     * the length of the list). Checks the length, substitutes an unlisted target, then runs the loop,
     * appending one attempt per guess to the history; earlier entries are never touched.
     */
    method Solve(targetWord: string, pick: nat) returns (outcome: Outcome)
      modifies this
      ensures |targetWord| != WORD_LENGTH ==>
        outcome == Raised(WrongLength) && attemptHistory == old(attemptHistory)
      ensures |targetWord| == WORD_LENGTH && targetWord !in wordlist && wordlist == [] ==>
        outcome == Raised(EmptyWordList) && attemptHistory == old(attemptHistory)
      ensures |targetWord| == WORD_LENGTH && (targetWord in wordlist || wordlist != []) ==>
        var run := Run(wordlist, Substitute(targetWord, wordlist, pick));
        attemptHistory == old(attemptHistory) + run.attempts && outcome == Returned(run.found, attemptHistory)
    {
      if |targetWord| != WORD_LENGTH {
        return Raised(WrongLength);
      }
      var target: Word := targetWord;
      if target !in wordlist {
        if wordlist == [] {
          return Raised(EmptyWordList);
        }
        target := wordlist[pick % |wordlist|];
      }
      assert target == Substitute(targetWord, wordlist, pick);
      outcome := Play(target);
    }

    /** The guessing loop of `solve`, once the target has been settled: guess the first remaining
      * word, record the attempt, stop on an all-green verdict, otherwise keep only the candidates
      * consistent with the verdict. */
    method Play(target: Word) returns (outcome: Outcome)
      modifies this
      ensures attemptHistory == old(attemptHistory) + Run(wordlist, target).attempts
      ensures outcome == Returned(Run(wordlist, target).found, attemptHistory)
    {
      var remaining := wordlist;
      ghost var done: seq<Attempt> := [];
      assert done + Run(remaining, target).attempts == Run(remaining, target).attempts;
      while |remaining| > 0
        invariant attemptHistory == old(attemptHistory) + done
        invariant Run(wordlist, target).attempts == done + Run(remaining, target).attempts
        invariant Run(wordlist, target).found == Run(remaining, target).found
        decreases |remaining|
      {
        // Pick a word from the remaining valid words
        var guess := remaining[0];
        var feedback := GetFeedback(guess, target);
        attemptHistory := attemptHistory + [Attempt(guess, feedback)];
        ghost var previous := done;
        done := done + [Attempt(guess, feedback)];

        if AllGreen(feedback) {
          RunFinish(remaining, target);
          assert done == previous + Run(remaining, target).attempts;
          return Returned(Some(guess), attemptHistory);
        }

        ghost var before := remaining;
        remaining := FilterWords(remaining, guess, feedback);
        RunStep(before, target, feedback, remaining);
        assert done + Run(remaining, target).attempts
          == previous + ([Attempt(guess, feedback)] + Run(remaining, target).attempts);

        if |remaining| == 0 {
          return Returned(None, attemptHistory);
        }
      }
      return Returned(None, attemptHistory);
    }
  }
}
