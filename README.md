# Wordle solver core, modelled in Dafny

This project models the deterministic core of a Wordle solver (`WordleSolver` in `wordle_solver.py`) and proves properties of it. The solver has three parts:

- The **feedback engine** (`_get_feedback`) scores a guess against a target. Each position gets a tag: Green, Yellow or Gray. It works in two passes over working copies of both words, and each letter it matches is nulled out.
- The **candidate filter** (`_filter_words`) keeps the words that pass three consuming checks for a guess and its verdict: Green, then Yellow, then Gray.
- The **solve loop** (`solve`) always guesses the first remaining candidate. It appends `(guess, verdict)` to the solver's persistent `attempt_history`. It stops on an all-green verdict, and otherwise filters the candidates and continues.

The small 5-bit letter code of the search register is also modelled: the encoding on line 45 and its inverse `_bits_to_word`.

Modules, one per part of the program:

- `Words` (`words.dfy`) holds the shared vocabulary:
  - 5-letter words and 5-tag verdicts;
  - the `None`-able working cells (`Slot`);
  - `list.index` as `FirstIndex`.
- `Feedback` (`feedback.dfy`):
  - the two passes as functions (`FirstPass`, and `SecondPass` step by step);
  - the imperative `GetFeedback`, proved equal to `Score`;
  - the properties of the scoring.
- `CandidateFilter` (`filter.dfy`):
  - the per-word checks as the predicate `Consistent`, with the Yellow pass as the step function `YellowPass`;
  - the loops `Admits` and `FilterWords`, proved equal to `Consistent` and `Filter`;
  - the properties of the filter.
- `Solver` (`solver.dfy`):
  - the loop of `solve` as the function `Run` over the remaining candidates;
  - the class `WordleSolver`, whose `attemptHistory` field every `Solve` call extends;
  - the properties of a run.
  - Termination of `Run` rests on a proved fact: a guess that is not the target is removed by its own verdict, so the candidate list strictly shrinks.
- `LetterCodec` (`codec.dfy`):
  - `format(ord(c) - ord('a'), '05b')`;
  - the register layout;
  - `_bits_to_word` as the function `DecodeBits` and the loop `BitsToWord`, with round trips in both directions.
- `Scenarios` (`scenarios.dfy`) works through concrete words. Each intermediate state of a pass is a named constant, with one lemma per step.

`random.choice` becomes a parameter: `Solve` takes an index `pick` and uses `wordlist[pick % |wordlist|]`. A `None` result of the decoder stands for the `ValueError` that `int(…, 2)` raises. `Raised(…)` stands for the exceptions `solve` raises.

## The filter is not "re-score and compare"

One might expect a candidate `w` to be kept exactly when scoring the guess against `w` reproduces the verdict. The code does something slightly different, and the model follows the code.

Both halves are proved:

- The filter never drops a candidate that reproduces the verdict (`TargetIsConsistent`, `FilterKeepsTarget`).
- It can keep one that does not (`KeepsNonReproducingCandidate`).

Why the second half happens:

- The Yellow check tests `word_list[i] == guess_list[i]` against the word as already consumed by earlier Yellow positions.
- After the guess "aaxyz" scores `[Yellow, Yellow, Gray, Gray, Gray]` against "bcaaq", the candidate "baaqq" is kept.
- Yet "aaxyz" scored against "baaqq" is Green at position 1.

## Model

| member | source | states |
|---|---|---|
| `Words.FirstIndex` | wordle_solver.py:84 | `list.index`: the result holds the element, and no earlier position does |
| `Words.AllGreen` | wordle_solver.py:110 | definition: every one of the five tags is Green |
| `Feedback.FirstPass` | wordle_solver.py:71-77 | definition: the tags after the first pass, Green where guess and target agree and Gray elsewhere |
| `Feedback.Mask` | wordle_solver.py:74-75 | definition: a working copy of a word with its cells at Green positions set to None; five cells long |
| `Feedback.SecondPass` | wordle_solver.py:80-84 | definition: the second pass from position i on. An unconsumed guess letter still in the target copy turns Yellow and nulls the first such target cell. Returns the tags and the final target copy, five cells long |
| `Feedback.Score` | wordle_solver.py:65-86 | definition: the verdict, i.e. the second pass run over the first pass's tags and the copies masked at the Greens. Characterised by the lemmas below |
| `Feedback.GetFeedback` | wordle_solver.py:65-86 | the two in-place passes compute exactly `Score(guess, target)` |
| `Feedback.SecondPassEffect` | wordle_solver.py:80-84 | the second pass only turns positions Yellow that still hold a guess letter, and only nulls target cells. A letter left un-Yellow at the end is absent from the remaining target copy |
| `Feedback.GreenExactly` | wordle_solver.py:71-77 | a position is Green if and only if guess and target agree there; the second pass never touches Greens |
| `Feedback.SelfScoreAllGreen` | wordle_solver.py:65-86 | a word scored against itself is all green |
| `Feedback.AllGreenOnlyForTarget` | wordle_solver.py:110 | the all-green test succeeds if and only if the guess is the target |
| `Feedback.SecondPassAccounts` | wordle_solver.py:80-84 | during the second pass, the letters c credited to the guess plus the copies of c left in the target copy stay constant |
| `Feedback.LetterBudget` | wordle_solver.py:65-86 | for each letter, the guess positions holding it that are Green or Yellow are at most its occurrences in the target |
| `Feedback.GrayExhausts` | wordle_solver.py:80-84 | a Gray position means every occurrence of its letter in the target is already credited to a Green or Yellow |
| `Feedback.LeftmostYellow` | wordle_solver.py:80-84 | for repeated guess letters that are not in place, a Yellow on a later occurrence implies a Yellow on every earlier one |
| `CandidateFilter.YellowPass` | wordle_solver.py:148-156 | definition: the Yellow check from position i on. It fails at a Yellow whose guess letter is absent from the word copy or sits at that very position. Otherwise it nulls the first occurrence in the word copy and the guess cell. On success it returns both copies, five cells each |
| `CandidateFilter.GraysAbsent` | wordle_solver.py:161-165 | definition: no unconsumed guess letter at a Gray position occurs in the word copy |
| `CandidateFilter.Consistent` | wordle_solver.py:131-167 | definition: the word agrees with the guess at every Green, then passes the Yellow check on the Green-masked copies, then the Gray check on what is left |
| `CandidateFilter.Filter` | wordle_solver.py:129-170 | definition: the words of the list that are `Consistent`, in list order. Characterised by the lemmas below |
| `CandidateFilter.YellowPassFrame` | wordle_solver.py:148-156 | the Yellow check nulls guess cells only at Yellow positions |
| `CandidateFilter.Admits` | wordle_solver.py:131-167 | the three check loops with early exits accept a word exactly when `Consistent` holds |
| `CandidateFilter.FilterWords` | wordle_solver.py:129-170 | the loop returns exactly `Filter(words, guess, feedback)` |
| `CandidateFilter.FilterCount` | wordle_solver.py:129-170 | the filter keeps each word with all its copies if it passes the checks, and drops every copy otherwise |
| `CandidateFilter.FilterIsSubsequence` | wordle_solver.py:129-170 | the result is a subsequence of the input (order preserved) and no longer than it |
| `CandidateFilter.FilterKeepsOnlyConsistent` | wordle_solver.py:166-167 | every kept word passes the checks |
| `CandidateFilter.FilterIdempotent` | wordle_solver.py:129-170 | filtering twice with the same guess and verdict equals filtering once |
| `CandidateFilter.YellowPassReplays` | wordle_solver.py:148-156 | on the word the verdict was scored against, the Yellow check accepts every Yellow and consumes the cells the scoring consumed |
| `CandidateFilter.TargetIsConsistent` | wordle_solver.py:131-167 | soundness: the word a verdict was computed for passes the checks for that verdict |
| `CandidateFilter.FilterKeepsTarget` | wordle_solver.py:129-170 | filtering by the verdict a word produced keeps every copy of that word |
| `CandidateFilter.YellowPassSelf` | wordle_solver.py:148-156 | with identical word and guess copies, the Yellow check fails if and only if some Yellow position remains |
| `CandidateFilter.GuessRejected` | wordle_solver.py:131-167 | a guess that is not the target fails the checks for its own verdict |
| `CandidateFilter.FilterDropsGuess` | wordle_solver.py:129-170 | a wrong guess is not in the filtered list, so a list that held it strictly shrinks |
| `CandidateFilter.FilterStrictlyShrinks` | wordle_solver.py:129-170 | a list holding a word that fails the checks strictly shrinks |
| `Solver.Run` | wordle_solver.py:99-119 | definition: the attempts and the result of the loop from a candidate list. Guess the first word and record it with its score. Stop with that word on all green. Otherwise continue on the filtered list, or stop with nothing when it is empty. Characterised by the Run lemmas below |
| `Solver.FilterShrinks` | wordle_solver.py:113-114 | after a guess that is not all green, the remaining list strictly shrinks, so the loop terminates |
| `Solver.Substitute` | wordle_solver.py:93-96 | the word played is in the list, and it is the requested word whenever that is listed |
| `Solver.FilterWithin` | wordle_solver.py:114 | every remaining candidate comes from the previous list |
| `Solver.RunScoresListedGuesses` | wordle_solver.py:101-107 | every recorded attempt guesses a listed word and records that guess's score against the target |
| `Solver.RunStartsWithFirstWord` | wordle_solver.py:103-107 | the first attempt guesses the first word of the list |
| `Solver.RunStopsAtFirstGreen` | wordle_solver.py:110-111 | no attempt before the last is all green |
| `Solver.RunFoundIsLastGuess` | wordle_solver.py:110-119 | a word is returned if and only if the last attempt is all green, and the word returned is the last guess |
| `Solver.RunBound` | wordle_solver.py:101-117 | the number of attempts is at most the number of listed words |
| `Solver.RunFindsTarget` | wordle_solver.py:101-119 | the loop returns the target if it is among the candidates and nothing otherwise; it never returns a wrong word |
| `Solver.RunGuessesDistinct` | wordle_solver.py:101-114 | no word is guessed twice in a run |
| `Solver.SolvesListedTarget` | wordle_solver.py:88-119 | a listed target is found, after between 1 and `len(wordlist)` attempts, and the last attempt is that target, all green |
| `Solver.WordleSolver.constructor` | wordle_solver.py:11-15 | a new solver holds the given word list and an empty history |
| `Solver.WordleSolver.Solve` | wordle_solver.py:88-119 | a wrong length raises and leaves the history alone. An unlisted target on an empty list raises. Otherwise the history grows by exactly the run's attempts, and the result is the run's found word with the whole history |
| `Solver.WordleSolver.Play` | wordle_solver.py:99-119 | the guessing loop appends exactly `Run(wordlist, target).attempts` to the history and returns `Run`'s result |
| `LetterCodec.BinaryValue` | wordle_solver.py:125 | the value of a binary numeral of n digits is below 2^n |
| `LetterCodec.Bin` | wordle_solver.py:45 | the numeral has exactly the requested number of binary digits |
| `LetterCodec.BinValue` | wordle_solver.py:45 | reading back the numeral of a number below 2^k gives the number |
| `LetterCodec.BinOfValue` | wordle_solver.py:125 | re-writing the value of a binary numeral in as many digits gives the numeral back |
| `LetterCodec.LetterBits` | wordle_solver.py:45 | a letter's code is 5 binary digits |
| `LetterCodec.EncodeWord` | wordle_solver.py:44-48 | a word of n letters occupies 5n binary digits |
| `LetterCodec.EncodeLayout` | wordle_solver.py:44-48 | bit j of letter i sits at register position i*5 + j |
| `LetterCodec.ParseBinary` | wordle_solver.py:125 | `int(s, 2)` succeeds if and only if s is a non-empty string of 0s and 1s. The value is below 2^len(s), and writing it back gives s |
| `LetterCodec.Letter` | wordle_solver.py:125 | `chr(v + ord('a'))` is a letter whose code is v |
| `LetterCodec.DecodeBits` | wordle_solver.py:121-127 | definition: cut the string into 5-bit chunks (the last may be shorter) and turn each into `chr(int(chunk, 2) + ord('a'))`, or `None` if some chunk fails to parse. Characterised by the codec lemmas below |
| `LetterCodec.BitsToWord` | wordle_solver.py:121-127 | the chunking loop returns exactly `DecodeBits(bits)` |
| `LetterCodec.DecodeFailsOnlyOnNonBinary` | wordle_solver.py:121-127 | decoding fails if and only if the string holds a character other than 0 and 1 |
| `LetterCodec.DecodeLength` | wordle_solver.py:123-126 | a decoded word has one letter per 5 bits, counting a shorter final chunk as one |
| `LetterCodec.DecodeEncode` | wordle_solver.py:121-127 | decoding the line-45 code of a word gives the word back |
| `LetterCodec.EncodeDecode` | wordle_solver.py:121-127 | a binary string of whole 5-bit chunks decodes to a word whose code is that string |
| `Scenarios.RepeatedLetters` | wordle_solver.py:65-86 | "allee" against "label" scores Yellow, Yellow, Yellow, Green, Gray |
| `Scenarios.CraneAgainstGrate` | wordle_solver.py:65-86 | "crane" against "grate" scores Gray, Green, Green, Gray, Green |
| `Scenarios.CraneLeavesGrate` | wordle_solver.py:129-170 | with that verdict, of crane, slate, train, grate and plate only "grate" remains |
| `Scenarios.FiveWordGame` | wordle_solver.py:99-119 | the game on those five words with target "grate" takes two attempts, "crane" then "grate", and finds "grate" |
| `Scenarios.NoCandidateLeft` | wordle_solver.py:113-117 | playing "fghij" on the list ["abcde"] records one all-gray attempt and finds nothing |
| `Scenarios.KeepsNonReproducingCandidate` | wordle_solver.py:148-156 | the filter keeps "baaqq" for "aaxyz" with the verdict scored against "bcaaq", although "baaqq" would score differently |

## Left out

- `_setup_backend`, `_create_grover_circuit` (except the letter code on lines 44-48) and `visualize_circuit` are left out. They build and draw a quantum circuit through foreign libraries, and their results are never used by the solve loop.
- `_load_wordlist` (file reading, `strip`, `lower`) is left out. The constructor takes the already loaded list, and every listed word is assumed to have exactly 5 letters (the `Word` type excludes other lengths). The Python code does not check this. A shorter word may raise an IndexError when it is scored. It may also be rejected, or kept silently, by the filter, whose index reads are guarded by `and`/`or`: under an all-gray verdict the empty string passes all three checks. A longer word is scored on its first five letters only, so it can score all green, and be returned, for a different target: the list `["cranes", "crane"]` with target `"crane"` returns `"cranes"`. `RunFindsTarget`'s "never returns a wrong word" therefore rests on the 5-letter assumption.
- Solver.RunFindsTarget: holds for lists of 5-letter words only. The model's `Word` type cannot express a longer listed word, which the Python loop could return for a different target (see the line above).
- `target_word.lower()` is not modelled: targets are assumed to be lowercase already.
- The `print` calls in `solve`, and `main` with its argument parsing and output, are left out.
- `random.choice` is replaced by the parameter `pick`. Which word it picks is not modelled, only that it is a listed word.
- Solver.WordleSolver.Solve: returns the history as a value. The Python code returns the `attempt_history` list object itself, so later calls keep changing a result the caller already holds. That aliasing is not modelled.
- LetterCodec.ParseBinary: accepts only non-empty strings of 0s and 1s. Python's `int(s, 2)` also accepts surrounding whitespace, a sign, underscores between digits and a `0b` prefix; those inputs decode to `None` here. The decoder is only ever meant to read strings of binary digits, its chunks being the `'05b'` codes of line 45. Nothing in `wordle_solver.py` calls `_bits_to_word`, so no caller constrains its input further.
- LetterCodec.LetterBits: requires `0 <= ord(c) - ord('a') < 32`. `format` gives a sign or more than five digits outside that range; such words are not encoded by the model.
- `setup.py` and `_init_.py` only package the program and are not part of this model.
