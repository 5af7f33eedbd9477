/**
 * Worked examples of the feedback rules, the candidate filter and the solve loop on concrete words.
 * The intermediate states of each pass are named constants, one lemma per step.
 */
module Scenarios {
  import opened Words
  import opened Feedback
  import opened CandidateFilter
  import opened Solver

  /** One step of the second pass that turns position i Yellow and consumes the k-th target cell. */
  lemma MarkStep(gl: seq<Slot>, fb: Verdict, tl: seq<Slot>, i: nat, k: nat)
    requires |gl| == WORD_LENGTH && |tl| == WORD_LENGTH && i < WORD_LENGTH && k < WORD_LENGTH
    requires gl[i] != None && tl[k] == gl[i] && forall j :: 0 <= j < k ==> tl[j] != gl[i]
    ensures SecondPass(gl, fb, tl, i) == SecondPass(gl, fb[i := Yellow], tl[k := None], i + 1)
  {
    assert gl[i] in tl;
  }

  /** Steps of the second pass from position i on that find none of their letters in the target copy. */
  lemma {:induction false} PassSteps(gl: seq<Slot>, fb: Verdict, tl: seq<Slot>, i: nat)
    requires |gl| == WORD_LENGTH && |tl| == WORD_LENGTH && i <= WORD_LENGTH
    requires forall j :: i <= j < WORD_LENGTH ==> gl[j] == None || gl[j] !in tl
    ensures SecondPass(gl, fb, tl, i) == (fb, tl)
    decreases WORD_LENGTH - i
  {
    if i < WORD_LENGTH {
      PassSteps(gl, fb, tl, i + 1);
    }
  }

  /** One step of the Yellow check that accepts position i and consumes the k-th cell of the word. */
  lemma ConsumeStep(fb: Verdict, wl: seq<Slot>, gl: seq<Slot>, i: nat, k: nat)
    requires |wl| == WORD_LENGTH && |gl| == WORD_LENGTH && i < WORD_LENGTH && k < WORD_LENGTH
    requires fb[i] == Yellow && wl[i] != gl[i] && wl[k] == gl[i]
    requires forall j :: 0 <= j < k ==> wl[j] != gl[i]
    ensures YellowPass(fb, wl, gl, i) == YellowPass(fb, wl[k := None], gl[i := None], i + 1)
  {
    assert gl[i] in wl;
  }

  /** Without Yellow positions from i on, the Yellow check accepts and changes nothing. */
  lemma {:induction false} NoYellows(fb: Verdict, wl: seq<Slot>, gl: seq<Slot>, i: nat)
    requires |wl| == WORD_LENGTH && |gl| == WORD_LENGTH && i <= WORD_LENGTH
    requires forall j :: i <= j < WORD_LENGTH ==> fb[j] != Yellow
    ensures YellowPass(fb, wl, gl, i) == Some((wl, gl))
    decreases WORD_LENGTH - i
  {
    if i < WORD_LENGTH {
      NoYellows(fb, wl, gl, i + 1);
    }
  }

  // ----- "allee" against "label": repeated letters -----

  const ALLEE_GUESS: seq<Slot> := [Some('a'), Some('l'), Some('l'), None, Some('e')]
  const ALLEE_0: Verdict := [Gray, Gray, Gray, Green, Gray]
  const ALLEE_1: Verdict := [Yellow, Gray, Gray, Green, Gray]
  const ALLEE_2: Verdict := [Yellow, Yellow, Gray, Green, Gray]
  const ALLEE_3: Verdict := [Yellow, Yellow, Yellow, Green, Gray]
  const LABEL_0: seq<Slot> := [Some('l'), Some('a'), Some('b'), None, Some('l')]
  const LABEL_1: seq<Slot> := [Some('l'), None, Some('b'), None, Some('l')]
  const LABEL_2: seq<Slot> := [None, None, Some('b'), None, Some('l')]
  const LABEL_3: seq<Slot> := [None, None, Some('b'), None, None]

  lemma AlleeFirstPass()
    ensures FirstPass("allee", "label") == ALLEE_0
    ensures Mask("allee", ALLEE_0) == ALLEE_GUESS && Mask("label", ALLEE_0) == LABEL_0
  {
  }

  lemma AlleeTakesA()
    ensures SecondPass(ALLEE_GUESS, ALLEE_0, LABEL_0, 0) == SecondPass(ALLEE_GUESS, ALLEE_1, LABEL_1, 1)
  {
    MarkStep(ALLEE_GUESS, ALLEE_0, LABEL_0, 0, 1);
    assert ALLEE_0[0 := Yellow] == ALLEE_1 && LABEL_0[1 := None] == LABEL_1;
  }

  lemma AlleeTakesFirstL()
    ensures SecondPass(ALLEE_GUESS, ALLEE_1, LABEL_1, 1) == SecondPass(ALLEE_GUESS, ALLEE_2, LABEL_2, 2)
  {
    MarkStep(ALLEE_GUESS, ALLEE_1, LABEL_1, 1, 0);
    assert ALLEE_1[1 := Yellow] == ALLEE_2 && LABEL_1[0 := None] == LABEL_2;
  }

  lemma AlleeTakesLastL()
    ensures SecondPass(ALLEE_GUESS, ALLEE_2, LABEL_2, 2) == SecondPass(ALLEE_GUESS, ALLEE_3, LABEL_3, 3)
  {
    MarkStep(ALLEE_GUESS, ALLEE_2, LABEL_2, 2, 4);
    assert ALLEE_2[2 := Yellow] == ALLEE_3 && LABEL_2[4 := None] == LABEL_3;
  }

  lemma AlleeSecondEMisses()
    ensures SecondPass(ALLEE_GUESS, ALLEE_3, LABEL_3, 3) == (ALLEE_3, LABEL_3)
  {
    assert Some('e') !in LABEL_3;
    PassSteps(ALLEE_GUESS, ALLEE_3, LABEL_3, 3);
  }

  /**
   * Repeated letters: guessing "allee" against "label" credits the a and both l's, the e in place
   * is Green, and the second e finds no e left in the target.
   */
  lemma RepeatedLetters()
    ensures Score("allee", "label") == [Yellow, Yellow, Yellow, Green, Gray]
  {
    AlleeFirstPass();
    AlleeTakesA();
    AlleeTakesFirstL();
    AlleeTakesLastL();
    AlleeSecondEMisses();
  }

  // ----- the five-word game: target "grate" -----

  const GAME: seq<Word> := ["crane", "slate", "train", "grate", "plate"]
  const CRANE_VERDICT: Verdict := [Gray, Green, Green, Gray, Green]
  const CRANE_GUESS: seq<Slot> := [Some('c'), None, None, Some('n'), None]
  const GRATE_LEFT: seq<Slot> := [Some('g'), None, None, Some('t'), None]
  const ALL_GREEN: Verdict := [Green, Green, Green, Green, Green]

  lemma CraneFirstPass()
    ensures FirstPass("crane", "grate") == CRANE_VERDICT
    ensures Mask("crane", CRANE_VERDICT) == CRANE_GUESS && Mask("grate", CRANE_VERDICT) == GRATE_LEFT
  {
  }

  /** First guess of the game: "crane" against "grate" has r, a and e in place and nothing else. */
  lemma CraneAgainstGrate()
    ensures Score("crane", "grate") == CRANE_VERDICT
  {
    CraneFirstPass();
    assert Some('c') !in GRATE_LEFT && Some('n') !in GRATE_LEFT;
    PassSteps(CRANE_GUESS, CRANE_VERDICT, GRATE_LEFT, 0);
  }

  /** "crane" passes the Green and Yellow checks, but its c is still there for the Gray check. */
  lemma CraneRejected()
    ensures !Consistent("crane", "crane", CRANE_VERDICT)
  {
    CraneFirstPass();
    NoYellows(CRANE_VERDICT, CRANE_GUESS, CRANE_GUESS, 0);
    assert CRANE_GUESS[0] == Some('c');
  }

  /** "grate" passes all three checks. */
  lemma GrateKept()
    ensures Consistent("grate", "crane", CRANE_VERDICT)
  {
    CraneFirstPass();
    NoYellows(CRANE_VERDICT, GRATE_LEFT, CRANE_GUESS, 0);
    assert Some('c') !in GRATE_LEFT && Some('n') !in GRATE_LEFT;
  }

  /** "slate", "train" and "plate" each miss a Green position. */
  lemma GreensRejected()
    ensures !Consistent("slate", "crane", CRANE_VERDICT)
    ensures !Consistent("train", "crane", CRANE_VERDICT)
    ensures !Consistent("plate", "crane", CRANE_VERDICT)
  {
    assert CRANE_VERDICT[1] == Green && CRANE_VERDICT[4] == Green;
  }

  lemma FilterSnoc(ws: seq<Word>, w: Word, g: Word, fb: Verdict, longer: seq<Word>)
    requires longer == ws + [w]
    ensures Filter(longer, g, fb) == Filter(ws, g, fb) + if Consistent(w, g, fb) then [w] else []
  {
    assert longer[..|ws|] == ws;
  }

  /** Of the first four words only "grate" is kept. */
  lemma FirstFourLeaveGrate()
    ensures Filter(["crane", "slate", "train", "grate"], "crane", CRANE_VERDICT) == ["grate"]
  {
    CraneRejected();
    GreensRejected();
    GrateKept();
    FilterSnoc([], "crane", "crane", CRANE_VERDICT, ["crane"]);
    FilterSnoc(["crane"], "slate", "crane", CRANE_VERDICT, ["crane", "slate"]);
    FilterSnoc(["crane", "slate"], "train", "crane", CRANE_VERDICT, ["crane", "slate", "train"]);
    FilterSnoc(["crane", "slate", "train"], "grate", "crane", CRANE_VERDICT, ["crane", "slate", "train", "grate"]);
  }

  /** After "crane", only "grate" of the five words is left as a candidate. */
  lemma CraneLeavesGrate()
    ensures Filter(GAME, "crane", CRANE_VERDICT) == ["grate"]
  {
    FirstFourLeaveGrate();
    GreensRejected();
    FilterSnoc(["crane", "slate", "train", "grate"], "plate", "crane", CRANE_VERDICT, GAME);
  }

  lemma GrateAllGreen()
    ensures Score("grate", "grate") == ALL_GREEN
  {
    SelfScoreAllGreen("grate");
    assert AllGreen(Score("grate", "grate"));
  }

  /** The whole game: two guesses, "crane" then "grate", and the target is found. */
  lemma FiveWordGame()
    ensures Run(GAME, "grate")
      == Trace([Attempt("crane", CRANE_VERDICT), Attempt("grate", ALL_GREEN)], Some("grate"))
  {
    CraneAgainstGrate();
    CraneLeavesGrate();
    GrateAllGreen();
    assert CRANE_VERDICT[0] != Green;
    RunStep(GAME, "grate", CRANE_VERDICT, ["grate"]);
    RunFinish(["grate"], "grate");
  }

  // ----- a target outside the list, played without substitution -----

  const ALL_GRAY: Verdict := [Gray, Gray, Gray, Gray, Gray]
  const ABCDE: seq<Slot> := [Some('a'), Some('b'), Some('c'), Some('d'), Some('e')]
  const FGHIJ: seq<Slot> := [Some('f'), Some('g'), Some('h'), Some('i'), Some('j')]

  lemma DisjointFirstPass()
    ensures FirstPass("abcde", "fghij") == ALL_GRAY
    ensures Mask("abcde", ALL_GRAY) == ABCDE && Mask("fghij", ALL_GRAY) == FGHIJ
  {
  }

  lemma DisjointScore()
    ensures Score("abcde", "fghij") == ALL_GRAY
  {
    DisjointFirstPass();
    assert forall j :: 0 <= j < WORD_LENGTH ==> ABCDE[j] !in FGHIJ;
    PassSteps(ABCDE, ALL_GRAY, FGHIJ, 0);
  }

  /**
   * The one guess "abcde" shares no letter with "fghij": the filter empties the list and nothing is
   * found after one attempt.
   */
  lemma NoCandidateLeft()
    ensures Run(["abcde"], "fghij") == Trace([Attempt("abcde", ALL_GRAY)], None)
  {
    DisjointScore();
    FilterDropsGuess(["abcde"], "abcde", "fghij");
    assert ALL_GRAY[0] != Green;
    assert Filter(["abcde"], "abcde", ALL_GRAY) == [];
  }

  // ----- the filter is not re-scoring: guess "aaxyz", target "bcaaq", candidate "baaqq" -----

  const DOUBLE_A: Verdict := [Yellow, Yellow, Gray, Gray, Gray]
  const AAXYZ: seq<Slot> := [Some('a'), Some('a'), Some('x'), Some('y'), Some('z')]
  const BCAAQ_0: seq<Slot> := [Some('b'), Some('c'), Some('a'), Some('a'), Some('q')]
  const BCAAQ_1: seq<Slot> := [Some('b'), Some('c'), None, Some('a'), Some('q')]
  const BCAAQ_2: seq<Slot> := [Some('b'), Some('c'), None, None, Some('q')]
  const FIRST_A: Verdict := [Yellow, Gray, Gray, Gray, Gray]
  const BAAQQ_0: seq<Slot> := [Some('b'), Some('a'), Some('a'), Some('q'), Some('q')]
  const BAAQQ_1: seq<Slot> := [Some('b'), None, Some('a'), Some('q'), Some('q')]
  const BAAQQ_2: seq<Slot> := [Some('b'), None, None, Some('q'), Some('q')]
  const XYZ_1: seq<Slot> := [None, Some('a'), Some('x'), Some('y'), Some('z')]
  const XYZ_2: seq<Slot> := [None, None, Some('x'), Some('y'), Some('z')]

  lemma DoubleAFirstPass()
    ensures FirstPass("aaxyz", "bcaaq") == ALL_GRAY
    ensures Mask("aaxyz", ALL_GRAY) == AAXYZ && Mask("bcaaq", ALL_GRAY) == BCAAQ_0
  {
  }

  lemma DoubleATakesFirst()
    ensures SecondPass(AAXYZ, ALL_GRAY, BCAAQ_0, 0) == SecondPass(AAXYZ, FIRST_A, BCAAQ_1, 1)
  {
    MarkStep(AAXYZ, ALL_GRAY, BCAAQ_0, 0, 2);
    assert ALL_GRAY[0 := Yellow] == FIRST_A && BCAAQ_0[2 := None] == BCAAQ_1;
  }

  lemma DoubleATakesSecond()
    ensures SecondPass(AAXYZ, FIRST_A, BCAAQ_1, 1) == (DOUBLE_A, BCAAQ_2)
  {
    MarkStep(AAXYZ, FIRST_A, BCAAQ_1, 1, 3);
    assert FIRST_A[1 := Yellow] == DOUBLE_A && BCAAQ_1[3 := None] == BCAAQ_2;
    assert Some('x') !in BCAAQ_2 && Some('y') !in BCAAQ_2 && Some('z') !in BCAAQ_2;
    PassSteps(AAXYZ, DOUBLE_A, BCAAQ_2, 2);
  }

  lemma DoubleAScore()
    ensures Score("aaxyz", "bcaaq") == DOUBLE_A
  {
    DoubleAFirstPass();
    DoubleATakesFirst();
    DoubleATakesSecond();
  }

  lemma BaaqqMasks()
    ensures Mask("baaqq", DOUBLE_A) == BAAQQ_0 && Mask("aaxyz", DOUBLE_A) == AAXYZ
  {
  }

  /** The first a of "baaqq" sits at position 1, so the Yellow a at position 0 consumes it. */
  lemma BaaqqFirstYellow()
    ensures YellowPass(DOUBLE_A, BAAQQ_0, AAXYZ, 0) == YellowPass(DOUBLE_A, BAAQQ_1, XYZ_1, 1)
  {
    ConsumeStep(DOUBLE_A, BAAQQ_0, AAXYZ, 0, 1);
    assert BAAQQ_0[1 := None] == BAAQQ_1 && AAXYZ[0 := None] == XYZ_1;
  }

  /**
   * Position 1 of "baaqq" holds an a, but the check sees the None left by the previous step and
   * accepts the Yellow a there, consuming the a at position 2.
   */
  lemma BaaqqSecondYellow()
    ensures YellowPass(DOUBLE_A, BAAQQ_1, XYZ_1, 1) == Some((BAAQQ_2, XYZ_2))
  {
    ConsumeStep(DOUBLE_A, BAAQQ_1, XYZ_1, 1, 2);
    assert BAAQQ_1[2 := None] == BAAQQ_2 && XYZ_1[1 := None] == XYZ_2;
    NoYellows(DOUBLE_A, BAAQQ_2, XYZ_2, 2);
  }

  lemma BaaqqConsistent()
    ensures Consistent("baaqq", "aaxyz", DOUBLE_A)
  {
    BaaqqMasks();
    BaaqqFirstYellow();
    BaaqqSecondYellow();
    assert Some('x') !in BAAQQ_2 && Some('y') !in BAAQQ_2 && Some('z') !in BAAQQ_2;
    assert GraysAbsent(DOUBLE_A, BAAQQ_2, XYZ_2);
  }

  /**
   * The Yellow check compares against the word as already consumed, so the filter can keep a
   * candidate that would not reproduce the verdict: after "aaxyz" scored against "bcaaq", the
   * filter keeps "baaqq", although "aaxyz" scored against "baaqq" is Green at position 1.
   */
  lemma KeepsNonReproducingCandidate()
    ensures Score("aaxyz", "bcaaq") == DOUBLE_A
    ensures Consistent("baaqq", "aaxyz", DOUBLE_A)
    ensures Score("aaxyz", "baaqq") != DOUBLE_A
  {
    DoubleAScore();
    BaaqqConsistent();
    GreenExactly("aaxyz", "baaqq", 1);
  }
}
