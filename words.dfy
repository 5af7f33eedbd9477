/** Vocabulary shared by the feedback engine, the candidate filter and the solve loop. */
module Words {

  /** Every word the solver handles has this many letters: the index loops all run over range(5). */
  const WORD_LENGTH: nat := 5

  type Word = s: string | |s| == WORD_LENGTH witness "aaaaa"

  /** The per-position verdict of one guess: 'green', 'yellow' or 'gray'. */
  datatype Tag = Green | Yellow | Gray

  type Verdict = v: seq<Tag> | |v| == WORD_LENGTH witness [Gray, Gray, Gray, Gray, Gray]

  datatype Option<+T> = None | Some(value: T)

  /** One cell of a working copy of a word: a letter, or None once the letter has been consumed. */
  type Slot = Option<char>

  /** `list(w)`: a working copy of w in which no letter has been consumed yet. */
  function Slots(w: string): (s: seq<Slot>)
    ensures |s| == |w|
  {
    seq(|w|, j requires 0 <= j < |w| => Some(w[j]))
  }

  /** `s.index(x)`: the first position of s that holds x. */
  function FirstIndex(s: seq<Slot>, x: Slot): (k: nat)
    requires x in s
    ensures k < |s| && s[k] == x
    ensures forall j :: 0 <= j < k ==> s[j] != x
  {
    if s[0] == x then 0 else 1 + FirstIndex(s[1..], x)
  }

  /** `all(f == 'green' for f in feedback)`. */
  predicate AllGreen(fb: Verdict) {
    forall j :: 0 <= j < WORD_LENGTH ==> fb[j] == Green
  }

  /** The number of cells of s that still hold the letter c. */
  function Remaining(s: seq<Slot>, c: char): nat {
    multiset(s)[Some(c)]
  }
}
