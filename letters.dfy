/**
 * Option letters: both the scraper (`question_extractor.py`) and the prompt
 * builder (`gemini_solver.py`) name the `i`-th option `chr(65 + i)`.
 */
module Letters {
  /** `chr(65 + i)` stays a Unicode scalar value below the surrogate block. */
  const MaxOptions: nat := 0xD800 - 65

  /** The letter of the `i`-th option: `chr(65 + i)`. */
  function Letter(i: nat): (c: char)
    requires i < MaxOptions
    ensures c as int == 65 + i
  {
    (65 + i) as char
  }

  /** `[chr(65 + i) for i in range(n)]`. */
  function OptionLetters(n: nat): (r: seq<char>)
    requires n <= MaxOptions
    ensures |r| == n
  {
    seq(n, i requires 0 <= i < n => Letter(i))
  }

  /** The position a letter names: the inverse of `Letter`. */
  function LetterIndex(c: char): int {
    c as int - 65
  }

  /** The letters are exactly the `n` consecutive characters from `A`, each naming its own position. */
  lemma LettersRoundTrip(n: nat)
    requires n <= MaxOptions
    ensures forall i :: 0 <= i < n ==> LetterIndex(OptionLetters(n)[i]) == i
    ensures forall c :: c in OptionLetters(n) <==> 0 <= LetterIndex(c) < n
    ensures forall c :: c in OptionLetters(n) ==> OptionLetters(n)[LetterIndex(c)] == c
  {
    forall c | 0 <= LetterIndex(c) < n ensures c in OptionLetters(n) {
      assert OptionLetters(n)[LetterIndex(c)] == c;
    }
  }

  /** Distinct positions get distinct letters, in the same order. */
  lemma LetterMonotone(i: nat, j: nat)
    requires i < MaxOptions && j < MaxOptions
    ensures i < j <==> Letter(i) < Letter(j)
    ensures LetterIndex(Letter(i)) == i
  {
  }
}
