/** Words written as strings, and the texts that spell them in either case. */
module Spelling {
  import opened Bytes

  /** t spells the lower-case word: byte by byte the same character, or the capital of the same letter. */
  predicate Spells(t: text, word: string)
  {
    |t| == |word| && forall i :: 0 <= i < |t| ==> SameLetter(t[i], word[i])
  }

  predicate SameLetter(b: byte, c: char)
  {
    b as int == c as int || ('a' <= c <= 'z' && b as int == c as int - 32)
  }

  /** w, which is compared without regard to case, is the word. */
  predicate IsSpelling(w: text, word: string)
  {
    |w| == |word| && forall i :: 0 <= i < |w| ==> Lower(w[i]) as int == word[i] as int
  }

  lemma FoldIsSpelling(t: text, w: text, word: string)
    requires IsSpelling(w, word)
    ensures EqualFold(t, w) <==> Spells(t, word)
  {
    if |t| == |w| {
      forall i | 0 <= i < |t| ensures Lower(t[i]) == Lower(w[i]) <==> SameLetter(t[i], word[i]) {
        assert Lower(w[i]) as int == word[i] as int;
      }
    }
  }
}
