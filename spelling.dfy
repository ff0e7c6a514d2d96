/**
 * The Spelling class: the word-frequency table it builds from a corpus, and
 * `correct`, which reads the table and never changes it.
 */
module SpellingCorrector {
  import opened Text
  import opened Counting
  import Selection

  class Spelling {
    /** Word to number of occurrences in the corpus. */
    var dict: map<string, int>

    /** Every key is made of 'a'..'z' (the empty string included) and every count is at least one. */
    ghost predicate Valid()
      reads this
    {
      forall w :: w in dict ==> IsWord(w) && dict[w] >= 1
    }

    /**
     * Counts the tokens of the normalised corpus one at a time, each
     * occurrence adding one to its entry (a first occurrence storing 1).
     * The corpus is given as text; reading it from a file is not modelled.
     */
    constructor (corpus: string)
      ensures Valid()
      ensures dict == Counts(Tokens(corpus))
      ensures forall w :: w in dict <==> w in Tokens(corpus)
      ensures forall w :: w in dict ==> dict[w] == multiset(Tokens(corpus))[w]
    {
      dict := map[];
      new;
      var words := Tokens(corpus);
      var i := 0;
      while i < |words|
        invariant 0 <= i <= |words|
        invariant dict == Counts(words[..i])
      {
        var w := words[i];
        assert words[..i + 1] == words[..i] + [w];
        CountsSnoc(words[..i], w);
        dict := dict[w := if w in dict then dict[w] + 1 else 1];
        i := i + 1;
      }
      assert words[..i] == words;
      CountsAreOccurrences(words);
      TableShape(corpus);
    }

    /**
     * `correct`: reads the table without changing it. A key comes back
     * unchanged; otherwise the result is a key or the word itself.
     */
    method Correct(word: string) returns (r: string)
      ensures r == Selection.Correct(dict, word)
      ensures word in dict ==> r == word
      ensures r == word || r in dict
      ensures Valid() ==> r == word || IsWord(r)
    {
      r := Selection.Correct(dict, word);
    }
  }
}
