/**
 * Concrete cases: tokenisation corner cases, corrections of "teh" under
 * small dictionaries, the dictionary `{hello: 5}`, and a table built from a
 * five-word corpus.
 */
module Examples {
  import opened Text
  import opened Counting
  import opened Edits
  import opened Selection

  /** Empty text gives one empty token; text of spaces only gives none. */
  lemma TokenCorners()
    ensures Tokens("") == [""]
    ensures Tokens(" ") == []
  {
    NormaliseFixes("");
    NormaliseFixes(" ");
    SplitAllJoin(["", ""]);
    assert Join(["", ""]) == " ";
  }

  /** A double space gives an empty token between the two words. */
  lemma TokensDoubleSpace()
    ensures Tokens("a  b") == ["a", "", "b"]
  {
    var s := "a  b";
    NormaliseFixes(s);
    SplitDoubleSpace();
  }

  /** The split keeps the empty piece between the two spaces. */
  lemma SplitDoubleSpace()
    ensures Split("a  b") == ["a", "", "b"]
  {
    var s, ws := "a  b", ["a", "", "b"];
    SplitAllDoubleSpace();
    assert s[1] == ' ';
    assert ws[2] == "b";
  }

  /** Splitting "a  b" at every space. */
  lemma SplitAllDoubleSpace()
    ensures SplitAll("a  b") == ["a", "", "b"]
  {
    var ws := ["a", "", "b"];
    assert Join(ws) == "a  b";
    SplitAllJoin(ws);
  }

  /** Normal text with a space whose last piece is not empty tokenises to its pieces. */
  lemma TokensOfPlainText(s: string, ws: seq<string>)
    requires Normalise(s) == s
    requires ' ' in s
    requires SplitAll(s) == ws
    requires ws[|ws| - 1] != []
    ensures Tokens(s) == ws
  {
  }

  /** A line break glues the words around it; digits and punctuation vanish; capitals are lowered. */
  lemma TokensGlueLines(s: string)
    requires s == "To\n2Do!"
    ensures Tokens(s) == ["todo"]
  {
    NormaliseGlued(s);
    TodoNoSpace("todo");
    SplitAllNoSpace("todo");
  }

  /** Normalising "To\n2Do!" glues the two lines into "todo". */
  lemma NormaliseGlued(s: string)
    requires s == "To\n2Do!"
    ensures Normalise(s) == "todo"
  {
    var a, b := "To", "2Do!";
    assert a + "\n" + b == s;
    NewlineGlues(a, b);
    NormaliseTo(a);
    NormaliseDo(b);
  }

  /** Lower-casing is all normalisation does to "To". */
  lemma NormaliseTo(s: string)
    requires s == "To"
    ensures Normalise(s) == "to"
  {
    assert Lower(s) == "to";
  }

  /** The digit and the punctuation mark are removed. */
  lemma NormaliseDo(s: string)
    requires s == "2Do!"
    ensures Normalise(s) == "do"
  {
    var digit, word, bang := "2", "do", "!";
    assert Lower(s) == digit + word + bang;
    StripAppend(digit + word, bang);
    StripAppend(digit, word);
    assert Strip(digit) == [] + Strip([]);
    assert Strip(bang) == [] + Strip([]);
  }

  /** "todo" holds no space. */
  lemma TodoNoSpace(s: string)
    requires s == "todo"
    ensures ' ' !in s
  {
  }

  /** The tokens of the five-word corpus, of which the first three are the same word. */
  lemma CorpusTokens(corpus: string)
    requires corpus == "the the the quick fox"
    ensures Tokens(corpus) == ["the", "the", "the", "quick", "fox"]
  {
    CorpusNormal(corpus);
    CorpusSpace(corpus);
    CorpusSplitAll(corpus);
    TokensOfPlainText(corpus, ["the", "the", "the", "quick", "fox"]);
  }

  /** The corpus is already normal text. */
  lemma CorpusNormal(corpus: string)
    requires corpus == "the the the quick fox"
    ensures Normalise(corpus) == corpus
  {
    NormaliseFixes(corpus);
  }

  /** The corpus holds a space, so the split is not the one-piece case. */
  lemma CorpusSpace(corpus: string)
    requires corpus == "the the the quick fox"
    ensures ' ' in corpus
  {
    assert corpus[3] == ' ';
  }

  /** The corpus splits into its five words. */
  lemma CorpusSplitAll(corpus: string)
    requires corpus == "the the the quick fox"
    ensures SplitAll(corpus) == ["the", "the", "the", "quick", "fox"]
  {
    var ws := ["the", "the", "the", "quick", "fox"];
    assert Join(ws) == corpus;
    SplitAllJoin(ws);
  }

  /** The table built from that corpus. */
  lemma CorpusTable(corpus: string)
    requires corpus == "the the the quick fox"
    ensures Counts(Tokens(corpus)) == map["the" := 3, "quick" := 1, "fox" := 1]
  {
    CorpusTokens(corpus);
    CorpusCounts(Tokens(corpus));
  }

  /** Counting the five tokens. */
  lemma CorpusCounts(ws: seq<string>)
    requires ws == ["the", "the", "the", "quick", "fox"]
    ensures Counts(ws) == map["the" := 3, "quick" := 1, "fox" := 1]
  {
    CountsAreOccurrences(ws);
    var m := Counts(ws);
    assert multiset(ws) == multiset{"the", "the", "the", "quick", "fox"};
    assert m.Keys == {"the", "quick", "fox"};
  }

  /** "the" is the transposition of positions 1 and 2 of "teh". */
  lemma TheNextToTeh(word: string)
    requires word == "teh"
    ensures "the" in Edits1(word)
  {
    assert Transposed(word, "the", 1);
    Edits1Complete(word, "the");
  }

  /** "quick" is the transposition of positions 3 and 4 of "quikc". */
  lemma QuickNextToQuikc(word: string)
    requires word == "quikc"
    ensures "quick" in Edits1(word)
  {
    assert Transposed(word, "quick", 3);
    Edits1Complete(word, "quick");
  }

  /** "the" is one edit from "teh" while "hte" is two, so "the" is the only known distance-one candidate. */
  lemma TheBeatsHte(d: map<string, int>, word: string)
    requires d == map["the" := 100, "hte" := 1]
    requires word == "teh"
    ensures Correct(d, word) == "the"
  {
    TheNextToTeh(word);
    CorrectDistanceOne(d, word);
  }

  /** "hte" is not one edit from "teh": every position differs, and no adjacent swap gives it. */
  lemma HteNotNextToTeh(word: string)
    requires word == "teh"
    ensures "hte" !in Edits1(word)
  {
    var c := "hte";
    assert c[0] != word[0] && c[1] != word[1] && c[2] != word[2];
    forall i ensures !Substituted(word, c, i) && !Transposed(word, c, i) {
    }
    Edits1Exact(word, c);
  }

  /** "hte" is two swaps from "teh", through "the". */
  lemma HteTwoFromTeh(word: string)
    requires word == "teh"
    ensures "hte" in Edits2(word)
  {
    assert Transposed(word, "the", 1);
    assert Transposed("the", "hte", 0);
    assert OneEdit(word, "the") && OneEdit("the", "hte");
    Edits2Exact(word, "hte");
  }

  /** A distance-one key beats a far more frequent distance-two key. */
  lemma NearBeatsFrequent(d: map<string, int>, word: string)
    requires d == map["the" := 1, "hte" := 100]
    requires word == "teh"
    ensures Correct(d, word) == "the"
  {
    TheNextToTeh(word);
    HteNotNextToTeh(word);
    CorrectDistanceOne(d, word);
  }

  /** "tea" is one substitution from "teh". */
  lemma TeaNextToTeh(word: string)
    requires word == "teh"
    ensures "tea" in Edits1(word)
  {
    assert Substituted(word, "tea", 2);
    Edits1Complete(word, "tea");
  }

  /** Of two known distance-one candidates, the one with the higher count wins. */
  lemma HigherCountWins(d: map<string, int>, word: string)
    requires d == map["the" := 100, "tea" := 1]
    requires word == "teh"
    ensures Correct(d, word) == "the"
  {
    TheNextToTeh(word);
    TeaNextToTeh(word);
    CorrectDistanceOne(d, word);
  }

  /** Nothing within two edits of "xyzxyzxyz" is known, so it comes back unchanged. */
  lemma NoSuggestionForXyz(d: map<string, int>, word: string)
    requires d == map["hello" := 5]
    requires word == "xyzxyzxyz"
    ensures Correct(d, word) == word
  {
    forall c | c in Edits1(word) ensures c !in d {
      Edits1Length(word, c);
    }
    forall c | c in Edits2(word) ensures c !in d {
      Edits2Length(word, c);
    }
    CorrectNoSuggestion(d, word);
  }

  /** With the five-word corpus, "teh" becomes "the". */
  lemma CorpusTeh(corpus: string, word: string)
    requires corpus == "the the the quick fox"
    requires word == "teh"
    ensures Correct(Counts(Tokens(corpus)), word) == "the"
  {
    CorpusTable(corpus);
    TableTeh(Counts(Tokens(corpus)), word);
  }

  /** With that table, "teh" becomes "the". */
  lemma TableTeh(d: map<string, int>, word: string)
    requires d == map["the" := 3, "quick" := 1, "fox" := 1]
    requires word == "teh"
    ensures Correct(d, word) == "the"
  {
    TheNextToTeh(word);
    CorrectDistanceOne(d, word);
  }

  /** With the five-word corpus, "quikc" becomes "quick": the other keys are too short to be one edit away. */
  lemma CorpusQuikc(corpus: string, word: string)
    requires corpus == "the the the quick fox"
    requires word == "quikc"
    ensures Correct(Counts(Tokens(corpus)), word) == "quick"
  {
    CorpusTable(corpus);
    TableQuikc(Counts(Tokens(corpus)), word);
  }

  /** With that table, "quikc" becomes "quick". */
  lemma TableQuikc(d: map<string, int>, word: string)
    requires d == map["the" := 3, "quick" := 1, "fox" := 1]
    requires word == "quikc"
    ensures Correct(d, word) == "quick"
  {
    QuickNextToQuikc(word);
    CorrectDistanceOne(d, word);
    Edits1Length(word, Correct(d, word));
  }

  /** After the corpus "a  b" the empty string is a key with count one, like "a" and "b". */
  lemma EmptyKeyCounted(corpus: string)
    requires corpus == "a  b"
    ensures Counts(Tokens(corpus)) == map["a" := 1, "" := 1, "b" := 1]
  {
    TokensDoubleSpace();
    DoubleSpaceCounts(Tokens(corpus));
  }

  /** Counting the three tokens of "a  b". */
  lemma DoubleSpaceCounts(ws: seq<string>)
    requires ws == ["a", "", "b"]
    ensures Counts(ws) == map["a" := 1, "" := 1, "b" := 1]
  {
    CountsAreOccurrences(ws);
    var m := Counts(ws);
    assert multiset(ws) == multiset{"a", "", "b"};
    assert m.Keys == {"a", "", "b"};
  }

  /** A first candidate that is a key stays first after the filter. */
  lemma KnownFirst(d: map<string, int>, ws: seq<string>)
    requires ws != [] && ws[0] in d
    ensures Known(d, ws) != [] && Known(d, ws)[0] == ws[0]
  {
  }

  /**
   * With that table "x" is corrected to "": the deletion of its only letter is
   * the first known candidate, and on equal counts the earlier one is kept.
   */
  lemma EmptyKeyWins(d: map<string, int>, word: string)
    requires d == map["a" := 1, "" := 1, "b" := 1]
    requires word == "x"
    ensures Correct(d, word) == ""
  {
    DeleteOnlyLetter(word);
    EmptyFirstIsBest(d, Edits1(word));
  }

  /** The first candidate of "x" is the deletion of its only letter. */
  lemma DeleteOnlyLetter(word: string)
    requires word == "x"
    ensures Edits1(word) != [] && Edits1(word)[0] == ""
  {
    DeletionAt(word, 0);
  }

  /** With all counts equal, a first candidate "" is the best known one. */
  lemma EmptyFirstIsBest(d: map<string, int>, ws: seq<string>)
    requires d == map["a" := 1, "" := 1, "b" := 1]
    requires ws != [] && ws[0] == ""
    ensures BestKnown(d, ws) == Some("")
  {
    var known := Known(d, ws);
    KnownFirst(d, ws);
    var k := MaxByCountFirst(d, known);
    assert forall x :: x in d ==> d[x] == 1;
    assert k == 0;
  }

}
