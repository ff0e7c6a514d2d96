# Spelling corrector model

This project models the Java 8 `Spelling` class (`src/Spelling.java`). It is
a spelling corrector in the style of Norvig. The constructor reads a corpus
and builds a word-frequency table `dict`. `correct(word)` then works through
four cases in order:

- it returns the word if the word is a key of the table;
- otherwise it returns the most frequent known candidate one edit away;
- otherwise it returns the most frequent known candidate two edits away;
- otherwise it returns the word unchanged.

There are four kinds of edit: deletion, substitution of a letter, insertion
of a letter, and swapping two adjacent characters.

Modules:

- `Text`: the normalisation that runs before counting: `toLowerCase`, then
  `replaceAll("[^a-z ]", "")`, then `split(" ")`. `Split` follows Java's
  rules:
  - a text with no space becomes a single token, so `""` gives `[""]`;
  - otherwise the text is cut at every single space and the empty pieces at
    the end are dropped, so `" "` gives `[]`.
- `Counting`: the table as a left fold of `dict.compute` increments
  (`Counts`). It proves that each count is the number of occurrences of the
  token.
- `Edits`: `edits1`, with its four families in the source's own order and
  multiplicities. Next to it is a character-level reference definition of a
  single edit (`OneEdit`). The candidate sequence is proved to hold exactly
  the strings one edit away. The same is done for the distance-two
  candidates.
- `Selection`: `known` (a filter kept in order) and `Stream.max` with the
  comparator `dict.get(a) - dict.get(b)`. The latter is a left fold with
  `maxBy`, so on equal counts the earlier candidate is kept. `correct` is
  built from these.
- `SpellingCorrector`: the class `Spelling`. It has a `dict` field that the
  constructor fills in a loop, one token at a time. Its `Correct` method
  reads the table and leaves it unchanged.
- `Examples`: concrete cases. They cover tokenisation corner cases, a
  five-word corpus, corrections of "teh" and "quikc", a word with no
  suggestion, and the empty-key behaviour described below.

Points where the code behaves in ways a reader may not expect. The model
follows the code:

- The empty string can become a key. Corpus `"a  b"` (two spaces) gives the
  table `{a: 1, "": 1, b: 1}`. With that table, `correct("x")` returns `""`:
  deleting the only letter is the first known candidate, and equal counts
  keep the earlier candidate (`Examples.EmptyKeyWins`). An empty corpus
  gives `{"": 1}`.
- Tokens are split on the single space character only. A line break is
  removed by the character filter, so it glues the words on either side of
  it together (`Text.NewlineGlues`, `Examples.TokensGlueLines`).
- A word of length n ≥ 1 has exactly 54n + 25 distance-one candidates,
  counting duplicates (n counts characters as the model does; see "Left out"). The empty word has 26: the one-letter insertions.

## Model

| member | source | states |
|---|---|---|
| Text.Lower | src/Spelling.java:16 | `toLowerCase` on ASCII: the length is kept; 'A'..'Z' become the corresponding lower-case letters; every other character is unchanged; no upper-case ASCII letter remains |
| Text.LowerAppend | src/Spelling.java:16 | lower-casing distributes over concatenation |
| Text.Strip | src/Spelling.java:16 | `replaceAll("[^a-z ]", "")`: the result is no longer than the input, holds only 'a'..'z' and ' ', and is the input itself when every character is kept |
| Text.StripCounts | src/Spelling.java:16 | every kept character survives exactly as often as it occurs in the input; no other character survives |
| Text.StripAppend | src/Spelling.java:16 | the filter distributes over concatenation |
| Text.NormaliseFixes | src/Spelling.java:16 | text made only of letters and spaces is unchanged by normalisation |
| Text.NormaliseIdempotent | src/Spelling.java:16 | normalising twice equals normalising once |
| Text.NewlineGlues | src/Spelling.java:16 | normalising `a + "\n" + b` gives the normalised `a` directly followed by the normalised `b`, with no space between |
| Text.SplitAllPieces | src/Spelling.java:16 | cutting at every space gives one more piece than there are spaces; no piece holds a space, and each piece holds only characters of the text |
| Text.JoinSplitAll | src/Spelling.java:16 | joining the pieces with single spaces gives back the text |
| Text.SplitAllPrefix | src/Spelling.java:16 | a space-free prefix followed by a space splits off as the first piece |
| Text.SplitAllNoSpace | src/Spelling.java:16 | a text without spaces is one piece |
| Text.SplitAllJoin | src/Spelling.java:16 | splitting a join of space-free pieces gives back the pieces |
| Text.DropTrailingEmpty | src/Spelling.java:16 | the result is a prefix of the input; every dropped piece is empty; the last kept piece is not empty |
| Text.Split | src/Spelling.java:16 | `split(" ")`: `""` gives `[""]`; the result is a prefix of the cut-at-every-space pieces; only empty pieces are dropped; for non-empty text, the last token is not empty |
| Text.Normalise | src/Spelling.java:16 | the normalised text is no longer than the input and holds only 'a'..'z' and ' ' |
| Text.SplitAll | src/Spelling.java:16 | cutting at every space gives at least one piece |
| Text.Tokens | src/Spelling.java:16 | every token of any corpus is made only of 'a'..'z' (it may be empty) |
| Counting.Bump | src/Spelling.java:17 | one `compute` step adds the word to the keys, stores 1 for a new word and the old count plus one otherwise, and leaves every other entry unchanged |
| Counting.Counts | src/Spelling.java:16-18 | the fold of `compute` steps over the tokens; the last token counted is a key |
| Counting.CountsSnoc | src/Spelling.java:16-18 | counting one more token is one more `compute` step on the table so far |
| Counting.CountsAreOccurrences | src/Spelling.java:16-18 | a string is a key exactly when it is a token, and its count is its number of occurrences among the tokens |
| Counting.CountsPositive | src/Spelling.java:17 | every stored count is at least one |
| Counting.TableShape | src/Spelling.java:15-18 | for any corpus, every key is made only of 'a'..'z' and every count is at least one |
| SpellingCorrector.Spelling.constructor | src/Spelling.java:15-19 | the loop leaves `dict` equal to the fold of increments over the tokens; `Valid()` holds; a string is a key exactly when it is a token; each count is its number of occurrences |
| SpellingCorrector.Spelling.Correct | src/Spelling.java:33-37 | returns the functional `correct` on the current table; a key comes back unchanged; otherwise the result is a key or the word itself; while `Valid()` holds, a result other than the word is made only of 'a'..'z' |
| Edits.Letter | src/Spelling.java:23-24 | the k-th letter counted from 'a' is a letter |
| Edits.AlphabetAt | src/Spelling.java:23-24 | the literal alphabet has 26 characters, and its k-th character is `Letter(k)` |
| Edits.Deletes | src/Spelling.java:22 | one deletion per position, each one character shorter than the word |
| Edits.Replaces | src/Spelling.java:23 | 26 substitutions per position, each as long as the word |
| Edits.Inserts | src/Spelling.java:24 | 26 insertions for each of the n + 1 gaps, each one character longer than the word |
| Edits.Transposes | src/Spelling.java:25 | one swap per adjacent pair (none for words shorter than two), each as long as the word |
| Edits.Edits1 | src/Spelling.java:21-27 | the candidate count is 26 for the empty word and 54n + 25 for a word of length n ≥ 1 |
| Edits.ReplacesAt | src/Spelling.java:23 | substitution number 26i + k replaces position i by the k-th letter |
| Edits.InsertsAt | src/Spelling.java:24 | insertion number 26i + k puts the k-th letter before position i |
| Edits.ReplacesInEdits1 | src/Spelling.java:26 | the substitutions follow the deletions |
| Edits.InsertsInEdits1 | src/Spelling.java:26 | the insertions follow the deletions and the substitutions |
| Edits.TransposesInEdits1 | src/Spelling.java:26 | the transpositions come last |
| Edits.DeletedForm | src/Spelling.java:22 | `substring(0, i) + substring(i + 1)` is the deletion of position i, character by character |
| Edits.SubstitutedForm | src/Spelling.java:23 | `substring(0, i) + c + substring(i + 1)` is a substitution at position i |
| Edits.InsertedForm | src/Spelling.java:24 | `substring(0, i) + c + substring(i)` is an insertion before position i |
| Edits.TransposedForm | src/Spelling.java:25 | `substring(0, i) + substring(i + 1, i + 2) + charAt(i) + substring(i + 2)` swaps positions i and i + 1 |
| Edits.DeletionAt | src/Spelling.java:22 | candidate i deletes position i |
| Edits.SubstitutionAt | src/Spelling.java:23 | candidate n + 26i + k replaces position i by the k-th letter |
| Edits.InsertionAt | src/Spelling.java:24 | candidate 27n + 26i + k inserts the k-th letter before position i |
| Edits.TranspositionAt | src/Spelling.java:25 | candidate 53n + 26 + i swaps positions i and i + 1 |
| Edits.Edits1Sound | src/Spelling.java:21-27 | every candidate is one edit away from the word |
| Edits.SubstitutionSound | src/Spelling.java:23 | every candidate in the substitution block is one edit away |
| Edits.InsertionSound | src/Spelling.java:24 | every candidate in the insertion block is one edit away |
| Edits.Edits1Complete | src/Spelling.java:21-27 | every string one edit away is a candidate |
| Edits.DeletionComplete | src/Spelling.java:22 | every deletion is among the candidates |
| Edits.SubstitutionComplete | src/Spelling.java:23 | every substitution by a letter is among the candidates |
| Edits.InsertionComplete | src/Spelling.java:24 | every insertion of a letter is among the candidates |
| Edits.TranspositionComplete | src/Spelling.java:25 | every adjacent transposition is among the candidates |
| Edits.Edits1Exact | src/Spelling.java:21-27 | a string is a candidate if and only if it is one edit away |
| Edits.Edits1Length | src/Spelling.java:21-27 | a candidate's length differs from the word's by at most one |
| Edits.EditsOfAll | src/Spelling.java:35 | flattening `edits1` over a sequence gives at least 26 candidates per element |
| Edits.Edits2 | src/Spelling.java:35 | the distance-two stream holds at least 26 candidates per distance-one candidate |
| Edits.EditsOfAllMembers | src/Spelling.java:35 | a string is in the flattened `edits1` of a sequence exactly when it is a candidate of some element |
| Edits.Edits2Exact | src/Spelling.java:35 | a string is a distance-two candidate if and only if it is one edit away from some string that is one edit away from the word |
| Edits.Edits2Length | src/Spelling.java:35 | a distance-two candidate's length differs from the word's by at most two |
| Selection.Known | src/Spelling.java:29-31 | the result holds exactly the candidates that are keys |
| Selection.KnownCounts | src/Spelling.java:29-31 | each key occurs in the result as often as among the candidates; nothing else occurs |
| Selection.MaxByCount | src/Spelling.java:34 | `max` is empty exactly for an empty stream; otherwise it is an element of the stream whose count no element exceeds |
| Selection.MaxByCountFirst | src/Spelling.java:34 | on equal counts the earliest element wins: every element before the result has a strictly smaller count |
| Selection.BestKnown | src/Spelling.java:34-35 | `known(...).max(...)`: no result exactly when the filter leaves nothing; otherwise a candidate that is a key |
| Selection.BestKnownIsBest | src/Spelling.java:34-35 | no result exactly when no candidate is a key; otherwise a known candidate of maximum count |
| Selection.Correct | src/Spelling.java:33-37 | a key comes back unchanged; every result is either the word or a key |
| Selection.CorrectDistanceOne | src/Spelling.java:34-36 | an unknown word with a known distance-one candidate gets a known distance-one candidate of maximum count, whatever the distance-two candidates are |
| Selection.CorrectDistanceTwo | src/Spelling.java:35-36 | with no known distance-one candidate but a known distance-two candidate, the result is a known distance-two candidate of maximum count |
| Selection.CorrectNoSuggestion | src/Spelling.java:36 | with no known candidate within two edits, the word comes back unchanged |
| Selection.CorrectWithinTwoEdits | src/Spelling.java:33-37 | the result is the word, or a key one or two edits away; an unknown word comes back unchanged only when no key is within two edits |
| Examples.TokenCorners | src/Spelling.java:16 | the empty text gives one empty token; a single space gives none |
| Examples.TokensDoubleSpace | src/Spelling.java:16 | `"a  b"` gives the tokens `a`, `""`, `b` |
| Examples.SplitDoubleSpace | src/Spelling.java:16 | `split(" ")` of `"a  b"` keeps the empty middle piece |
| Examples.SplitAllDoubleSpace | src/Spelling.java:16 | cutting `"a  b"` at every space gives three pieces |
| Examples.TokensOfPlainText | src/Spelling.java:16 | normal text with a space and a non-empty last piece tokenises to its pieces |
| Examples.TokensGlueLines | src/Spelling.java:16 | `"To\n2Do!"` gives the single token `todo` |
| Examples.NormaliseGlued | src/Spelling.java:16 | `"To\n2Do!"` normalises to `todo` |
| Examples.NormaliseTo | src/Spelling.java:16 | `"To"` normalises to `to` |
| Examples.NormaliseDo | src/Spelling.java:16 | `"2Do!"` normalises to `do` |
| Examples.TodoNoSpace | src/Spelling.java:16 | `todo` holds no space |
| Examples.CorpusTokens | src/Spelling.java:16 | the tokens of `"the the the quick fox"` are its five words |
| Examples.CorpusNormal | src/Spelling.java:16 | that corpus is already normal |
| Examples.CorpusSpace | src/Spelling.java:16 | that corpus holds a space |
| Examples.CorpusSplitAll | src/Spelling.java:16 | that corpus splits into its five words |
| Examples.CorpusTable | src/Spelling.java:15-19 | that corpus gives the table `{the: 3, quick: 1, fox: 1}` |
| Examples.CorpusCounts | src/Spelling.java:17 | counting its five tokens gives that table |
| Examples.TheNextToTeh | src/Spelling.java:25 | `the` is a distance-one candidate of `teh` |
| Examples.QuickNextToQuikc | src/Spelling.java:25 | `quick` is a distance-one candidate of `quikc` |
| Examples.TheBeatsHte | src/Spelling.java:33-37 | with `{the: 100, hte: 1}`, `teh` becomes `the`, the only known distance-one candidate |
| Examples.HteNotNextToTeh | src/Spelling.java:21-27 | `hte` is not a distance-one candidate of `teh` |
| Examples.HteTwoFromTeh | src/Spelling.java:35 | `hte` is a distance-two candidate of `teh` |
| Examples.NearBeatsFrequent | src/Spelling.java:34-36 | with `{the: 1, hte: 100}`, `teh` becomes `the`: a known distance-one candidate beats a far more frequent distance-two key |
| Examples.TeaNextToTeh | src/Spelling.java:23 | `tea` is a distance-one candidate of `teh` |
| Examples.HigherCountWins | src/Spelling.java:34-36 | with `{the: 100, tea: 1}`, `teh` becomes `the`: of two known distance-one candidates the higher count wins |
| Examples.NoSuggestionForXyz | src/Spelling.java:33-37 | with `{hello: 5}`, `xyzxyzxyz` comes back unchanged |
| Examples.CorpusTeh | src/Spelling.java:15-37 | after the five-word corpus, `teh` becomes `the` |
| Examples.TableTeh | src/Spelling.java:33-37 | with that table, `teh` becomes `the` |
| Examples.CorpusQuikc | src/Spelling.java:15-37 | after the five-word corpus, `quikc` becomes `quick` |
| Examples.TableQuikc | src/Spelling.java:33-37 | with that table, `quikc` becomes `quick` |
| Examples.EmptyKeyCounted | src/Spelling.java:15-19 | the corpus `"a  b"` gives the table `{a: 1, "": 1, b: 1}` |
| Examples.DoubleSpaceCounts | src/Spelling.java:17 | counting `a`, `""`, `b` gives that table |
| Examples.KnownFirst | src/Spelling.java:29-31 | a first candidate that is a key is still first after the filter |
| Examples.EmptyKeyWins | src/Spelling.java:33-37 | with that table, `x` is corrected to the empty string |
| Examples.DeleteOnlyLetter | src/Spelling.java:21-26 | the first candidate of `x` is the empty string |
| Examples.EmptyFirstIsBest | src/Spelling.java:34 | with all counts equal, a first candidate `""` is the best known one |

## Left out

- Reading the corpus from a file (`Files.readAllBytes` of a `Path`) and the byte-to-string decoding are not modelled. The constructor takes the corpus text directly, and the I/O exception path is outside the model.
- Text.Lower: models `toLowerCase` on ASCII only, as it behaves under a locale such as English. Characters outside 'A'..'Z' are unchanged. Java's full Unicode and locale rules are not modelled. Under a Turkish default locale the ASCII 'I' becomes the dotless 'ı', which the `[a-z ]` filter then removes, so the row's "'A'..'Z' become the corresponding lower-case letters" does not hold there. In the other direction, a character such as the Kelvin sign becomes 'k' in Java and would pass the filter.
- Edits.Edits1: a Dafny `string` is a sequence of Unicode scalar values, while Java's `length`, `substring` and `charAt` index UTF-16 code units. For a query word holding a character outside the Basic Multilingual Plane (an emoji, say), Java sees two code units where the model sees one character. The candidates, their number (54n + 25 with a different n) and possibly the correction then differ from the source. For example, with the table `{a: 1, ab: 5}` and a one-emoji word, Java returns "ab" and the model returns "a". Words made of BMP characters, including every dictionary key, behave the same in both.
- Counts are unbounded integers. A count past `Integer.MAX_VALUE` would wrap around in the source, and the comparator `dict.get(a) - dict.get(b)` can overflow for very large counts. Neither is modelled.
- The streams are modelled as finite sequences. Laziness is not modelled, and neither is the order of evaluation inside a stream pipeline. `correct` computes both searches before choosing, as the source does, and the result does not depend on the order.
- The `HashMap`'s internal layout and the iteration order of its keys are not modelled. No modelled operation depends on them.
- The test class of the repository is not part of this model.
