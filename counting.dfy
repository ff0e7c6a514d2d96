/**
 * The word-frequency table: what the Spelling constructor leaves in its
 * `dict` field after counting the corpus tokens one at a time.
 */
module Counting {
  import opened Text

  /** One `dict.compute(word, (k, v) -> v == null ? 1 : v + 1)` step. */
  function Bump(m: map<string, int>, w: string): (r: map<string, int>)
    ensures r.Keys == m.Keys + {w}
    ensures r[w] == if w in m then m[w] + 1 else 1
    ensures forall x :: x in m && x != w ==> r[x] == m[x]
  {
    m[w := if w in m then m[w] + 1 else 1]
  }

  /** The table after counting `ws` from left to right into an empty map. */
  function Counts(ws: seq<string>): (r: map<string, int>)
    ensures ws != [] ==> ws[|ws| - 1] in r
  {
    if ws == [] then map[] else Bump(Counts(ws[..|ws| - 1]), ws[|ws| - 1])
  }

  /** Counting one more token is one more `compute` step. */
  lemma CountsSnoc(ws: seq<string>, w: string)
    ensures Counts(ws + [w]) == Bump(Counts(ws), w)
  {
    assert (ws + [w])[..|ws|] == ws;
  }

  /**
   * A word is a key exactly when it is one of the tokens, and its count is
   * the number of times it occurs among them.
   */
  lemma {:induction false} CountsAreOccurrences(ws: seq<string>)
    ensures forall w :: w in Counts(ws) <==> w in ws
    ensures forall w :: w in Counts(ws) ==> Counts(ws)[w] == multiset(ws)[w]
  {
    if ws != [] {
      var init, last := ws[..|ws| - 1], ws[|ws| - 1];
      CountsAreOccurrences(init);
      assert ws == init + [last];
      assert multiset(ws) == multiset(init) + multiset{last};
      forall w ensures w in ws <==> w in init || w == last {
        assert w in ws <==> w in multiset(ws);
      }
    }
  }

  /** Every stored count is at least one. */
  lemma CountsPositive(ws: seq<string>)
    ensures forall w :: w in Counts(ws) ==> Counts(ws)[w] >= 1
  {
    CountsAreOccurrences(ws);
  }

  /**
   * After counting the tokens of any corpus, every key is made of the letters
   * 'a'..'z' only (the empty string can be a key) and every count is at least one.
   */
  lemma TableShape(corpus: string)
    ensures forall w :: w in Counts(Tokens(corpus)) ==> IsWord(w) && Counts(Tokens(corpus))[w] >= 1
  {
    var ws := Tokens(corpus);
    CountsAreOccurrences(ws);
    CountsPositive(ws);
    forall w | w in Counts(ws) ensures IsWord(w) {
      var k :| 0 <= k < |ws| && ws[k] == w;
    }
  }
}
