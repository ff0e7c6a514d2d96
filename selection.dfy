/**
 * Selection of a correction: `known` (filter the candidates to dictionary
 * keys), `Stream.max` with the count comparator, and `correct`.
 */
module Selection {
  import opened Edits

  datatype Option<T> = None | Some(value: T)

  /** `known`: the candidates that are keys of the table, each occurrence kept, in their original order. */
  function Known(d: map<string, int>, ws: seq<string>): (r: seq<string>)
    ensures forall x :: x in r <==> x in ws && x in d
  {
    if ws == [] then []
    else
      assert ws == [ws[0]] + ws[1..];
      (if ws[0] in d then [ws[0]] else []) + Known(d, ws[1..])
  }

  /** Every occurrence of a key among the candidates is kept, and nothing else. */
  lemma {:induction false} KnownCounts(d: map<string, int>, ws: seq<string>)
    ensures forall x :: multiset(Known(d, ws))[x] == if x in d then multiset(ws)[x] else 0
  {
    if ws != [] {
      KnownCounts(d, ws[1..]);
      assert ws == [ws[0]] + ws[1..];
    }
  }

  /**
   * `Stream.max((a, b) -> dict.get(a) - dict.get(b))`: a left-to-right
   * reduction with `BinaryOperator.maxBy`, which keeps the element seen so
   * far unless the next one has a strictly greater count. Nothing for an
   * empty stream; otherwise an element whose count no element exceeds.
   */
  function MaxByCount(d: map<string, int>, ws: seq<string>): (r: Option<string>)
    requires forall x :: x in ws ==> x in d
    ensures r.None? <==> ws == []
    ensures r.Some? ==> r.value in ws && forall x :: x in ws ==> d[x] <= d[r.value]
  {
    if ws == [] then None
    else
      var last := ws[|ws| - 1];
      assert ws == ws[..|ws| - 1] + [last];
      match MaxByCount(d, ws[..|ws| - 1])
      case None => Some(last)
      case Some(best) => if d[best] - d[last] >= 0 then Some(best) else Some(last)
  }

  /**
   * Ties go to the earliest element: the result is the first element of
   * maximum count, and every element before it has a strictly smaller count.
   */
  lemma {:induction false} MaxByCountFirst(d: map<string, int>, ws: seq<string>) returns (k: int)
    requires forall x :: x in ws ==> x in d
    requires ws != []
    ensures 0 <= k < |ws| && ws[k] == MaxByCount(d, ws).value
    ensures forall j :: 0 <= j < k ==> d[ws[j]] < d[ws[k]]
  {
    var init, last := ws[..|ws| - 1], ws[|ws| - 1];
    assert forall x :: x in init ==> x in ws;
    if init == [] {
      k := 0;
    } else {
      var k' := MaxByCountFirst(d, init);
      var best := MaxByCount(d, init).value;
      assert MaxByCount(d, ws) == if d[best] - d[last] >= 0 then Some(best) else Some(last);
      assert forall j :: 0 <= j < |init| ==> ws[j] == init[j];
      if d[best] - d[last] >= 0 {
        k := k';
      } else {
        k := |ws| - 1;
        assert forall j :: 0 <= j < |init| ==> d[init[j]] <= d[best];
      }
    }
  }

  /** The best known candidate among `ws`, if any is known. */
  function BestKnown(d: map<string, int>, ws: seq<string>): (r: Option<string>)
    ensures r.None? <==> Known(d, ws) == []
    ensures r.Some? ==> r.value in ws && r.value in d
  {
    MaxByCount(d, Known(d, ws))
  }

  /**
   * Finding no known candidate means no candidate is known; otherwise the
   * result is a known candidate whose count no known candidate exceeds.
   */
  lemma BestKnownIsBest(d: map<string, int>, ws: seq<string>)
    ensures BestKnown(d, ws).None? <==> forall x :: x in ws ==> x !in d
    ensures BestKnown(d, ws).Some? ==>
              var b := BestKnown(d, ws).value;
              b in ws && b in d && forall x :: x in ws && x in d ==> d[x] <= d[b]
  {
    var k := Known(d, ws);
    if k == [] {
      forall x | x in ws ensures x !in d {
        assert x in d ==> x in k;
      }
    } else {
      assert k[0] in ws && k[0] in d;
    }
  }

  /**
   * `correct`: the word itself when it is a key; otherwise the best known
   * distance-one candidate; otherwise the best known distance-two candidate;
   * otherwise the word unchanged. Both searches are made before the choice,
   * as in the source.
   */
  function Correct(d: map<string, int>, word: string): (r: string)
    ensures word in d ==> r == word
    ensures r == word || r in d
  {
    var e1 := BestKnown(d, Edits1(word));
    var e2 := BestKnown(d, Edits2(word));
    BestKnownIsBest(d, Edits1(word));
    BestKnownIsBest(d, Edits2(word));
    if word in d then word
    else if e1.Some? then e1.value
    else if e2.Some? then e2.value
    else word
  }

  /**
   * An unknown word with a known distance-one candidate is corrected to a
   * known distance-one candidate of maximum count, however frequent its
   * distance-two candidates are.
   */
  lemma CorrectDistanceOne(d: map<string, int>, word: string)
    requires word !in d
    requires exists c :: c in Edits1(word) && c in d
    ensures Correct(d, word) in Edits1(word) && Correct(d, word) in d
    ensures forall c :: c in Edits1(word) && c in d ==> d[c] <= d[Correct(d, word)]
  {
    BestKnownIsBest(d, Edits1(word));
  }

  /**
   * With no known distance-one candidate but a known distance-two candidate,
   * the result is a known distance-two candidate of maximum count.
   */
  lemma CorrectDistanceTwo(d: map<string, int>, word: string)
    requires word !in d
    requires forall c :: c in Edits1(word) ==> c !in d
    requires exists c :: c in Edits2(word) && c in d
    ensures Correct(d, word) in Edits2(word) && Correct(d, word) in d
    ensures forall c :: c in Edits2(word) && c in d ==> d[c] <= d[Correct(d, word)]
  {
    BestKnownIsBest(d, Edits1(word));
    BestKnownIsBest(d, Edits2(word));
  }

  /** With no known candidate within two edits, the word comes back verbatim. */
  lemma CorrectNoSuggestion(d: map<string, int>, word: string)
    requires word !in d
    requires forall c :: c in Edits1(word) ==> c !in d
    requires forall c :: c in Edits2(word) ==> c !in d
    ensures Correct(d, word) == word
  {
    BestKnownIsBest(d, Edits1(word));
    BestKnownIsBest(d, Edits2(word));
  }

  /**
   * The correction is the word itself, or a key at most two edits away. It
   * is the word exactly when the word is a key or nothing within two edits is.
   */
  lemma CorrectWithinTwoEdits(d: map<string, int>, word: string)
    ensures var r := Correct(d, word);
            r == word || (r in d && (OneEdit(word, r) || exists m :: OneEdit(word, m) && OneEdit(m, r)))
    ensures word !in d && Correct(d, word) == word ==>
              forall c :: c in d ==> !OneEdit(word, c) && !(exists m :: OneEdit(word, m) && OneEdit(m, c))
  {
    var r := Correct(d, word);
    BestKnownIsBest(d, Edits1(word));
    BestKnownIsBest(d, Edits2(word));
    if r != word {
      if r in Edits1(word) {
        Edits1Sound(word, r);
      } else {
        Edits2Exact(word, r);
      }
    }
    if word !in d && r == word {
      assert BestKnown(d, Edits1(word)).None? && BestKnown(d, Edits2(word)).None?;
      forall c | c in d ensures !OneEdit(word, c) && !(exists m :: OneEdit(word, m) && OneEdit(m, c)) {
        Edits1Exact(word, c);
        Edits2Exact(word, c);
      }
    }
  }
}
