/**
 * Normalisation and tokenisation of the training corpus: the pipeline
 * `toLowerCase()`, `replaceAll("[^a-z ]", "")`, `split(" ")` that the
 * Spelling constructor runs over the corpus text before counting.
 */
module Text {

  /** A character that may occur inside a dictionary word. */
  predicate IsLetter(c: char) {
    'a' <= c <= 'z'
  }

  /** A character that the `[^a-z ]` filter lets through. */
  predicate Kept(c: char) {
    IsLetter(c) || c == ' '
  }

  /** A string made only of the letters 'a'..'z' (the empty string included). */
  predicate IsWord(s: string) {
    forall i :: 0 <= i < |s| ==> IsLetter(s[i])
  }

  /** Lower-casing of one character, restricted to ASCII. */
  function LowerChar(c: char): char {
    if 'A' <= c <= 'Z' then (c as int + 32) as char else c
  }

  /** `String.toLowerCase` restricted to ASCII: 'A'..'Z' become 'a'..'z', nothing else changes. */
  function Lower(s: string): (r: string)
    ensures |r| == |s|
    ensures forall i :: 0 <= i < |s| ==> !('A' <= r[i] <= 'Z')
    ensures forall i :: 0 <= i < |s| ==> ('A' <= s[i] <= 'Z' ==> r[i] as int == s[i] as int + 32)
    ensures forall i :: 0 <= i < |s| ==> (!('A' <= s[i] <= 'Z') ==> r[i] == s[i])
  {
    seq(|s|, i requires 0 <= i < |s| => LowerChar(s[i]))
  }

  /** `replaceAll("[^a-z ]", "")`: drop every character outside 'a'..'z' and ' ', keep the rest in order. */
  function Strip(s: string): (r: string)
    ensures |r| <= |s|
    ensures forall i :: 0 <= i < |r| ==> Kept(r[i])
    ensures (forall i :: 0 <= i < |s| ==> Kept(s[i])) ==> r == s
  {
    if s == [] then []
    else (if Kept(s[0]) then [s[0]] else []) + Strip(s[1..])
  }

  /** Every kept character survives as often as it occurs; no other character survives. */
  lemma {:induction false} StripCounts(s: string)
    ensures forall c :: Kept(c) ==> multiset(Strip(s))[c] == multiset(s)[c]
    ensures forall c :: !Kept(c) ==> multiset(Strip(s))[c] == 0
  {
    if s != [] {
      StripCounts(s[1..]);
      assert s == [s[0]] + s[1..];
    }
  }

  /** Stripping distributes over concatenation: nothing is inserted between the two parts. */
  lemma {:induction false} StripAppend(a: string, b: string)
    ensures Strip(a + b) == Strip(a) + Strip(b)
  {
    if a == [] {
      assert a + b == b;
    } else {
      assert (a + b)[0] == a[0];
      assert (a + b)[1..] == a[1..] + b;
      StripAppend(a[1..], b);
    }
  }

  /** The normalised corpus text. */
  function Normalise(s: string): (r: string)
    ensures |r| <= |s|
    ensures forall i :: 0 <= i < |r| ==> Kept(r[i])
  {
    Strip(Lower(s))
  }

  /** Text made only of letters and spaces is already normal. */
  lemma NormaliseFixes(s: string)
    requires forall i :: 0 <= i < |s| ==> Kept(s[i])
    ensures Normalise(s) == s
  {
    assert Lower(s) == s;
  }

  /** Normalising twice is the same as normalising once. */
  lemma NormaliseIdempotent(s: string)
    ensures Normalise(Normalise(s)) == Normalise(s)
  {
    NormaliseFixes(Normalise(s));
  }

  /**
   * A line break is removed, not turned into a space, so the words on either
   * side of it are glued together.
   */
  lemma NewlineGlues(a: string, b: string)
    ensures Normalise(a + "\n" + b) == Normalise(a) + Normalise(b)
  {
    var la, lb, nl := Lower(a), Lower(b), Lower("\n");
    assert Lower(a + "\n" + b) == la + nl + lb by {
      LowerAppend(a + "\n", b);
      LowerAppend(a, "\n");
    }
    assert Strip(la + nl + lb) == Strip(la + nl) + Strip(lb) by {
      StripAppend(la + nl, lb);
    }
    assert Strip(la + nl) == Strip(la) + Strip(nl) by {
      StripAppend(la, nl);
    }
    assert Strip(nl) == [] by {
      assert nl == "\n" && !Kept(nl[0]) && nl[1..] == [];
    }
    assert Strip(la) + [] == Strip(la);
  }

  /** Lower-casing works character by character, so it distributes over concatenation. */
  lemma LowerAppend(a: string, b: string)
    ensures Lower(a + b) == Lower(a) + Lower(b)
  {
    assert forall i :: 0 <= i < |a + b| ==> (a + b)[i] == if i < |a| then a[i] else b[i - |a|];
  }

  /** Splits at every single space; n spaces give n + 1 pieces (some may be empty). */
  function SplitAll(s: string): (r: seq<string>)
    ensures |r| >= 1
  {
    if s == [] then [[]]
    else
      var rest := SplitAll(s[1..]);
      if s[0] == ' ' then [[]] + rest else [[s[0]] + rest[0]] + rest[1..]
  }

  /** There is one more piece than there are spaces, and the pieces hold every other character of the text. */
  lemma {:induction false} SplitAllPieces(s: string)
    ensures |SplitAll(s)| == multiset(s)[' '] + 1
    ensures forall k, j :: 0 <= k < |SplitAll(s)| && 0 <= j < |SplitAll(s)[k]| ==>
              SplitAll(s)[k][j] != ' ' && SplitAll(s)[k][j] in s
  {
    if s != [] {
      SplitAllPieces(s[1..]);
      assert s == [s[0]] + s[1..];
    }
  }

  /** Joins pieces with one space between neighbours. */
  function Join(ws: seq<string>): string
    requires |ws| >= 1
  {
    if |ws| == 1 then ws[0] else ws[0] + " " + Join(ws[1..])
  }

  /** Joining the pieces of a split gives back the text. */
  lemma {:induction false} JoinSplitAll(s: string)
    ensures Join(SplitAll(s)) == s
  {
    if s != [] {
      var rest := SplitAll(s[1..]);
      JoinSplitAll(s[1..]);
      if s[0] == ' ' {
        assert SplitAll(s) == [[]] + rest;
        assert SplitAll(s)[1..] == rest;
      } else if |rest| == 1 {
        assert SplitAll(s) == [[s[0]] + rest[0]];
      } else {
        var r := SplitAll(s);
        assert r[1..] == rest[1..];
        assert Join(rest) == rest[0] + " " + Join(rest[1..]);
      }
    }
  }

  /** A piece without spaces followed by a space splits off as the first piece. */
  lemma {:induction false} SplitAllPrefix(a: string, b: string)
    requires ' ' !in a
    ensures SplitAll(a + " " + b) == [a] + SplitAll(b)
  {
    if a == [] {
      assert a + " " + b == [' '] + b;
      assert ([' '] + b)[1..] == b;
    } else {
      assert (a + " " + b)[0] == a[0];
      assert (a + " " + b)[1..] == a[1..] + " " + b;
      assert ' ' !in a[1..] by {
        assert forall j :: 0 <= j < |a| - 1 ==> a[1..][j] == a[j + 1];
      }
      SplitAllPrefix(a[1..], b);
      assert [a[0]] + a[1..] == a;
    }
  }

  /** A text without spaces is a single piece. */
  lemma {:induction false} SplitAllNoSpace(a: string)
    requires ' ' !in a
    ensures SplitAll(a) == [a]
  {
    if a != [] {
      assert ' ' !in a[1..] by {
        assert forall j :: 0 <= j < |a| - 1 ==> a[1..][j] == a[j + 1];
      }
      SplitAllNoSpace(a[1..]);
      assert [a[0]] + a[1..] == a;
    }
  }

  /** Splitting a join of space-free pieces gives back the pieces. */
  lemma {:induction false} SplitAllJoin(ws: seq<string>)
    requires |ws| >= 1
    requires forall k :: 0 <= k < |ws| ==> ' ' !in ws[k]
    ensures SplitAll(Join(ws)) == ws
  {
    if |ws| == 1 {
      SplitAllNoSpace(ws[0]);
    } else {
      SplitAllJoin(ws[1..]);
      SplitAllPrefix(ws[0], Join(ws[1..]));
      assert [ws[0]] + ws[1..] == ws;
    }
  }

  /** Removes the empty strings at the end of a sequence of pieces. */
  function DropTrailingEmpty(ws: seq<string>): (r: seq<string>)
    ensures |r| <= |ws| && r == ws[..|r|]
    ensures forall k :: |r| <= k < |ws| ==> ws[k] == []
    ensures r == [] || r[|r| - 1] != []
  {
    if ws != [] && ws[|ws| - 1] == [] then DropTrailingEmpty(ws[..|ws| - 1]) else ws
  }

  /**
   * `String.split(" ")`: when the text holds no space the result is the text
   * itself (so "" gives [""]); otherwise every piece between spaces, with the
   * empty pieces at the end removed (so " " gives []).
   */
  function Split(s: string): (r: seq<string>)
    ensures s == [] ==> r == [[]]
    ensures |r| <= |SplitAll(s)| && r == SplitAll(s)[..|r|]
    ensures forall k :: |r| <= k < |SplitAll(s)| ==> SplitAll(s)[k] == []
    ensures s != [] ==> r == [] || r[|r| - 1] != []
  {
    if ' ' !in s then
      SplitAllNoSpace(s);
      [s]
    else DropTrailingEmpty(SplitAll(s))
  }

  /** The tokens the Spelling constructor counts. */
  function Tokens(corpus: string): (r: seq<string>)
    ensures forall k :: 0 <= k < |r| ==> IsWord(r[k])
  {
    var text := Normalise(corpus);
    var r := Split(text);
    SplitAllPieces(text);
    assert forall k :: 0 <= k < |r| ==> r[k] == SplitAll(text)[k];
    r
  }
}
