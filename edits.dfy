/**
 * Candidate generation: `edits1` of the Spelling class, the four families of
 * single edits in the order the source concatenates them, and the distance-two
 * candidates `correct` builds by applying `edits1` to every distance-one
 * candidate.
 */
module Edits {
  import opened Text

  /** The letters substitutions and insertions draw from, in this order. */
  const Alphabet: string := "abcdefghijklmnopqrstuvwxyz"

  /** The k-th letter, counted from 'a'. */
  function Letter(k: int): (ch: char)
    requires 0 <= k < 26
    ensures IsLetter(ch)
  {
    ('a' as int + k) as char
  }

  /** The alphabet lists the letters in order: its k-th character is `Letter(k)`. */
  lemma AlphabetAt(k: int)
    requires 0 <= k < 26
    ensures |Alphabet| == 26
    ensures Alphabet[k] == Letter(k)
  {
    assert Alphabet == ['a', 'b', 'c', 'd', 'e', 'f', 'g', 'h', 'i', 'j', 'k', 'l', 'm',
                        'n', 'o', 'p', 'q', 'r', 's', 't', 'u', 'v', 'w', 'x', 'y', 'z'];
  }

  // ---------------------------------------------------------------------------
  // Reference definitions of one edit, stated character by character.
  // ---------------------------------------------------------------------------

  /** `c` is `w` with the character at position i removed. */
  ghost predicate Deleted(w: string, c: string, i: int) {
    0 <= i < |w| && |c| == |w| - 1 &&
    (forall j :: 0 <= j < i ==> c[j] == w[j]) &&
    (forall j :: i <= j < |c| ==> c[j] == w[j + 1])
  }

  /** `c` is `w` with the character at position i replaced by a letter. */
  ghost predicate Substituted(w: string, c: string, i: int) {
    0 <= i < |w| && |c| == |w| && IsLetter(c[i]) &&
    (forall j :: 0 <= j < |w| && j != i ==> c[j] == w[j])
  }

  /** `c` is `w` with a letter inserted before position i (at the end when i == |w|). */
  ghost predicate Inserted(w: string, c: string, i: int) {
    0 <= i <= |w| && |c| == |w| + 1 && IsLetter(c[i]) &&
    (forall j :: 0 <= j < i ==> c[j] == w[j]) &&
    (forall j :: i < j < |c| ==> c[j] == w[j - 1])
  }

  /** `c` is `w` with the characters at positions i and i + 1 swapped. */
  ghost predicate Transposed(w: string, c: string, i: int) {
    0 <= i && i + 1 < |w| && |c| == |w| &&
    c[i] == w[i + 1] && c[i + 1] == w[i] &&
    (forall j :: 0 <= j < |w| && j != i && j != i + 1 ==> c[j] == w[j])
  }

  /** `c` is one deletion, substitution, insertion or adjacent transposition away from `w`. */
  ghost predicate OneEdit(w: string, c: string) {
    exists i :: Deleted(w, c, i) || Substituted(w, c, i) || Inserted(w, c, i) || Transposed(w, c, i)
  }

  // ---------------------------------------------------------------------------
  // The four families, as the source generates them.
  // ---------------------------------------------------------------------------

  /** Deletions, for i in [0, |w|). */
  function Deletes(w: string): (r: seq<string>)
    ensures |r| == |w|
    ensures forall i :: 0 <= i < |r| ==> |r[i]| == |w| - 1
  {
    seq(|w|, i requires 0 <= i < |w| => w[..i] + w[i + 1..])
  }

  /** Substitutions, position-major: for i in [0, |w|), for each letter of `Alphabet` in order. */
  function Replaces(w: string): (r: seq<string>)
    ensures |r| == 26 * |w|
    ensures forall k :: 0 <= k < |r| ==> |r[k]| == |w|
  {
    seq(26 * |w|, k requires 0 <= k < 26 * |w| => w[..k / 26] + [Letter(k % 26)] + w[k / 26 + 1..])
  }

  /** Insertions, position-major: for i in [0, |w| + 1), for each letter of `Alphabet` in order. */
  function Inserts(w: string): (r: seq<string>)
    ensures |r| == 26 * (|w| + 1)
    ensures forall k :: 0 <= k < |r| ==> |r[k]| == |w| + 1
  {
    seq(26 * (|w| + 1), k requires 0 <= k < 26 * (|w| + 1) => w[..k / 26] + [Letter(k % 26)] + w[k / 26..])
  }

  /** Adjacent transpositions, for i in [0, |w| - 1); none when |w| <= 1. */
  function Transposes(w: string): (r: seq<string>)
    ensures |r| == if |w| == 0 then 0 else |w| - 1
    ensures forall i :: 0 <= i < |r| ==> |r[i]| == |w|
  {
    seq(if |w| == 0 then 0 else |w| - 1, i requires 0 <= i < |w| - 1 => w[..i] + [w[i + 1]] + [w[i]] + w[i + 2..])
  }

  /**
   * `edits1`: deletions, then substitutions, then insertions, then
   * transpositions, duplicates kept. A word of length n >= 1 has
   * n + 26n + 26(n + 1) + (n - 1) = 54n + 25 candidates; the empty word has
   * exactly the 26 one-letter insertions.
   */
  function Edits1(w: string): (r: seq<string>)
    ensures |r| == if |w| == 0 then 26 else 54 * |w| + 25
  {
    Deletes(w) + Replaces(w) + Inserts(w) + Transposes(w)
  }

  /** Indexing into the second of four concatenated sequences. */
  lemma SecondAt<T>(a: seq<T>, b: seq<T>, c: seq<T>, d: seq<T>, x: int)
    requires 0 <= x < |b|
    ensures (a + b + c + d)[|a| + x] == b[x]
  {
  }

  /** Indexing into the third of four concatenated sequences. */
  lemma ThirdAt<T>(a: seq<T>, b: seq<T>, c: seq<T>, d: seq<T>, x: int)
    requires 0 <= x < |c|
    ensures (a + b + c + d)[|a| + |b| + x] == c[x]
  {
  }

  /** Indexing into the last of four concatenated sequences. */
  lemma FourthAt<T>(a: seq<T>, b: seq<T>, c: seq<T>, d: seq<T>, x: int)
    requires 0 <= x < |d|
    ensures (a + b + c + d)[|a| + |b| + |c| + x] == d[x]
  {
  }

  /** The substitutions follow the |w| deletions. */
  lemma ReplacesInEdits1(w: string, x: int)
    requires 0 <= x < 26 * |w|
    ensures Edits1(w)[|w| + x] == Replaces(w)[x]
  {
    SecondAt(Deletes(w), Replaces(w), Inserts(w), Transposes(w), x);
  }

  /** The insertions follow the |w| deletions and the 26|w| substitutions. */
  lemma InsertsInEdits1(w: string, x: int)
    requires 0 <= x < 26 * (|w| + 1)
    ensures Edits1(w)[27 * |w| + x] == Inserts(w)[x]
  {
    ThirdAt(Deletes(w), Replaces(w), Inserts(w), Transposes(w), x);
  }

  /** The transpositions come last. */
  lemma TransposesInEdits1(w: string, x: int)
    requires 0 <= x < |Transposes(w)|
    ensures Edits1(w)[53 * |w| + 26 + x] == Transposes(w)[x]
  {
    FourthAt(Deletes(w), Replaces(w), Inserts(w), Transposes(w), x);
  }

  /** Removing position i, stated character by character. */
  lemma DeletedForm(w: string, i: int)
    requires 0 <= i < |w|
    ensures Deleted(w, w[..i] + w[i + 1..], i)
  {
  }

  /** Replacing position i by a letter, stated character by character. */
  lemma SubstitutedForm(w: string, i: int, ch: char)
    requires 0 <= i < |w| && IsLetter(ch)
    ensures Substituted(w, w[..i] + [ch] + w[i + 1..], i) && (w[..i] + [ch] + w[i + 1..])[i] == ch
  {
  }

  /** Inserting a letter before position i, stated character by character. */
  lemma InsertedForm(w: string, i: int, ch: char)
    requires 0 <= i <= |w| && IsLetter(ch)
    ensures Inserted(w, w[..i] + [ch] + w[i..], i) && (w[..i] + [ch] + w[i..])[i] == ch
  {
  }

  /** Swapping positions i and i + 1, stated character by character. */
  lemma TransposedForm(w: string, i: int)
    requires 0 <= i && i + 1 < |w|
    ensures Transposed(w, w[..i] + [w[i + 1]] + [w[i]] + w[i + 2..], i)
  {
  }

  /** Substitution number 26i + k puts the k-th letter at position i. */
  lemma ReplacesAt(w: string, i: int, k: int)
    requires 0 <= i < |w| && 0 <= k < 26
    ensures 26 * i + k < |Replaces(w)|
    ensures Replaces(w)[26 * i + k] == w[..i] + [Letter(k)] + w[i + 1..]
  {
    var n := 26 * i + k;
    assert n / 26 == i && n % 26 == k;
  }

  /** Insertion number 26i + k puts the k-th letter before position i. */
  lemma InsertsAt(w: string, i: int, k: int)
    requires 0 <= i <= |w| && 0 <= k < 26
    ensures 26 * i + k < |Inserts(w)|
    ensures Inserts(w)[26 * i + k] == w[..i] + [Letter(k)] + w[i..]
  {
    var n := 26 * i + k;
    assert n / 26 == i && n % 26 == k;
  }

  /** The i-th candidate is the deletion of position i. */
  lemma DeletionAt(w: string, i: int)
    requires 0 <= i < |w|
    ensures Deleted(w, Edits1(w)[i], i)
  {
    DeletedForm(w, i);
  }

  /** Candidate |w| + 26i + k substitutes the k-th letter at position i. */
  lemma SubstitutionAt(w: string, i: int, k: int)
    requires 0 <= i < |w| && 0 <= k < 26
    ensures Substituted(w, Edits1(w)[|w| + 26 * i + k], i)
    ensures Edits1(w)[|w| + 26 * i + k][i] == Letter(k)
  {
    ReplacesAt(w, i, k);
    ReplacesInEdits1(w, 26 * i + k);
    SubstitutedForm(w, i, Letter(k));
  }

  /** Candidate 27|w| + 26i + k inserts the k-th letter before position i. */
  lemma InsertionAt(w: string, i: int, k: int)
    requires 0 <= i <= |w| && 0 <= k < 26
    ensures Inserted(w, Edits1(w)[27 * |w| + 26 * i + k], i)
    ensures Edits1(w)[27 * |w| + 26 * i + k][i] == Letter(k)
  {
    InsertsAt(w, i, k);
    InsertsInEdits1(w, 26 * i + k);
    InsertedForm(w, i, Letter(k));
  }

  /** Candidate 53|w| + 26 + i swaps positions i and i + 1. */
  lemma TranspositionAt(w: string, i: int)
    requires 0 <= i && i + 1 < |w|
    ensures Transposed(w, Edits1(w)[53 * |w| + 26 + i], i)
  {
    TransposesInEdits1(w, i);
    TransposedForm(w, i);
  }

  /** Every candidate is one edit away from the word. */
  lemma Edits1Sound(w: string, c: string)
    requires c in Edits1(w)
    ensures OneEdit(w, c)
  {
    var n := |w|;
    var x :| 0 <= x < |Edits1(w)| && Edits1(w)[x] == c;
    if x < n {
      DeletionAt(w, x);
    } else if x < 27 * n {
      SubstitutionSound(w, x);
    } else if x < 53 * n + 26 {
      InsertionSound(w, x);
    } else {
      TranspositionAt(w, x - (53 * n + 26));
    }
  }

  /** A candidate from the substitution block is one substitution away. */
  lemma SubstitutionSound(w: string, x: int)
    requires |w| <= x < 27 * |w|
    ensures OneEdit(w, Edits1(w)[x])
  {
    var i, k := (x - |w|) / 26, (x - |w|) % 26;
    assert x == |w| + 26 * i + k;
    SubstitutionAt(w, i, k);
  }

  /** A candidate from the insertion block is one insertion away. */
  lemma InsertionSound(w: string, x: int)
    requires 27 * |w| <= x < 53 * |w| + 26
    ensures OneEdit(w, Edits1(w)[x])
  {
    var i, k := (x - 27 * |w|) / 26, (x - 27 * |w|) % 26;
    assert x == 27 * |w| + 26 * i + k;
    InsertionAt(w, i, k);
  }

  /** Every string one edit away from the word is a candidate. */
  lemma Edits1Complete(w: string, c: string)
    requires OneEdit(w, c)
    ensures c in Edits1(w)
  {
    var i :| Deleted(w, c, i) || Substituted(w, c, i) || Inserted(w, c, i) || Transposed(w, c, i);
    if Deleted(w, c, i) {
      DeletionComplete(w, c, i);
    } else if Substituted(w, c, i) {
      SubstitutionComplete(w, c, i);
    } else if Inserted(w, c, i) {
      InsertionComplete(w, c, i);
    } else {
      TranspositionComplete(w, c, i);
    }
  }

  /** Every deletion is generated. */
  lemma DeletionComplete(w: string, c: string, i: int)
    requires Deleted(w, c, i)
    ensures c in Edits1(w)
  {
    DeletionAt(w, i);
    assert Edits1(w)[i] == c;
  }

  /** Every substitution by a letter is generated; the letter fixes its place in the block. */
  lemma SubstitutionComplete(w: string, c: string, i: int)
    requires Substituted(w, c, i)
    ensures c in Edits1(w)
  {
    var k := c[i] as int - 'a' as int;
    SubstitutionAt(w, i, k);
    assert Edits1(w)[|w| + 26 * i + k] == c;
  }

  /** Every insertion of a letter is generated. */
  lemma InsertionComplete(w: string, c: string, i: int)
    requires Inserted(w, c, i)
    ensures c in Edits1(w)
  {
    var k := c[i] as int - 'a' as int;
    InsertionAt(w, i, k);
    assert Edits1(w)[27 * |w| + 26 * i + k] == c;
  }

  /** Every adjacent transposition is generated. */
  lemma TranspositionComplete(w: string, c: string, i: int)
    requires Transposed(w, c, i)
    ensures c in Edits1(w)
  {
    TranspositionAt(w, i);
    assert Edits1(w)[53 * |w| + 26 + i] == c;
  }

  /** The candidates are exactly the strings one edit away from the word. */
  lemma Edits1Exact(w: string, c: string)
    ensures c in Edits1(w) <==> OneEdit(w, c)
  {
    if c in Edits1(w) {
      Edits1Sound(w, c);
    }
    if OneEdit(w, c) {
      Edits1Complete(w, c);
    }
  }

  /** A single edit changes the length by at most one. */
  lemma Edits1Length(w: string, c: string)
    requires c in Edits1(w)
    ensures |w| - 1 <= |c| <= |w| + 1
  {
    Edits1Sound(w, c);
  }

  // ---------------------------------------------------------------------------
  // Distance two.
  // ---------------------------------------------------------------------------

  /** `edits1` applied to every element of `ws`, flattened in order. */
  function EditsOfAll(ws: seq<string>): (r: seq<string>)
    ensures |r| >= 26 * |ws|
  {
    if ws == [] then [] else Edits1(ws[0]) + EditsOfAll(ws[1..])
  }

  /** A string is in the flattened candidates exactly when it is a candidate of some element. */
  lemma {:induction false} EditsOfAllMembers(ws: seq<string>, c: string)
    ensures c in EditsOfAll(ws) <==> exists m :: m in ws && c in Edits1(m)
  {
    if ws != [] {
      EditsOfAllMembers(ws[1..], c);
      assert forall m :: m in ws <==> m == ws[0] || m in ws[1..];
    }
  }

  /** The distance-two candidates: `edits1` of every `edits1` candidate, not deduplicated. */
  function Edits2(w: string): (r: seq<string>)
    ensures |r| >= 26 * |Edits1(w)|
  {
    EditsOfAll(Edits1(w))
  }

  /** A string is a distance-two candidate exactly when it is one edit away from something one edit away. */
  lemma Edits2Exact(w: string, c: string)
    ensures c in Edits2(w) <==> exists m :: OneEdit(w, m) && OneEdit(m, c)
  {
    EditsOfAllMembers(Edits1(w), c);
    if c in Edits2(w) {
      var m :| m in Edits1(w) && c in Edits1(m);
      Edits1Sound(w, m);
      Edits1Sound(m, c);
    }
    if exists m :: OneEdit(w, m) && OneEdit(m, c) {
      var m :| OneEdit(w, m) && OneEdit(m, c);
      Edits1Complete(w, m);
      Edits1Complete(m, c);
    }
  }

  /** Two edits change the length by at most two. */
  lemma Edits2Length(w: string, c: string)
    requires c in Edits2(w)
    ensures |w| - 2 <= |c| <= |w| + 2
  {
    EditsOfAllMembers(Edits1(w), c);
    var m :| m in Edits1(w) && c in Edits1(m);
    Edits1Length(w, m);
    Edits1Length(m, c);
  }
}
