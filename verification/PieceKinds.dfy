/** The kinds of pre-token the Qwen2 pre-tokenizer cuts, said directly in terms of the three character classes. */
module PieceKinds {
  /** The character classes \p{L}, \p{N} and \s. */
  datatype Classes = Classes(L: int -> bool, N: int -> bool, S: int -> bool)

  /** The seven contraction suffixes: s, t, re, ve, m, ll, d. */
  const SUFFIXES: seq<seq<int>> := [[0x73], [0x74], [0x72, 0x65], [0x76, 0x65], [0x6D], [0x6C, 0x6C], [0x64]]

  /** cp[i..] starts with w, upper or lower case. */
  ghost predicate Spells(cp: seq<int>, i: nat, w: seq<int>) {
    i + |w| <= |cp| && forall j :: 0 <= j < |w| ==> cp[i + j] == w[j] || cp[i + j] == w[j] - 0x20
  }

  /** A quote and one of the suffixes. */
  ghost predicate IsContraction(cp: seq<int>, i: nat, k: nat) {
    && i < |cp| && cp[i] == 0x27
    && exists n :: 0 <= n < |SUFFIXES| && k == i + 1 + |SUFFIXES[n]| && Spells(cp, i + 1, SUFFIXES[n])
  }

  ghost predicate Break(ch: int) {
    ch == 0x0D || ch == 0x0A
  }

  /** cp[a..k] is a maximal run of letters; at most one code point before it, neither letter, number nor line break. */
  ghost predicate LettersFrom(c: Classes, cp: seq<int>, i: nat, a: nat, k: nat) {
    && i <= a <= i + 1 && a < k <= |cp|
    && (i < a ==> !Break(cp[i]) && !c.L(cp[i]) && !c.N(cp[i]))
    && (forall j :: a <= j < k ==> c.L(cp[j])) && (k < |cp| ==> !c.L(cp[k]))
  }

  ghost predicate IsWord(c: Classes, cp: seq<int>, i: nat, k: nat) {
    exists a :: LettersFrom(c, cp, i, a, k)
  }

  ghost predicate IsNumber(c: Classes, cp: seq<int>, i: nat, k: nat) {
    i < |cp| && k == i + 1 && c.N(cp[i])
  }

  ghost predicate InNone(c: Classes, ch: int) {
    !c.L(ch) && !c.N(ch) && !c.S(ch)
  }

  /** cp[a..b] is a maximal run of code points in no class, at most one space before it, and cp[b..k] the line breaks
      after it. */
  ghost predicate MarksFrom(c: Classes, cp: seq<int>, i: nat, a: nat, b: nat, k: nat) {
    && i <= a <= i + 1 && a < b <= k <= |cp|
    && (i < a ==> cp[i] == 0x20)
    && (forall j :: a <= j < b ==> InNone(c, cp[j])) && (b < |cp| ==> !InNone(c, cp[b]))
    && (forall j :: b <= j < k ==> Break(cp[j])) && (k < |cp| ==> !Break(cp[k]))
  }

  ghost predicate IsMarks(c: Classes, cp: seq<int>, i: nat, k: nat) {
    exists a, b :: MarksFrom(c, cp, i, a, b, k)
  }

  /** cp[i..e] is a maximal whitespace run, and cp[i..k] the part of it that is taken: up to the last line break if
      it has one; else all of it when it ends the text or is one code point; else all but its last code point. */
  ghost predicate SpacesTo(c: Classes, cp: seq<int>, i: nat, e: nat, k: nat) {
    && i < k <= e <= |cp|
    && (forall j :: i <= j < e ==> c.S(cp[j])) && (e < |cp| ==> !c.S(cp[e]))
    && (forall j :: k <= j < e ==> !Break(cp[j]))
    && (!Break(cp[k - 1]) ==>
          && (forall j :: i <= j < e ==> !Break(cp[j]))
          && k == (if e == |cp| || e == i + 1 then e else e - 1))
  }

  ghost predicate IsSpaces(c: Classes, cp: seq<int>, i: nat, k: nat) {
    exists e :: SpacesTo(c, cp, i, e, k)
  }

  /** What cp[i..k] is, as the first of the five kinds there is at i. */
  ghost predicate PieceIs(c: Classes, cp: seq<int>, i: nat, k: nat) {
    || IsContraction(cp, i, k)
    || ((forall j :: !IsContraction(cp, i, j)) &&
        (|| IsWord(c, cp, i, k)
         || ((forall j :: !IsWord(c, cp, i, j)) &&
             (|| IsNumber(c, cp, i, k)
              || ((forall j :: !IsNumber(c, cp, i, j)) &&
                  (|| IsMarks(c, cp, i, k)
                   || ((forall j :: !IsMarks(c, cp, i, j)) && IsSpaces(c, cp, i, k))))))))
  }

  /** No two suffixes start alike. */
  lemma FirstLetters(m: nat, n: nat)
    requires m < |SUFFIXES| && n < |SUFFIXES|
    ensures SUFFIXES[m] != [] && SUFFIXES[n] != [] && 0x61 <= SUFFIXES[m][0] <= 0x7A
    ensures SUFFIXES[m][0] == SUFFIXES[n][0] ==> m == n
  {
  }

  lemma OneContraction(cp: seq<int>, i: nat, j: nat, k: nat)
    requires IsContraction(cp, i, j) && IsContraction(cp, i, k)
    ensures j == k
  {
    var m :| 0 <= m < |SUFFIXES| && j == i + 1 + |SUFFIXES[m]| && Spells(cp, i + 1, SUFFIXES[m]);
    var n :| 0 <= n < |SUFFIXES| && k == i + 1 + |SUFFIXES[n]| && Spells(cp, i + 1, SUFFIXES[n]);
    FirstLetters(m, n);
    FirstLetters(n, m);
    assert cp[i + 1 + 0] == SUFFIXES[m][0] || cp[i + 1 + 0] == SUFFIXES[m][0] - 0x20;
    assert cp[i + 1 + 0] == SUFFIXES[n][0] || cp[i + 1 + 0] == SUFFIXES[n][0] - 0x20;
  }

  /** A text position has only one such piece. */
  lemma OnePiece(c: Classes, cp: seq<int>, i: nat, j: nat, k: nat)
    requires PieceIs(c, cp, i, j) && PieceIs(c, cp, i, k)
    ensures j == k
  {
    hide *;
    OneOf(c, cp, i, j);
    OneOf(c, cp, i, k);
    if IsContraction(cp, i, j) && IsContraction(cp, i, k) { OneContraction(cp, i, j, k); }
    if IsWord(c, cp, i, j) && IsWord(c, cp, i, k) { OneWord(c, cp, i, j, k); }
    if IsNumber(c, cp, i, j) && IsNumber(c, cp, i, k) { OneNumber(c, cp, i, j, k); }
    if IsMarks(c, cp, i, j) && IsMarks(c, cp, i, k) { OneMarks(c, cp, i, j, k); }
    if IsSpaces(c, cp, i, j) && IsSpaces(c, cp, i, k) { OneSpaces(c, cp, i, j, k); }
  }

  lemma OneOf(c: Classes, cp: seq<int>, i: nat, k: nat)
    requires PieceIs(c, cp, i, k)
    ensures IsContraction(cp, i, k) || forall j :: !IsContraction(cp, i, j)
    ensures IsContraction(cp, i, k) || IsWord(c, cp, i, k) || forall j :: !IsWord(c, cp, i, j)
    ensures IsContraction(cp, i, k) || IsWord(c, cp, i, k) || IsNumber(c, cp, i, k) ||
            forall j :: !IsNumber(c, cp, i, j)
    ensures IsContraction(cp, i, k) || IsWord(c, cp, i, k) || IsNumber(c, cp, i, k) || IsMarks(c, cp, i, k) ||
            (IsSpaces(c, cp, i, k) && forall j :: !IsMarks(c, cp, i, j))
  {
    hide IsContraction, IsWord, IsNumber, IsMarks, IsSpaces;
  }

  lemma OneWord(c: Classes, cp: seq<int>, i: nat, j: nat, k: nat)
    requires IsWord(c, cp, i, j) && IsWord(c, cp, i, k)
    ensures j == k
  {
    var a: nat :| LettersFrom(c, cp, i, a, j);
    var b: nat :| LettersFrom(c, cp, i, b, k);
    assert j < |cp| ==> !c.L(cp[j]);
    assert k < |cp| ==> !c.L(cp[k]);
  }

  lemma OneNumber(c: Classes, cp: seq<int>, i: nat, j: nat, k: nat)
    requires IsNumber(c, cp, i, j) && IsNumber(c, cp, i, k)
    ensures j == k
  {
  }

  lemma OneMarks(c: Classes, cp: seq<int>, i: nat, j: nat, k: nat)
    requires IsMarks(c, cp, i, j) && IsMarks(c, cp, i, k)
    ensures j == k
  {
    var a: nat, b: nat :| MarksFrom(c, cp, i, a, b, j);
    var a': nat, b': nat :| MarksFrom(c, cp, i, a', b', k);
    assert b < |cp| ==> !InNone(c, cp[b]);
    assert b' < |cp| ==> !InNone(c, cp[b']);
  }

  lemma OneSpaces(c: Classes, cp: seq<int>, i: nat, j: nat, k: nat)
    requires IsSpaces(c, cp, i, j) && IsSpaces(c, cp, i, k)
    ensures j == k
  {
    var e: nat :| SpacesTo(c, cp, i, e, j);
    var e': nat :| SpacesTo(c, cp, i, e', k);
    assert e < |cp| ==> !c.S(cp[e]);
    assert e' < |cp| ==> !c.S(cp[e']);
    assert e == e';
    assert Break(cp[j - 1]) ==> j - 1 < k;
    assert Break(cp[k - 1]) ==> k - 1 < j;
  }

  /** What the Unicode classes satisfy: no code point is in two of them, ASCII letters are letters, and the quote and
      the two line breaks are neither letters nor numbers. */
  ghost predicate Unicode(c: Classes) {
    && (forall x :: !(c.L(x) && c.N(x)) && !(c.L(x) && c.S(x)) && !(c.N(x) && c.S(x)))
    && (forall x :: 0x41 <= x <= 0x5A || 0x61 <= x <= 0x7A ==> c.L(x))
    && InNone(c, 0x27) && c.S(0x20) && c.S(0x0D) && c.S(0x0A)
  }

  lemma ContractionLetters(cp: seq<int>, i: nat, k: nat, j: nat)
    requires IsContraction(cp, i, k) && i <= j < k
    ensures k <= |cp| && (cp[j] == 0x27 || 0x41 <= cp[j] <= 0x5A || 0x61 <= cp[j] <= 0x7A)
  {
    var n :| 0 <= n < |SUFFIXES| && k == i + 1 + |SUFFIXES[n]| && Spells(cp, i + 1, SUFFIXES[n]);
    var w := SUFFIXES[n];
    assert |w| <= 2 && (|w| > 0 ==> 0x61 <= w[0] <= 0x7A) && (|w| > 1 ==> 0x61 <= w[1] <= 0x7A);
    if j > i {
      var d := j - i - 1;
      assert cp[i + 1 + d] == w[d] || cp[i + 1 + d] == w[d] - 0x20;
    }
  }

  lemma WordMembers(c: Classes, cp: seq<int>, i: nat, k: nat, j: nat)
    requires IsWord(c, cp, i, k) && i <= j < k
    ensures k <= |cp| && (c.L(cp[j]) || !c.N(cp[j]))
  {
    var a: nat :| LettersFrom(c, cp, i, a, k);
  }

  lemma MarksMembers(c: Classes, cp: seq<int>, i: nat, k: nat, j: nat)
    requires IsMarks(c, cp, i, k) && i <= j < k
    ensures k <= |cp| && (InNone(c, cp[j]) || cp[j] == 0x20 || Break(cp[j]))
  {
    var a: nat, b: nat :| MarksFrom(c, cp, i, a, b, k);
  }

  lemma SpacesMembers(c: Classes, cp: seq<int>, i: nat, k: nat, j: nat)
    requires IsSpaces(c, cp, i, k) && i <= j < k
    ensures k <= |cp| && c.S(cp[j])
  {
    var e: nat :| SpacesTo(c, cp, i, e, k);
  }

  /** A number code point is always a pre-token of its own. */
  lemma NumbersAlone(c: Classes, cp: seq<int>, i: nat, k: nat, j: nat)
    requires Unicode(c) && PieceIs(c, cp, i, k) && i <= j < k && j < |cp| && c.N(cp[j])
    ensures j == i && k == i + 1
  {
    OneOf(c, cp, i, k);
    hide PieceIs, IsContraction, IsWord, IsMarks, IsSpaces;
    if IsContraction(cp, i, k) { ContractionLetters(cp, i, k, j); }
    if IsWord(c, cp, i, k) { WordMembers(c, cp, i, k, j); }
    if IsMarks(c, cp, i, k) { MarksMembers(c, cp, i, k, j); }
    if IsSpaces(c, cp, i, k) { SpacesMembers(c, cp, i, k, j); }
  }
}
