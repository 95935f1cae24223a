/** The Qwen2 pre-tokenizer: next_piece is a hand-coded matcher for the regular expression, and the
    pieces it cuts partition the text. */
module Pretokenizer {
  import opened Basics
  import opened PieceKinds
  import opened Regex

  const CR := 0x0D
  const LF := 0x0A
  const SP := 0x20
  const QUOTE := 0x27

  /** All that is assumed of the generated tables. */
  ghost predicate Sane(c: Classes) {
    c.S(CR) && c.S(LF) && c.S(SP)
  }

  function Newline(): int -> bool { x => x == CR || x == LF }

  /** [^\s\p{L}\p{N}] */
  function Other(c: Classes): int -> bool { x => !c.S(x) && !c.L(x) && !c.N(x) }

  /** [^\r\n\p{L}\p{N}] */
  function Prefix(c: Classes): int -> bool { x => x != CR && x != LF && !c.L(x) && !c.N(x) }

  function NotSpace(c: Classes): int -> bool { x => !c.S(x) }

  function Is(ch: int): int -> bool { x => x == ch }

  /** [xX] for a lower-case ASCII letter x. */
  function Letter(x: int): int -> bool { ch => ch == x || ch == x - 32 }

  /** A quote followed by the given suffix. */
  function Quoted(suffix: Re): Re { Cat(Cls(Is(QUOTE)), suffix) }

  function Two(x: int, y: int): Re { Cat(Cls(Letter(x)), Cls(Letter(y))) }

  /** '[sS]|'[tT]|'[rR][eE]|'[vV][eE]|'[mM]|'[lL][lL]|'[dD] */
  function Contraction(): Re {
    Alt(Quoted(Cls(Letter(0x73))),
    Alt(Quoted(Cls(Letter(0x74))),
    Alt(Quoted(Two(0x72, 0x65)),
    Alt(Quoted(Two(0x76, 0x65)),
    Alt(Quoted(Cls(Letter(0x6D))),
    Alt(Quoted(Two(0x6C, 0x6C)),
        Quoted(Cls(Letter(0x64)))))))))
  }

  /** [^\r\n\p{L}\p{N}]?\p{L}+ */
  function Word(c: Classes): Re { Cat(Opt(Cls(Prefix(c))), Plus(Cls(c.L))) }

  /** One optional space, then [^\s\p{L}\p{N}]+[\r\n]* */
  function Punct(c: Classes): Re {
    Cat(Opt(Cls(Is(SP))), Cat(Plus(Cls(Other(c))), Star(Cls(Newline()))))
  }

  /** \s*[\r\n]+ */
  function Lines(c: Classes): Re { Cat(Star(Cls(c.S)), Plus(Cls(Newline()))) }

  /** \s+(?!\S) */
  function Trailing(c: Classes): Re { Cat(Plus(Cls(c.S)), NotAhead(Cls(NotSpace(c)))) }

  /** The pre-tokenizer expression, alternatives in order. */
  function Qwen2(c: Classes): Re {
    Alt(Contraction(), Alt(Word(c), Alt(Cls(c.N), Alt(Punct(c), Alt(Lines(c), Alt(Trailing(c), Plus(Cls(c.S))))))))
  }

  /** A class followed by anything. */
  lemma ClsThen(p: int -> bool, r: Re, cp: seq<int>, i: nat)
    requires i <= |cp|
    ensures Ends(Cat(Cls(p), r), cp, i) == if i < |cp| && p(cp[i]) then Ends(r, cp, i + 1) else []
  {
    if i < |cp| && p(cp[i]) {
      OneStart(r, cp, i + 1, i);
    }
  }

  function Lower(c: int): int { if 0x41 <= c <= 0x5A then c + 32 else c }

  /** What ALT1 of next_piece returns, if it returns. */
  function ContractionEnd(cp: seq<int>, i: nat): Option<nat> {
    if i + 1 < |cp| && cp[i] == QUOTE then
      var c1 := Lower(cp[i + 1]);
      if i + 2 < |cp| && (((c1 == 0x72 || c1 == 0x76) && Lower(cp[i + 2]) == 0x65) ||
                          (c1 == 0x6C && Lower(cp[i + 2]) == 0x6C)) then Some(i + 3)
      else if c1 == 0x73 || c1 == 0x74 || c1 == 0x6D || c1 == 0x64 then Some(i + 2)
      else None
    else None
  }

  lemma OneEnds(x: int, cp: seq<int>, i: nat)
    requires i <= |cp| && 0x61 <= x <= 0x7A
    ensures First(Quoted(Cls(Letter(x))), cp, i) ==
            if i + 1 < |cp| && cp[i] == QUOTE && Lower(cp[i + 1]) == x then Some(i + 2) else None
  {
    ClsThen(Is(QUOTE), Cls(Letter(x)), cp, i);
  }

  lemma TwoEnds(x: int, y: int, cp: seq<int>, i: nat)
    requires i <= |cp| && 0x61 <= x <= 0x7A && 0x61 <= y <= 0x7A
    ensures First(Quoted(Two(x, y)), cp, i) ==
            if i + 2 < |cp| && cp[i] == QUOTE && Lower(cp[i + 1]) == x && Lower(cp[i + 2]) == y
            then Some(i + 3) else None
  {
    ClsThen(Is(QUOTE), Two(x, y), cp, i);
    if i < |cp| && cp[i] == QUOTE {
      ClsThen(Letter(x), Cls(Letter(y)), cp, i + 1);
    }
  }

  lemma ContractionFirst(cp: seq<int>, i: nat)
    requires i <= |cp|
    ensures First(Contraction(), cp, i) == ContractionEnd(cp, i)
  {
    hide Ends, First, Quoted, Two, Letter;
    var a, b := Quoted(Cls(Letter(0x73))), Quoted(Cls(Letter(0x74)));
    var c, d := Quoted(Two(0x72, 0x65)), Quoted(Two(0x76, 0x65));
    var e, f, g := Quoted(Cls(Letter(0x6D))), Quoted(Two(0x6C, 0x6C)), Quoted(Cls(Letter(0x64)));
    OneEnds(0x73, cp, i);
    OneEnds(0x74, cp, i);
    TwoEnds(0x72, 0x65, cp, i);
    TwoEnds(0x76, 0x65, cp, i);
    OneEnds(0x6D, cp, i);
    TwoEnds(0x6C, 0x6C, cp, i);
    OneEnds(0x64, cp, i);
    AltFirst(f, g, cp, i);
    AltFirst(e, Alt(f, g), cp, i);
    AltFirst(d, Alt(e, Alt(f, g)), cp, i);
    AltFirst(c, Alt(d, Alt(e, Alt(f, g))), cp, i);
    AltFirst(b, Alt(c, Alt(d, Alt(e, Alt(f, g)))), cp, i);
    AltFirst(a, Alt(b, Alt(c, Alt(d, Alt(e, Alt(f, g))))), cp, i);
  }

  lemma OptEnds(p: int -> bool, cp: seq<int>, i: nat)
    requires i <= |cp|
    ensures Ends(Opt(Cls(p)), cp, i) == if i < |cp| && p(cp[i]) then [i + 1, i] else [i]
  {
    assert Ends(Opt(Cls(p)), cp, i) == Ends(Cls(p), cp, i) + Ends(Eps, cp, i);
  }

  lemma PlusFirst(p: int -> bool, cp: seq<int>, i: nat)
    requires i <= |cp|
    ensures First(Plus(Cls(p)), cp, i) == if i < |cp| && p(cp[i]) then Some(RunEnd(p, cp, i)) else None
  {
    PlusRun(p, cp, i);
  }

  lemma OptCatEnds(p: int -> bool, r: Re, cp: seq<int>, i: nat)
    requires i <= |cp|
    ensures Ends(Cat(Opt(Cls(p)), r), cp, i) ==
            (if i < |cp| && p(cp[i]) then Ends(r, cp, i + 1) else []) + Ends(r, cp, i)
  {
    OptEnds(p, cp, i);
    var es := Ends(Opt(Cls(p)), cp, i);
    assert Ends(Cat(Opt(Cls(p)), r), cp, i) == EndsFrom(r, cp, es, i);
    OneStart(r, cp, i, i);
    if i < |cp| && p(cp[i]) {
      assert es[0] == i + 1 && es[1..] == [i];
      hide Ends;
      assert EndsFrom(r, cp, es, i) == Ends(r, cp, es[0]) + EndsFrom(r, cp, es[1..], i);
    }
  }

  /** An optional class member followed by anything: with the member first, without it on backtracking. */
  lemma OptThen(p: int -> bool, r: Re, cp: seq<int>, i: nat)
    requires i <= |cp|
    ensures First(Cat(Opt(Cls(p)), r), cp, i) ==
            if i < |cp| && p(cp[i]) && First(r, cp, i + 1).Some? then First(r, cp, i + 1) else First(r, cp, i)
  {
    hide Ends, Opt;
    OptCatEnds(p, r, cp, i);
  }

  lemma WordFirst(c: Classes, cp: seq<int>, i: nat)
    requires i < |cp|
    ensures First(Word(c), cp, i) ==
            if Prefix(c)(cp[i]) && i + 1 < |cp| && c.L(cp[i + 1]) then Some(RunEnd(c.L, cp, i + 1))
            else if c.L(cp[i]) then Some(RunEnd(c.L, cp, i)) else None
  {
    hide Ends, First, Opt, Plus, RunEnd;
    OptThen(Prefix(c), Plus(Cls(c.L)), cp, i);
    PlusFirst(c.L, cp, i);
    PlusFirst(c.L, cp, i + 1);
  }

  lemma PunctTail(c: Classes, cp: seq<int>, j: nat)
    requires j <= |cp|
    ensures First(Cat(Plus(Cls(Other(c))), Star(Cls(Newline()))), cp, j) ==
            if j < |cp| && Other(c)(cp[j]) then Some(RunEnd(Newline(), cp, RunEnd(Other(c), cp, j))) else None
  {
    hide *;
    var p, q := Other(c), Newline();
    PlusFirst(p, cp, j);
    if j < |cp| && p(cp[j]) {
      var e := RunEnd(p, cp, j);
      StarFirst(q, cp, e);
      FirstThen(Plus(Cls(p)), Star(Cls(q)), cp, j, e);
    } else {
      NoneThen(Plus(Cls(p)), Star(Cls(q)), cp, j);
    }
  }

  lemma StarFirst(p: int -> bool, cp: seq<int>, i: nat)
    requires i <= |cp|
    ensures First(Star(Cls(p)), cp, i) == Some(RunEnd(p, cp, i))
  {
    StarRun(p, cp, i);
  }

  /** When the right part matches from the left part's first end, no backtracking happens. */
  lemma FirstThen(a: Re, b: Re, cp: seq<int>, i: nat, e: nat)
    requires i <= |cp| && First(a, cp, i) == Some(e) && e <= |cp| && First(b, cp, e).Some?
    ensures First(Cat(a, b), cp, i) == First(b, cp, e)
  {
    CatFirst(a, b, cp, i, 0);
  }

  lemma NoneThen(a: Re, b: Re, cp: seq<int>, i: nat)
    requires i <= |cp| && First(a, cp, i) == None
    ensures First(Cat(a, b), cp, i) == None
  {
    CatNone(a, b, cp, i);
  }

  lemma PunctFirst(c: Classes, cp: seq<int>, i: nat)
    requires i < |cp| && Sane(c)
    ensures First(Punct(c), cp, i) ==
            if cp[i] == SP then
              (if i + 1 < |cp| && Other(c)(cp[i + 1])
               then Some(RunEnd(Newline(), cp, RunEnd(Other(c), cp, i + 1))) else None)
            else if Other(c)(cp[i]) then Some(RunEnd(Newline(), cp, RunEnd(Other(c), cp, i))) else None
  {
    hide Ends, First, Opt, Plus, RunEnd;
    OptThen(Is(SP), Cat(Plus(Cls(Other(c))), Star(Cls(Newline()))), cp, i);
    PunctTail(c, cp, i);
    PunctTail(c, cp, i + 1);
  }

  /** m is the last line break of the whitespace run at i. */
  ghost predicate LastNewline(c: Classes, cp: seq<int>, i: nat, m: nat)
    requires i <= |cp|
  {
    var e := RunEnd(c.S, cp, i);
    i <= m < e && Newline()(cp[m]) && forall k :: m < k < e ==> !Newline()(cp[k])
  }

  /** A run of class p, then a run of class q: greedy backtracking ends after the last q of the p run. */
  lemma RunThenRun(p: int -> bool, q: int -> bool, cp: seq<int>, i: nat, m: nat)
    requires i <= |cp| && i <= m < RunEnd(p, cp, i) && q(cp[m])
    requires forall k :: m < k <= RunEnd(p, cp, i) && k < |cp| ==> !q(cp[k])
    ensures First(Cat(Star(Cls(p)), Plus(Cls(q))), cp, i) == Some(m + 1)
  {
    var e, b := RunEnd(p, cp, i), Plus(Cls(q));
    StarRun(p, cp, i);
    hide Ends, First, Plus;
    forall k: nat | m < k <= e ensures First(b, cp, k) == None {
      PlusFirst(q, cp, k);
    }
    assert RunEnd(q, cp, m + 1) == m + 1;
    PlusFirst(q, cp, m);
    DownThen(Star(Cls(p)), b, cp, i, i, e, m);
  }

  lemma NoFirst(b: Re, cp: seq<int>, k: nat)
    requires k <= |cp|
    ensures Ends(b, cp, k) == [] <==> First(b, cp, k) == None
  {
  }

  /** Giving characters back one by one from e, b first matches from m. */
  lemma DownThen(a: Re, b: Re, cp: seq<int>, i: nat, lo: nat, e: nat, m: nat)
    requires i <= lo <= m <= e <= |cp| && Ends(a, cp, i) == Down(e, lo)
    requires First(b, cp, m).Some? && forall k: nat :: m < k <= e ==> First(b, cp, k) == None
    ensures First(Cat(a, b), cp, i) == First(b, cp, m)
  {
    var es := Ends(a, cp, i);
    hide *;
    forall j | 0 <= j < e - m ensures Ends(b, cp, es[j]) == [] {
      NoFirst(b, cp, e - j);
    }
    assert es[e - m] == m;
    NoFirst(b, cp, m);
    CatFirst(a, b, cp, i, e - m);
  }

  /** ... or never. */
  lemma DownNever(a: Re, b: Re, cp: seq<int>, i: nat, lo: nat, e: nat)
    requires i <= lo <= e <= |cp| && Ends(a, cp, i) == Down(e, lo)
    requires forall k: nat :: lo <= k <= e ==> First(b, cp, k) == None
    ensures First(Cat(a, b), cp, i) == None
  {
    var es := Ends(a, cp, i);
    hide *;
    forall j | 0 <= j < |es| ensures Ends(b, cp, es[j]) == [] {
      NoFirst(b, cp, e - j);
    }
    CatNone(a, b, cp, i);
    NoFirst(Cat(a, b), cp, i);
  }

  lemma LinesFirst(c: Classes, cp: seq<int>, i: nat, m: nat)
    requires i < |cp| && Sane(c) && LastNewline(c, cp, i, m)
    ensures First(Lines(c), cp, i) == Some(m + 1)
  {
    hide Ends, First, Plus;
    RunThenRun(c.S, Newline(), cp, i, m);
  }

  lemma LinesNone(c: Classes, cp: seq<int>, i: nat)
    requires i < |cp| && Sane(c) && forall k :: i <= k < RunEnd(c.S, cp, i) ==> !Newline()(cp[k])
    ensures First(Lines(c), cp, i) == None
  {
    var q, e := Newline(), RunEnd(c.S, cp, i);
    assert forall k :: i <= k <= e && k < |cp| ==> !q(cp[k]);
    StarRun(c.S, cp, i);
    hide *;
    forall k: nat | i <= k <= e ensures First(Plus(Cls(q)), cp, k) == None {
      PlusFirst(q, cp, k);
    }
    LinesIs(c);
    DownNever(Star(Cls(c.S)), Plus(Cls(q)), cp, i, i, e);
  }

  lemma LinesIs(c: Classes)
    ensures Lines(c) == Cat(Star(Cls(c.S)), Plus(Cls(Newline())))
  {
  }

  lemma AheadEnds(c: Classes, cp: seq<int>, j: nat)
    requires j <= |cp|
    ensures Ends(NotAhead(Cls(NotSpace(c))), cp, j) == if j < |cp| && !c.S(cp[j]) then [] else [j]
    ensures First(NotAhead(Cls(NotSpace(c))), cp, j) == if j < |cp| && !c.S(cp[j]) then None else Some(j)
  {
  }

  lemma TrailingIs(c: Classes)
    ensures Trailing(c) == Cat(Plus(Cls(c.S)), NotAhead(Cls(NotSpace(c))))
  {
  }

  lemma RunStep(p: int -> bool, cp: seq<int>, i: nat)
    requires i < |cp| && p(cp[i])
    ensures RunEnd(p, cp, i + 1) == RunEnd(p, cp, i)
  {
  }

  /** The lookahead backs off one character, unless the run ends the text or is a single character. */
  lemma TrailingFirst(c: Classes, cp: seq<int>, i: nat)
    requires i < |cp| && c.S(cp[i])
    ensures var e := RunEnd(c.S, cp, i);
            First(Trailing(c), cp, i) == if e == |cp| then Some(e) else if e - i >= 2 then Some(e - 1) else None
  {
    var a, b, e := Plus(Cls(c.S)), NotAhead(Cls(NotSpace(c))), RunEnd(c.S, cp, i);
    TrailingIs(c);
    RunStep(c.S, cp, i);
    PlusRun(c.S, cp, i);
    hide *;
    AheadEnds(c, cp, e);
    AheadEnds(c, cp, e - 1);
    if e == |cp| {
      DownThen(a, b, cp, i, i + 1, e, e);
    } else if e - i >= 2 {
      DownThen(a, b, cp, i, i + 1, e, e - 1);
    } else {
      DownNever(a, b, cp, i, i + 1, e);
    }
  }

  lemma SpacesFirst(c: Classes, cp: seq<int>, i: nat)
    requires i < |cp| && c.S(cp[i])
    ensures First(Plus(Cls(c.S)), cp, i) == Some(RunEnd(c.S, cp, i))
  {
    PlusRun(c.S, cp, i);
  }

  function OrElse(a: Option<nat>, b: Option<nat>): Option<nat> { if a.Some? then a else b }

  lemma Qwen2First(c: Classes, cp: seq<int>, i: nat)
    requires i <= |cp|
    ensures First(Qwen2(c), cp, i) ==
      OrElse(First(Contraction(), cp, i), OrElse(First(Word(c), cp, i), OrElse(First(Cls(c.N), cp, i),
      OrElse(First(Punct(c), cp, i), OrElse(First(Lines(c), cp, i), OrElse(First(Trailing(c), cp, i),
      First(Plus(Cls(c.S)), cp, i)))))))
  {
    hide Ends, First, Contraction, Word, Punct, Lines, Trailing, Plus;
    var r7 := Plus(Cls(c.S));
    var r6 := Alt(Trailing(c), r7);
    var r5 := Alt(Lines(c), r6);
    var r4 := Alt(Punct(c), r5);
    var r3 := Alt(Cls(c.N), r4);
    var r2 := Alt(Word(c), r3);
    AltFirst(Trailing(c), r7, cp, i);
    AltFirst(Lines(c), r6, cp, i);
    AltFirst(Punct(c), r5, cp, i);
    AltFirst(Cls(c.N), r4, cp, i);
    AltFirst(Word(c), r3, cp, i);
    AltFirst(Contraction(), r2, cp, i);
  }

  /** A while loop over one class. */
  method SkipWhile(p: int -> bool, cp: seq<int>, i: nat) returns (k: nat)
    requires i <= |cp|
    ensures k == RunEnd(p, cp, i)
  {
    k := i;
    while k < |cp| && p(cp[k])
      invariant i <= k <= |cp| && RunEnd(p, cp, k) == RunEnd(p, cp, i)
    {
      k := k + 1;
    }
  }

  /** The letters from a on are a word, if nothing or one prefix stands before them. */
  lemma WordKind(c: Classes, cp: seq<int>, i: nat, a: nat)
    requires i <= a <= i + 1 && a < |cp| && c.L(cp[a]) && (a == i || Prefix(c)(cp[i]))
    ensures IsWord(c, cp, i, RunEnd(c.L, cp, a))
  {
    assert RunEnd(c.L, cp, a) == RunEnd(c.L, cp, a + 1);
    assert LettersFrom(c, cp, i, a, RunEnd(c.L, cp, a));
  }

  lemma NoWord(c: Classes, cp: seq<int>, i: nat)
    requires i < |cp| && !c.L(cp[i]) && !(Prefix(c)(cp[i]) && i + 1 < |cp| && c.L(cp[i + 1]))
    ensures forall k :: !IsWord(c, cp, i, k)
  {
  }

  /** The code points in no class from a on, and the line breaks after them. */
  lemma MarksKind(c: Classes, cp: seq<int>, i: nat, a: nat)
    requires i <= a <= i + 1 && a < |cp| && Other(c)(cp[a]) && (a == i || cp[i] == SP)
    ensures IsMarks(c, cp, i, RunEnd(Newline(), cp, RunEnd(Other(c), cp, a)))
  {
    var b := RunEnd(Other(c), cp, a);
    assert b == RunEnd(Other(c), cp, a + 1);
    assert MarksFrom(c, cp, i, a, b, RunEnd(Newline(), cp, b));
  }

  lemma NoMarks(c: Classes, cp: seq<int>, i: nat)
    requires i < |cp| && !Other(c)(cp[i]) && !(cp[i] == SP && i + 1 < |cp| && Other(c)(cp[i + 1]))
    ensures forall k :: !IsMarks(c, cp, i, k)
  {
  }

  lemma ContractionKind(cp: seq<int>, i: nat)
    requires i < |cp|
    ensures var r := ContractionEnd(cp, i);
            if r.Some? then IsContraction(cp, i, r.value) else forall k :: !IsContraction(cp, i, k)
  {
    hide IsContraction;
    var r := ContractionEnd(cp, i);
    if r.Some? { SomeContraction(cp, i, r.value); }
    forall k: nat | IsContraction(cp, i, k) ensures r.Some? { ContractionEnds(cp, i, k); }
  }

  lemma SomeContraction(cp: seq<int>, i: nat, k: nat)
    requires ContractionEnd(cp, i) == Some(k)
    ensures IsContraction(cp, i, k)
  {
    var c1 := Lower(cp[i + 1]);
    var n := if k == i + 3 then (if c1 == 0x72 then 2 else if c1 == 0x76 then 3 else 5)
             else if c1 == 0x73 then 0 else if c1 == 0x74 then 1 else if c1 == 0x6D then 4 else 6;
    var w := SUFFIXES[n];
    assert |w| == k - i - 1 && w[0] == c1 && (|w| == 2 ==> w[1] == Lower(cp[i + 2]));
    assert Spells(cp, i + 1, SUFFIXES[n]);
  }

  lemma SpellsLower(cp: seq<int>, i: nat, w: seq<int>, j: nat)
    requires Spells(cp, i, w) && j < |w| && 0x61 <= w[j] <= 0x7A
    ensures i + j < |cp| && Lower(cp[i + j]) == w[j]
  {
  }

  lemma ContractionEnds(cp: seq<int>, i: nat, k: nat)
    requires IsContraction(cp, i, k)
    ensures ContractionEnd(cp, i).Some?
  {
    var n :| 0 <= n < |SUFFIXES| && k == i + 1 + |SUFFIXES[n]| && Spells(cp, i + 1, SUFFIXES[n]);
    SpellsLower(cp, i + 1, SUFFIXES[n], 0);
    if |SUFFIXES[n]| == 2 { SpellsLower(cp, i + 1, SUFFIXES[n], 1); }
  }

  /** ALT5 to ALT7: the whitespace run at i. */
  method SpacePiece(c: Classes, cp: seq<int>, i: nat) returns (k: nat)
    requires i < |cp| && Sane(c) && c.S(cp[i])
    ensures i < k <= |cp|
    ensures Some(k) == OrElse(First(Lines(c), cp, i), OrElse(First(Trailing(c), cp, i), First(Plus(Cls(c.S)), cp, i)))
    ensures IsSpaces(c, cp, i, k)
  {
    hide Ends, First;
    var e := SkipWhile(c.S, cp, i);
    var lastnl := -1;
    for k' := i to e
      invariant lastnl == -1 ==> forall j :: i <= j < k' ==> !Newline()(cp[j])
      invariant lastnl != -1 ==>
                  i <= lastnl < k' && Newline()(cp[lastnl]) && forall j :: lastnl < j < k' ==> !Newline()(cp[j])
    {
      if cp[k'] == CR || cp[k'] == LF { lastnl := k'; }
    }
    if lastnl != -1 {
      LinesFirst(c, cp, i, lastnl);
      assert SpacesTo(c, cp, i, e, lastnl + 1);
      return lastnl + 1;
    }
    LinesNone(c, cp, i);
    TrailingFirst(c, cp, i);
    SpacesFirst(c, cp, i);
    assert SpacesTo(c, cp, i, e, if e == |cp| || e == i + 1 then e else e - 1);
    if e == |cp| { return e; }
    if e - i >= 2 { return e - 1; }
    return e;
  }

  /** ALT4, if it applies. */
  method PunctPiece(c: Classes, cp: seq<int>, i: nat) returns (r: Option<nat>)
    requires i < |cp| && Sane(c)
    ensures r == First(Punct(c), cp, i) && (r.Some? ==> i < r.value <= |cp|)
    ensures r.None? && cp[i] != SP ==> !Other(c)(cp[i])
    ensures if r.Some? then IsMarks(c, cp, i, r.value) else forall j :: !IsMarks(c, cp, i, j)
  {
    PunctFirst(c, cp, i);
    hide Ends, First, IsMarks, RunEnd;
    var k := i;
    if cp[k] == SP {
      if k + 1 < |cp| && Other(c)(cp[k + 1]) {
        k := k + 1;
      } else {
        NoMarks(c, cp, i);
        return None;
      }
    }
    if k < |cp| && Other(c)(cp[k]) {
      MarksKind(c, cp, i, k);
      k := SkipWhile(Other(c), cp, k);
      k := SkipWhile(Newline(), cp, k);
      return Some(k);
    }
    NoMarks(c, cp, i);
    return None;
  }

  /** ALT2, if it applies. */
  method WordPiece(c: Classes, cp: seq<int>, i: nat) returns (r: Option<nat>)
    requires i < |cp|
    ensures r == First(Word(c), cp, i) && (r.Some? ==> i < r.value <= |cp|)
    ensures r.None? ==> !c.L(cp[i])
    ensures if r.Some? then IsWord(c, cp, i, r.value) else forall j :: !IsWord(c, cp, i, j)
  {
    WordFirst(c, cp, i);
    hide Ends, First, IsWord;
    var k := i;
    if cp[k] != CR && cp[k] != LF && !c.L(cp[k]) && !c.N(cp[k]) {
      if k + 1 < |cp| && c.L(cp[k + 1]) { k := k + 1; }
    }
    if k < |cp| && c.L(cp[k]) {
      WordKind(c, cp, i, k);
      k := SkipWhile(c.L, cp, k);
      return Some(k);
    }
    NoWord(c, cp, i);
    return None;
  }

  /** next_piece: the end of the regex engine's match at i, always past i. */
  method NextPiece(c: Classes, cp: seq<int>, i: nat) returns (k: nat)
    requires i < |cp| && Sane(c)
    ensures i < k <= |cp| && First(Qwen2(c), cp, i) == Some(k)
    ensures PieceIs(c, cp, i, k)
  {
    Qwen2First(c, cp, i);
    ContractionFirst(cp, i);
    ContractionKind(cp, i);
    assert First(Cls(c.N), cp, i) == if c.N(cp[i]) then Some(i + 1) else None;
    hide Ends, First, Qwen2, Contraction, Word, Punct, Lines, Trailing, Plus;
    hide IsContraction, IsWord, IsMarks, IsSpaces;
    if cp[i] == QUOTE && i + 1 < |cp| {
      var c1 := Lower(cp[i + 1]);
      if i + 2 < |cp| {
        var c2 := Lower(cp[i + 2]);
        if ((c1 == 0x72 || c1 == 0x76) && c2 == 0x65) || (c1 == 0x6C && c2 == 0x6C) { return i + 3; }
      }
      if c1 == 0x73 || c1 == 0x74 || c1 == 0x6D || c1 == 0x64 { return i + 2; }
    }
    var word := WordPiece(c, cp, i);
    if word.Some? { return word.value; }
    if c.N(cp[i]) { return i + 1; }
    var punct := PunctPiece(c, cp, i);
    if punct.Some? { return punct.value; }
    k := SpacePiece(c, cp, i);
  }
}
