/** Regular expressions over code points with ordered-alternation, greedy, backtracking semantics. */
module Regex {
  import opened Basics

  datatype Re =
    | Eps
    | Cls(p: int -> bool)
    | Cat(a: Re, b: Re)
    | Alt(a: Re, b: Re)
    | Star(a: Re)
    | NotAhead(a: Re)

  function Opt(a: Re): Re { Alt(a, Eps) }

  function Plus(a: Re): Re { Cat(a, Star(a)) }

  ghost predicate Within(es: seq<nat>, lo: nat, cp: seq<int>) {
    forall k :: 0 <= k < |es| ==> lo <= es[k] <= |cp|
  }

  /** All ends of matches starting at i, in the order a backtracking matcher tries them. */
  ghost function Ends(re: Re, cp: seq<int>, i: nat): (es: seq<nat>)
    requires i <= |cp|
    ensures Within(es, i, cp)
    decreases |cp| - i, re, 0
  {
    match re
    case Eps => [i]
    case Cls(p) => if i < |cp| && p(cp[i]) then [i + 1] else []
    case Cat(a, b) => EndsFrom(b, cp, Ends(a, cp, i), i)
    case Alt(a, b) => Ends(a, cp, i) + Ends(b, cp, i)
    case Star(a) => (if i < |cp| then EndsFrom(re, cp, Beyond(Ends(a, cp, i), i), i + 1) else []) + [i]
    case NotAhead(a) => if Ends(a, cp, i) == [] then [i] else []
  }

  /** Continuations of re from each start, earlier starts first. */
  ghost function EndsFrom(re: Re, cp: seq<int>, starts: seq<nat>, lo: nat): (es: seq<nat>)
    requires lo <= |cp| && Within(starts, lo, cp)
    ensures Within(es, lo, cp)
    decreases |cp| - lo, re, 1 + |starts|
  {
    if starts == [] then [] else Ends(re, cp, starts[0]) + EndsFrom(re, cp, starts[1..], lo)
  }

  /** A repetition only continues after an iteration that consumed something. */
  ghost function Beyond(es: seq<nat>, i: nat): (r: seq<nat>)
    ensures forall k :: 0 <= k < |r| ==> r[k] in es && r[k] > i
  {
    if es == [] then [] else (if es[0] > i then [es[0]] else []) + Beyond(es[1..], i)
  }

  /** The match a regex engine reports at i. */
  ghost function First(re: Re, cp: seq<int>, i: nat): Option<nat>
    requires i <= |cp|
  {
    var es := Ends(re, cp, i);
    if es == [] then None else Some(es[0])
  }

  /** End of the run of code points in class p that starts at i. */
  function RunEnd(p: int -> bool, cp: seq<int>, i: nat): (e: nat)
    requires i <= |cp|
    ensures i <= e <= |cp|
    ensures forall k :: i <= k < e ==> p(cp[k])
    ensures e < |cp| ==> !p(cp[e])
    decreases |cp| - i
  {
    if i < |cp| && p(cp[i]) then RunEnd(p, cp, i + 1) else i
  }

  /** e, e-1, ..., i: the order in which a greedy run gives characters back. */
  ghost function Down(e: nat, i: nat): (es: seq<nat>)
    requires i <= e
    ensures |es| == e - i + 1 && forall k :: 0 <= k < |es| ==> es[k] == e - k
  {
    seq(e - i + 1, k requires 0 <= k <= e - i => e - k)
  }

  lemma OneStart(re: Re, cp: seq<int>, k: nat, lo: nat)
    requires lo <= k <= |cp|
    ensures EndsFrom(re, cp, [k], lo) == Ends(re, cp, k)
  {
    var one: seq<nat> := [k];
    assert one[1..] == [];
    assert EndsFrom(re, cp, one, lo) == Ends(re, cp, one[0]) + EndsFrom(re, cp, one[1..], lo);
  }

  lemma StarStep(a: Re, cp: seq<int>, i: nat)
    requires i < |cp| && Ends(a, cp, i) == [i + 1]
    ensures Ends(Star(a), cp, i) == Ends(Star(a), cp, i + 1) + [i]
  {
    var one: seq<nat> := [i + 1];
    assert one[1..] == [];
    assert Beyond(one, i) == one;
    OneStart(Star(a), cp, i + 1, i + 1);
  }

  lemma DownNext(e: nat, i: nat)
    requires i < e
    ensures Down(e, i + 1) + [i] == Down(e, i)
  {
  }

  lemma {:induction false} StarRun(p: int -> bool, cp: seq<int>, i: nat)
    requires i <= |cp|
    ensures Ends(Star(Cls(p)), cp, i) == Down(RunEnd(p, cp, i), i)
    decreases |cp| - i
  {
    if i < |cp| && p(cp[i]) {
      StarRun(p, cp, i + 1);
      StarStep(Cls(p), cp, i);
      DownNext(RunEnd(p, cp, i), i);
    } else {
      assert Ends(Cls(p), cp, i) == [];
      assert Beyond([], i) == [];
      assert Down(i, i) == [i];
    }
  }

  lemma PlusRun(p: int -> bool, cp: seq<int>, i: nat)
    requires i <= |cp|
    ensures Ends(Plus(Cls(p)), cp, i) ==
            if i < |cp| && p(cp[i]) then Down(RunEnd(p, cp, i + 1), i + 1) else []
  {
    if i < |cp| && p(cp[i]) {
      StarRun(p, cp, i + 1);
      OneStart(Star(Cls(p)), cp, i + 1, i);
    }
  }

  /** Concatenation takes the first end of the left part from which the right part matches. */
  lemma {:induction false} EndsFromFirst(re: Re, cp: seq<int>, starts: seq<nat>, lo: nat, k: nat)
    requires lo <= |cp| && Within(starts, lo, cp)
    requires k < |starts| && Ends(re, cp, starts[k]) != []
    requires forall j :: 0 <= j < k ==> Ends(re, cp, starts[j]) == []
    ensures EndsFrom(re, cp, starts, lo) != []
    ensures EndsFrom(re, cp, starts, lo)[0] == Ends(re, cp, starts[k])[0]
    decreases k
  {
    if k > 0 {
      EndsFromFirst(re, cp, starts[1..], lo, k - 1);
    }
  }

  lemma {:induction false} EndsFromNone(re: Re, cp: seq<int>, starts: seq<nat>, lo: nat)
    requires lo <= |cp| && Within(starts, lo, cp)
    requires forall j :: 0 <= j < |starts| ==> Ends(re, cp, starts[j]) == []
    ensures EndsFrom(re, cp, starts, lo) == []
    decreases |starts|
  {
    if starts != [] {
      EndsFromNone(re, cp, starts[1..], lo);
    }
  }

  lemma CatFirst(a: Re, b: Re, cp: seq<int>, i: nat, k: nat)
    requires i <= |cp| && k < |Ends(a, cp, i)| && Ends(b, cp, Ends(a, cp, i)[k]) != []
    requires forall j :: 0 <= j < k ==> Ends(b, cp, Ends(a, cp, i)[j]) == []
    ensures First(Cat(a, b), cp, i) == First(b, cp, Ends(a, cp, i)[k])
  {
    EndsFromFirst(b, cp, Ends(a, cp, i), i, k);
  }

  lemma CatNone(a: Re, b: Re, cp: seq<int>, i: nat)
    requires i <= |cp| && forall j :: 0 <= j < |Ends(a, cp, i)| ==> Ends(b, cp, Ends(a, cp, i)[j]) == []
    ensures Ends(Cat(a, b), cp, i) == []
  {
    EndsFromNone(b, cp, Ends(a, cp, i), i);
  }

  lemma AltFirst(a: Re, b: Re, cp: seq<int>, i: nat)
    requires i <= |cp|
    ensures First(Alt(a, b), cp, i) == if First(a, cp, i).Some? then First(a, cp, i) else First(b, cp, i)
  {
  }
}
