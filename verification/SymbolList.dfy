/** Symbols of one piece as a doubly linked list inside an array, as gemma4_bpe.c and the SPM lane of
    tokenizer.c keep them. `live` is the ghost list of indices still linked; a merged-away symbol has
    length 0. */
module SymbolList {
  import opened Basics
  import opened BigramHeap
  import Spec = GreedyBpe

  /** tag is the lane's own per-symbol data (the token id in the gemma4 lane). */
  datatype Sym<T> = Sym(prev: int, next: int, off: nat, n: nat, tag: T)

  ghost predicate InRange<T>(sym: seq<Sym<T>>, live: seq<nat>) {
    forall k :: 0 <= k < |live| ==> live[k] < |sym|
  }

  ghost predicate Increasing(live: seq<nat>) {
    forall j, k :: 0 <= j < k < |live| ==> live[j] < live[k]
  }

  ghost predicate Node<T>(sym: seq<Sym<T>>, live: seq<nat>, len: nat, k: nat)
    requires k < |live| && InRange(sym, live)
  {
    var y := sym[live[k]];
    && y.n > 0
    && y.prev == (if k == 0 then -1 else live[k - 1])
    && y.next == (if k + 1 == |live| then -1 else live[k + 1])
    && y.off + y.n == (if k + 1 == |live| then len else sym[live[k + 1]].off)
  }

  ghost predicate Linked<T>(sym: seq<Sym<T>>, live: seq<nat>, len: nat) {
    && InRange(sym, live) && Increasing(live)
    && (forall k {:trigger Node(sym, live, len, k)} :: 0 <= k < |live| ==> Node(sym, live, len, k))
    && (|live| == 0 ==> len == 0)
    && (|live| > 0 ==> live[0] == 0 && sym[0].off == 0)
    && (forall i :: 0 <= i < |sym| && sym[i].n > 0 ==> i in live)
    && (forall i :: 0 <= i < |sym| ==> sym[i].off + sym[i].n <= len)
  }

  function Text<T>(s: Bytes, y: Sym<T>): Bytes
    requires y.off + y.n <= |s|
  {
    s[y.off..y.off + y.n]
  }

  ghost function Texts<T>(s: Bytes, sym: seq<Sym<T>>, live: seq<nat>): (r: seq<Bytes>)
    requires Linked(sym, live, |s|)
    ensures |r| == |live|
    ensures forall k :: 0 <= k < |live| ==> r[k] == Text(s, sym[live[k]])
  {
    seq(|live|, k requires 0 <= k < |live| => Text(s, sym[live[k]]))
  }

  /** No linked symbol lies strictly between indices l and r. */
  ghost predicate NoneBetween(live: seq<nat>, l: nat, r: nat) {
    forall k :: 0 <= k < |live| ==> !(l < live[k] < r)
  }

  /** Two linked symbols with no linked symbol between them are neighbours in the list. */
  lemma Neighbours<T>(sym: seq<Sym<T>>, live: seq<nat>, len: nat, l: nat, r: nat) returns (k: nat)
    requires Linked(sym, live, len) && NoneBetween(live, l, r)
    requires l < r < |sym| && sym[l].n > 0 && sym[r].n > 0
    ensures k + 1 < |live| && live[k] == l && live[k + 1] == r
  {
    k :| 0 <= k < |live| && live[k] == l;
    var m :| 0 <= m < |live| && live[m] == r;
    assert k < m;
  }

  /** The writes of one merge: the left symbol takes over the right one's text and successor. */
  function Absorb<T>(sym: seq<Sym<T>>, l: nat, r: nat, lt: T, rt: T): (y: seq<Sym<T>>)
    requires l < r < |sym|
    ensures |y| == |sym|
  {
    var a := sym[l := sym[l].(n := sym[l].n + sym[r].n, tag := lt, next := sym[r].next)];
    var b := a[r := a[r].(n := 0, tag := rt)];
    if 0 <= sym[r].next < |sym| then b[sym[r].next := b[sym[r].next].(prev := l)] else b
  }

  function Drop(live: seq<nat>, k: nat): (r: seq<nat>)
    requires k + 1 < |live|
    ensures |r| == |live| - 1
    ensures forall j {:trigger r[j]} :: 0 <= j < |r| ==> r[j] == if j <= k then live[j] else live[j + 1]
  {
    live[..k + 1] + live[k + 2..]
  }

  lemma LinkedShape<T>(sym: seq<Sym<T>>, live: seq<nat>, len: nat)
    requires Linked(sym, live, len)
    ensures InRange(sym, live) && Increasing(live)
  {
  }

  /** The links of a listed symbol lead to its list neighbours. */
  lemma LinksOf<T>(sym: seq<Sym<T>>, live: seq<nat>, len: nat, k: nat)
    requires Linked(sym, live, len) && k < |live|
    ensures live[k] < |sym|
    ensures sym[live[k]].prev == (if k == 0 then -1 else live[k - 1])
    ensures sym[live[k]].next == (if k + 1 == |live| then -1 else live[k + 1])
    ensures k > 0 ==> live[k - 1] < |sym|
    ensures k + 1 < |live| ==> live[k + 1] < |sym|
    ensures sym[live[k]].n > 0
  {
    assert Node(sym, live, len, k);
  }

  lemma FirstIsZero<T>(y: seq<Sym<T>>, live: seq<nat>, len: nat)
    requires Linked(y, live, len) && |live| > 0
    ensures live[0] == 0
  {
  }

  lemma SymInside<T>(y: seq<Sym<T>>, live: seq<nat>, len: nat, k: nat)
    requires Linked(y, live, len) && k < |live|
    ensures y[live[k]].off + y[live[k]].n <= len
  {
  }

  /** y is sym with symbol live[k+1] merged into live[k]. */
  ghost predicate Merged<T>(sym: seq<Sym<T>>, y: seq<Sym<T>>, live: seq<nat>, k: nat, lt: T)
    requires k + 1 < |live| && InRange(sym, live)
  {
    var l, r := live[k], live[k + 1];
    && |y| == |sym|
    && (forall i :: 0 <= i < |sym| ==> y[i].off == sym[i].off)
    && (forall i :: 0 <= i < |sym| && i != l && i != r ==> y[i].n == sym[i].n && y[i].tag == sym[i].tag)
    && y[l].n == sym[l].n + sym[r].n && y[l].tag == lt && y[r].n == 0
    && (forall j :: 0 <= j < |live| && j != k ==> y[live[j]].next == sym[live[j]].next)
    && (forall j :: 0 <= j < |live| && j != k + 2 ==> y[live[j]].prev == sym[live[j]].prev)
    && y[l].next == sym[r].next
    && (k + 2 < |live| ==> y[live[k + 2]].prev == l)
  }

  lemma MergedInRange<T>(sym: seq<Sym<T>>, y: seq<Sym<T>>, live: seq<nat>, k: nat, lt: T)
    requires k + 1 < |live| && InRange(sym, live) && Merged(sym, y, live, k, lt)
    ensures InRange(y, live)
  {
  }

  lemma AbsorbMerged<T>(sym: seq<Sym<T>>, live: seq<nat>, len: nat, k: nat, lt: T, rt: T)
    requires Linked(sym, live, len) && k + 1 < |live|
    ensures Merged(sym, Absorb(sym, live[k], live[k + 1], lt, rt), live, k, lt)
  {
    assert Node(sym, live, len, k) && Node(sym, live, len, k + 1);
  }

  lemma MergedNode<T>(sym: seq<Sym<T>>, y: seq<Sym<T>>, live: seq<nat>, len: nat, k: nat, lt: T, j: nat)
    requires Linked(sym, live, len) && k + 1 < |live| && j + 1 < |live|
    requires Merged(sym, y, live, k, lt)
    ensures Node(y, Drop(live, k), len, j)
  {
    assert Node(sym, live, len, k) && Node(sym, live, len, k + 1);
    assert Node(sym, live, len, if j <= k then j else j + 1);
  }

  lemma MergedStaysLive<T>(sym: seq<Sym<T>>, y: seq<Sym<T>>, live: seq<nat>, len: nat, k: nat, lt: T, i: nat)
    requires Linked(sym, live, len) && k + 1 < |live|
    requires Merged(sym, y, live, k, lt) && i < |y| && y[i].n > 0
    ensures i in Drop(live, k)
  {
    assert i in live;
    var j :| 0 <= j < |live| && live[j] == i;
    assert j != k + 1;
    assert Drop(live, k)[if j <= k then j else j - 1] == i;
  }

  lemma MergedLinked<T>(sym: seq<Sym<T>>, y: seq<Sym<T>>, live: seq<nat>, len: nat, k: nat, lt: T)
    requires Linked(sym, live, len) && k + 1 < |live|
    requires Merged(sym, y, live, k, lt)
    ensures Linked(y, Drop(live, k), len)
  {
    var d := Drop(live, k);
    assert Node(sym, live, len, k) && Node(sym, live, len, k + 1);
    forall j | 0 <= j < |d| ensures Node(y, d, len, j) {
      MergedNode(sym, y, live, len, k, lt, j);
    }
    forall i | 0 <= i < |y| && y[i].n > 0 ensures i in d {
      MergedStaysLive(sym, y, live, len, k, lt, i);
    }
  }

  lemma MergedPair<T>(s: Bytes, sym: seq<Sym<T>>, y: seq<Sym<T>>, live: seq<nat>, k: nat, lt: T)
    requires Linked(sym, live, |s|) && k + 1 < |live|
    requires Merged(sym, y, live, k, lt)
    ensures y[live[k]].off + y[live[k]].n <= |s|
    ensures Text(s, y[live[k]]) == Text(s, sym[live[k]]) + Text(s, sym[live[k + 1]])
    ensures y[live[k]].tag == lt
  {
    assert Node(sym, live, |s|, k);
  }

  lemma MergedText<T>(s: Bytes, sym: seq<Sym<T>>, y: seq<Sym<T>>, live: seq<nat>, k: nat, lt: T, j: nat)
    requires Linked(sym, live, |s|) && k + 1 < |live| && j + 1 < |live| && j != k
    requires Merged(sym, y, live, k, lt) && Linked(y, Drop(live, k), |s|)
    ensures Texts(s, y, Drop(live, k))[j] == Texts(s, sym, live)[if j < k then j else j + 1]
  {
    MergedOther(s, sym, y, live, k, lt, if j < k then j else j + 1);
  }

  /** One merge in the list is one merge of the symbol texts. */
  lemma MergedTexts<T>(s: Bytes, sym: seq<Sym<T>>, y: seq<Sym<T>>, live: seq<nat>, k: nat, lt: T)
    requires Linked(sym, live, |s|) && k + 1 < |live|
    requires Merged(sym, y, live, k, lt) && Linked(y, Drop(live, k), |s|)
    ensures Texts(s, y, Drop(live, k)) == Spec.MergeAt(Texts(s, sym, live), k)
  {
    var d, t, v := Drop(live, k), Texts(s, y, Drop(live, k)), Texts(s, sym, live);
    MergedPair(s, sym, y, live, k, lt);
    forall j: nat | j < |t| && j != k ensures t[j] == v[if j < k then j else j + 1] {
      MergedText(s, sym, y, live, k, lt, j);
    }
    IsMergeAt(t, v, k);
  }

  lemma MergedOther<T>(s: Bytes, sym: seq<Sym<T>>, y: seq<Sym<T>>, live: seq<nat>, k: nat, lt: T, i: nat)
    requires Linked(sym, live, |s|) && k + 1 < |live|
    requires Merged(sym, y, live, k, lt) && i < |live| && i != k && i != k + 1
    ensures y[live[i]].off == sym[live[i]].off && y[live[i]].n == sym[live[i]].n
    ensures y[live[i]].tag == sym[live[i]].tag
  {
    assert live[i] != live[k] && live[i] != live[k + 1];
  }

  lemma IsMergeAt(t: seq<Bytes>, v: seq<Bytes>, k: nat)
    requires k + 1 < |v| && |t| == |v| - 1 && t[k] == v[k] + v[k + 1]
    requires forall j :: 0 <= j < |t| && j != k ==> t[j] == v[if j < k then j else j + 1]
    ensures t == Spec.MergeAt(v, k)
  {
  }

  /** Every wanted candidate is on the heap. */
  ghost predicate Covers<U>(bag: multiset<Bigram<U>>, want: seq<Option<Bigram<U>>>) {
    forall j :: 0 <= j < |want| && want[j].Some? ==> want[j].value in bag
  }

  /** Heap entries that have not been popped stay; the entries for the merged symbol's two new
      neighbours have been pushed; so the heap still covers every neighbouring pair. */
  lemma CoversAfterMerge<U>(bag: multiset<Bigram<U>>, want: seq<Option<Bigram<U>>>, live: seq<nat>, k: nat,
                            top: Bigram<U>, bag': multiset<Bigram<U>>, want': seq<Option<Bigram<U>>>)
    requires Covers(bag, want) && |live| == |want| + 1 && |want'| == |want| - 1 && k < |want|
    requires Increasing(live)
    requires forall j :: 0 <= j < |want| && want[j].Some? ==> want[j].value.left == live[j]
    requires top.left == live[k] && bag - multiset{top} <= bag'
    requires forall j :: 0 <= j < |want'| && j != k && j + 1 != k ==>
               want'[j] == want[if j < k then j else j + 1]
    requires k < |want'| && want'[k].Some? ==> want'[k].value in bag'
    requires k > 0 && want'[k - 1].Some? ==> want'[k - 1].value in bag'
    ensures Covers(bag', want')
  {
    forall j | 0 <= j < |want'| && want'[j].Some? && j != k && j + 1 != k ensures want'[j].value in bag' {
      var i := if j < k then j else j + 1;
      var v := want[i].value;
      assert v in bag && v.left == live[i];
      assert i < k ==> live[i] < live[k];
      assert i > k ==> live[k] < live[i];
      assert (bag - multiset{top})[v] == bag[v] && bag'[v] >= (bag - multiset{top})[v];
    }
  }

  /** The initial symbols: one per character, the length coming from the lead byte. */
  function Chars(lenOf: byte -> nat, s: Bytes): seq<Bytes>
    requires forall b: byte :: lenOf(b) >= 1
  {
    if s == [] then [] else
      var L := Min(lenOf(s[0]), |s|);
      [s[..L]] + Chars(lenOf, s[L..])
  }

  lemma CharsText(lenOf: byte -> nat, s: Bytes)
    requires forall b: byte :: lenOf(b) >= 1
    ensures Flatten(Chars(lenOf, s)) == s
  {
    if s != [] {
      var L := Min(lenOf(s[0]), |s|);
      CharsText(lenOf, s[L..]);
      assert s == s[..L] + s[L..];
    }
  }

  /** Symbol i starts where symbol i-1 ends. */
  ghost predicate Follows<T>(y: seq<Sym<T>>, i: nat)
    requires 0 < i < |y|
  {
    y[i].off == y[i - 1].off + y[i - 1].n
  }

  /** The symbol array after the characters of s[..o] have been cut off. */
  ghost predicate Started<T>(s: Bytes, y: seq<Sym<T>>, o: nat) {
    && o <= |s|
    && (|y| == 0 ==> o == 0)
    && (|y| > 0 ==> y[0].off == 0 && y[|y| - 1].off + y[|y| - 1].n == o)
    && (forall i {:trigger Follows(y, i)} :: 0 < i < |y| ==> Follows(y, i))
    && (forall i :: 0 <= i < |y| ==> y[i].n > 0 && y[i].prev == i - 1 && y[i].off + y[i].n <= o)
    && (forall i :: 0 <= i < |y| ==> y[i].next == if y[i].off + y[i].n >= |s| then -1 else i + 1)
  }

  ghost function PlainTexts<T>(s: Bytes, y: seq<Sym<T>>, o: nat): (r: seq<Bytes>)
    requires Started(s, y, o)
    ensures |r| == |y| && forall i :: 0 <= i < |y| ==> r[i] == Text(s, y[i])
  {
    seq(|y|, i requires 0 <= i < |y| => Text(s, y[i]))
  }

  /** The array entry the splitting loop writes for a character of length L at offset o. */
  function StartSym<T>(s: Bytes, ns: nat, o: nat, L: nat, tag: T): Sym<T> {
    Sym(ns - 1, if o + L >= |s| then -1 else ns + 1, o, L, tag)
  }

  lemma StartNext<T>(s: Bytes, y: seq<Sym<T>>, o: nat, L: nat, tag: T)
    requires Started(s, y, o) && o < |s| && 0 < L <= |s| - o
    ensures Started(s, y + [StartSym(s, |y|, o, L, tag)], o + L)
  {
    var z := y + [StartSym(s, |y|, o, L, tag)];
    forall i: nat | 0 < i < |z| ensures Follows(z, i) {
      if i < |y| { assert Follows(y, i); }
    }
  }

  lemma StartNextText<T>(s: Bytes, y: seq<Sym<T>>, o: nat, L: nat, tag: T)
    requires Started(s, y, o) && o < |s| && 0 < L <= |s| - o
    requires Started(s, y + [StartSym(s, |y|, o, L, tag)], o + L)
    ensures PlainTexts(s, y + [StartSym(s, |y|, o, L, tag)], o + L) == PlainTexts(s, y, o) + [s[o..o + L]]
  {
    var z := y + [StartSym(s, |y|, o, L, tag)];
    var a, b := PlainTexts(s, z, o + L), PlainTexts(s, y, o) + [s[o..o + L]];
    assert forall i :: 0 <= i < |z| ==> a[i] == b[i];
  }

  function Identity(n: nat): (live: seq<nat>)
    ensures |live| == n && forall i :: 0 <= i < n ==> live[i] == i
  {
    seq(n, i requires 0 <= i < n => i)
  }

  lemma StartedInside<T>(s: Bytes, y: seq<Sym<T>>, o: nat, i: nat)
    requires Started(s, y, o) && i + 1 < |y|
    ensures y[i].off + y[i].n < o
  {
    assert Follows(y, i + 1);
  }

  /** Once the whole text is cut, the array is a linked list of all its symbols. */
  lemma StartedLinked<T>(s: Bytes, y: seq<Sym<T>>)
    requires Started(s, y, |s|)
    ensures Linked(y, Identity(|y|), |s|)
    ensures Texts(s, y, Identity(|y|)) == PlainTexts(s, y, |s|)
  {
    var live := Identity(|y|);
    forall k | 0 <= k < |live| ensures Node(y, live, |s|, k) {
      if k + 1 < |live| {
        StartedInside(s, y, |s|, k);
        assert Follows(y, k + 1);
      }
    }
    forall i | 0 <= i < |y| && y[i].n > 0 ensures i in live {
      assert live[i] == i;
    }
  }

  /** One round of the splitting loop is one step of Chars. */
  lemma CharsNext(lenOf: byte -> nat, s: Bytes, o: nat)
    requires (forall b: byte :: lenOf(b) >= 1) && o < |s|
    ensures var L := Min(lenOf(s[o]), |s| - o);
            Chars(lenOf, s[o..]) == [s[o..o + L]] + Chars(lenOf, s[o + L..])
  {
    var L := Min(lenOf(s[o]), |s| - o);
    assert s[o..][..L] == s[o..o + L] && s[o..][L..] == s[o + L..];
  }
}
