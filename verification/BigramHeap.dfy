/** The binary heap of merge candidates, sifted by swaps in an array: lowest key first, then lowest
    left index. gemma4_bpe.c keys it by merge rank, tokenizer.c by negated score. */
module BigramHeap {
  import Spec = GreedyBpe

  /** tag is what a lane stores to recognise an outdated candidate. */
  datatype Bigram<T> = Bigram(key: real, left: nat, right: nat, tag: T)

  predicate Before<T>(a: Bigram<T>, b: Bigram<T>) {
    Spec.Before(a.key, a.left, b.key, b.left)
  }

  function Parent(i: nat): (p: nat)
    requires i > 0
    ensures p < i
  {
    (i - 1) / 2
  }

  ghost predicate IsHeap<T>(s: seq<Bigram<T>>) {
    forall i :: 0 < i < |s| ==> !Before(s[i], s[Parent(i)])
  }

  /** The root of a heap comes no later than any element. */
  lemma {:induction false} RootIsFirst<T>(s: seq<Bigram<T>>, i: nat)
    requires IsHeap(s) && i < |s|
    ensures !Before(s[i], s[0])
    decreases i
  {
    if i > 0 {
      RootIsFirst(s, Parent(i));
    }
  }

  /** Heap order except that slot i may be smaller than its parent. */
  ghost predicate HeapButUp<T>(s: seq<Bigram<T>>, i: nat) {
    && (forall j :: 0 < j < |s| && j != i ==> !Before(s[j], s[Parent(j)]))
    && (forall j :: 0 < j < |s| && Parent(j) == i && i > 0 ==> !Before(s[j], s[Parent(i)]))
  }

  /** Heap order except that slot i may be larger than its children. */
  ghost predicate HeapButDown<T>(s: seq<Bigram<T>>, i: nat) {
    && (forall j :: 0 < j < |s| && Parent(j) != i ==> !Before(s[j], s[Parent(j)]))
    && (forall j :: 0 < j < |s| && Parent(j) == i && i > 0 ==> !Before(s[j], s[Parent(i)]))
  }

  function Swap<T>(s: seq<T>, i: nat, j: nat): (r: seq<T>)
    requires i < |s| && j < |s|
    ensures |r| == |s| && multiset(r) == multiset(s)
  {
    s[i := s[j]][j := s[i]]
  }

  lemma SwapUp<T>(s: seq<Bigram<T>>, i: nat)
    requires 0 < i < |s| && HeapButUp(s, i) && Before(s[i], s[Parent(i)])
    ensures HeapButUp(Swap(s, i, Parent(i)), Parent(i))
  {
  }

  lemma SwapDown<T>(s: seq<Bigram<T>>, i: nat, m: nat)
    requires i < |s| && m < |s| && HeapButDown(s, i)
    requires m == 2 * i + 1 || m == 2 * i + 2
    requires Before(s[m], s[i])
    requires forall c :: (c == 2 * i + 1 || c == 2 * i + 2) && c < |s| ==> !Before(s[c], s[m])
    ensures HeapButDown(Swap(s, i, m), m)
  {
    var t := Swap(s, i, m);
    forall j | 0 < j < |t| && Parent(j) != m
      ensures !Before(t[j], t[Parent(j)])
    {
      if Parent(j) == i { assert j == 2 * i + 1 || j == 2 * i + 2; }
    }
  }

  /** The three-assignment swap of both sift loops. */
  method SwapSlots<T>(h: array<Bigram<T>>, i: nat, j: nat, ghost n: nat)
    requires i < n && j < n && n <= h.Length
    modifies h
    ensures h[..n] == Swap(old(h[..n]), i, j)
  {
    var tmp := h[i];
    h[i] := h[j];
    h[j] := tmp;
  }

  lemma LastSlotOut<T>(s: seq<Bigram<T>>)
    requires |s| > 0 && IsHeap(s[..|s| - 1])
    ensures HeapButUp(s, |s| - 1)
  {
    var t := s[..|s| - 1];
    forall j | 0 < j < |s| && j != |s| - 1 ensures !Before(s[j], s[Parent(j)]) {
      assert !Before(t[j], t[Parent(j)]);
    }
  }

  /** Restores heap order on h[..n] after the last slot was written. */
  method SiftUp<T>(h: array<Bigram<T>>, n: nat)
    requires 0 < n <= h.Length && IsHeap(h[..n - 1])
    modifies h
    ensures IsHeap(h[..n]) && multiset(h[..n]) == old(multiset(h[..n]))
  {
    var i := n - 1;
    ghost var bag := multiset(h[..n]);
    assert h[..n][..n - 1] == h[..n - 1];
    LastSlotOut(h[..n]);
    while i > 0
      invariant i < n && HeapButUp(h[..n], i)
      invariant multiset(h[..n]) == bag
    {
      var p := Parent(i);
      ghost var s := h[..n];
      assert s[i] == h[i] && s[p] == h[p];
      if !Before(h[i], h[p]) {
        break;
      }
      SwapUp(s, i);
      SwapSlots(h, i, p, n);
      i := p;
    }
  }

  /** The child index chosen by one round of the pop loop, or i when order already holds there. */
  method LeastChild<T>(h: array<Bigram<T>>, n: nat, i: nat) returns (m: nat)
    requires i < n <= h.Length
    ensures m == i || ((m == 2 * i + 1 || m == 2 * i + 2) && m < n && Before(h[m], h[i]))
    ensures forall c :: (c == 2 * i + 1 || c == 2 * i + 2) && c < n ==> !Before(h[c], h[m])
  {
    var l, r := 2 * i + 1, 2 * i + 2;
    m := i;
    if l < n && Before(h[l], h[m]) { m := l; }
    if r < n && Before(h[r], h[m]) { m := r; }
  }

  lemma DownDone<T>(s: seq<Bigram<T>>, i: nat)
    requires HeapButDown(s, i)
    requires i < |s| ==> forall c :: (c == 2 * i + 1 || c == 2 * i + 2) && c < |s| ==> !Before(s[c], s[i])
    ensures IsHeap(s)
  {
    forall j | 0 < j < |s| ensures !Before(s[j], s[Parent(j)]) {
      if Parent(j) == i { assert j == 2 * i + 1 || j == 2 * i + 2; }
    }
  }

  /** Restores heap order on h[..n] after the root was overwritten. */
  method SiftDown<T>(h: array<Bigram<T>>, n: nat)
    requires n <= h.Length && HeapButDown(h[..n], 0)
    modifies h
    ensures IsHeap(h[..n]) && multiset(h[..n]) == old(multiset(h[..n]))
  {
    var i := 0;
    ghost var bag := multiset(h[..n]);
    while i < n
      invariant i <= n && HeapButDown(h[..n], i)
      invariant multiset(h[..n]) == bag
      decreases n - i
    {
      ghost var s := h[..n];
      var m := LeastChild(h, n, i);
      assert forall c :: 0 <= c < n ==> s[c] == h[c];
      if m == i {
        break;
      }
      SwapDown(s, i, m);
      SwapSlots(h, i, m, n);
      i := m;
    }
    DownDone(h[..n], i);
  }

  /** Appends bg to the heap h[..n]; the array must have room. */
  method Push<T>(h: array<Bigram<T>>, n: nat, bg: Bigram<T>)
    requires n < h.Length && IsHeap(h[..n])
    modifies h
    ensures IsHeap(h[..n + 1])
    ensures multiset(h[..n + 1]) == old(multiset(h[..n])) + multiset{bg}
  {
    h[n] := bg;
    assert h[..n + 1] == old(h[..n]) + [bg];
    assert h[..n + 1 - 1] == old(h[..n]);
    SiftUp(h, n + 1);
  }

  /** Removes the root of the heap h[..n]. */
  method Pop<T>(h: array<Bigram<T>>, n: nat) returns (top: Bigram<T>)
    requires 0 < n <= h.Length && IsHeap(h[..n])
    modifies h
    ensures IsHeap(h[..n - 1])
    ensures top in old(multiset(h[..n]))
    ensures multiset(h[..n - 1]) == old(multiset(h[..n])) - multiset{top}
    ensures forall b :: b in old(multiset(h[..n])) ==> !Before(b, top)
  {
    top := h[0];
    ghost var s := h[..n];
    forall b | b in multiset(s) ensures !Before(b, top) {
      var i :| 0 <= i < n && s[i] == b;
      RootIsFirst(s, i);
    }
    hide IsHeap, Before, HeapButDown;
    h[0] := h[n - 1];
    ghost var t := h[..n - 1];
    assert t == if |s| == 1 then [] else s[..|s| - 1][0 := s[|s| - 1]];
    RootReplaced(s, t);
    SiftDown(h, n - 1);
  }

  lemma RootReplaced<T>(s: seq<Bigram<T>>, t: seq<Bigram<T>>)
    requires |s| > 0 && IsHeap(s)
    requires t == if |s| == 1 then [] else s[..|s| - 1][0 := s[|s| - 1]]
    ensures HeapButDown(t, 0) && multiset(t) == multiset(s) - multiset{s[0]}
  {
    var n := |s|;
    assert s == s[..n - 1] + [s[n - 1]];
  }

  /** g4_heap: a heap whose array doubles when full (64 slots first). */
  class GrowingHeap<T(0)> {
    var e: array<Bigram<T>>
    var n: nat

    ghost predicate Valid()
      reads this, e
    {
      n <= e.Length && IsHeap(e[..n])
    }

    ghost function Bag(): multiset<Bigram<T>>
      reads this, e
      requires Valid()
    {
      multiset(e[..n])
    }

    lemma EmptyBag()
      requires Valid() && n == 0
      ensures Bag() == multiset{}
    {
    }

    constructor ()
      ensures Valid() && n == 0 && Bag() == multiset{} && fresh(e)
    {
      e := new Bigram<T>[0];
      n := 0;
    }

    method PushOne(bg: Bigram<T>)
      requires Valid()
      modifies this, e
      ensures Valid() && n == old(n) + 1 && Bag() == old(Bag()) + multiset{bg}
      ensures e == old(e) || fresh(e)
    {
      if n == e.Length {
        Grow();
      }
      Push(e, n, bg);
      n := n + 1;
    }

    method Grow()
      requires Valid() && n == e.Length
      modifies this`e
      ensures Valid() && n < e.Length && n == old(n) && Bag() == old(Bag()) && fresh(e)
    {
      var cap := if e.Length != 0 then e.Length * 2 else 64;
      var bigger := new Bigram<T>[cap];
      for i := 0 to n
        invariant n == old(n) && e == old(e) && n <= bigger.Length
        invariant forall j :: 0 <= j < i ==> bigger[j] == e[j]
      {
        bigger[i] := e[i];
      }
      assert bigger[..n] == e[..n];
      e := bigger;
    }

    method PopOne() returns (top: Bigram<T>)
      requires Valid() && n > 0
      modifies this, e
      ensures Valid() && n == old(n) - 1 && e == old(e)
      ensures top in old(Bag()) && Bag() == old(Bag()) - multiset{top}
      ensures forall b :: b in old(Bag()) ==> !Before(b, top)
    {
      top := Pop(e, n);
      n := n - 1;
    }
  }
}
