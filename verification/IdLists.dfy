/** A list of ids put together from parts, and where each part then stands. */
module IdLists {
  function Concat(parts: seq<seq<int>>): seq<int> {
    if parts == [] then [] else parts[0] + Concat(parts[1..])
  }

  lemma {:induction false} ConcatAppend(a: seq<seq<int>>, b: seq<seq<int>>)
    ensures Concat(a + b) == Concat(a) + Concat(b)
    decreases |a|
  {
    if a == [] {
      assert a + b == b;
    } else {
      ConcatAppend(a[1..], b);
      assert (a + b)[1..] == a[1..] + b;
    }
  }

  lemma ConcatLast(parts: seq<seq<int>>, last: seq<int>)
    ensures Concat(parts + [last]) == Concat(parts) + last
  {
    var one: seq<seq<int>> := [last];
    assert one[1..] == [] && Concat(one) == one[0] + Concat(one[1..]);
    ConcatAppend(parts, one);
  }

  ghost predicate Stands(ids: seq<int>, part: seq<int>, a: nat, b: nat) {
    a <= b <= |ids| && ids[a..b] == part
  }

  /** ids is front and then the parts, part k from cuts[k] to cuts[k + 1]. */
  ghost predicate CutAt(ids: seq<int>, front: seq<int>, parts: seq<seq<int>>, cuts: seq<nat>) {
    && |cuts| == |parts| + 1 && cuts[0] == |front| <= |ids| && cuts[|parts|] == |ids|
    && ids[..|front|] == front
    && forall k :: 0 <= k < |parts| ==> Stands(ids, parts[k], cuts[k], cuts[k + 1])
  }

  /** ids is front and then the parts, with nothing before, between or after them. */
  ghost predicate InOrder(ids: seq<int>, front: seq<int>, parts: seq<seq<int>>) {
    exists cuts :: CutAt(ids, front, parts, cuts)
  }

  lemma CutOneMore(ids: seq<int>, front: seq<int>, parts: seq<seq<int>>, cuts: seq<nat>, last: seq<int>)
    requires CutAt(ids, front, parts, cuts)
    ensures CutAt(ids + last, front, parts + [last], cuts + [|ids + last|])
  {
    var more, parts', cuts' := ids + last, parts + [last], cuts + [|ids + last|];
    assert more[..|front|] == ids[..|front|];
    forall k | 0 <= k < |parts'| ensures Stands(more, parts'[k], cuts'[k], cuts'[k + 1]) {
      if k < |parts| {
        assert Stands(ids, parts[k], cuts[k], cuts[k + 1]);
        assert more[cuts[k]..cuts[k + 1]] == ids[cuts[k]..cuts[k + 1]];
      } else {
        assert more[|ids|..|more|] == last;
      }
    }
  }

  lemma {:induction false} CutsExist(front: seq<int>, parts: seq<seq<int>>) returns (cuts: seq<nat>)
    ensures CutAt(front + Concat(parts), front, parts, cuts)
    decreases |parts|
  {
    if parts == [] {
      cuts := [|front|];
      assert front + Concat(parts) == front;
    } else {
      var n := |parts| - 1;
      cuts := CutsExist(front, parts[..n]);
      var ids := front + Concat(parts[..n]);
      CutOneMore(ids, front, parts[..n], cuts, parts[n]);
      cuts := cuts + [|ids + parts[n]|];
      hide CutAt, Concat;
      assert parts[..n] + [parts[n]] == parts;
      ConcatLast(parts[..n], parts[n]);
      assert front + Concat(parts) == ids + parts[n];
    }
  }

  lemma PartsInOrder(front: seq<int>, parts: seq<seq<int>>)
    ensures InOrder(front + Concat(parts), front, parts)
  {
    var cuts := CutsExist(front, parts);
  }
}
