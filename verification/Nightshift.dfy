/** The consolidation program: one class for a Ring-3 vector, and the loop that fills, seals and opens them. */
module Nightshift {
  import opened Basics
  import opened Negacyclic
  import opened Binding
  import opened Carriers
  import opened Consolidation
  import opened ConsolidationRuns

  /** The first index holding the largest value. */
  method ArgMax(sims: seq<int>) returns (best: nat)
    requires sims != []
    ensures best < |sims|
    ensures forall j :: 0 <= j < |sims| ==> sims[j] <= sims[best] && (j < best ==> sims[j] < sims[best])
  {
    best := 0;
    for j := 1 to |sims|
      invariant best < j
      invariant forall i :: 0 <= i < j ==> sims[i] <= sims[best] && (i < best ==> sims[i] < sims[best])
    {
      if sims[j] > sims[best] { best := j; }
    }
  }

  /** sims[q] minus the largest other value when n > 1 episodes are listed, else sims[q] itself. None is the
      ValueError of a maximum over nothing. */
  method Margin(sims: seq<int>, q: nat, n: nat) returns (margin: Option<int>)
    requires q < |sims| <= n
    ensures margin.None? <==> n > 1 && |sims| == 1
    ensures margin.Some? ==>
              (margin.value > 0 <==>
                (forall j :: 0 <= j < |sims| && j != q ==> sims[j] < sims[q]) && (n == 1 ==> sims[q] > 0))
  {
    if n <= 1 { return Some(sims[q]); }
    if |sims| == 1 { return None; }
    var other := if q == 0 then 1 else 0;
    for j := 0 to |sims|
      invariant other < |sims| && other != q
      invariant forall i :: 0 <= i < j && i != q ==> sims[i] <= sims[other]
    {
      if j != q && sims[j] > sims[other] { other := j; }
    }
    margin := Some(sims[q] - sims[other]);
  }

  /** The scores of the ids under distinct names, in the order the names first occur in eps. */
  ghost predicate Scored(est: Vec, eps: seq<string>, id: map<string, Vec>, keys: seq<string>, sims: seq<int>) {
    && |keys| == |sims| <= |eps| && Distinct(keys)
    && (forall e :: e in keys <==> e in eps)
    && forall j :: 0 <= j < |keys| ==> keys[j] in id && |id[keys[j]]| == |est| && sims[j] == Dot(est, id[keys[j]])
  }

  lemma ScoredMore(est: Vec, eps: seq<string>, id: map<string, Vec>, j: nat, keys: seq<string>, sims: seq<int>)
    requires j < |eps| && Scored(est, eps[..j], id, keys, sims) && eps[j] in id && |id[eps[j]]| == |est|
    ensures eps[j] in keys ==> Scored(est, eps[..j + 1], id, keys, sims)
    ensures eps[j] !in keys ==> Scored(est, eps[..j + 1], id, keys + [eps[j]], sims + [Dot(est, id[eps[j]])])
  {
    hide Dot;
    assert eps[..j + 1] == eps[..j] + [eps[j]];
    assert forall e :: e in eps[..j + 1] <==> e in eps[..j] || e == eps[j];
    assert forall e :: e in keys + [eps[j]] <==> e in keys || e == eps[j];
    if eps[j] !in keys {
      assert forall i :: 0 <= i < |keys| ==> keys[i] != eps[j];
      assert Distinct(keys + [eps[j]]);
    }
  }

  class ActiveVector {
    const D: nat
    var M: Vec
    var eps: seq<string>
    var addr: map<string, Vec>
    var id: map<string, Vec>
    var sealed: bool

    ghost predicate Valid()
      reads this
    {
      |M| == D && Entries(D, addr, id)
    }

    ghost function State(): Vector
      requires Valid()
      reads this
    {
      VectorState(D, M, eps, addr, id, sealed)
    }

    constructor (D: nat)
      ensures Valid() && State() == Empty(D) && this.D == D
    {
      this.D := D;
      M := Zero(D);
      eps := [];
      addr := map[];
      id := map[];
      sealed := false;
    }

    /** The dictionary of scores against one unbound estimate; None is the KeyError of a name without an id. */
    method Scores(est: Vec, eps: seq<string>) returns (r: Option<(seq<string>, seq<int>)>)
      requires Entries(D, addr, id) && |est| == D
      ensures r.None? <==> exists e :: e in eps && e !in id
      ensures r.Some? ==> Scored(est, eps, id, r.value.0, r.value.1)
    {
      var keys: seq<string>, sims: seq<int> := [], [];
      for j := 0 to |eps|
        invariant Scored(est, eps[..j], id, keys, sims)
        invariant forall i :: 0 <= i < j ==> eps[i] in id
      {
        var e := eps[j];
        if e !in id {
          return None;
        }
        ScoredMore(est, eps, id, j, keys, sims);
        if e !in keys {  // the score of a listed name is written again unchanged
          keys, sims := keys + [e], sims + [Dot(est, id[e])];
        }
      }
      assert eps[..|eps|] == eps;
      r := Some((keys, sims));
    }

    /** The vector the gate looks at: a shadow superposition and name list with the current dictionaries. */
    ghost function Candidate(M: Vec, eps: seq<string>): Vector
      requires |M| == D && Entries(D, addr, id)
      reads this
    {
      VectorState(D, M, eps, addr, id, false)
    }

    lemma CandidateIs(M: Vec, eps: seq<string>)
      requires |M| == D && Entries(D, addr, id)
      ensures var v := Candidate(M, eps);
              v.D == D && v.M == M && v.eps == eps && v.addr == addr && v.id == id
    {
    }

    /** One round of the shadow gate, for episode i. */
    method Recall(M: Vec, eps: seq<string>, i: nat) returns (r: Result<bool>)
      requires |M| == D && Entries(D, addr, id) && i < |eps|
      ensures r == EpisodeOk(Candidate(M, eps), i)
    {
      ghost var v := Candidate(M, eps);
      hide *;
      CandidateIs(M, eps);
      EpisodeIs(v, i);
      var q := eps[i];
      if q !in addr {
        return Raised(KeyError);
      }
      EntryLength(D, addr, id, q);
      var est := UnbindBlocks(M, addr[q]);
      UnbindSome(M, addr[q]);
      if est.None? {
        return Raised(ValueError);
      }
      var scores := Scores(est.value, eps);
      SameNames(D, addr, id);
      WholeIs(v);
      if scores.None? {
        return Raised(KeyError);
      }
      var (keys, sims) := scores.value;
      var p := Position(est.value, eps, id, keys, sims, i);
      var best := ArgMax(sims);
      var margin := Margin(sims, p, |eps|);
      OneKey(est.value, eps, id, keys, sims);
      if margin.None? {
        return Raised(ValueError);
      }
      RecallsIff(v, est.value, keys, sims, p);
      r := Done(best == p && margin.value > 0);
    }

    /** The shadow gate, scored against the current dictionaries, with its exceptions. */
    method RecallOk(M: Vec, eps: seq<string>) returns (r: Result<bool>)
      requires |M| == D && Entries(D, addr, id)
      ensures r == Consolidation.RecallOk(Candidate(M, eps))
    {
      ghost var v := Candidate(M, eps);
      CandidateIs(M, eps);
      hide *;
      NonePassed(v);
      for i := 0 to |eps|
        invariant Passed(v, i)
      {
        r := Recall(M, eps, i);
        if r != Done(true) {
          FirstDecides(v, i);
          return;
        }
        PassedMore(v, i);
      }
      AllRecall(v);
      r := Done(true);
    }

    /** Bind into a shadow copy, gate it, then promote it or take the dictionary entries out again. An exception
        leaves the entries in. */
    method TryBind(name: string, seed: int) returns (r: Result<bool>)
      requires Valid()
      modifies this
      ensures Valid()
      ensures (State(), r) == Consolidation.TryBind(old(State()), name, seed)
    {
      hide Entries, Consolidation.RecallOk, Shadow, Entered, Withdrawn, SignsFrom, Cut, Blocks, Bind, Add,
        Consolidation.TryBind;
      ghost var v := State();
      TryBindCases(v, name, seed);
      if sealed || |eps| >= CAP { return Done(false); }
      ghost var w := Shadow(v, name, seed);
      var a := SmixPm1(Cut(seed), D);
      var x := SmixPm1(Cut(seed) ^ 0xABCDEF, D);
      addr := addr[name := a];
      id := id[name := x];
      EnteredIs(v, name, seed);
      var c := BindBlocks(addr[name], id[name]);
      if c.None? {
        assert State() == Entered(v, name, seed);
        return Raised(ValueError);
      }
      var shadow := Add(M, c.value);
      ShadowIs(v, name, seed);
      r := RecallOk(shadow, eps + [name]);
      assert r == Consolidation.RecallOk(w);
      if r.Raised? {
        assert State() == Entered(v, name, seed);
        return;
      }
      if r.value {
        M := shadow;
        eps := eps + [name];
        assert State() == w;
        return;
      }
      addr := addr - {name};
      id := id - {name};
      WithdrawnFields(v, name, a, x);
      assert State() == Withdrawn(v, name);
    }

    method Close()
      requires Valid()
      modifies this`sealed
      ensures Valid() && State() == Seal(old(State()))
    {
      sealed := true;
    }
  }

  /** What the round of the shadow gate for episode i gives. */
  function EpisodeOk(v: Vector, i: nat): Result<bool>
    requires i < |v.eps|
  {
    if v.eps[i] !in v.addr then Raised(KeyError)
    else if Blocks(v.D).None? then Raised(ValueError)
    else if !Whole(v) then Raised(KeyError)
    else if OneName(v.eps) then Raised(ValueError)
    else Done(Recalls(v, v.eps[i]))
  }

  lemma EpisodeIs(v: Vector, i: nat)
    requires i < |v.eps|
    ensures v.eps[i] in v.eps
    ensures v.eps[i] !in v.addr ==> EpisodeOk(v, i) == Raised(KeyError)
    ensures v.eps[i] in v.addr && Blocks(v.D).None? ==> EpisodeOk(v, i) == Raised(ValueError)
    ensures v.eps[i] in v.addr && Blocks(v.D).Some? && !Whole(v) ==> EpisodeOk(v, i) == Raised(KeyError)
    ensures v.eps[i] in v.addr && Blocks(v.D).Some? && Whole(v) ==>
              EpisodeOk(v, i) == if OneName(v.eps) then Raised(ValueError) else Done(Recalls(v, v.eps[i]))
  {
    hide Recalls, Blocks, OneName, Whole;
  }

  /** The rounds of the first n episodes are passed. */
  ghost predicate Passed(v: Vector, n: nat)
    requires n <= |v.eps|
  {
    forall k :: 0 <= k < n ==> EpisodeOk(v, k) == Done(true)
  }

  lemma NonePassed(v: Vector)
    ensures Passed(v, 0)
  {
  }

  lemma PassedMore(v: Vector, n: nat)
    requires n < |v.eps| && Passed(v, n) && EpisodeOk(v, n) == Done(true)
    ensures Passed(v, n + 1)
  {
    hide EpisodeOk;
  }

  /** The first round that is not passed decides; only the very first can raise. */
  lemma FirstDecides(v: Vector, i: nat)
    requires i < |v.eps| && Passed(v, i) && EpisodeOk(v, i) != Done(true)
    ensures RecallOk(v) == EpisodeOk(v, i)
  {
    hide Recalls, Blocks, OneName;
    assert v.eps[i] in v.eps && v.eps[0] in v.eps;
    if i > 0 {
      assert EpisodeOk(v, 0) == Done(true);
    }
  }

  lemma AllRecall(v: Vector)
    requires Passed(v, |v.eps|)
    ensures RecallOk(v) == Done(true)
  {
    hide Recalls, Blocks, OneName;
    if v.eps != [] {
      assert EpisodeOk(v, 0) == Done(true);
      forall q | q in v.eps ensures Recalls(v, q) {
        var k :| 0 <= k < |v.eps| && v.eps[k] == q;
        assert EpisodeOk(v, k) == Done(true);
      }
    }
  }

  lemma EntryLength(D: nat, addr: map<string, Vec>, id: map<string, Vec>, e: string)
    requires Entries(D, addr, id) && e in addr
    ensures e in id && |addr[e]| == |id[e]| == D
  {
    assert e in addr.Keys;
  }

  lemma SameNames(D: nat, addr: map<string, Vec>, id: map<string, Vec>)
    requires Entries(D, addr, id)
    ensures forall e :: e in addr <==> e in id
  {
    assert forall e :: e in addr.Keys <==> e in id.Keys;
  }

  lemma UnbindSome(M: Vec, a: Vec)
    requires |M| == |a|
    ensures Unbind(M, a).Some? <==> Blocks(|a|).Some?
    ensures Unbind(M, a).Some? ==> |Unbind(M, a).value| == |a|
  {
    hide *;
  }

  lemma WholeIs(v: Vector)
    ensures Whole(v) <==> forall e :: e in v.eps ==> e in v.addr
  {
  }

  /** Where name i of the list stands among the scored names. */
  lemma Somewhere(est: Vec, eps: seq<string>, id: map<string, Vec>, keys: seq<string>, sims: seq<int>, i: nat)
    requires Scored(est, eps, id, keys, sims) && i < |eps|
    ensures |keys| == |sims| <= |eps| && sims != [] && eps[i] in keys
  {
    assert eps[i] in eps;
  }

  method Position(ghost est: Vec, eps: seq<string>, ghost id: map<string, Vec>, keys: seq<string>, ghost sims: seq<int>,
                  i: nat) returns (p: nat)
    requires Scored(est, eps, id, keys, sims) && i < |eps|
    ensures |keys| == |sims| <= |eps| && p < |keys| && keys[p] == eps[i]
  {
    Somewhere(est, eps, id, keys, sims, i);
    hide *;
    p := 0;
    while keys[p] != eps[i]
      invariant p < |keys| && eps[i] in keys[p..]
      decreases |keys| - p
    {
      assert keys[p..] == [keys[p]] + keys[p + 1..];
      p := p + 1;
    }
  }

  /** One score for several episodes means one name. */
  lemma OneKey(est: Vec, eps: seq<string>, id: map<string, Vec>, keys: seq<string>, sims: seq<int>)
    requires Scored(est, eps, id, keys, sims) && eps != []
    ensures |sims| == 1 && |eps| > 1 <==> OneName(eps)
  {
    hide Dot;
    assert eps[0] in eps;
    assert |keys| > 1 ==> keys[0] != keys[1];
    if |sims| == 1 {
      assert keys == [keys[0]] && eps[0] in keys;
    }
    if OneName(eps) {
      forall j | 0 <= j < |keys| ensures keys[j] == eps[0] {
        assert keys[j] in keys;
      }
      assert eps[0] in keys;
    }
  }

  lemma EnteredIs(v: Vector, name: string, seed: int)
    ensures var a, x := SignsFrom(Cut(seed), v.D), SignsFrom(Cut(seed) ^ 0xABCDEF, v.D);
            && Entered(v, name, seed) == VectorState(v.D, v.M, v.eps, v.addr[name := a], v.id[name := x], v.sealed)
            && Entries(v.D, v.addr[name := a], v.id[name := x])
  {
    hide SignsFrom, Cut;
  }

  lemma ShadowIs(v: Vector, name: string, seed: int)
    requires Blocks(v.D).Some?
    ensures var a, x := SignsFrom(Cut(seed), v.D), SignsFrom(Cut(seed) ^ 0xABCDEF, v.D);
            && Bind(a, x).Some?
            && Shadow(v, name, seed)
               == VectorState(v.D, Add(v.M, Bind(a, x).value), v.eps + [name],
                              v.addr[name := a], v.id[name := x], v.sealed)
  {
    hide SignsFrom, Cut, Add, Bind, Blocks;
  }

  lemma WithdrawnFields(v: Vector, name: string, a: Vec, x: Vec)
    ensures Withdrawn(v, name)
         == VectorState(v.D, v.M, v.eps, v.addr[name := a] - {name}, v.id[name := x] - {name}, v.sealed)
    ensures Entries(v.D, v.addr[name := a] - {name}, v.id[name := x] - {name})
  {
    PutThenDrop(v.addr, name, a);
    PutThenDrop(v.id, name, x);
  }

  lemma PutThenDrop<K, V>(m: map<K, V>, k: K, x: V)
    ensures m[k := x] - {k} == m - {k}
  {
  }

  /** The gate read off the scores: position p strictly beats every other position. */
  lemma RecallsIff(v: Vector, est: Vec, keys: seq<string>, sims: seq<int>, p: nat)
    requires Whole(v) && p < |keys| && Scored(est, v.eps, v.id, keys, sims) && keys[p] in v.eps
    requires Unbind(v.M, v.addr[keys[p]]) == Some(est)
    ensures Recalls(v, keys[p]) <==>
              (forall j :: 0 <= j < |sims| && j != p ==> sims[j] < sims[p]) && (|v.eps| == 1 ==> sims[p] > 0)
  {
    hide Dot, Unbind;
    var q := keys[p];
    assert forall j :: 0 <= j < |keys| ==> Score(v.M, v.addr[q], v.id[keys[j]]) == sims[j];
    hide Score;
    if Recalls(v, q) {
      forall j | 0 <= j < |sims| && j != p ensures sims[j] < sims[p] {
        assert keys[j] in keys && keys[j] != q;
      }
    }
    if forall j :: 0 <= j < |sims| && j != p ==> sims[j] < sims[p] {
      forall e | e in v.eps && e != q ensures Score(v.M, v.addr[q], v.id[e]) < sims[p] {
        var j :| 0 <= j < |keys| && keys[j] == e;
        assert sims[j] < sims[p];
      }
    }
  }

  /** The objects of a run hold the vectors of the specification, one object each. */
  ghost predicate Mirrors(objs: seq<ActiveVector>, vs: seq<Vector>)
    reads objs
  {
    && |objs| == |vs|
    && (forall i :: 0 <= i < |objs| ==> objs[i].Valid() && objs[i].State() == vs[i])
    && (forall i, j :: 0 <= i < j < |objs| ==> objs[i] != objs[j])
  }

  /** The loop body before eviction: try the last vector; on refusal seal it and try a fresh one. The result is the
      exception raised, if any. */
  method Place(objs: seq<ActiveVector>, D: nat, name: string, seed: int, ghost r: Run, ghost bytes: map<string, int>)
    returns (out: seq<ActiveVector>, stop: Option<Error>)
    requires objs != [] && Mirrors(objs, r.vectors)
    modifies objs[|objs| - 1]
    ensures var o := Step(r, D, name, seed, bytes);
            && (o.Stopped? ==> stop == Some(o.error))
            && (o.Running? ==>
                  stop == None && o.run == Evict(r, o.run.vectors, name, bytes) && Mirrors(out, o.run.vectors))
    ensures forall i :: 0 <= i < |out| ==> out[i] in objs || fresh(out[i])
  {
    hide *;
    MirrorLength(objs, r.vectors);
    StepCases(r, D, name, seed, bytes);
    var last := |objs| - 1;
    var status := TryLast(objs, name, seed, r.vectors);
    ghost var tried := Consolidation.TryBind(r.vectors[last], name, seed);
    EvictKeeps(r, r.vectors[last := tried.0], bytes, name);
    ThreeWays(status);
    out := objs;
    if status.Raised? {
      return out, Some(status.error);
    }
    if status.value {
      return out, None;
    }
    CloseLast(objs, r.vectors[last := tried.0]);
    var next;
    next, status := FreshTry(D, name, seed);
    ThreeWays(status);
    if status.Raised? {
      return out, Some(status.error);
    }
    if !status.value {
      return out, Some(AssertionError);
    }
    out := objs + [next];
    assert r.vectors[last := tried.0][last := Seal(tried.0)] == r.vectors[last := Seal(tried.0)];
    MirrorsPush(objs, r.vectors[last := Seal(tried.0)], next);
    EvictKeeps(r, r.vectors[last := Seal(tried.0)] + [next.State()], bytes, name);
    stop := None;
  }

  method TryLast(objs: seq<ActiveVector>, name: string, seed: int, ghost vs: seq<Vector>) returns (status: Result<bool>)
    requires objs != [] && Mirrors(objs, vs)
    modifies objs[|objs| - 1]
    ensures var tried := Consolidation.TryBind(vs[|vs| - 1], name, seed);
            status == tried.1 && Mirrors(objs, vs[|vs| - 1 := tried.0])
  {
    hide TryBind, Entries;
    status := objs[|objs| - 1].TryBind(name, seed);
  }

  method CloseLast(objs: seq<ActiveVector>, ghost vs: seq<Vector>)
    requires objs != [] && Mirrors(objs, vs)
    modifies objs[|objs| - 1]
    ensures Mirrors(objs, vs[|vs| - 1 := Seal(vs[|vs| - 1])])
  {
    hide Seal, Entries;
    objs[|objs| - 1].Close();
  }

  lemma MirrorsPush(objs: seq<ActiveVector>, vs: seq<Vector>, o: ActiveVector)
    requires Mirrors(objs, vs) && o.Valid() && o !in objs
    ensures Mirrors(objs + [o], vs + [o.State()])
  {
    hide Entries;
  }

  method FreshTry(D: nat, name: string, seed: int) returns (next: ActiveVector, status: Result<bool>)
    ensures fresh(next) && next.Valid() && (next.State(), status) == Consolidation.TryBind(Empty(D), name, seed)
  {
    hide TryBind, Entries, Empty;
    next := new ActiveVector(D);
    status := next.TryBind(name, seed);
  }

  /** What the program reports about a finished run. */
  datatype Report = Report(allok: bool, capSeal: bool, gateSeal: bool, sizes: seq<nat>,
                           consolidated: seq<string>, resident: set<string>, freed: int)

  function Sizes(vs: seq<Vector>): (s: seq<nat>)
    ensures |s| == |vs| && forall i :: 0 <= i < |vs| ==> s[i] == |vs[i].eps|
  {
    seq(|vs|, i requires 0 <= i < |vs| => |vs[i].eps|)
  }

  /** A finished run is GREEN and accounts for the whole batch: everything recalls, every episode is consolidated,
      nothing stays resident, and the freed total is the sum of the sizes. */
  ghost predicate Green(report: Report, vs: seq<Vector>, D: nat, batch: Batch, bytes: map<string, int>) {
    && report.allok
    && report.sizes == Sizes(vs)
    && report.capSeal == (D >= 1024 ==> forall i :: 0 <= i < |vs| - 1 ==> |vs[i].eps| == CAP)
    && report.gateSeal == (D < 1024 ==> forall i :: 0 <= i < |vs| ==> |vs[i].eps| < CAP)
    && report.consolidated == Names(batch)
    && report.resident == {}
    && report.freed == TotalSize(Names(batch), bytes)
  }

  /** The final verification loop and the statistics; ok is the exception, or whether all vectors recall. */
  method FinalVerify(vectors: seq<ActiveVector>, ghost r: Run, D: nat, ghost batch: Batch,
                     ghost bytes: map<string, int>)
    returns (ok: Result<bool>, full: bool, early: bool, sizes: seq<nat>)
    requires RunKept(r, D, batch, bytes, |batch|) && Mirrors(vectors, r.vectors)
    ensures ok == if exists i: nat :: Torn(r.vectors, i) then Raised(KeyError) else Done(true)
    ensures ok.Done? ==> sizes == Sizes(r.vectors)
    ensures ok.Done? ==> (full <==> forall j :: 0 <= j < |r.vectors| - 1 ==> |r.vectors[j].eps| == CAP)
    ensures ok.Done? ==> (early <==> forall j :: 0 <= j < |r.vectors| ==> |r.vectors[j].eps| < CAP)
  {
    hide *;
    MirrorLength(vectors, r.vectors);
    full, early, sizes := true, true, [];
    var allok := true;
    for i := 0 to |vectors|
      invariant allok && forall j: nat :: j < i ==> !Torn(r.vectors, j)
      invariant |sizes| == i && forall j :: 0 <= j < i ==> sizes[j] == |r.vectors[j].eps|
      invariant full <==> forall j :: 0 <= j < i && j < |r.vectors| - 1 ==> |r.vectors[j].eps| == CAP
      invariant early <==> forall j :: 0 <= j < i ==> |r.vectors[j].eps| < CAP
    {
      var v := vectors[i];
      ok := Recheck(v, r.vectors, vectors, i);
      FinalRecall(r, D, batch, bytes, |batch|, i);
      if ok.Raised? {
        return;
      }
      if !ok.value { allok := false; }
      sizes := sizes + [|v.eps|];
      if i < |vectors| - 1 && |v.eps| != CAP { full := false; }
      if |v.eps| >= CAP { early := false; }
    }
    NoneBeyond(r.vectors);
    assert sizes == Sizes(r.vectors);
    ok := Done(allok);
  }

  lemma NoneBeyond(vs: seq<Vector>)
    ensures forall i: nat :: Torn(vs, i) ==> i < |vs|
  {
  }

  /** One call of the final loop. */
  method Recheck(v: ActiveVector, ghost vs: seq<Vector>, ghost objs: seq<ActiveVector>, ghost i: nat)
    returns (ok: Result<bool>)
    requires Mirrors(objs, vs) && i < |objs| && v == objs[i]
    ensures i < |vs| && v.eps == vs[i].eps && ok == RecallOk(vs[i])
  {
    MirrorAt(objs, vs, i);
    v.CandidateIs(v.M, v.eps);
    hide Entries, RecallOk;
    RecallOkSeal(vs[i]);
    RecallOkSeal(v.Candidate(v.M, v.eps));
    assert Seal(v.Candidate(v.M, v.eps)) == Seal(vs[i]);
    ok := v.RecallOk(v.M, v.eps);
  }

  /** The consolidation program, for every batch. An exception of the loop ends it; a KeyError of the final check ends
      it when some step refused, below the cap, a name that the vector it met holds; every other run is GREEN. With
      distinct names that is every run of a positive dimension that tiles. */
  method Nightshift(D: nat, batch: Batch, bytes: map<string, int>) returns (end: Result<Report>)
    ensures var o := After(D, batch, bytes, |batch|);
            && (o.Stopped? ==> end == Raised(o.error))
            && (o.Running? && (exists k: nat :: k < |batch| && RefusesHeld(D, batch, bytes, k)) ==>
                  end == Raised(KeyError))
            && (o.Running? && !(exists k: nat :: k < |batch| && RefusesHeld(D, batch, bytes, k)) ==>
                  end.Done? && Green(end.value, o.run.vectors, D, batch, bytes))
    ensures Distinct(Names(batch)) ==> (end.Done? <==> batch == [] || (Blocks(D).Some? && D > 0))
  {
    hide *;
    var first := new ActiveVector(D);
    var vectors := [first];
    var consolidated: seq<string> := [];
    var resident := set e | e in Names(batch);
    var freed := 0;
    ghost var r := Start(D, batch);
    StartIs(D, batch);
    MirrorsOne(first, Empty(D));
    AfterUnfold(D, batch, bytes, 0);
    if Distinct(Names(batch)) { DistinctRuns(D, batch, bytes, |batch|); }
    for k := 0 to |batch|
      invariant After(D, batch, bytes, k) == Running(r)
      invariant vectors != [] && Mirrors(vectors, r.vectors)
      invariant forall i :: 0 <= i < |vectors| ==> fresh(vectors[i])
      invariant r == Run(r.vectors, consolidated, resident, freed)
    {
      var name, seed := batch[k].0, batch[k].1;
      AfterUnfold(D, batch, bytes, k + 1);
      var stop;
      vectors, stop := Place(vectors, D, name, seed, r, bytes);
      if stop.Some? {
        ErrorStays(D, batch, bytes, k + 1, |batch|);
        return Raised(stop.value);
      }
      ghost var next := Step(r, D, name, seed, bytes).run;
      EvictedIs(r, next.vectors, name, bytes);
      MirrorLength(vectors, next.vectors);
      r := next;
      consolidated := consolidated + [name];
      resident := resident - {name};
      freed := freed + (if name in bytes then bytes[name] else 0);
    }
    RunKeeps(D, batch, bytes, |batch|);
    TornIff(D, batch, bytes, |batch|);
    AllConsolidated(r, D, batch, bytes);
    var ok, full, early, sizes := FinalVerify(vectors, r, D, batch, bytes);
    if ok.Raised? {
      return Raised(ok.error);
    }
    end := Done(Report(ok.value, D < 1024 || full, D >= 1024 || early, sizes, consolidated, resident, freed));
    GreenIs(end.value, r.vectors, D, batch, bytes, full, early);
  }

  lemma GreenIs(report: Report, vs: seq<Vector>, D: nat, batch: Batch, bytes: map<string, int>, full: bool, early: bool)
    requires report == Report(true, D < 1024 || full, D >= 1024 || early, Sizes(vs), Names(batch), {},
                              TotalSize(Names(batch), bytes))
    requires full <==> forall j :: 0 <= j < |vs| - 1 ==> |vs[j].eps| == CAP
    requires early <==> forall j :: 0 <= j < |vs| ==> |vs[j].eps| < CAP
    ensures Green(report, vs, D, batch, bytes)
  {
  }

  lemma StartIs(D: nat, batch: Batch)
    ensures Start(D, batch) == Run([Empty(D)], [], set e | e in Names(batch), 0)
  {
    hide Names, Empty;
  }

  /** A run that has stopped stays stopped. */
  lemma {:induction false} ErrorStays(D: nat, batch: Batch, bytes: map<string, int>, k: nat, m: nat)
    requires k <= m <= |batch| && !After(D, batch, bytes, k).Running?
    ensures After(D, batch, bytes, m) == After(D, batch, bytes, k)
    decreases m
  {
    hide *;
    if k < m {
      ErrorStays(D, batch, bytes, k, m - 1);
      AfterUnfold(D, batch, bytes, m);
    }
  }

  lemma EvictedIs(r: Run, vs: seq<Vector>, name: string, bytes: map<string, int>)
    ensures Evict(r, vs, name, bytes)
         == Run(vs, r.consolidated + [name], r.resident - {name}, r.freed + (if name in bytes then bytes[name] else 0))
  {
  }

  lemma MirrorAt(objs: seq<ActiveVector>, vs: seq<Vector>, i: nat)
    requires Mirrors(objs, vs) && i < |objs|
    ensures |objs| == |vs| && objs[i].Valid() && objs[i].State() == vs[i]
    ensures |objs[i].M| == objs[i].D && Entries(objs[i].D, objs[i].addr, objs[i].id)
    ensures VectorState(objs[i].D, objs[i].M, objs[i].eps, objs[i].addr, objs[i].id, objs[i].sealed) == vs[i]
  {
    hide Entries;
  }

  lemma MirrorsOne(o: ActiveVector, v: Vector)
    requires o.Valid() && o.State() == v
    ensures Mirrors([o], [v])
  {
  }

  lemma MirrorLength(objs: seq<ActiveVector>, vs: seq<Vector>)
    requires Mirrors(objs, vs)
    ensures |objs| == |vs|
  {
  }

  lemma AllConsolidated(r: Run, D: nat, batch: Batch, bytes: map<string, int>)
    requires RunKept(r, D, batch, bytes, |batch|)
    ensures r.consolidated == Names(batch) && r.resident == {} && r.freed == TotalSize(Names(batch), bytes)
  {
    hide HoldsParts, Joined, TotalSize;
    assert Names(batch)[..|batch|] == Names(batch);
  }
}
