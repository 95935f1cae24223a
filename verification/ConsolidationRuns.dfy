/** What every consolidation run keeps, whatever the batch: names may repeat. */
module ConsolidationRuns {
  import opened Negacyclic
  import opened NoZeroDivisors
  import opened Binding
  import opened Carriers
  import opened Superposition
  import opened Consolidation

  /** The seed each name was last bound with. */
  function Latest(h: Batch): (m: map<string, int>)
    ensures forall e :: e in m <==> e in Names(h)
  {
    if h == [] then map[] else
      var last := h[|h| - 1];
      NamesMore(h[..|h| - 1], last);
      assert h == h[..|h| - 1] + [last];
      Latest(h[..|h| - 1])[last.0 := last.1]
  }

  lemma NamesMore(h: Batch, ep: (string, int))
    ensures Names(h + [ep]) == Names(h) + [ep.0]
  {
  }

  lemma LatestMore(h: Batch, ep: (string, int))
    ensures Latest(h + [ep]) == Latest(h)[ep.0 := ep.1]
  {
    var l := h + [ep];
    assert l[..|l| - 1] == h && l[|l| - 1] == ep;
  }

  /** What each episode adds. */
  function Binds(h: Batch, D: nat): (bs: seq<Vec>)
    ensures |bs| == |h| && forall i :: 0 <= i < |bs| ==> |bs[i]| == D
  {
    seq(|h|, i requires 0 <= i < |h| => Contribution(Carrier(h[i].1, D), Idvec(h[i].1, D)))
  }

  /** v holds the episodes h: their names in order, and M is the sum of their binds. */
  ghost predicate Books(v: Vector, h: Batch) {
    && v.eps == Names(h) && |h| <= CAP
    && (h != [] ==> Blocks(v.D).Some?)
    && v.M == Superpose(Binds(h, v.D), v.D)
  }

  /** Entry e of the two dictionaries is what the seed generates. */
  predicate Generated(v: Vector, e: string, seed: int)
    requires e in v.addr
  {
    v.addr[e] == Carrier(seed, v.D) && v.id[e] == Idvec(seed, v.D)
  }

  /** The dictionaries hold the last seed's entries of every name of h, except the names in gone. */
  ghost predicate Dicts(v: Vector, h: Batch, gone: set<string>) {
    && (forall e :: e in v.addr <==> e in Latest(h) && e !in gone)
    && (forall e :: e in v.addr ==> Generated(v, e, Latest(h)[e]))
  }

  /** What a run keeps of the vector it binds into: all its episodes still recall. */
  ghost predicate Sound(v: Vector, h: Batch) {
    Books(v, h) && Dicts(v, h, {}) && RecallOk(v) == Done(true)
  }

  lemma SoundParts(v: Vector, h: Batch)
    requires Sound(v, h)
    ensures Books(v, h) && Dicts(v, h, {}) && RecallOk(v) == Done(true)
    ensures v.eps == Names(h) && |v.eps| == |h| <= CAP && (h != [] ==> Blocks(v.D).Some?)
  {
  }

  lemma EmptySound(D: nat)
    ensures Sound(Empty(D), []) && Empty(D).D == D && !Empty(D).sealed
  {
    assert Binds([], D) == [];
  }

  lemma SuperposeMore(bs: seq<Vec>, c: Vec, n: nat)
    requires (forall i :: 0 <= i < |bs| ==> |bs[i]| == n) && |c| == n
    ensures Superpose(bs + [c], n) == Add(Superpose(bs, n), c)
  {
    assert (bs + [c])[..|bs|] == bs;
  }

  lemma BindsMore(h: Batch, ep: (string, int), D: nat)
    ensures Binds(h + [ep], D) == Binds(h, D) + [Contribution(Carrier(ep.1, D), Idvec(ep.1, D))]
  {
    hide Contribution, Carrier, Idvec;
  }

  lemma ShadowBooks(v: Vector, h: Batch, ep: (string, int))
    requires Books(v, h) && |h| < CAP && Blocks(v.D).Some?
    ensures Books(Shadow(v, ep.0, ep.1), h + [ep])
  {
    NamesMore(h, ep);
    BindsMore(h, ep, v.D);
    var c := Contribution(Carrier(ep.1, v.D), Idvec(ep.1, v.D));
    hide Contribution, Carrier, Idvec, Superpose, Add, Blocks, Names, Binds;
    SuperposeMore(Binds(h, v.D), c, v.D);
    assert Shadow(v, ep.0, ep.1).M == Add(v.M, c);
  }

  lemma ShadowDicts(v: Vector, h: Batch, gone: set<string>, ep: (string, int))
    requires Dicts(v, h, gone)
    ensures Dicts(Shadow(v, ep.0, ep.1), h + [ep], gone - {ep.0})
  {
    LatestMore(h, ep);
    hide Latest, Carrier, Idvec, Contribution, Add;
    var w := Shadow(v, ep.0, ep.1);
    assert w.addr == v.addr[ep.0 := Carrier(ep.1, v.D)] && w.id == v.id[ep.0 := Idvec(ep.1, v.D)];
    forall e | e in w.addr ensures Generated(w, e, Latest(h + [ep])[e]) {
      if e != ep.0 { assert e in v.addr && Generated(v, e, Latest(h)[e]); }
    }
  }

  /** try_bind, branch by branch. */
  lemma TryBindCases(v: Vector, name: string, seed: int)
    ensures var t := TryBind(v, name, seed); var r := RecallOk(Shadow(v, name, seed));
            && (v.sealed || |v.eps| >= CAP ==> t == (v, Done(false)))
            && (!v.sealed && |v.eps| < CAP ==>
                  && (Blocks(v.D).None? ==> t == (Entered(v, name, seed), Raised(ValueError)))
                  && (Blocks(v.D).Some? ==>
                        && t.1 == r
                        && (r.Raised? ==> t.0 == Entered(v, name, seed))
                        && (r == Done(true) ==> t.0 == Shadow(v, name, seed))
                        && (r == Done(false) ==> t.0 == Withdrawn(v, name))))
  {
    hide RecallOk, Shadow, Blocks;
  }

  /** A refused bind leaves the superposition and the names; it takes entries away exactly when the vector is open,
      not full, and holds entries for the name already. */
  lemma RejectedKeepsSuperposition(v: Vector, name: string, seed: int)
    requires TryBind(v, name, seed).1 == Done(false)
    ensures var w := TryBind(v, name, seed).0;
            && w.M == v.M && w.eps == v.eps && w.D == v.D && w.sealed == v.sealed
            && (w == v <==> v.sealed || |v.eps| >= CAP || name !in v.addr)
            && (w != v ==> w.addr == v.addr - {name} && w.id == v.id - {name})
  {
    TryBindCases(v, name, seed);
    hide RecallOk, Shadow, Blocks, TryBind;
    if name !in v.addr {
      MinusMissing(v.addr, name);
      MinusMissing(v.id, name);
    }
  }

  lemma MinusMissing<K, V>(m: map<K, V>, k: K)
    requires k !in m
    ensures m - {k} == m
  {
  }

  /** An accepted bind keeps the vector sound, adds exactly the new episode and leaves it open; a repeated name now
      answers with its new address and id. */
  lemma AcceptedKeepsSound(v: Vector, h: Batch, name: string, seed: int)
    requires Sound(v, h) && TryBind(v, name, seed).1 == Done(true)
    ensures var w := TryBind(v, name, seed).0;
            Sound(w, h + [(name, seed)]) && w.D == v.D && !w.sealed
  {
    TryBindCases(v, name, seed);
    SoundParts(v, h);
    hide RecallOk, TryBind, Books, Dicts, Blocks;
    ShadowBooks(v, h, (name, seed));
    ShadowDicts(v, h, {}, (name, seed));
    ShadowOpen(v, name, seed);
    assert {} - {name} == {};
  }

  lemma ShadowOpen(v: Vector, name: string, seed: int)
    ensures Shadow(v, name, seed).sealed == v.sealed && Shadow(v, name, seed).D == v.D
  {
    hide Carrier, Idvec, Contribution, Add;
  }

  /** Each contribution is small, so M is far inside 32 bits. */
  lemma SoundBounded(v: Vector, h: Batch)
    requires Books(v, h)
    ensures Bounded(v.M, 0x7fff_ffff)
  {
    var bs := Binds(h, v.D);
    forall i | 0 <= i < |bs| ensures Bounded(bs[i], 512) {
      BindOfSigns(Carrier(h[i].1, v.D), Idvec(h[i].1, v.D));
    }
    BooksCap(v, h);
    hide *;
    SuperposeBounded(bs, v.D, 512);
    WiderBound(v.M, |bs| * 512, 0x7fff_ffff);
  }

  lemma BooksCap(v: Vector, h: Batch)
    requires Books(v, h)
    ensures |Binds(h, v.D)| <= 32 == CAP && v.M == Superpose(Binds(h, v.D), v.D)
  {
  }

  /** The crosstalk formula: name q's score for the id of e is the sum, over everything bound in, of the inner
      product with what binding q's address to that id would have contributed. */
  lemma ScoreIsCrosstalk(v: Vector, h: Batch, gone: set<string>, q: string, e: string)
    requires Books(v, h) && Dicts(v, h, gone) && q in v.addr && e in v.addr
    ensures Score(v.M, v.addr[q], v.id[e]) == SumOfDots(Binds(h, v.D), Contribution(v.addr[q], v.id[e]))
  {
    assert Generated(v, q, Latest(h)[q]) && Generated(v, e, Latest(h)[e]);
    assert h != [];
    SoundBounded(v, h);
    ScoreIsInner(v.M, v.addr[q], v.id[e]);
    hide Superpose, Binds, SumOfDots, Dot, Bind, Unbind;
    DotOfSuperposition(Binds(h, v.D), Contribution(v.addr[q], v.id[e]));
  }

  lemma LoneShadow(D: nat, name: string, seed: int)
    requires Blocks(D).Some?
    ensures var w := Shadow(Empty(D), name, seed);
            && w.M == Bind(Carrier(seed, D), Idvec(seed, D)).value && w.eps == [name] && w.D == D
            && name in w.addr && w.addr[name] == Carrier(seed, D) && w.id[name] == Idvec(seed, D)
  {
    var c := Contribution(Carrier(seed, D), Idvec(seed, D));
    hide Carrier, Idvec, Bind, Add, Blocks;
    AddZero(c);
    assert Shadow(Empty(D), name, seed).M == Add(Zero(D), c);
  }

  lemma AddZero(c: Vec)
    ensures Add(Zero(|c|), c) == c
  {
    SameVec(Add(Zero(|c|), c), c);
  }

  /** Alone, an episode passes the gate when it answers itself with a positive score. */
  lemma LoneGate(w: Vector, name: string)
    requires w.eps == [name] && name in w.addr && Blocks(w.D).Some?
    ensures RecallOk(w) == Done(Score(w.M, w.addr[name], w.id[name]) > 0)
  {
    hide Score, Blocks;
    assert w.eps[0] == name && Whole(w);
    assert Recalls(w, name) <==> Score(w.M, w.addr[name], w.id[name]) > 0;
  }

  /** A fresh vector accepts every episode, exactly when the dimension is positive. */
  lemma FreshAccepts(D: nat, name: string, seed: int)
    requires Blocks(D).Some?
    ensures TryBind(Empty(D), name, seed).1 == Done(D > 0)
  {
    var w := Shadow(Empty(D), name, seed);
    var a, x := Carrier(seed, D), Idvec(seed, D);
    LoneShadow(D, name, seed);
    LoneGate(w, name);
    if D > 0 {
      LoneScorePositive(a, x);
    }
    TryBindCases(Empty(D), name, seed);
    hide Shadow, Carrier, Idvec, Bind, Unbind, Blocks, RecallOk, TryBind;
    assert Score(w.M, a, x) > 0 <==> D > 0;
  }

  lemma FreshOutcome(D: nat, name: string, seed: int)
    ensures TryBind(Empty(D), name, seed).1 == if Blocks(D).None? then Raised(ValueError) else Done(D > 0)
  {
    if Blocks(D).Some? {
      FreshAccepts(D, name, seed);
    }
  }

  lemma GateSeal(v: Vector)
    requires Whole(v)
    ensures Gate(Seal(v)) <==> Gate(v)
  {
    hide Score;
    if Gate(v) {
      assert forall q :: q in v.eps ==> Recalls(v, q) ==> Recalls(Seal(v), q);
    }
    if Gate(Seal(v)) {
      assert forall q :: q in v.eps ==> Recalls(Seal(v), q) ==> Recalls(v, q);
    }
  }

  lemma RecallOkSeal(v: Vector)
    ensures RecallOk(Seal(v)) == RecallOk(v)
  {
    if Whole(v) { GateSeal(v); }
    hide Gate, Blocks;
    assert Whole(Seal(v)) <==> Whole(v);
  }

  /** Vectors that differ in nothing but the seal. */
  lemma SealKeeps(v: Vector, h: Batch, gone: set<string>)
    ensures Seal(v).D == v.D && Seal(v).eps == v.eps && Seal(v).sealed
    ensures Books(v, h) ==> Books(Seal(v), h)
    ensures Dicts(v, h, gone) ==> Dicts(Seal(v), h, gone)
  {
    hide Superpose, Blocks, Names, Binds, Latest, Carrier, Idvec;
    if Dicts(v, h, gone) {
      assert forall e :: e in v.addr ==> Generated(v, e, Latest(h)[e]) ==> Generated(Seal(v), e, Latest(h)[e]);
    }
  }

  /** Binding a name again needs no entry of the old one: what the gate sees of a refused episode does not change
      when the refusal takes the entries away. */
  lemma ShadowOfClosed(v: Vector, name: string, seed: int)
    ensures RecallOk(Shadow(Seal(v), name, seed)) == RecallOk(Shadow(v, name, seed))
    ensures Shadow(Withdrawn(v, name), name, seed) == Shadow(v, name, seed)
  {
    RecallOkSeal(Shadow(v, name, seed));
    RecallOkSeal(Shadow(Seal(v), name, seed));
    hide RecallOk, Contribution, Carrier, Idvec, Add;
    assert Seal(Shadow(v, name, seed)) == Seal(Shadow(Seal(v), name, seed));
    PutDropped(v.addr, name, Carrier(seed, v.D));
    PutDropped(v.id, name, Idvec(seed, v.D));
  }

  lemma PutDropped<K, V>(m: map<K, V>, k: K, x: V)
    ensures (m - {k})[k := x] == m[k := x]
  {
  }

  /** What a run keeps of a closed vector that holds h, next being the episode it refused: it was full, or next would
      have broken its gate; its dictionaries are complete unless it refused a name it holds, and then it no longer
      recalls but raises. */
  ghost predicate Closed(v: Vector, D: nat, h: Batch, next: (string, int)) {
    && v.D == D && v.sealed && h != [] && Books(v, h)
    && Dicts(v, h, if |h| < CAP then {next.0} else {})
    && (|h| == CAP || RecallOk(Shadow(v, next.0, next.1)) == Done(false))
    && RecallOk(v) == if |h| < CAP && next.0 in Names(h) then Raised(KeyError) else Done(true)
  }

  /** A held name without entries raises. */
  lemma TornRaises(v: Vector, name: string)
    requires name in v.eps && name !in v.addr && Blocks(v.D).Some?
    ensures RecallOk(v) == Raised(KeyError)
  {
    hide Gate, Blocks;
    assert !Whole(v);
  }

  lemma WithdrawnDicts(v: Vector, h: Batch, name: string)
    requires Books(v, h) && Dicts(v, h, {})
    ensures Books(Withdrawn(v, name), h) && Dicts(Withdrawn(v, name), h, {name})
    ensures name in v.addr <==> name in Names(h)
  {
    hide Superpose, Blocks, Binds, Carrier, Idvec;
    var w := Withdrawn(v, name);
    forall e | e in w.addr ensures Generated(w, e, Latest(h)[e]) {
      assert e in v.addr && Generated(v, e, Latest(h)[e]);
    }
  }

  /** Sealing after a refusal. */
  lemma Closing(v: Vector, h: Batch, name: string, seed: int)
    requires Sound(v, h) && !v.sealed && h != [] && TryBind(v, name, seed).1 == Done(false)
    ensures Closed(Seal(TryBind(v, name, seed).0), v.D, h, (name, seed))
  {
    var w := TryBind(v, name, seed).0;
    SoundParts(v, h);
    TryBindCases(v, name, seed);
    RecallOkSeal(w);
    hide *;
    if |h| == CAP {
      SealKeeps(v, h, {});
      ClosedIs(Seal(v), v.D, h, (name, seed));
    } else {
      WithdrawnDicts(v, h, name);
      WithdrawnIs(v, name);
      SealKeeps(w, h, {name});
      ShadowOfClosed(w, name, seed);
      ShadowOfClosed(v, name, seed);
      if name in Names(h) { TornRaises(w, name); }
      ClosedIs(Seal(w), v.D, h, (name, seed));
    }
  }

  lemma ClosedIs(v: Vector, D: nat, h: Batch, next: (string, int))
    requires v.D == D && v.sealed && h != [] && Books(v, h)
    requires Dicts(v, h, if |h| < CAP then {next.0} else {})
    requires |h| == CAP || RecallOk(Shadow(v, next.0, next.1)) == Done(false)
    requires RecallOk(v) == if |h| < CAP && next.0 in Names(h) then Raised(KeyError) else Done(true)
    ensures Closed(v, D, h, next)
  {
    hide Books, Dicts, RecallOk, Shadow, Names;
  }

  lemma WithdrawnIs(v: Vector, name: string)
    ensures var w := Withdrawn(v, name);
            && w.D == v.D && w.eps == v.eps && name !in w.addr && (name !in v.addr ==> w == v)
  {
    if name !in v.addr {
      MinusMissing(v.addr, name);
      MinusMissing(v.id, name);
    }
  }

  /** Consecutive stretches of a batch, joined. */
  function Joined(parts: seq<Batch>): Batch {
    if parts == [] then [] else Joined(parts[..|parts| - 1]) + parts[|parts| - 1]
  }

  lemma JoinedReplace(parts: seq<Batch>, h: Batch)
    requires parts != []
    ensures Joined(parts[|parts| - 1 := h]) == Joined(parts[..|parts| - 1]) + h
  {
    assert parts[|parts| - 1 := h][..|parts| - 1] == parts[..|parts| - 1];
  }

  lemma JoinedPush(parts: seq<Batch>, h: Batch)
    ensures Joined(parts + [h]) == Joined(parts) + h
  {
    assert (parts + [h])[..|parts|] == parts;
  }

  ghost predicate ClosedAt(vs: seq<Vector>, D: nat, parts: seq<Batch>, i: nat)
    requires |vs| == |parts| && i + 1 < |vs|
  {
    parts[i + 1] != [] && Closed(vs[i], D, parts[i], parts[i + 1][0])
  }

  /** Each vector holds one stretch: all but the last are closed by the first episode of the next stretch, the last is
      open and sound. */
  ghost predicate HoldsParts(vs: seq<Vector>, D: nat, parts: seq<Batch>) {
    && |vs| == |parts| > 0
    && (forall i :: 0 <= i < |vs| - 1 ==> ClosedAt(vs, D, parts, i))
    && Sound(vs[|vs| - 1], parts[|vs| - 1]) && vs[|vs| - 1].D == D && !vs[|vs| - 1].sealed
  }

  lemma LastIsSound(vs: seq<Vector>, D: nat, parts: seq<Batch>)
    requires HoldsParts(vs, D, parts)
    ensures |vs| == |parts| > 0
    ensures var v := vs[|vs| - 1]; Sound(v, parts[|vs| - 1]) && v.D == D && !v.sealed
  {
    hide ClosedAt;
  }

  /** The last vector takes one more episode. */
  lemma PromotedHolds(vs: seq<Vector>, D: nat, parts: seq<Batch>, w: Vector, ep: (string, int))
    requires HoldsParts(vs, D, parts)
    requires Sound(w, parts[|vs| - 1] + [ep]) && w.D == D && !w.sealed
    ensures HoldsParts(vs[|vs| - 1 := w], D, parts[|vs| - 1 := parts[|vs| - 1] + [ep]])
    ensures Joined(parts[|vs| - 1 := parts[|vs| - 1] + [ep]]) == Joined(parts) + [ep]
  {
    hide Sound, Closed, Joined;
    var last := |vs| - 1;
    var h := parts[last] + [ep];
    var vs', parts' := vs[last := w], parts[last := h];
    forall i | 0 <= i < last ensures ClosedAt(vs', D, parts', i) {
      StaysClosed(vs, D, parts, i, w, h);
    }
    JoinedReplace(parts, h);
    JoinedEnd(parts);
    assert Joined(parts[..last]) + h == Joined(parts[..last]) + parts[last] + [ep];
  }

  lemma StaysClosed(vs: seq<Vector>, D: nat, parts: seq<Batch>, i: nat, w: Vector, h: Batch)
    requires |vs| == |parts| && i + 1 < |vs| && ClosedAt(vs, D, parts, i) && parts[|vs| - 1] <= h
    ensures ClosedAt(vs[|vs| - 1 := w], D, parts[|vs| - 1 := h], i)
  {
    hide Closed;
  }

  lemma JoinedEnd(parts: seq<Batch>)
    requires parts != []
    ensures Joined(parts) == Joined(parts[..|parts| - 1]) + parts[|parts| - 1]
  {
  }

  /** The last vector is closed and a fresh one takes the episode. */
  lemma OpenedHolds(vs: seq<Vector>, D: nat, parts: seq<Batch>, v: Vector, w: Vector, ep: (string, int))
    requires HoldsParts(vs, D, parts)
    requires Closed(v, D, parts[|vs| - 1], ep) && Sound(w, [ep]) && w.D == D && !w.sealed
    ensures HoldsParts(vs[|vs| - 1 := v] + [w], D, parts + [[ep]])
    ensures Joined(parts + [[ep]]) == Joined(parts) + [ep]
  {
    var last := |vs| - 1;
    JoinedPush(parts, [ep]);
    hide Sound, Closed, Joined;
    var vs', parts' := vs[last := v] + [w], parts + [[ep]];
    forall i | 0 <= i < |vs'| - 1 ensures ClosedAt(vs', D, parts', i) {
      if i < last { assert ClosedAt(vs, D, parts, i); }
    }
  }

  /** An open vector that holds nothing is a fresh one. */
  lemma NothingHeld(v: Vector)
    requires Sound(v, []) && !v.sealed
    ensures v == Empty(v.D)
  {
    assert Binds([], v.D) == [];
    assert v.addr == map[] && v.id == map[];
  }

  function TotalSize(names: seq<string>, bytes: map<string, int>): int {
    if names == [] then 0 else TotalSize(names[..|names| - 1], bytes) + SizeOf(names[|names| - 1], bytes)
  }

  /** The lists of a run: consolidated names are the processed ones, names not processed stay resident, and the freed
      total counts every processed episode. */
  predicate Lists(r: Run, names: seq<string>, bytes: map<string, int>, k: nat)
    requires k <= |names|
  {
    && r.consolidated == names[..k]
    && r.resident == (set e | e in names && e !in names[..k])
    && r.freed == TotalSize(names[..k], bytes)
  }

  lemma ListsNext(r: Run, vs: seq<Vector>, names: seq<string>, bytes: map<string, int>, k: nat)
    requires k < |names| && Lists(r, names, bytes, k)
    ensures Lists(Evict(r, vs, names[k], bytes), names, bytes, k + 1)
  {
    hide SizeOf;
    var done, more := names[..k], names[..k + 1];
    assert more == done + [names[k]];
    assert more[..k] == done;
    assert forall e :: e in more <==> e in done || e == names[k];
    assert Evict(r, vs, names[k], bytes).resident == (set e | e in names && e !in more);
  }

  /** A run after k episodes: the processed episodes split into consecutive stretches, one a vector. */
  ghost predicate RunKept(r: Run, D: nat, batch: Batch, bytes: map<string, int>, k: nat)
    requires k <= |batch|
  {
    && Lists(r, Names(batch), bytes, k)
    && exists parts :: HoldsParts(r.vectors, D, parts) && Joined(parts) == batch[..k]
  }

  lemma PartsOf(r: Run, D: nat, batch: Batch, bytes: map<string, int>, k: nat) returns (parts: seq<Batch>)
    requires k <= |batch| && RunKept(r, D, batch, bytes, k)
    ensures HoldsParts(r.vectors, D, parts) && Joined(parts) == batch[..k]
    ensures Lists(r, Names(batch), bytes, k)
  {
    hide HoldsParts, Joined, Lists;
    parts :| HoldsParts(r.vectors, D, parts) && Joined(parts) == batch[..k];
  }

  lemma MakeKept(r: Run, D: nat, batch: Batch, bytes: map<string, int>, k: nat, parts: seq<Batch>)
    requires k <= |batch| && HoldsParts(r.vectors, D, parts) && Joined(parts) == batch[..k]
    requires Lists(r, Names(batch), bytes, k)
    ensures RunKept(r, D, batch, bytes, k)
  {
    hide HoldsParts, Joined, Lists;
  }

  lemma StartKept(D: nat, batch: Batch, bytes: map<string, int>)
    ensures RunKept(Start(D, batch), D, batch, bytes, 0)
  {
    EmptySound(D);
    hide Sound, Names, Empty;
    var parts: seq<Batch> := [[]];
    assert Joined(parts) == batch[..0] by { assert parts[..0] == [] && Joined(parts[..0]) == []; }
    assert Names(batch)[..0] == [];
    MakeKept(Start(D, batch), D, batch, bytes, 0, parts);
  }

  /** Step, case by case. */
  lemma StepCases(r: Run, D: nat, name: string, seed: int, bytes: map<string, int>)
    requires r.vectors != []
    ensures var last := |r.vectors| - 1;
            var tried, next := TryBind(r.vectors[last], name, seed), TryBind(Empty(D), name, seed);
            var o := Step(r, D, name, seed, bytes);
            && (tried.1.Raised? ==> o == Stopped(tried.1.error))
            && (tried.1 == Done(true) ==> o == Running(Evict(r, r.vectors[last := tried.0], name, bytes)))
            && (tried.1 == Done(false) && next.1.Raised? ==> o == Stopped(next.1.error))
            && (tried.1 == Done(false) && next.1 == Done(false) ==> o == Stopped(AssertionError))
            && (tried.1 == Done(false) && next.1 == Done(true) ==>
                 o == Running(Evict(r, r.vectors[last := Seal(tried.0)] + [next.0], name, bytes)))
  {
    hide TryBind, Seal, Evict, Empty;
  }

  lemma ThreeWays(o: Result<bool>)
    ensures o.Raised? || o == Done(true) || o == Done(false)
  {
    if o.Done? {
      if o.value { assert o == Done(true); } else { assert o == Done(false); }
    }
  }

  lemma EvictKeeps(r: Run, vs: seq<Vector>, bytes: map<string, int>, name: string)
    ensures Evict(r, vs, name, bytes).vectors == vs
  {
  }

  lemma NextSlice(batch: Batch, k: nat)
    requires k < |batch|
    ensures batch[..k + 1] == batch[..k] + [batch[k]] && Names(batch)[k] == batch[k].0
  {
  }

  lemma PromotedKept(r: Run, D: nat, batch: Batch, bytes: map<string, int>, k: nat)
    requires k < |batch| && RunKept(r, D, batch, bytes, k) && r.vectors != []
    requires TryBind(r.vectors[|r.vectors| - 1], batch[k].0, batch[k].1).1 == Done(true)
    ensures var vs, last := r.vectors, |r.vectors| - 1;
            var w := TryBind(vs[last], batch[k].0, batch[k].1).0;
            RunKept(Evict(r, vs[last := w], batch[k].0, bytes), D, batch, bytes, k + 1)
  {
    hide *;
    var parts := PartsOf(r, D, batch, bytes, k);
    var vs, last, ep := r.vectors, |r.vectors| - 1, batch[k];
    LastIsSound(vs, D, parts);
    AcceptedKeepsSound(vs[last], parts[last], ep.0, ep.1);
    var w := TryBind(vs[last], ep.0, ep.1).0;
    assert ep == (ep.0, ep.1);
    PromotedHolds(vs, D, parts, w, ep);
    NextSlice(batch, k);
    ListsNext(r, vs[last := w], Names(batch), bytes, k);
    EvictKeeps(r, vs[last := w], bytes, ep.0);
    MakeKept(Evict(r, vs[last := w], ep.0, bytes), D, batch, bytes, k + 1, parts[last := parts[last] + [ep]]);
  }

  lemma OpenedKept(r: Run, D: nat, batch: Batch, bytes: map<string, int>, k: nat)
    requires k < |batch| && RunKept(r, D, batch, bytes, k) && r.vectors != []
    requires TryBind(r.vectors[|r.vectors| - 1], batch[k].0, batch[k].1).1 == Done(false)
    requires TryBind(Empty(D), batch[k].0, batch[k].1).1 == Done(true)
    ensures var vs, last := r.vectors, |r.vectors| - 1;
            var v, w := Seal(TryBind(vs[last], batch[k].0, batch[k].1).0), TryBind(Empty(D), batch[k].0, batch[k].1).0;
            RunKept(Evict(r, vs[last := v] + [w], batch[k].0, bytes), D, batch, bytes, k + 1)
  {
    hide *;
    var parts := PartsOf(r, D, batch, bytes, k);
    var vs, last, ep := r.vectors, |r.vectors| - 1, batch[k];
    LastIsSound(vs, D, parts);
    if parts[last] == [] { NothingHeld(vs[last]); }
    assert parts[last] != [];
    assert ep == (ep.0, ep.1);
    Closing(vs[last], parts[last], ep.0, ep.1);
    EmptySound(D);
    AcceptedKeepsSound(Empty(D), [], ep.0, ep.1);
    var v, w := Seal(TryBind(vs[last], ep.0, ep.1).0), TryBind(Empty(D), ep.0, ep.1).0;
    assert [] + [ep] == [ep];
    OpenedHolds(vs, D, parts, v, w, ep);
    NextSlice(batch, k);
    ListsNext(r, vs[last := v] + [w], Names(batch), bytes, k);
    EvictKeeps(r, vs[last := v] + [w], bytes, ep.0);
    MakeKept(Evict(r, vs[last := v] + [w], ep.0, bytes), D, batch, bytes, k + 1, parts + [[ep]]);
  }

  lemma KeptNonempty(r: Run, D: nat, batch: Batch, bytes: map<string, int>, k: nat)
    requires k <= |batch| && RunKept(r, D, batch, bytes, k)
    ensures r.vectors != []
  {
    hide *;
    var parts := PartsOf(r, D, batch, bytes, k);
    LastIsSound(r.vectors, D, parts);
  }

  lemma StepKept(r: Run, D: nat, batch: Batch, bytes: map<string, int>, k: nat)
    requires k < |batch| && RunKept(r, D, batch, bytes, k)
    ensures r.vectors != []
    ensures Step(r, D, batch[k].0, batch[k].1, bytes).Running? ==>
              RunKept(Step(r, D, batch[k].0, batch[k].1, bytes).run, D, batch, bytes, k + 1)
  {
    hide *;
    KeptNonempty(r, D, batch, bytes, k);
    var name, seed := batch[k].0, batch[k].1;
    var tried := TryBind(r.vectors[|r.vectors| - 1], name, seed).1;
    StepCases(r, D, name, seed, bytes);
    ThreeWays(tried);
    ThreeWays(TryBind(Empty(D), name, seed).1);
    if tried == Done(true) {
      PromotedKept(r, D, batch, bytes, k);
    } else if tried == Done(false) {
      if TryBind(Empty(D), name, seed).1 == Done(true) {
        OpenedKept(r, D, batch, bytes, k);
      }
    }
  }

  lemma AfterUnfold(D: nat, batch: Batch, bytes: map<string, int>, k: nat)
    requires k <= |batch|
    ensures k == 0 ==> After(D, batch, bytes, k) == Running(Start(D, batch))
    ensures k > 0 ==>
              var before := After(D, batch, bytes, k - 1);
              && (before.Running? ==> before.run.vectors != [])
              && (before.Running? ==>
                    After(D, batch, bytes, k) == Step(before.run, D, batch[k - 1].0, batch[k - 1].1, bytes))
              && (!before.Running? ==> After(D, batch, bytes, k) == before)
  {
    hide Step, Start;
  }

  /** Every reachable state, for every batch: the processed episodes lie in order in consecutive vectors; each M is
      the sum of its stretch's binds; the open vector recalls all it holds; every closed one was full or would have
      failed its gate on the next episode; and the lists account for every episode. */
  lemma {:induction false} RunKeeps(D: nat, batch: Batch, bytes: map<string, int>, k: nat)
    requires k <= |batch|
    ensures After(D, batch, bytes, k).Running? ==> RunKept(After(D, batch, bytes, k).run, D, batch, bytes, k)
    decreases k
  {
    hide *;
    AfterUnfold(D, batch, bytes, k);
    if k == 0 {
      StartKept(D, batch, bytes);
    } else {
      RunKeeps(D, batch, bytes, k - 1);
      var before := After(D, batch, bytes, k - 1);
      if before.Running? {
        StepKept(before.run, D, batch, bytes, k - 1);
      }
    }
  }

  /** The last vector holds one episode, of this name. */
  predicate Alone(r: Run, name: string) {
    r.vectors != [] && r.vectors[|r.vectors| - 1].eps == [name]
  }

  /** Episode j repeats the only name of the vector it meets. */
  predicate MeetsItself(D: nat, batch: Batch, bytes: map<string, int>, j: nat)
    requires j < |batch|
  {
    var o := After(D, batch, bytes, j);
    o.Running? && Alone(o.run, batch[j].0)
  }

  /** An open sound vector raises in two cases: the dimension does not tile, or the episode repeats its only name. */
  lemma TryBindRaises(v: Vector, h: Batch, name: string, seed: int)
    requires Sound(v, h) && !v.sealed
    ensures TryBind(v, name, seed).1.Raised? <==> Blocks(v.D).None? || v.eps == [name]
    ensures TryBind(v, name, seed).1.Raised? ==> TryBind(v, name, seed).1.error == ValueError
  {
    SoundParts(v, h);
    TryBindCases(v, name, seed);
    if Blocks(v.D).Some? && |v.eps| < CAP {
      hide TryBind, Blocks, Gate, Books, Binds, Superpose;
      var w := Shadow(v, name, seed);
      ShadowWhole(v, h, name, seed);
      assert w.eps[0] in w.eps;
      OneMore(v.eps, name);
      assert v.eps != [] ==> !OneName(v.eps);
    }
  }

  lemma ShadowWhole(v: Vector, h: Batch, name: string, seed: int)
    requires Books(v, h) && Dicts(v, h, {})
    ensures Whole(v) && Whole(Shadow(v, name, seed))
  {
    hide Superpose, Binds, Blocks, Carrier, Idvec, Contribution, Add;
    var w := Shadow(v, name, seed);
    assert w.addr == v.addr[name := Carrier(seed, v.D)];
  }

  lemma OneMore(eps: seq<string>, name: string)
    requires eps != [] ==> !OneName(eps)
    ensures OneName(eps + [name]) <==> eps == [name]
  {
    var more := eps + [name];
    assert more[|eps|] == name && forall e :: e in more <==> e in eps || e == name;
    if eps != [] {
      assert name in more && more[0] == eps[0];
      assert OneName(more) ==> forall e :: e in eps ==> e == eps[0];
      assert OneName(more) ==> |eps| == 1 && eps[0] == name;
      assert |eps| == 1 && eps[0] == name ==> eps == [name];
    }
  }

  /** How one step ends, provided nothing was bound in dimension zero before. */
  lemma StepOutcome(r: Run, D: nat, batch: Batch, bytes: map<string, int>, k: nat)
    requires k < |batch| && RunKept(r, D, batch, bytes, k)
    requires D > 0 || r == Start(D, batch)
    ensures r.vectors != []
    ensures var o := Step(r, D, batch[k].0, batch[k].1, bytes);
            && (o.Running? <==> Blocks(D).Some? && D > 0 && !Alone(r, batch[k].0))
            && (o == Stopped(ValueError) <==> Blocks(D).None? || Alone(r, batch[k].0))
            && (o == Stopped(AssertionError) <==> Blocks(D).Some? && D == 0)
  {
    if r == Start(D, batch) { StartVectors(D, batch); }
    hide *;
    var parts := PartsOf(r, D, batch, bytes, k);
    LastIsSound(r.vectors, D, parts);
    var v, name, seed := r.vectors[|r.vectors| - 1], batch[k].0, batch[k].1;
    AloneIs(r, name);
    StepCases(r, D, name, seed, bytes);
    ThreeWays(TryBind(v, name, seed).1);
    TryBindRaises(v, parts[|r.vectors| - 1], name, seed);
    FreshOutcome(D, name, seed);
  }

  lemma AloneIs(r: Run, name: string)
    ensures Alone(r, name) <==> r.vectors != [] && r.vectors[|r.vectors| - 1].eps == [name]
  {
  }

  lemma StartVectors(D: nat, batch: Batch)
    ensures Start(D, batch).vectors == [Empty(D)] && Empty(D).eps == []
  {
  }

  /** How every run goes: the ValueError is an untileable dimension or an episode that meets only itself; the
      assertion that a fresh vector accepts fails in dimension zero and nowhere else. */
  lemma {:induction false} RunOutcome(D: nat, batch: Batch, bytes: map<string, int>, k: nat)
    requires k <= |batch|
    ensures After(D, batch, bytes, k).Running? <==>
              k == 0 || (Blocks(D).Some? && D > 0 && forall j :: 0 <= j < k ==> !MeetsItself(D, batch, bytes, j))
    ensures After(D, batch, bytes, k) == Stopped(ValueError) <==>
              k > 0 && (Blocks(D).None? || exists j :: 0 <= j < k && MeetsItself(D, batch, bytes, j))
    ensures After(D, batch, bytes, k) == Stopped(AssertionError) <==> k > 0 && Blocks(D).Some? && D == 0
    decreases k
  {
    hide *;
    AfterUnfold(D, batch, bytes, k);
    if k > 0 {
      AfterUnfold(D, batch, bytes, k - 1);
      RunOutcome(D, batch, bytes, k - 1);
      RunKeeps(D, batch, bytes, k - 1);
      MeetsIs(D, batch, bytes, k - 1);
      var before := After(D, batch, bytes, k - 1);
      if before.Running? {
        StepOutcome(before.run, D, batch, bytes, k - 1);
      }
    }
  }

  lemma MeetsIs(D: nat, batch: Batch, bytes: map<string, int>, j: nat)
    requires j < |batch|
    ensures var o := After(D, batch, bytes, j);
            MeetsItself(D, batch, bytes, j) <==> o.Running? && Alone(o.run, batch[j].0)
  {
    hide After, Alone;
  }

  /** A step touches no vector but the last. */
  lemma StepFreezes(r: Run, D: nat, name: string, seed: int, bytes: map<string, int>, i: nat)
    requires r.vectors != [] && i < |r.vectors| - 1 && Step(r, D, name, seed, bytes).Running?
    ensures var vs := Step(r, D, name, seed, bytes).run.vectors; i < |vs| - 1 && vs[i] == r.vectors[i]
  {
    hide TryBind, Seal, Empty;
  }

  /** Sealed vectors are frozen: no later state changes them. */
  lemma {:induction false} SealedAreFrozen(D: nat, batch: Batch, bytes: map<string, int>, k: nat, m: nat, i: nat)
    requires k <= m <= |batch|
    requires After(D, batch, bytes, k).Running? && After(D, batch, bytes, m).Running?
    requires i < |After(D, batch, bytes, k).run.vectors| - 1
    ensures i < |After(D, batch, bytes, m).run.vectors| - 1
    ensures After(D, batch, bytes, m).run.vectors[i] == After(D, batch, bytes, k).run.vectors[i]
    decreases m
  {
    hide *;
    if k < m {
      AfterUnfold(D, batch, bytes, m);
      SealedAreFrozen(D, batch, bytes, k, m - 1, i);
      StepFreezes(After(D, batch, bytes, m - 1).run, D, batch[m - 1].0, batch[m - 1].1, bytes, i);
    }
  }

  /** Stretch i starts where the ones before it end. */
  lemma {:induction false} PartAt(parts: seq<Batch>, i: nat, a: nat)
    requires i < |parts| && a < |parts[i]|
    ensures |Joined(parts[..i])| + a < |Joined(parts)|
    ensures Joined(parts)[|Joined(parts[..i])| + a] == parts[i][a]
    decreases |parts|
  {
    var init := parts[..|parts| - 1];
    if i < |parts| - 1 {
      PartAt(init, i, a);
      assert init[..i] == parts[..i];
    }
  }

  lemma {:induction false} PartsOrdered(parts: seq<Batch>, i: nat, j: nat)
    requires i < j <= |parts|
    ensures |Joined(parts[..i])| + |parts[i]| <= |Joined(parts[..j])|
    decreases j
  {
    assert parts[..j][..j - 1] == parts[..j - 1];
    if i < j - 1 {
      PartsOrdered(parts, i, j - 1);
    }
  }

  /** Every position of the joined stretches lies in one of them. */
  lemma {:induction false} PartWith(parts: seq<Batch>, p: nat) returns (i: nat, a: nat)
    requires p < |Joined(parts)|
    ensures i < |parts| && a < |parts[i]| && parts[i][a] == Joined(parts)[p]
    decreases |parts|
  {
    var init := parts[..|parts| - 1];
    if p < |Joined(init)| {
      i, a := PartWith(init, p);
    } else {
      i, a := |parts| - 1, p - |Joined(init)|;
    }
  }

  /** A vector's names are those of its stretch. */
  lemma NamesOfPart(vs: seq<Vector>, D: nat, parts: seq<Batch>, i: nat)
    requires HoldsParts(vs, D, parts) && i < |vs|
    ensures |vs| == |parts| && vs[i].eps == Names(parts[i]) && vs[i].D == D
    ensures parts[i] == [] ==> i == |vs| - 1
    ensures parts[i] != [] ==> Blocks(D).Some?
  {
    hide Superpose, Binds, Blocks, Dicts, RecallOk, Names;
    if i < |vs| - 1 { assert ClosedAt(vs, D, parts, i); }
  }

  /** A name in stretches i < j of a batch occurs there twice. */
  lemma TwoPlaces(batch: Batch, parts: seq<Batch>, k: nat, i: nat, j: nat, e: string) returns (p: nat, q: nat)
    requires k <= |batch| && Joined(parts) == batch[..k] && i < j < |parts|
    requires e in Names(parts[i]) && e in Names(parts[j])
    ensures p < q < k && batch[p].0 == batch[q].0 == e
  {
    var a :| 0 <= a < |parts[i]| && Names(parts[i])[a] == e;
    var b :| 0 <= b < |parts[j]| && Names(parts[j])[b] == e;
    hide Joined;
    PartAt(parts, i, a);
    PartAt(parts, j, b);
    PartsOrdered(parts, i, j);
    p, q := |Joined(parts[..i])| + a, |Joined(parts[..j])| + b;
    assert batch[..k][p] == batch[p] && batch[..k][q] == batch[q];
  }

  /** After k episodes a name is held exactly when it was processed, and by two vectors only when it was processed
      twice. */
  lemma WhereHeld(D: nat, batch: Batch, bytes: map<string, int>, k: nat, e: string)
    requires k <= |batch| && After(D, batch, bytes, k).Running?
    ensures var vs := After(D, batch, bytes, k).run.vectors;
            && (e in Names(batch[..k]) <==> exists i :: 0 <= i < |vs| && e in vs[i].eps)
            && forall i, j :: 0 <= i < j < |vs| && e in vs[i].eps && e in vs[j].eps ==> HasTwo(batch, k, e)
  {
    hide *;
    RunKeeps(D, batch, bytes, k);
    var r := After(D, batch, bytes, k).run;
    var parts := PartsOf(r, D, batch, bytes, k);
    if e in Names(batch[..k]) { HeldSomewhere(r.vectors, D, batch, k, parts, e); }
    forall i | 0 <= i < |r.vectors| && e in r.vectors[i].eps ensures e in Names(batch[..k]) {
      HeldProcessed(r.vectors, D, batch, k, parts, i, e);
    }
    forall i, j | 0 <= i < j < |r.vectors| && e in r.vectors[i].eps && e in r.vectors[j].eps
      ensures HasTwo(batch, k, e)
    {
      NamesOfPart(r.vectors, D, parts, i);
      NamesOfPart(r.vectors, D, parts, j);
      var p, q := TwoPlaces(batch, parts, k, i, j, e);
      TwoIs(batch, k, e, p, q);
    }
  }

  /** Name e occurs twice among the first k episodes. */
  predicate HasTwo(batch: Batch, k: nat, e: string)
    requires k <= |batch|
  {
    exists p, q :: 0 <= p < q < k && batch[p].0 == batch[q].0 == e
  }

  lemma TwoIs(batch: Batch, k: nat, e: string, p: nat, q: nat)
    requires p < q < k <= |batch| && batch[p].0 == batch[q].0 == e
    ensures HasTwo(batch, k, e)
  {
  }

  lemma HeldSomewhere(vs: seq<Vector>, D: nat, batch: Batch, k: nat, parts: seq<Batch>, e: string)
    requires k <= |batch| && HoldsParts(vs, D, parts) && Joined(parts) == batch[..k] && e in Names(batch[..k])
    ensures exists i :: 0 <= i < |vs| && e in vs[i].eps
  {
    hide HoldsParts, Joined;
    LastIsSound(vs, D, parts);
    var p :| 0 <= p < k && batch[..k][p].0 == e;
    var i, a := PartWith(parts, p);
    NamesOfPart(vs, D, parts, i);
    assert Names(parts[i])[a] == e;
    assert e in vs[i].eps;
  }

  lemma HeldProcessed(vs: seq<Vector>, D: nat, batch: Batch, k: nat, parts: seq<Batch>, i: nat, e: string)
    requires k <= |batch| && HoldsParts(vs, D, parts) && Joined(parts) == batch[..k] && i < |vs| && e in vs[i].eps
    ensures e in Names(batch[..k])
  {
    hide HoldsParts, Joined;
    NamesOfPart(vs, D, parts, i);
    var a :| 0 <= a < |parts[i]| && Names(parts[i])[a] == e;
    PartAt(parts, i, a);
    assert Names(batch[..k])[|Joined(parts[..i])| + a] == e;
  }

  /** A closed vector lost the entries of a name it holds: it was not full and refused an episode of that name. */
  predicate Torn(vs: seq<Vector>, i: nat) {
    && i + 1 < |vs| && |vs[i].eps| < CAP
    && vs[i + 1].eps != [] && vs[i + 1].eps[0] in vs[i].eps
  }

  /** The final recall check of a run: KeyError exactly for the torn vectors, and true for all others. */
  lemma FinalRecall(r: Run, D: nat, batch: Batch, bytes: map<string, int>, k: nat, i: nat)
    requires k <= |batch| && RunKept(r, D, batch, bytes, k) && i < |r.vectors|
    ensures RecallOk(r.vectors[i]) == if Torn(r.vectors, i) then Raised(KeyError) else Done(true)
  {
    hide *;
    var vs := r.vectors;
    var parts := PartsOf(r, D, batch, bytes, k);
    LastIsSound(vs, D, parts);
    TornIs(vs, i);
    if i < |vs| - 1 {
      NamesOfPart(vs, D, parts, i);
      NamesOfPart(vs, D, parts, i + 1);
      ClosedParts(vs, D, parts, i);
    } else {
      SoundParts(vs[i], parts[i]);
    }
  }

  lemma TornIs(vs: seq<Vector>, i: nat)
    ensures Torn(vs, i) <==> i + 1 < |vs| && |vs[i].eps| < CAP && vs[i + 1].eps != [] && vs[i + 1].eps[0] in vs[i].eps
  {
  }

  lemma ClosedParts(vs: seq<Vector>, D: nat, parts: seq<Batch>, i: nat)
    requires HoldsParts(vs, D, parts) && i + 1 < |vs|
    ensures parts[i + 1] != [] && |Names(parts[i])| == |parts[i]| && Names(parts[i + 1])[0] == parts[i + 1][0].0
    ensures RecallOk(vs[i]) ==
              if |parts[i]| < CAP && parts[i + 1][0].0 in Names(parts[i]) then Raised(KeyError) else Done(true)
  {
    assert ClosedAt(vs, D, parts, i);
    hide RecallOk, Books, Dicts, Shadow;
  }

  predicate Distinct(s: seq<string>) {
    forall i, j :: 0 <= i < j < |s| ==> s[i] != s[j]
  }

  /** An episode can meet only itself right after an episode of the same name. */
  lemma MeetsAfterItself(D: nat, batch: Batch, bytes: map<string, int>, j: nat)
    requires j < |batch| && MeetsItself(D, batch, bytes, j)
    ensures j > 0 && batch[j - 1].0 == batch[j].0
  {
    hide *;
    MeetsIs(D, batch, bytes, j);
    RunKeeps(D, batch, bytes, j);
    var r := After(D, batch, bytes, j).run;
    AloneIs(r, batch[j].0);
    var parts := PartsOf(r, D, batch, bytes, j);
    LastIsSound(r.vectors, D, parts);
    var last := |r.vectors| - 1;
    NamesOfPart(r.vectors, D, parts, last);
    LoneName(parts[last], batch[j].0);
    JoinedEnd(parts);
    LastEpisode(batch[..j], Joined(parts[..last]), parts[last][0]);
    assert batch[..j][j - 1] == batch[j - 1];
  }

  lemma LoneName(h: Batch, name: string)
    requires Names(h) == [name]
    ensures |h| == 1 && h[0].0 == name && h == [h[0]]
  {
    assert |Names(h)| == 1 && Names(h)[0] == h[0].0;
  }

  lemma LastEpisode(b: Batch, a: Batch, ep: (string, int))
    requires b == a + [ep]
    ensures |b| > 0 && b[|b| - 1] == ep
  {
  }

  /** A batch that starts with one name twice always ends in the ValueError of an empty maximum. */
  lemma RepeatAtOnce(D: nat, batch: Batch, bytes: map<string, int>)
    requires |batch| >= 2 && batch[0].0 == batch[1].0 && Blocks(D).Some? && D > 0
    ensures After(D, batch, bytes, 2) == Stopped(ValueError)
  {
    hide *;
    FirstStep(D, batch, bytes);
    FreshNamesOf(D, batch[0].0, batch[0].1);
    AloneIs(After(D, batch, bytes, 1).run, batch[1].0);
    MeetsIs(D, batch, bytes, 1);
    RunOutcome(D, batch, bytes, 2);
  }

  /** What the first step does in a dimension that works. */
  lemma FirstStep(D: nat, batch: Batch, bytes: map<string, int>)
    requires batch != [] && Blocks(D).Some? && D > 0
    ensures var o := After(D, batch, bytes, 1);
            o.Running? && o.run.vectors == [Shadow(Empty(D), batch[0].0, batch[0].1)]
    ensures !RefusesHeld(D, batch, bytes, 0)
  {
    StartVectors(D, batch);
    hide *;
    AfterUnfold(D, batch, bytes, 0);
    AfterUnfold(D, batch, bytes, 1);
    StepFromStart(Start(D, batch), D, batch[0].0, batch[0].1, bytes);
    RefusesIs(D, batch, bytes, 0);
    RefusedIs([Empty(D)], batch[0].0, batch[0].1);
  }

  lemma StepFromStart(r: Run, D: nat, name: string, seed: int, bytes: map<string, int>)
    requires r.vectors == [Empty(D)] && Blocks(D).Some? && D > 0
    ensures var o := Step(r, D, name, seed, bytes); o.Running? && o.run.vectors == [Shadow(Empty(D), name, seed)]
  {
    hide *;
    StepCases(r, D, name, seed, bytes);
    FreshAccepts(D, name, seed);
    FreshShadow(D, name, seed);
    var w := Shadow(Empty(D), name, seed);
    assert [Empty(D)][0 := w] == [w];
    EvictKeeps(r, [w], bytes, name);
  }

  lemma FreshShadow(D: nat, name: string, seed: int)
    requires TryBind(Empty(D), name, seed).1 == Done(true)
    ensures TryBind(Empty(D), name, seed).0 == Shadow(Empty(D), name, seed)
    ensures Shadow(Empty(D), name, seed).eps == [name]
  {
    TryBindCases(Empty(D), name, seed);
    hide TryBind, Shadow, RecallOk, Blocks;
  }

  /** The smallest batches that can tear a vector: names a, b, a, the last two with one seed. The run always goes
      through, and its vector is torn if and only if b was accepted beside a. */
  lemma TornBatch(D: nat, a: string, b: string, seed: int, twin: int, bytes: map<string, int>)
    requires a != b && Blocks(D).Some? && D > 0
    ensures var o := After(D, [(a, seed), (b, twin), (a, twin)], bytes, 3);
            && o.Running?
            && ((exists i: nat :: Torn(o.run.vectors, i)) <==>
                  TryBind(Shadow(Empty(D), a, seed), b, twin).1 == Done(true))
  {
    hide *;
    var batch: Batch := [(a, seed), (b, twin), (a, twin)];
    ThreeNames(batch, a, b);
    AdjacentRuns(D, batch, bytes, 2);
    AdjacentRuns(D, batch, bytes, 3);
    FirstStep(D, batch, bytes);
    var v := Shadow(Empty(D), a, seed);
    var r1, r2 := After(D, batch, bytes, 1).run, After(D, batch, bytes, 2).run;
    SecondStep(D, batch, bytes);
    RefusesIs(D, batch, bytes, 1);
    RefusesIs(D, batch, bytes, 2);
    FreshNamesOf(D, a, seed);
    RefusedIs(r1.vectors, b, twin);
    RefusedIs(r2.vectors, a, twin);
    TornIff(D, batch, bytes, 3);
    CapIs();
    if TryBind(v, b, twin).1 == Done(true) {
      TwinTears(D, batch, bytes, 2);
    } else {
      assert forall j: nat :: j < 3 ==> !RefusesHeld(D, batch, bytes, j);
    }
  }

  lemma CapIs()
    ensures CAP == 32
  {
  }

  lemma FreshNamesOf(D: nat, name: string, seed: int)
    ensures Shadow(Empty(D), name, seed).eps == [name]
  {
    hide Carrier, Idvec, Contribution, Add;
  }

  lemma ThreeNames(batch: Batch, a: string, b: string)
    requires |batch| == 3 && batch[0].0 == batch[2].0 == a != b == batch[1].0
    ensures NoneInARow(Names(batch))
  {
  }

  /** After two episodes: one vector with both names, or the second name alone in the last one. */
  lemma SecondStep(D: nat, batch: Batch, bytes: map<string, int>)
    requires |batch| >= 2 && Blocks(D).Some? && D > 0 && After(D, batch, bytes, 2).Running?
    ensures var v, vs := Shadow(Empty(D), batch[0].0, batch[0].1), After(D, batch, bytes, 2).run.vectors;
            && vs != []
            && (TryBind(v, batch[1].0, batch[1].1).1 == Done(true) ==>
                  vs[|vs| - 1].eps == [batch[0].0, batch[1].0])
            && (TryBind(v, batch[1].0, batch[1].1).1 != Done(true) ==> vs[|vs| - 1].eps == [batch[1].0])
  {
    hide *;
    FirstStep(D, batch, bytes);
    AfterUnfold(D, batch, bytes, 2);
    var r, name, seed := After(D, batch, bytes, 1).run, batch[1].0, batch[1].1;
    var v := r.vectors[0];
    var tried, next := TryBind(v, name, seed), TryBind(Empty(D), name, seed);
    StepCases(r, D, name, seed, bytes);
    ThreeWays(tried.1);
    ThreeWays(next.1);
    TriedNames(v, name, seed);
    FreshNamesOf(D, batch[0].0, batch[0].1);
    FreshNames(D, name, seed);
    assert [batch[0].0] + [name] == [batch[0].0, name];
    EvictKeeps(r, r.vectors[0 := tried.0], bytes, name);
    EvictKeeps(r, r.vectors[0 := Seal(tried.0)] + [next.0], bytes, name);
  }

  lemma NeverTwice(batch: Batch, k: nat, e: string)
    requires k <= |batch| && Distinct(Names(batch))
    ensures !HasTwo(batch, k, e)
  {
    forall p, q | 0 <= p < q < k ensures !(batch[p].0 == batch[q].0 == e) {
      assert Names(batch)[p] != Names(batch)[q];
    }
  }

  /** No name directly follows itself. */
  predicate NoneInARow(names: seq<string>) {
    forall j :: 0 < j < |names| ==> names[j - 1] != names[j]
  }

  /** When no name directly follows itself, a run goes on if and only if the dimension is positive and tiles. */
  lemma AdjacentRuns(D: nat, batch: Batch, bytes: map<string, int>, k: nat)
    requires k <= |batch| && NoneInARow(Names(batch))
    ensures After(D, batch, bytes, k).Running? <==> k == 0 || (Blocks(D).Some? && D > 0)
  {
    RunOutcome(D, batch, bytes, k);
    hide After, Blocks, MeetsItself;
    forall j | 0 <= j < k ensures !MeetsItself(D, batch, bytes, j) {
      if MeetsItself(D, batch, bytes, j) {
        MeetsAfterItself(D, batch, bytes, j);
        assert false;
      }
    }
  }

  /** Step k refuses a name that the vector it meets holds, below the cap: the branch that deletes entries in use. */
  predicate RefusesHeld(D: nat, batch: Batch, bytes: map<string, int>, k: nat)
    requires k < |batch|
  {
    var o := After(D, batch, bytes, k);
    o.Running? && RefusedHeld(o.run.vectors, batch[k].0, batch[k].1)
  }

  predicate RefusedHeld(vs: seq<Vector>, name: string, seed: int) {
    && vs != [] && name in vs[|vs| - 1].eps && |vs[|vs| - 1].eps| < CAP
    && TryBind(vs[|vs| - 1], name, seed).1 == Done(false)
  }

  /** A step that goes on tears the vector it closes, when it refuses a held name, and no other. */
  lemma StepTorn(r: Run, D: nat, name: string, seed: int, bytes: map<string, int>, i: nat)
    requires r.vectors != [] && Step(r, D, name, seed, bytes).Running?
    requires |r.vectors| > 1 ==> r.vectors[|r.vectors| - 1].eps != []
    ensures Torn(Step(r, D, name, seed, bytes).run.vectors, i) <==>
              Torn(r.vectors, i) || (i == |r.vectors| - 1 && RefusedHeld(r.vectors, name, seed))
  {
    hide *;
    var vs, last := r.vectors, |r.vectors| - 1;
    var tried, next := TryBind(vs[last], name, seed), TryBind(Empty(D), name, seed);
    StepCases(r, D, name, seed, bytes);
    ThreeWays(tried.1);
    ThreeWays(next.1);
    TriedNames(vs[last], name, seed);
    RefusedIs(vs, name, seed);
    TornIs(vs, i);
    if tried.1 == Done(true) {
      EvictKeeps(r, vs[last := tried.0], bytes, name);
      TornIs(vs[last := tried.0], i);
    } else {
      FreshNames(D, name, seed);
      SealKeeps(tried.0, [], {});
      EvictKeeps(r, vs[last := Seal(tried.0)] + [next.0], bytes, name);
      TornIs(vs[last := Seal(tried.0)] + [next.0], i);
    }
  }

  lemma RefusedIs(vs: seq<Vector>, name: string, seed: int)
    requires vs != []
    ensures RefusedHeld(vs, name, seed) <==>
              && name in vs[|vs| - 1].eps && |vs[|vs| - 1].eps| < CAP
              && TryBind(vs[|vs| - 1], name, seed).1 == Done(false)
  {
    hide TryBind;
  }

  lemma TriedNames(v: Vector, name: string, seed: int)
    ensures TryBind(v, name, seed).1 == Done(true) ==> TryBind(v, name, seed).0.eps == v.eps + [name]
    ensures TryBind(v, name, seed).1 == Done(false) ==> TryBind(v, name, seed).0.eps == v.eps
  {
    hide RecallOk, Blocks, Carrier, Idvec, Contribution, Add;
  }

  lemma FreshNames(D: nat, name: string, seed: int)
    ensures TryBind(Empty(D), name, seed).1 == Done(true) ==> TryBind(Empty(D), name, seed).0.eps == [name]
  {
    TriedNames(Empty(D), name, seed);
    hide TryBind;
  }

  lemma RefusesIs(D: nat, batch: Batch, bytes: map<string, int>, k: nat)
    requires k < |batch|
    ensures var o := After(D, batch, bytes, k);
            RefusesHeld(D, batch, bytes, k) <==> o.Running? && RefusedHeld(o.run.vectors, batch[k].0, batch[k].1)
  {
    hide After, RefusedHeld;
  }

  lemma LaterNonempty(r: Run, D: nat, batch: Batch, bytes: map<string, int>, k: nat)
    requires k <= |batch| && RunKept(r, D, batch, bytes, k)
    ensures r.vectors != [] && (|r.vectors| > 1 ==> r.vectors[|r.vectors| - 1].eps != [])
  {
    hide *;
    var parts := PartsOf(r, D, batch, bytes, k);
    var vs, last := r.vectors, |r.vectors| - 1;
    LastIsSound(vs, D, parts);
    if last > 0 {
      ClosedParts(vs, D, parts, last - 1);
      NamesOfPart(vs, D, parts, last);
    }
  }

  /** A run holds a torn vector if and only if some step of it refused a held name below the cap. */
  lemma {:induction false} TornIff(D: nat, batch: Batch, bytes: map<string, int>, k: nat)
    requires k <= |batch| && After(D, batch, bytes, k).Running?
    ensures (exists i: nat :: Torn(After(D, batch, bytes, k).run.vectors, i)) <==>
            exists j: nat :: j < k && RefusesHeld(D, batch, bytes, j)
    decreases k
  {
    hide *;
    AfterUnfold(D, batch, bytes, k);
    if k == 0 {
      StartVectors(D, batch);
      forall i: nat ensures !Torn(After(D, batch, bytes, 0).run.vectors, i) {
        TornIs([Empty(D)], i);
      }
    } else {
      TornIff(D, batch, bytes, k - 1);
      RunKeeps(D, batch, bytes, k - 1);
      var r := After(D, batch, bytes, k - 1).run;
      LaterNonempty(r, D, batch, bytes, k - 1);
      RefusesIs(D, batch, bytes, k - 1);
      var vs := After(D, batch, bytes, k).run.vectors;
      forall i: nat
        ensures Torn(vs, i) <==>
                  Torn(r.vectors, i) || (i == |r.vectors| - 1 && RefusesHeld(D, batch, bytes, k - 1))
      {
        StepTorn(r, D, batch[k - 1].0, batch[k - 1].1, bytes, i);
      }
      if RefusesHeld(D, batch, bytes, k - 1) { assert Torn(vs, |r.vectors| - 1); }
    }
  }

  /** Two names with one address and id tie, so the gate refuses. */
  lemma TwinRefused(v: Vector, h: Batch, name: string, twin: string, seed: int)
    requires Sound(v, h) && !v.sealed && |v.eps| < CAP && twin in v.eps && twin != name
    requires twin in Latest(h) && Latest(h)[twin] == seed
    ensures TryBind(v, name, seed).1 == Done(false)
  {
    var w := Shadow(v, name, seed);
    SoundParts(v, h);
    TwinEntries(v, h, name, twin, seed);
    ShadowWhole(v, h, name, seed);
    TryBindCases(v, name, seed);
    hide TryBind, Blocks, Score, Books, Dicts, Shadow, Latest;
    assert name in w.eps && twin in w.eps && w.eps[0] in w.eps;
    assert w.eps == v.eps + [name] && w.D == v.D;
    assert !Recalls(w, name);
    hide Recalls;
    assert !Gate(w);
    NotOne(w.eps, name, twin);
  }

  lemma NotOne(eps: seq<string>, a: string, b: string)
    requires a in eps && b in eps && a != b
    ensures !OneName(eps)
  {
  }

  lemma TwinEntries(v: Vector, h: Batch, name: string, twin: string, seed: int)
    requires Books(v, h) && Dicts(v, h, {}) && twin in v.eps && twin != name
    requires twin in Latest(h) && Latest(h)[twin] == seed
    ensures var w := Shadow(v, name, seed);
            && name in w.addr && twin in w.addr && w.addr[name] == w.addr[twin] && w.id[name] == w.id[twin]
            && name in w.eps && twin in w.eps
  {
    hide Superpose, Binds, Blocks, Carrier, Idvec, Contribution, Add, Latest;
    var w := Shadow(v, name, seed);
    assert w.eps[|v.eps|] == name;
    assert Generated(v, twin, Latest(h)[twin]);
    assert w.addr == v.addr[name := Carrier(seed, v.D)] && w.id == v.id[name := Idvec(seed, v.D)];
  }

  /** The episode bound last, in the open vector. */
  lemma LastBound(r: Run, D: nat, batch: Batch, bytes: map<string, int>, k: nat) returns (h: Batch)
    requires 0 < k <= |batch| && RunKept(r, D, batch, bytes, k) && r.vectors != []
    requires r.vectors[|r.vectors| - 1].eps != []
    ensures var v := r.vectors[|r.vectors| - 1];
            && Sound(v, h) && v.D == D && !v.sealed && batch[k - 1].0 in v.eps
            && batch[k - 1].0 in Latest(h) && Latest(h)[batch[k - 1].0] == batch[k - 1].1
  {
    hide *;
    var parts := PartsOf(r, D, batch, bytes, k);
    var vs, last := r.vectors, |r.vectors| - 1;
    LastIsSound(vs, D, parts);
    h := parts[last];
    SoundParts(vs[last], h);
    JoinedEnd(parts);
    EndOf(h);
    assert batch[..k][k - 1] == (Joined(parts[..last]) + h)[k - 1];
  }

  lemma EndOf(h: Batch)
    requires Names(h) != []
    ensures h != [] && h[|h| - 1].0 in Names(h)
    ensures h[|h| - 1].0 in Latest(h) && Latest(h)[h[|h| - 1].0] == h[|h| - 1].1
  {
    assert Names(h)[|h| - 1] == h[|h| - 1].0;
  }

  /** Torn runs occur: an episode that repeats a held name with the seed of the episode just before it, under another
      name, is always refused, and the run goes on with a torn vector. */
  lemma TwinTears(D: nat, batch: Batch, bytes: map<string, int>, k: nat)
    requires 0 < k < |batch| && After(D, batch, bytes, k).Running?
    requires var v := After(D, batch, bytes, k).run.vectors[|After(D, batch, bytes, k).run.vectors| - 1];
             batch[k].0 in v.eps && |v.eps| < CAP
    requires batch[k].0 != batch[k - 1].0 && batch[k].1 == batch[k - 1].1
    ensures RefusesHeld(D, batch, bytes, k) && After(D, batch, bytes, k + 1).Running?
    ensures var vs := After(D, batch, bytes, k + 1).run.vectors; |vs| >= 2 && Torn(vs, |vs| - 2)
  {
    hide *;
    RunKeeps(D, batch, bytes, k);
    RunOutcome(D, batch, bytes, k);
    RunOutcome(D, batch, bytes, k + 1);
    var r := After(D, batch, bytes, k).run;
    var h := LastBound(r, D, batch, bytes, k);
    TwinRefused(r.vectors[|r.vectors| - 1], h, batch[k].0, batch[k - 1].0, batch[k].1);
    RefusedIs(r.vectors, batch[k].0, batch[k].1);
    RefusesIs(D, batch, bytes, k);
    if MeetsItself(D, batch, bytes, k) { MeetsAfterItself(D, batch, bytes, k); }
    AfterUnfold(D, batch, bytes, k + 1);
    LaterNonempty(r, D, batch, bytes, k);
    StepTorn(r, D, batch[k].0, batch[k].1, bytes, |r.vectors| - 1);
    OneMoreVector(r, D, batch[k].0, batch[k].1, bytes);
  }

  lemma OneMoreVector(r: Run, D: nat, name: string, seed: int, bytes: map<string, int>)
    requires r.vectors != [] && Step(r, D, name, seed, bytes).Running?
    requires TryBind(r.vectors[|r.vectors| - 1], name, seed).1 == Done(false)
    ensures |Step(r, D, name, seed, bytes).run.vectors| == |r.vectors| + 1
  {
    hide TryBind, Seal, Empty;
  }

  /** With distinct names nothing but the dimension can go wrong. */
  lemma DistinctRuns(D: nat, batch: Batch, bytes: map<string, int>, k: nat)
    requires k <= |batch| && Distinct(Names(batch))
    ensures After(D, batch, bytes, k).Running? <==> k == 0 || (Blocks(D).Some? && D > 0)
    ensures After(D, batch, bytes, k).Running? ==> forall i: nat :: !Torn(After(D, batch, bytes, k).run.vectors, i)
  {
    AdjacentRuns(D, batch, bytes, k);
    hide After, Blocks, Torn;
    if After(D, batch, bytes, k).Running? {
      var vs := After(D, batch, bytes, k).run.vectors;
      forall i: nat ensures !Torn(vs, i) {
        TornIs(vs, i);
        if Torn(vs, i) {
          var e := vs[i + 1].eps[0];
          WhereHeld(D, batch, bytes, k, e);
          NeverTwice(batch, k, e);
          assert false;
        }
      }
    }
  }
}
