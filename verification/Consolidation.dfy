/** The consolidation run as a state machine over values. */
module Consolidation {
  import opened Negacyclic
  import opened Binding
  import opened Carriers

  const CAP: nat := 32

  /** What Python would raise. */
  datatype Error = ValueError | AssertionError | KeyError

  datatype Result<+T> = Done(value: T) | Raised(error: Error)

  datatype VectorState =
    VectorState(D: nat, M: Vec, eps: seq<string>, addr: map<string, Vec>, id: map<string, Vec>, sealed: bool)

  /** The two dictionaries have the same names, and entries of length D. */
  predicate Entries(D: nat, addr: map<string, Vec>, id: map<string, Vec>) {
    addr.Keys == id.Keys && forall e :: e in addr ==> |addr[e]| == D && |id[e]| == D
  }

  predicate WellFormed(v: VectorState) {
    |v.M| == v.D && Entries(v.D, v.addr, v.id)
  }

  /** One Ring-3 vector: the superposition M, the names bound into it, and an address and an id per name. */
  type Vector = v: VectorState | WellFormed(v)
    witness VectorState(0, [], [], map[], map[], false)

  function Empty(D: nat): (v: Vector)
    ensures v.eps == []
  {
    VectorState(D, Zero(D), [], map[], map[], false)
  }

  /** How strongly address a of superposition M answers with id x. */
  function Score(M: Vec, a: Vec, x: Vec): int
    requires |M| == |a| == |x|
  {
    var u := Unbind(M, a);
    if u.None? then 0 else Dot(u.value, x)
  }

  /** Every bound name has its entries. Refusing a name the vector already holds takes them away. */
  predicate Whole(v: Vector) {
    forall e :: e in v.eps ==> e in v.addr
  }

  /** Two or more episodes, all of one name, leave no other id to compare with. */
  predicate OneName(eps: seq<string>) {
    |eps| > 1 && forall e :: e in eps ==> e == eps[0]
  }

  /** Episode q recalls itself with a positive margin over every other id. */
  predicate Recalls(v: Vector, q: string)
    requires Whole(v) && q in v.eps
  {
    var own := Score(v.M, v.addr[q], v.id[q]);
    && (forall e :: e in v.eps && e != q ==> Score(v.M, v.addr[q], v.id[e]) < own)
    && (|v.eps| == 1 ==> own > 0)
  }

  /** The shadow gate: every bound episode recalls itself. */
  predicate Gate(v: Vector)
    requires Whole(v)
  {
    forall q :: q in v.eps ==> Recalls(v, q)
  }

  /** _recall_ok on values: a missing entry, an untileable dimension and an empty maximum raise. */
  function RecallOk(v: Vector): Result<bool> {
    if v.eps == [] then Done(true)
    else if v.eps[0] !in v.addr then Raised(KeyError)
    else if Blocks(v.D).None? then Raised(ValueError)
    else if !Whole(v) then Raised(KeyError)
    else if OneName(v.eps) then Raised(ValueError)
    else Done(Gate(v))
  }

  /** What one episode adds to the superposition. */
  function Contribution(a: Vec, x: Vec): (r: Vec)
    requires |a| == |x|
    ensures |r| == |a|
  {
    var b := Bind(a, x);
    if b.Some? then b.value else Zero(|a|)
  }

  /** The vector with one more episode bound in. */
  function Shadow(v: Vector, name: string, seed: int): (w: Vector)
    ensures w.eps == v.eps + [name] && w.D == v.D
  {
    hide Carrier, Idvec, Contribution, Add;
    var a, x := Carrier(seed, v.D), Idvec(seed, v.D);
    VectorState(v.D, Add(v.M, Contribution(a, x)), v.eps + [name], v.addr[name := a], v.id[name := x], v.sealed)
  }

  /** The vector after the dictionary entries were written and a call then raised. */
  function Entered(v: Vector, name: string, seed: int): Vector {
    v.(addr := v.addr[name := Carrier(seed, v.D)], id := v.id[name := Idvec(seed, v.D)])
  }

  /** The vector after the two dictionary entries are deleted again. */
  function Withdrawn(v: Vector, name: string): Vector {
    v.(addr := v.addr - {name}, id := v.id - {name})
  }

  /** try_bind on values: the new vector, and whether it accepted or what it raised. */
  function TryBind(v: Vector, name: string, seed: int): (Vector, Result<bool>) {
    if v.sealed || |v.eps| >= CAP then (v, Done(false))
    else if Blocks(v.D).None? then (Entered(v, name, seed), Raised(ValueError))
    else
      match RecallOk(Shadow(v, name, seed))
      case Raised(e) => (Entered(v, name, seed), Raised(e))
      case Done(ok) => (if ok then Shadow(v, name, seed) else Withdrawn(v, name), Done(ok))
  }

  type Batch = seq<(string, int)>

  datatype Run = Run(vectors: seq<Vector>, consolidated: seq<string>, resident: set<string>, freed: int)

  /** How a run stands: still going, or stopped by an exception. */
  datatype Outcome = Running(run: Run) | Stopped(error: Error)

  function Names(batch: Batch): (r: seq<string>)
    ensures |r| == |batch| && forall k :: 0 <= k < |batch| ==> r[k] == batch[k].0
  {
    seq(|batch|, k requires 0 <= k < |batch| => batch[k].0)
  }

  function SizeOf(name: string, bytes: map<string, int>): int {
    if name in bytes then bytes[name] else 0
  }

  /** Promote and evict. */
  function Evict(r: Run, vectors: seq<Vector>, name: string, bytes: map<string, int>): Run {
    Run(vectors, r.consolidated + [name], r.resident - {name}, r.freed + SizeOf(name, bytes))
  }

  function Seal(v: Vector): Vector {
    v.(sealed := true)
  }

  /** One episode: bind into the last vector, or seal it and bind into a fresh one. */
  function Step(r: Run, D: nat, name: string, seed: int, bytes: map<string, int>): (o: Outcome)
    requires r.vectors != []
    ensures o.Running? ==> o.run.vectors != []
  {
    var last := |r.vectors| - 1;
    var tried := TryBind(r.vectors[last], name, seed);
    if tried.1.Raised? then Stopped(tried.1.error)
    else if tried.1.value then Running(Evict(r, r.vectors[last := tried.0], name, bytes))
    else
      var next := TryBind(Empty(D), name, seed);
      if next.1.Raised? then Stopped(next.1.error)
      else if !next.1.value then Stopped(AssertionError)
      else Running(Evict(r, r.vectors[last := Seal(tried.0)] + [next.0], name, bytes))
  }

  function Start(D: nat, batch: Batch): Run {
    Run([Empty(D)], [], set e | e in Names(batch), 0)
  }

  /** The run after k episodes. */
  function After(D: nat, batch: Batch, bytes: map<string, int>, k: nat): (o: Outcome)
    requires k <= |batch|
    ensures o.Running? ==> o.run.vectors != []
  {
    if k == 0 then Running(Start(D, batch))
    else
      var before := After(D, batch, bytes, k - 1);
      if before.Running? then Step(before.run, D, batch[k - 1].0, batch[k - 1].1, bytes) else before
  }
}
