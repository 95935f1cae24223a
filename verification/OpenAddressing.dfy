/** Linear-probe tables: the byte-string map of tokenizer.c and the id-pair map of gemma4_bpe.c.
    Both are shown to be first-writer-wins maps whose probe loops terminate. */
module OpenAddressing {
  import opened Basics

  /** The source's hash & mask: the capacity is a power of two, so the mask is a remainder. */
  function Slot(h: nat, cap: nat): (i: nat)
    requires cap > 0
    ensures i < cap
  {
    h % cap
  }

  /** The source's (i + 1) & mask. */
  function Next(i: nat, cap: nat): (j: nat)
    requires i < cap
    ensures j == if i + 1 == cap then 0 else i + 1
  {
    (i + 1) % cap
  }

  /** The slot reached after d probes from slot home (the source's (home + d) & mask). */
  function At(home: nat, d: nat, cap: nat): (i: nat)
    requires home < cap && d < cap
    ensures i < cap
  {
    if home + d < cap then home + d else home + d - cap
  }

  /** Number of probes from home to slot i; the inverse of At in its second argument. */
  function Dist(home: nat, i: nat, cap: nat): (d: nat)
    requires home < cap && i < cap
    ensures d < cap && At(home, d, cap) == i
  {
    if home <= i then i - home else i + cap - home
  }

  /** Slot contents, keys only, together with where each stored key sits: every stored key is in one
      slot, and no probe path from a key's home to its slot crosses an empty slot. */
  ghost predicate Indexed<K(!new)>(cells: seq<Option<K>>, hash: K -> nat, pos: map<K, nat>) {
    && |cells| > 0
    && (forall k :: k in pos ==> pos[k] < |cells| && cells[pos[k]] == Some(k))
    && (forall i :: 0 <= i < |cells| && cells[i].Some? ==> cells[i].value in pos && pos[cells[i].value] == i)
    && (forall k, d: nat :: k in pos && d <= Dist(Slot(hash(k), |cells|), pos[k], |cells|)
                            ==> cells[At(Slot(hash(k), |cells|), d, |cells|)].Some?)
  }

  function Below(n: nat): (s: set<nat>)
    ensures |s| == n && forall i :: i in s <==> 0 <= i < n
  {
    if n == 0 then {} else Below(n - 1) + {n - 1}
  }

  lemma FewValues<K>(m: map<K, nat>)
    ensures |m.Values| <= |m|
  {
    if m.Keys != {} {
      var k :| k in m;
      var rest := m - {k};
      FewValues(rest);
      assert m.Keys == rest.Keys + {k};
      assert m.Values <= rest.Values + {m[k]} by {
        forall v | v in m.Values ensures v in rest.Values + {m[k]} {
          var q :| q in m && m[q] == v;
          if q != k { assert rest[q] == v; }
        }
      }
      Subset(m.Values, rest.Values + {m[k]});
    } else {
      assert m.Values == {};
    }
  }

  lemma Subset<T>(a: set<T>, b: set<T>)
    requires a <= b
    ensures |a| <= |b|
  {
    assert b == a + (b - a);
  }

  /** A table that stores fewer keys than it has slots has an empty slot. */
  lemma HasHole<K(!new)>(cells: seq<Option<K>>, hash: K -> nat, pos: map<K, nat>) returns (i: nat)
    requires Indexed(cells, hash, pos) && |pos| < |cells|
    ensures i < |cells| && cells[i] == None
  {
    var all := Below(|cells|);
    FewValues(pos);
    if all <= pos.Values { Subset(all, pos.Values); }
    forall j | 0 <= j < |cells| && cells[j].Some? ensures j in pos.Values {
      assert pos[cells[j].value] == j;
    }
    i :| i in all && i !in pos.Values;
  }

  /** Progress of one probe sequence: d slots from the home of k hold other keys. */
  ghost predicate Probed<K(!new)>(cells: seq<Option<K>>, home: nat, k: K, d: nat) {
    && home < |cells| && d < |cells|
    && forall e: nat :: e < d ==> cells[At(home, e, |cells|)].Some? && cells[At(home, e, |cells|)] != Some(k)
  }

  /** A probe sequence never runs past the slot that stores its key. */
  lemma StoredKeyEndsProbe<K(!new)>(cells: seq<Option<K>>, hash: K -> nat, pos: map<K, nat>, k: K, d: nat)
    requires Indexed(cells, hash, pos) && Probed(cells, Slot(hash(k), |cells|), k, d)
    ensures k in pos ==> d <= Dist(Slot(hash(k), |cells|), pos[k], |cells|)
  {
  }

  /** Reaching an empty slot proves the key absent. */
  lemma EmptyMeansAbsent<K(!new)>(cells: seq<Option<K>>, hash: K -> nat, pos: map<K, nat>, k: K, d: nat)
    requires Indexed(cells, hash, pos) && Probed(cells, Slot(hash(k), |cells|), k, d)
    requires cells[At(Slot(hash(k), |cells|), d, |cells|)] == None
    ensures k !in pos
  {
    StoredKeyEndsProbe(cells, hash, pos, k, d);
  }

  /** A probe that keeps missing still has an empty slot ahead of it, so it terminates. */
  lemma ProbeContinues<K(!new)>(cells: seq<Option<K>>, hash: K -> nat, pos: map<K, nat>, k: K, d: nat)
    requires Indexed(cells, hash, pos) && |pos| < |cells|
    requires Probed(cells, Slot(hash(k), |cells|), k, d)
    requires cells[At(Slot(hash(k), |cells|), d, |cells|)].Some?
    requires cells[At(Slot(hash(k), |cells|), d, |cells|)] != Some(k)
    ensures Probed(cells, Slot(hash(k), |cells|), k, d + 1)
    ensures At(Slot(hash(k), |cells|), d + 1, |cells|) == Next(At(Slot(hash(k), |cells|), d, |cells|), |cells|)
  {
    var hole := HasHole(cells, hash, pos);
    var far := Dist(Slot(hash(k), |cells|), hole, |cells|);
    assert cells[At(Slot(hash(k), |cells|), far, |cells|)] == None;
  }

  /** Writing an absent key into the first empty slot of its probe sequence keeps the table indexed. */
  lemma InsertKeepsIndexed<K(!new)>(cells: seq<Option<K>>, hash: K -> nat, pos: map<K, nat>, k: K, d: nat)
    requires Indexed(cells, hash, pos) && Probed(cells, Slot(hash(k), |cells|), k, d)
    requires cells[At(Slot(hash(k), |cells|), d, |cells|)] == None && k !in pos
    ensures var i := At(Slot(hash(k), |cells|), d, |cells|);
            Indexed(cells[i := Some(k)], hash, pos[k := i])
  {
    var i := At(Slot(hash(k), |cells|), d, |cells|);
    assert Dist(Slot(hash(k), |cells|), i, |cells|) == d;
  }

  /** The capacity computed by the constructors: a power of two, at least 16, at least twice want. */
  method Capacity(want: nat) returns (cap: nat)
    ensures cap >= 16 && cap >= 2 * want && exists k: nat :: cap == Pow2(k)
    ensures cap == 16 || cap < 4 * want
  {
    cap := 16;
    ghost var k: nat := 4;
    assert Pow2(4) == 16;
    while cap < want * 2
      invariant cap >= 16 && cap == Pow2(k) && (cap == 16 || cap < 4 * want)
      decreases want * 2 - cap
    {
      cap := cap * 2;
      k := k + 1;
    }
  }

  /** First writer wins. */
  function PutFirst<K, V>(m: map<K, V>, k: K, v: V): map<K, V> {
    if k in m then m else m[k := v]
  }

  datatype HEnt = HEnt(key: Bytes, val: int, used: bool)

  /** The slots hold the keys of cells and the values of m. */
  ghost predicate HoldsMap(e: seq<HEnt>, cells: seq<Option<Bytes>>, m: map<Bytes, int>) {
    && |e| == |cells|
    && forall i :: 0 <= i < |cells| ==>
         cells[i] == (if e[i].used then Some(e[i].key) else None) &&
         (e[i].used ==> e[i].key in m && m[e[i].key] == e[i].val)
  }

  lemma HoldsMapAfter(e: seq<HEnt>, cells: seq<Option<Bytes>>, m: map<Bytes, int>, i: nat, k: Bytes, v: int)
    requires HoldsMap(e, cells, m) && i < |e| && k !in m
    ensures HoldsMap(e[i := HEnt(k, v, true)], cells[i := Some(k)], m[k := v])
  {
  }

  lemma SameKeys<K, V>(pos: map<K, nat>, m: map<K, V>, k: K, i: nat, v: V)
    requires pos.Keys == m.Keys && |pos| == |m| && k !in m
    ensures pos[k := i].Keys == m[k := v].Keys && |pos[k := i]| == |m[k := v]|
  {
  }

  /** The same for the pair table, with the marker for empty. */
  ghost predicate HoldsPairs(keys: seq<int>, ranks: seq<int>, cells: seq<Option<int>>, m: map<int, int>) {
    && |keys| == |ranks| == |cells|
    && forall i :: 0 <= i < |cells| ==>
         cells[i] == (if keys[i] != EMPTY_KEY then Some(keys[i]) else None) &&
         (keys[i] != EMPTY_KEY ==> keys[i] in m && m[keys[i]] == ranks[i])
  }

  lemma HoldsPairsAfter(keys: seq<int>, ranks: seq<int>, cells: seq<Option<int>>, m: map<int, int>,
                        i: nat, k: int, v: int)
    requires HoldsPairs(keys, ranks, cells, m) && i < |keys| && k !in m && k != EMPTY_KEY
    ensures HoldsPairs(keys[i := k], ranks[i := v], cells[i := Some(k)], m[k := v])
  {
  }

  /** sp_hmap: byte-string keys, an explicit used flag. The hash is any function. */
  class ByteMap {
    const hash: Bytes -> nat
    var e: array<HEnt>
    ghost var M: map<Bytes, int>
    ghost var cells: seq<Option<Bytes>>
    ghost var pos: map<Bytes, nat>

    ghost predicate Valid()
      reads this, e
    {
      && e.Length == |cells|
      && Indexed(cells, hash, pos)
      && pos.Keys == M.Keys && |pos| == |M|
      && HoldsMap(e[..], cells, M)
    }

    lemma IsValid()
      requires e.Length == |cells| && Indexed(cells, hash, pos)
      requires pos.Keys == M.Keys && |pos| == |M| && HoldsMap(e[..], cells, M)
      ensures Valid()
    {
    }

    constructor (want: nat, hash: Bytes -> nat)
      ensures Valid() && fresh(e) && M == map[] && this.hash == hash
      ensures e.Length >= 16 && e.Length >= 2 * want
    {
      this.hash := hash;
      var cap := Capacity(want);
      e := new HEnt[cap](i => HEnt([], 0, false));
      M, pos, cells := map[], map[], seq(cap, i => None);
      new;
      assert forall i :: 0 <= i < e.Length ==> !e[i].used;
    }

    /** The probe loop shared by hmap_put and hmap_get: it stops at the key or at an empty slot. */
    method Probe(k: Bytes) returns (i: nat, ghost d: nat)
      requires Valid() && |M| < e.Length
      ensures i < e.Length && Probed(cells, Slot(hash(k), |cells|), k, d)
      ensures i == At(Slot(hash(k), |cells|), d, |cells|)
      ensures e[i].used <==> k in M
      ensures k in M ==> e[i].key == k && e[i].val == M[k]
    {
      i := Slot(hash(k), e.Length);
      d := 0;
      while e[i].used && e[i].key != k
        invariant i < e.Length && Probed(cells, Slot(hash(k), |cells|), k, d)
        invariant i == At(Slot(hash(k), |cells|), d, |cells|)
        decreases e.Length - d
      {
        ProbeContinues(cells, hash, pos, k, d);
        i := Next(i, e.Length);
        d := d + 1;
      }
      if !e[i].used {
        EmptyMeansAbsent(cells, hash, pos, k, d);
      }
    }

    /** Insert; the first value written for a key stays. */
    method Put(k: Bytes, v: int)
      requires Valid() && |M| + 1 < e.Length
      modifies this`M, this`pos, this`cells, e
      ensures Valid()
      ensures M == PutFirst(old(M), k, v)
    {
      var i; ghost var d;
      i, d := Probe(k);
      if !e[i].used {
        assert PutFirst(M, k, v) == M[k := v];
        Store(i, k, v, d);
      }
    }

    /** The write that ends hmap_put. */
    method Store(i: nat, k: Bytes, v: int, ghost d: nat)
      requires Valid() && k !in M
      requires i < e.Length && !e[i].used
      requires Probed(cells, Slot(hash(k), |cells|), k, d) && i == At(Slot(hash(k), |cells|), d, |cells|)
      modifies this`M, this`pos, this`cells, e
      ensures Valid() && M == old(M)[k := v]
    {
      InsertKeepsIndexed(cells, hash, pos, k, d);
      HoldsMapAfter(e[..], cells, M, i, k, v);
      SameKeys(pos, M, k, i, v);
      hide *;
      ghost var was := e[..];
      M, pos, cells := M[k := v], pos[k := i], cells[i := Some(k)];
      e[i] := HEnt(k, v, true);
      assert e[..] == was[i := HEnt(k, v, true)];
      IsValid();
    }

    method Get(k: Bytes, dflt: int) returns (r: int)
      requires Valid() && |M| < e.Length
      ensures r == if k in M then M[k] else dflt
    {
      var i; ghost var d;
      i, d := Probe(k);
      return if e[i].used then e[i].val else dflt;
    }
  }

  /** Empty marker of the pair table, 2^64 - 1. */
  const EMPTY_KEY: int := 0xFFFF_FFFF_FFFF_FFFF

  /** (left id << 32) | right id. */
  function PairKey(l: nat, r: nat): (key: int)
    requires l < 0x8000_0000 && r < 0x8000_0000
    ensures 0 <= key < EMPTY_KEY
  {
    l * 0x1_0000_0000 + r
  }

  /** The upper 32 bits of a key are the left id, the lower ones the right id. */
  lemma PairKeyParts(l: nat, r: nat)
    requires l < 0x8000_0000 && r < 0x8000_0000
    ensures PairKey(l, r) / 0x1_0000_0000 == l && PairKey(l, r) % 0x1_0000_0000 == r
  {
  }

  lemma PairKeyInjective(l: nat, r: nat, l': nat, r': nat)
    requires l < 0x8000_0000 && r < 0x8000_0000 && l' < 0x8000_0000 && r' < 0x8000_0000
    requires PairKey(l, r) == PairKey(l', r')
    ensures l == l' && r == r'
  {
  }

  /** The gemma4 pair table: 64-bit keys in which one reserved value marks an empty slot. */
  class PairTable {
    const hash: int -> nat
    var pairkey: array<int>
    var pairrank: array<int>
    ghost var M: map<int, int>
    ghost var cells: seq<Option<int>>
    ghost var pos: map<int, nat>

    ghost predicate Valid()
      reads this, pairkey, pairrank
    {
      && pairkey != pairrank
      && pairkey.Length == pairrank.Length == |cells|
      && Indexed(cells, hash, pos)
      && pos.Keys == M.Keys && |pos| == |M|
      && HoldsPairs(pairkey[..], pairrank[..], cells, M)
    }

    lemma IsValid()
      requires pairkey != pairrank && pairkey.Length == pairrank.Length == |cells|
      requires Indexed(cells, hash, pos)
      requires pos.Keys == M.Keys && |pos| == |M| && HoldsPairs(pairkey[..], pairrank[..], cells, M)
      ensures Valid()
    {
    }

    constructor (want: nat, hash: int -> nat)
      ensures Valid() && fresh(pairkey) && fresh(pairrank) && M == map[]
      ensures pairkey.Length >= 16 && pairkey.Length >= 2 * want
    {
      this.hash := hash;
      var cap := Capacity(want);
      pairkey := new int[cap](i => EMPTY_KEY);
      pairrank := new int[cap](i => 0);
      M, pos, cells := map[], map[], seq(cap, i => None);
      new;
      assert forall i :: 0 <= i < pairkey.Length ==> pairkey[i] == EMPTY_KEY;
    }

    method Probe(key: int) returns (i: nat, ghost d: nat)
      requires Valid() && |M| < pairkey.Length && key != EMPTY_KEY
      ensures i < pairkey.Length && Probed(cells, Slot(hash(key), |cells|), key, d)
      ensures i == At(Slot(hash(key), |cells|), d, |cells|)
      ensures pairkey[i] != EMPTY_KEY <==> key in M
      ensures key in M ==> pairkey[i] == key && pairrank[i] == M[key]
    {
      i := Slot(hash(key), pairkey.Length);
      d := 0;
      while pairkey[i] != EMPTY_KEY && pairkey[i] != key
        invariant i < pairkey.Length && Probed(cells, Slot(hash(key), |cells|), key, d)
        invariant i == At(Slot(hash(key), |cells|), d, |cells|)
        decreases pairkey.Length - d
      {
        ProbeContinues(cells, hash, pos, key, d);
        i := Next(i, pairkey.Length);
        d := d + 1;
      }
      if pairkey[i] == EMPTY_KEY {
        EmptyMeansAbsent(cells, hash, pos, key, d);
      }
    }

    /** g4_pair_put: the first, hence lowest, rank written for a pair stays. */
    method Put(key: int, rank: int)
      requires Valid() && |M| + 1 < pairkey.Length && key != EMPTY_KEY
      modifies this`M, this`pos, this`cells, pairkey, pairrank
      ensures Valid()
      ensures M == PutFirst(old(M), key, rank)
    {
      var i; ghost var d;
      i, d := Probe(key);
      if pairkey[i] == EMPTY_KEY {
        assert PutFirst(M, key, rank) == M[key := rank];
        Store(i, key, rank, d);
      }
    }

    /** The write that ends g4_pair_put. */
    method Store(i: nat, key: int, rank: int, ghost d: nat)
      requires Valid() && key !in M && key != EMPTY_KEY
      requires i < pairkey.Length && pairkey[i] == EMPTY_KEY
      requires Probed(cells, Slot(hash(key), |cells|), key, d) && i == At(Slot(hash(key), |cells|), d, |cells|)
      modifies this`M, this`pos, this`cells, pairkey, pairrank
      ensures Valid() && M == old(M)[key := rank]
    {
      InsertKeepsIndexed(cells, hash, pos, key, d);
      HoldsPairsAfter(pairkey[..], pairrank[..], cells, M, i, key, rank);
      SameKeys(pos, M, key, i, rank);
      hide *;
      ghost var keys, ranks := pairkey[..], pairrank[..];
      pairkey[i], pairrank[i] := key, rank;
      M, pos, cells := M[key := rank], pos[key := i], cells[i := Some(key)];
      assert pairkey[..] == keys[i := key] && pairrank[..] == ranks[i := rank];
      IsValid();
    }

    /** g4_pair_rank, with -1 for an unranked pair. */
    method Rank(l: nat, r: nat) returns (rank: int)
      requires Valid() && |M| < pairkey.Length && l < 0x8000_0000 && r < 0x8000_0000
      ensures rank == if PairKey(l, r) in M then M[PairKey(l, r)] else -1
    {
      var i; ghost var d;
      i, d := Probe(PairKey(l, r));
      return if pairkey[i] != EMPTY_KEY then pairrank[i] else -1;
    }
  }
}
