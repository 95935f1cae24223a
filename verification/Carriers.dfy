/** The sign-vector generator shared by carriers and ids. */
module Carriers {
  import opened Negacyclic
  import opened Binding

  /** One splitmix64 output for the advanced state s. */
  function Mixed(s: bv64): bv64 {
    var y := (s ^ (s >> 30)) * 0xBF58476D1CE4E5B9;
    var z := (y ^ (y >> 27)) * 0x94D049BB133111EB;
    z ^ (z >> 31)
  }

  function Sign(s: bv64): (x: int)
    ensures x == 1 || x == -1
  {
    if Mixed(s) & 1 != 0 then 1 else -1
  }

  function Advance(s: bv64): bv64 {
    s + 0x9E3779B97F4A7C15
  }

  /** The n signs drawn from state s. */
  function SignsFrom(s: bv64, n: nat): (r: Vec)
    ensures |r| == n && Signs(r)
    decreases n
  {
    if n == 0 then [] else [Sign(Advance(s))] + SignsFrom(Advance(s), n - 1)
  }

  /** _smix_pm1. */
  method SmixPm1(seed: bv64, n: nat) returns (r: Vec)
    ensures r == SignsFrom(seed, n)
  {
    hide Mixed, Sign, Advance;
    var s := seed;
    r := [];
    for i := 0 to n
      invariant r + SignsFrom(s, n - i) == SignsFrom(seed, n)
    {
      s := Advance(s);
      Shuffle(r, Sign(s), SignsFrom(s, n - i - 1));
      r := r + [Sign(s)];
    }
    assert r + [] == r;
  }

  lemma Shuffle(r: Vec, x: int, rest: Vec)
    ensures r + ([x] + rest) == (r + [x]) + rest
  {
  }

  /** A Python integer seed cut to 64 bits. */
  function Cut(seed: int): bv64 {
    (seed % 0x1_0000_0000_0000_0000) as bv64
  }

  function Carrier(seed: int, D: nat): (r: Vec)
    ensures |r| == D && Signs(r)
  {
    SignsFrom(Cut(seed), D)
  }

  function Idvec(seed: int, D: nat): (r: Vec)
    ensures |r| == D && Signs(r)
  {
    SignsFrom(Cut(seed) ^ 0xABCDEF, D)
  }

  /** The generator is splitmix64: its first three outputs from state 0, and the signs they give. */
  lemma ReferenceOutputs()
    ensures Advance(0) == 0x9E3779B97F4A7C15 && Mixed(Advance(0)) == 0xE220A8397B1DCDAF
    ensures Mixed(Advance(Advance(0))) == 0x6E789E6AA1B965F4
    ensures Mixed(Advance(Advance(Advance(0)))) == 0x06C45D188009454F
  {
  }

  /** A sign is +1 exactly for an odd output. */
  lemma SignIsParity(s: bv64)
    ensures Sign(s) == 1 <==> Mixed(s) % 2 == 1
  {
    hide Mixed;
    Parity(Mixed(s));
  }

  lemma Parity(z: bv64)
    ensures z & 1 != 0 <==> z % 2 == 1
  {
  }

  lemma ReferenceSigns()
    ensures SignsFrom(0, 3) == [1, -1, 1]
  {
    ReferenceOutputs();
    hide Mixed, Advance;
    var a, b, c := Advance(0), Advance(Advance(0)), Advance(Advance(Advance(0)));
    assert SignsFrom(c, 0) == [];
    assert SignsFrom(b, 1) == [Sign(c)] + SignsFrom(c, 0);
    assert SignsFrom(a, 2) == [Sign(b)] + SignsFrom(b, 1);
    assert SignsFrom(0, 3) == [Sign(a)] + SignsFrom(a, 2);
  }

  /** Longer draws from one state begin with the shorter ones. */
  lemma {:induction false} DrawsNest(s: bv64, m: nat, n: nat)
    requires m <= n
    ensures SignsFrom(s, n)[..m] == SignsFrom(s, m)
    decreases m
  {
    hide Sign, Advance;
    if m > 0 {
      DrawsNest(Advance(s), m - 1, n - 1);
      var r := SignsFrom(s, n);
      assert r[1..][..m - 1] == r[..m][1..];
    }
  }

  /** Of two seeds that differ by 0xABCDEF in their low 64 bits, each one's id vector is the other's carrier. */
  lemma IdvecIsCarrier(seed: int, other: int, D: nat)
    requires Cut(other) == Cut(seed) ^ 0xABCDEF
    ensures Idvec(seed, D) == Carrier(other, D) && Idvec(other, D) == Carrier(seed, D)
  {
    hide SignsFrom, Cut;
    assert (Cut(seed) ^ 0xABCDEF) ^ 0xABCDEF == Cut(seed);
  }

  /** Seeds that agree modulo 2^64 are the same seed, negative ones included. */
  lemma SeedsWrap(seed: int, other: int, D: nat)
    requires seed % 0x1_0000_0000_0000_0000 == other % 0x1_0000_0000_0000_0000
    ensures Carrier(seed, D) == Carrier(other, D) && Idvec(seed, D) == Idvec(other, D)
  {
    SameCut(seed, other);
    hide SignsFrom, Cut;
  }

  lemma SameCut(seed: int, other: int)
    requires seed % 0x1_0000_0000_0000_0000 == other % 0x1_0000_0000_0000_0000
    ensures Cut(seed) == Cut(other)
  {
  }
}
