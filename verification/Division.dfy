/** Integer division facts. */
module Division {
  /** Quotient and remainder are unique. */
  lemma ModUnique(x: int, q: int, r: int, p: int)
    requires p > 0 && x == p * q + r && 0 <= r < p
    ensures x % p == r && x / p == q
  {
    var d := q - x / p;
    assert p * d == x % p - r;
    MultipleGrows(p, d);
  }

  lemma MultipleGrows(p: int, d: int)
    requires p > 0
    ensures d > 0 ==> p * d >= p
    ensures d < 0 ==> p * d <= -p
  {
  }

  lemma DivMono(x: int, y: int, p: int)
    requires x <= y && p > 0
    ensures x / p <= y / p
  {
    var d := y / p - x / p;
    assert p * d == (y - y % p) - (x - x % p);
    MultipleGrows(p, d);
  }

  lemma DivDiv(x: int, p: int)
    requires p > 0
    ensures x / (2 * p) == x / p / 2
  {
    var q := x / p;
    var s := q / 2;
    var t := p * (q % 2) + x % p;
    assert p * q == 2 * p * s + p * (q % 2);
    ModUnique(x, s, t, 2 * p);
  }
}
