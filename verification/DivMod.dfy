/** Division with remainder by a divisor that is not a literal. */
module DivMod {

  lemma ProductBound(k: int, d: int)
    requires d >= 0
    ensures k >= 1 ==> k * d >= d
    ensures k <= -1 ==> k * d <= -d
  {
  }

  lemma QuotientIsUnique(d: int, q: int, r: int, q': int, r': int)
    requires 0 <= r < d && 0 <= r' < d && q * d + r == q' * d + r'
    ensures q == q' && r == r'
  {
    assert (q' - q) * d == r - r' by { assert (q' - q) * d == q' * d - q * d; }
    ProductBound(q' - q, d);
  }

  lemma DivisionIsUnique(a: int, d: int, q: int, r: int)
    requires d > 0 && a == q * d + r && 0 <= r < d
    ensures a / d == q && a % d == r
  {
    var q', r' := a / d, a % d;
    assert a == q' * d + r';
    QuotientIsUnique(d, q, r, q', r');
  }

  lemma MultipleMod(q: int, d: int)
    requires d > 0
    ensures (q * d) % d == 0 && (q * d) / d == q
  {
    DivisionIsUnique(q * d, d, q, 0);
  }
}
