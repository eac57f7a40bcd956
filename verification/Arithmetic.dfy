/** Powers and division with remainder. */
module Arithmetic {

  function Pow2(j: nat): (r: nat)
    ensures r >= 1
  {
    if j == 0 then 1 else 2 * Pow2(j - 1)
  }

  function Pow(b: int, n: nat): int {
    if n == 0 then 1 else b * Pow(b, n - 1)
  }

  lemma PowPositive(b: int, n: nat)
    requires b > 0
    ensures Pow(b, n) > 0
  {
  }

  lemma {:induction false} Pow2Add(a: nat, b: nat)
    ensures Pow2(a + b) == Pow2(a) * Pow2(b)
    decreases a
  {
    if a > 0 {
      Pow2Add(a - 1, b);
      Twice(Pow2(a - 1), Pow2(b));
    }
  }

  lemma Twice(a: int, b: int)
    ensures 2 * (a * b) == (2 * a) * b
  {
  }

  lemma MultipleOutside(p: int, k: int)
    requires p > 0
    ensures k >= 1 ==> p * k >= p
    ensures k <= -1 ==> p * k <= -p
  {
    assert k >= 1 ==> p * (k - 1) >= 0;
    assert k <= -1 ==> p * (k + 1) <= 0;
  }

  lemma MultipleInRange(p: int, k: int)
    requires p > 0 && -p < p * k < p
    ensures k == 0
  {
    MultipleOutside(p, k);
  }

  lemma RemainderUnique(p: int, q: int, r: int)
    requires 0 <= r < p
    ensures (p * q + r) % p == r && (p * q + r) / p == q
  {
    var x := p * q + r;
    assert p * (q - x / p) == x % p - r;
    MultipleInRange(p, q - x / p);
  }

  lemma QuotientBelow(base: int, value: int, p: int)
    requires base > 0 && value < base * p
    ensures value / base < p
  {
    MultipleOutside(base, value / base - p);
    assert base * (value / base - p) == base * (value / base) - base * p;
    assert base * (value / base) <= value;
  }
}
