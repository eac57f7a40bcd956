/** Arithmetic modulo a prime, kept abstract.

    A residue system is given by the set of integers that count as zero. The laws it
    must obey are the closure laws of a prime ideal, so every fact below is an identity
    between integer polynomials plus a combination of known zeros. */
module Residues {

  type Zeros = int -> bool

  /** Names a pair of integers at which a law is used. */
  ghost predicate At(a: int, b: int) { true }

  ghost predicate Ideal(zero: Zeros) {
    && zero(0)
    && (forall a, b {:trigger At(a, b)} :: zero(a) && zero(b) ==> zero(a + b))
    && (forall a, b {:trigger At(a, b)} :: zero(a) ==> zero(a * b))
  }

  ghost predicate PrimeIdeal(zero: Zeros) {
    && Ideal(zero)
    && !zero(1)
    && (forall a, b {:trigger At(a, b)} :: zero(a * b) ==> zero(a) || zero(b))
  }

  ghost predicate Eq(zero: Zeros, a: int, b: int) {
    zero(a - b)
  }

  lemma Combine(zero: Zeros, target: int, a: int, u: int, b: int, v: int)
    requires Ideal(zero) && zero(u) && zero(v)
    requires target == u * a + v * b
    ensures zero(target)
  {
    assert At(u, a) && At(v, b) && At(u * a, v * b);
  }

  lemma Scale(zero: Zeros, target: int, u: int, a: int)
    requires Ideal(zero) && zero(u) && target == u * a
    ensures zero(target)
  {
    assert At(u, a);
  }

  lemma Cancel(zero: Zeros, a: int, b: int)
    requires PrimeIdeal(zero) && zero(a * b) && !zero(a)
    ensures zero(b)
  {
    assert At(a, b);
  }

  lemma NonzeroProduct(zero: Zeros, a: int, b: int)
    requires PrimeIdeal(zero) && !zero(a) && !zero(b)
    ensures !zero(a * b)
  {
    assert At(a, b);
  }

  lemma EqRefl(zero: Zeros, a: int, b: int)
    requires Ideal(zero) && a == b
    ensures Eq(zero, a, b)
  {
  }

  lemma EqSym(zero: Zeros, a: int, b: int)
    requires Ideal(zero) && Eq(zero, a, b)
    ensures Eq(zero, b, a)
  {
    Scale(zero, b - a, a - b, -1);
  }

  lemma EqTrans(zero: Zeros, a: int, b: int, c: int)
    requires Ideal(zero) && Eq(zero, a, b) && Eq(zero, b, c)
    ensures Eq(zero, a, c)
  {
    Combine(zero, a - c, 1, a - b, 1, b - c);
  }

  lemma EqAdd(zero: Zeros, a: int, b: int, c: int, d: int)
    requires Ideal(zero) && Eq(zero, a, b) && Eq(zero, c, d)
    ensures Eq(zero, a + c, b + d) && Eq(zero, a - c, b - d)
  {
    Combine(zero, (a + c) - (b + d), 1, a - b, 1, c - d);
    Combine(zero, (a - c) - (b - d), 1, a - b, -1, c - d);
  }

  lemma EqMul(zero: Zeros, a: int, b: int, c: int, d: int)
    requires Ideal(zero) && Eq(zero, a, b) && Eq(zero, c, d)
    ensures Eq(zero, a * c, b * d)
  {
    assert a * c - b * d == (a - b) * c + (c - d) * b;
    Combine(zero, a * c - b * d, c, a - b, b, c - d);
  }

  lemma EqZero(zero: Zeros, a: int, b: int)
    requires Ideal(zero) && Eq(zero, a, b)
    ensures zero(a) <==> zero(b)
  {
    if zero(a) {
      Combine(zero, b, 1, a, -1, a - b);
    } else if zero(b) {
      Combine(zero, a, 1, b, 1, a - b);
    }
  }
}
