/** Primality, from its definition to Euclid's lemma, Fermat's little theorem and the square
    root of a residue when the modulus is 5 modulo 8. */
module Primes {
  import opened Residues
  import opened Arithmetic

  ghost predicate IsPrime(p: int) {
    p >= 2 && forall a :: 1 < a < p ==> p % a != 0
  }

  ghost function Multiples(p: int): Zeros
    requires p > 0
  {
    x => x % p == 0
  }

  // ----- division with remainder -----

  lemma ModEq(p: int, x: int)
    requires p > 0
    ensures (x % p - x) % p == 0
  {
    RemainderUnique(p, -(x / p), 0);
    assert x % p - x == p * -(x / p) + 0;
  }

  lemma SmallMultiple(p: int, x: int, y: int)
    requires 0 <= x < p && 0 <= y < p && (x - y) % p == 0
    ensures x == y
  {
    MultipleInRange(p, (x - y) / p);
  }

  lemma MultiplesAdd(p: int, a: int, b: int)
    requires p > 0 && a % p == 0 && b % p == 0
    ensures (a + b) % p == 0
  {
    RemainderUnique(p, a / p + b / p, 0);
    assert a + b == p * (a / p + b / p) + 0;
  }

  lemma MultiplesScale(p: int, a: int, b: int)
    requires p > 0 && a % p == 0
    ensures (a * b) % p == 0
  {
    var q := a / p;
    RemainderUnique(p, q * b, 0);
    assert a == p * q;
    assert a * b == p * (q * b) + 0;
  }

  lemma MultiplesIdeal(p: int)
    requires p > 0
    ensures Ideal(Multiples(p))
  {
    var zero := Multiples(p);
    forall a, b | zero(a) && zero(b)
      ensures zero(a + b)
    {
      MultiplesAdd(p, a, b);
    }
    forall a, b | zero(a)
      ensures zero(a * b)
    {
      MultiplesScale(p, a, b);
    }
  }

  /** Euclid's algorithm on the modulus and the factor that it does not divide. */
  lemma {:induction false} EuclidSmall(p: int, a: int, b: int, k: int) returns (m: int)
    requires IsPrime(p) && 0 < a < p && a * b == p * k
    ensures b == p * m
    decreases a
  {
    if a == 1 {
      m := k;
    } else {
      var r, c := p % a, p / a;
      assert r * b == p * (b - c * k) by {
        assert p == a * c + r;
        assert (p - a * c) * b == p * b - c * (a * b);
      }
      m := EuclidSmall(p, r, b, b - c * k);
    }
  }

  lemma Euclid(p: int, a: int, b: int)
    requires IsPrime(p) && (a * b) % p == 0
    ensures a % p == 0 || b % p == 0
  {
    var r, k := a % p, (a * b) / p;
    if r != 0 {
      assert r * b == p * (k - a / p * b) by {
        assert a == p * (a / p) + r;
        assert a * b == p * k;
        assert (a - p * (a / p)) * b == a * b - p * (a / p * b);
      }
      var m := EuclidSmall(p, r, b, k - a / p * b);
      RemainderUnique(p, m, 0);
    }
  }

  /** What the rest of the module needs to know about a prime and its multiples. */
  ghost predicate Modulus(zero: Zeros, p: int) {
    && p >= 2
    && PrimeIdeal(zero)
    && zero(p)
    && (forall k {:trigger At(p, k)} :: 0 < k < p ==> !zero(k))
  }

  lemma MultiplesModulus(p: int)
    requires IsPrime(p)
    ensures Modulus(Multiples(p), p)
  {
    MultiplesIdeal(p);
    var zero := Multiples(p);
    forall a, b | zero(a * b)
      ensures zero(a) || zero(b)
    {
      Euclid(p, a, b);
    }
    forall k | 0 < k < p
      ensures !zero(k)
    {
      RemainderUnique(p, 0, k);
    }
    RemainderUnique(p, 1, 0);
  }

  // ----- powers -----

  lemma {:induction false} PowAdd(b: int, m: nat, n: nat)
    ensures Pow(b, m + n) == Pow(b, m) * Pow(b, n)
    decreases m
  {
    if m > 0 {
      PowAdd(b, m - 1, n);
      Associate(b, Pow(b, m - 1), Pow(b, n));
    }
  }

  lemma Associate(a: int, b: int, c: int)
    ensures a * (b * c) == (a * b) * c
  {
  }

  lemma Interchange(a: int, b: int, x: int, y: int)
    ensures (a * b) * (x * y) == (a * x) * (b * y)
  {
  }

  lemma {:induction false} PowProduct(a: int, b: int, n: nat)
    ensures Pow(a * b, n) == Pow(a, n) * Pow(b, n)
  {
    if n > 0 {
      PowProduct(a, b, n - 1);
      Interchange(a, b, Pow(a, n - 1), Pow(b, n - 1));
    }
  }

  lemma PowOne(n: nat)
    ensures Pow(1, n) == 1
  {
  }

  lemma {:induction false} PowEq(zero: Zeros, a: int, b: int, n: nat)
    requires Ideal(zero) && Eq(zero, a, b)
    ensures Eq(zero, Pow(a, n), Pow(b, n))
  {
    if n > 0 {
      PowEq(zero, a, b, n - 1);
      EqMul(zero, a, b, Pow(a, n - 1), Pow(b, n - 1));
    }
  }

  // ----- Fermat's little theorem -----

  ghost function Choose(n: nat, k: nat): nat {
    if k == 0 then 1 else if n == 0 then 0 else Choose(n - 1, k - 1) + Choose(n - 1, k)
  }

  lemma {:induction false} ChooseBeyond(n: nat, k: nat)
    requires k > n
    ensures Choose(n, k) == 0
  {
    if n > 0 {
      ChooseBeyond(n - 1, k - 1);
      ChooseBeyond(n - 1, k);
    }
  }

  lemma {:induction false} ChooseAll(n: nat)
    ensures Choose(n, n) == 1
  {
    if n > 0 {
      ChooseAll(n - 1);
      ChooseBeyond(n - 1, n);
    }
  }

  lemma {:induction false} Absorption(n: nat, k: nat)
    requires n >= 1 && k >= 1
    ensures k * Choose(n, k) == n * Choose(n - 1, k - 1)
  {
    if n == 1 {
      if k > 1 { ChooseBeyond(1, k); }
    } else if k > 1 {
      Absorption(n - 1, k - 1);
      Absorption(n - 1, k);
      AbsorptionStep(n, k, Choose(n - 2, k - 2), Choose(n - 2, k - 1), Choose(n - 1, k - 1), Choose(n - 1, k));
    } else {
      Absorption(n - 1, 1);
    }
  }

  lemma AbsorptionStep(n: int, k: int, u: int, v: int, a: int, b: int)
    requires a == u + v
    requires (k - 1) * a == (n - 1) * u && k * b == (n - 1) * v
    ensures k * (a + b) == n * a
  {
    assert (n - 1) * (u + v) == (n - 1) * u + (n - 1) * v;
  }

  /** The first `k + 1` terms of the expansion of (1 + x)^n. */
  ghost function Expansion(n: nat, x: int, k: nat): int {
    Choose(n, k) * Pow(x, k) + if k == 0 then 0 else Expansion(n, x, k - 1)
  }

  lemma {:induction false} ExpansionStep(n: nat, x: int, k: nat)
    requires k >= 1
    ensures Expansion(n + 1, x, k) == Expansion(n, x, k) + x * Expansion(n, x, k - 1)
  {
    ExpansionTerm(Choose(n, k - 1), Choose(n, k), x, Pow(x, k - 1), if k == 1 then 0 else Expansion(n, x, k - 2));
    if k > 1 {
      ExpansionStep(n, x, k - 1);
    } else {
      assert Expansion(n + 1, x, 0) == 1 && Expansion(n, x, 0) == 1;
    }
  }

  lemma ExpansionTerm(a: int, b: int, x: int, q: int, v: int)
    ensures (a + b) * (x * q) + x * v == b * (x * q) + x * (a * q + v)
  {
  }

  lemma {:induction false} Binomial(n: nat, x: int)
    ensures Pow(1 + x, n) == Expansion(n, x, n)
  {
    if n > 0 {
      Binomial(n - 1, x);
      ExpansionStep(n - 1, x, n);
      ChooseBeyond(n - 1, n);
      var e := Expansion(n - 1, x, n - 1);
      assert Expansion(n - 1, x, n) == e;
      OnePlus(x, e);
    }
  }

  lemma OnePlus(x: int, e: int)
    ensures (1 + x) * e == e + x * e
  {
  }

  lemma {:induction false} ChoosePrime(zero: Zeros, p: nat, k: nat)
    requires Modulus(zero, p) && 0 < k < p
    ensures zero(Choose(p, k))
  {
    Absorption(p, k);
    Scale(zero, k * Choose(p, k), p, Choose(p - 1, k - 1));
    assert At(p, k);
    Cancel(zero, k, Choose(p, k));
  }

  lemma {:induction false} ExpansionPrime(zero: Zeros, p: nat, x: int, k: nat)
    requires Modulus(zero, p) && k < p
    ensures Eq(zero, Expansion(p, x, k), 1)
  {
    if k > 0 {
      ExpansionPrime(zero, p, x, k - 1);
      ChoosePrime(zero, p, k);
      Combine(zero, Expansion(p, x, k) - 1, Pow(x, k), Choose(p, k), 1, Expansion(p, x, k - 1) - 1);
    } else {
      assert Expansion(p, x, 0) == 1;
    }
  }

  lemma {:induction false} PowSuccessor(zero: Zeros, p: nat, x: int)
    requires Modulus(zero, p)
    ensures Eq(zero, Pow(1 + x, p), 1 + Pow(x, p))
  {
    Binomial(p, x);
    ExpansionTop(p, x);
    ExpansionPrime(zero, p, x, p - 1);
    assert Pow(1 + x, p) - (1 + Pow(x, p)) == Expansion(p, x, p - 1) - 1;
  }

  lemma {:induction false} ExpansionTop(n: nat, x: int)
    requires n > 0
    ensures Expansion(n, x, n) == Pow(x, n) + Expansion(n, x, n - 1)
  {
    ChooseAll(n);
    assert Choose(n, n) * Pow(x, n) == 1 * Pow(x, n);
  }

  lemma {:induction false} FermatNat(zero: Zeros, p: nat, x: nat)
    requires Modulus(zero, p)
    ensures Eq(zero, Pow(x, p), x)
    decreases x
  {
    if x == 0 {
      assert Pow(0, p) == 0;
    } else {
      FermatNat(zero, p, x - 1);
      PowSuccessor(zero, p, x - 1);
      var a, b := Pow(x, p), Pow(x - 1, p);
      Combine(zero, a - x, 1, a - (1 + b), 1, b - (x - 1));
    }
  }

  /** Fermat's little theorem, for an integer with a known residue. */
  lemma {:induction false} Fermat(zero: Zeros, p: nat, x: int, r: nat)
    requires Modulus(zero, p) && Eq(zero, r, x) && !zero(x)
    ensures Eq(zero, Pow(x, p - 1), 1)
  {
    PowEq(zero, r, x, p);
    FermatNat(zero, p, r);
    EqSym(zero, Pow(r, p), Pow(x, p));
    EqTrans(zero, Pow(x, p), Pow(r, p), r);
    EqTrans(zero, Pow(x, p), r, x);
    PredecessorPower(x, p);
    Cancel(zero, x, Pow(x, p - 1) - 1);
  }

  lemma {:induction false} PredecessorPower(x: int, p: nat)
    requires p > 0
    ensures x * (Pow(x, p - 1) - 1) == Pow(x, p) - x
  {
  }

  /** The inverse that the source computes by raising to the power p - 2. */
  lemma {:induction false} InverseByPower(p: nat, x: int)
    requires IsPrime(p) && x % p != 0
    ensures Eq(Multiples(p), x * Pow(x, p - 2), 1)
  {
    MultiplesModulus(p);
    ModEq(p, x);
    Fermat(Multiples(p), p, x, x % p);
    assert Pow(x, p - 1) == x * Pow(x, p - 2);
  }

  // ----- square roots modulo p = 5 mod 8 -----

  /** Of two square roots only the sign differs. */
  lemma RootsDiffer(zero: Zeros, a: int, b: int)
    requires PrimeIdeal(zero) && Eq(zero, a * a, b * b)
    ensures Eq(zero, a, b) || zero(a + b)
  {
    assert a * a - b * b == (a - b) * (a + b);
    assert At(a - b, a + b);
  }

  lemma {:induction false} CandidatePowers(n: int, s: int, m: nat)
    requires n == s * s
    ensures Pow(n, m + 1) * Pow(n, m + 1) == n * Pow(n, 2 * m + 1)
    ensures Pow(n, 2 * m + 1) * Pow(n, 2 * m + 1) == Pow(s, 8 * m + 4)
  {
    PowAdd(n, m + 1, m + 1);
    PowAdd(n, 2 * m + 1, 2 * m + 1);
    PowProduct(s, s, 4 * m + 2);
    PowAdd(s, 4 * m + 2, 4 * m + 2);
  }

  /** The candidate root of a square, or the candidate times a root of -1, is a root. */
  lemma {:induction false} CandidateRoot(zero: Zeros, i: int, n: int, c: int, h: int)
    requires PrimeIdeal(zero) && zero(i * i + 1)
    requires c * c == n * h && Eq(zero, h * h, 1)
    ensures Eq(zero, c * c, n) || Eq(zero, (c * i) * (c * i), n)
  {
    RootsDiffer(zero, h, 1);
    if Eq(zero, h, 1) {
      Scale(zero, c * c - n, h - 1, n);
    } else {
      TimesRootOfMinusOne(c, i, n, h);
      Combine(zero, (c * i) * (c * i) - n, -n, h + 1, c * c, i * i + 1);
    }
  }

  lemma TimesRootOfMinusOne(c: int, i: int, n: int, h: int)
    requires c * c == n * h
    ensures (c * i) * (c * i) - n == (h + 1) * -n + (i * i + 1) * (c * c)
  {
    Interchange(c, i, c, i);
    OnePlus(i * i, c * c);
    OnePlus(h, -n);
  }

  lemma {:induction false} SquareRoot(p: nat, i: int, s: int)
    requires IsPrime(p) && p % 8 == 5 && (i * i + 1) % p == 0 && s % p != 0
    ensures var c := Pow(s * s, (p + 3) / 8);
            Eq(Multiples(p), c * c, s * s) || Eq(Multiples(p), (c * i) * (c * i), s * s)
  {
    var m := (p - 5) / 8;
    CandidatePowers(s * s, s, m);
    MultiplesModulus(p);
    ModEq(p, s);
    Fermat(Multiples(p), p, s, s % p);
    assert (p + 3) / 8 == m + 1 && p - 1 == 8 * m + 4;
    CandidateRoot(Multiples(p), i, s * s, Pow(s * s, m + 1), Pow(s * s, 2 * m + 1));
  }
}
