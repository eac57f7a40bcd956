/** Point compression and decompression are inverse to each other. */
module Ed25519Compression {
  import opened Common
  import opened Residues
  import opened EdwardsCurve
  import opened Primes
  import opened Arithmetic
  import opened Ed25519

  /** What the curve arithmetic needs of the constants. */
  ghost predicate FieldConstants(c: Curve) {
    && IsPrime(c.p) && c.p % 8 == 5
    && c.width > 0 && c.p <= TopBit(c.width)
    && CurveField(Multiples(c.p), c.d, c.i)
  }

  ghost predicate Valid(c: Curve, point: Point)
    requires c.p > 0
  {
    OnCurve(Multiples(c.p), c.d, point)
  }

  // ----- little-endian integers -----

  lemma {:induction false} LittleRoundTrip(n: nat, k: nat)
    requires n < Pow(256, k)
    ensures FromLittle(ToLittle(n, k)) == n
    decreases k
  {
    if k > 0 {
      LittleRoundTrip(n / 256, k - 1);
      var s := ToLittle(n, k);
      assert s[1..] == ToLittle(n / 256, k - 1);
    }
  }

  lemma {:induction false} LittleBytes(s: Bytes)
    ensures FromLittle(s) < Pow(256, |s|) && ToLittle(FromLittle(s), |s|) == s
  {
    if s != [] {
      LittleBytes(s[1..]);
      var n := FromLittle(s);
      RemainderUnique(256, FromLittle(s[1..]), s[0]);
      assert n % 256 == s[0] && n / 256 == FromLittle(s[1..]);
      assert s == [s[0]] + s[1..];
    }
  }

  lemma {:induction false} LittleTopBit(n: nat, k: nat, bit: int)
    requires k > 0 && n < TopBit(k) && 0 <= bit <= 1
    ensures ToLittle(n + bit * TopBit(k), k) == ToLittle(n, k)[k - 1 := OrTopBit(ToLittle(n, k)[k - 1], bit)]
    decreases k
  {
    if k == 1 {
      assert TopBit(1) == 128 by { assert Pow(256, 0) == 1; }
      assert ToLittle(n, 1) == [n] && ToLittle(n + bit * 128, 1) == [n + bit * 128];
    } else {
      var top := TopBit(k - 1);
      assert TopBit(k) == 256 * top;
      var m := n + bit * TopBit(k);
      assert m == n + 256 * (bit * top);
      assert m % 256 == n % 256 && m / 256 == n / 256 + bit * top;
      LittleTopBit(n / 256, k - 1, bit);
      var low := ToLittle(n / 256, k - 1);
      assert ToLittle(n, k) == [n % 256] + low;
      assert ToLittle(m, k) == [n % 256] + low[k - 2 := OrTopBit(low[k - 2], bit)];
    }
  }

  lemma TopBitTwice(k: nat)
    requires k > 0
    ensures 2 * TopBit(k) == Pow(256, k) && TopBit(k) > 0
  {
    PowPositive(256, k - 1);
  }

  // ----- affine coordinates -----

  /** Dividing by z gives a point with z = 1 that is projectively the same. */
  lemma Normalise(zero: Zeros, d: int, p: Point, inverse: int, x: int, y: int)
    requires Ideal(zero) && OnCurve(zero, d, p) && Eq(zero, p.z * inverse, 1)
    requires Eq(zero, x, p.x * inverse) && Eq(zero, y, p.y * inverse)
    ensures zero(x * p.z - p.x * 1) && zero(y * p.z - p.y * 1)
    ensures zero(y * y - x * x - (1 + d * (x * y) * (x * y)))
  {
    ScaledCoordinate(zero, p.x, p.z, inverse, x);
    ScaledCoordinate(zero, p.y, p.z, inverse, y);
    var t := p.t * inverse;
    assert Eq(zero, x * y, t) by { NormalT(zero, p, inverse, x, y); }
    var m := inverse * inverse;
    EqMul(zero, x, p.x * inverse, x, p.x * inverse);
    EqMul(zero, y, p.y * inverse, y, p.y * inverse);
    EqMul(zero, p.z * inverse, 1, p.z * inverse, 1);
    EqMul(zero, x * y, t, x * y, t);
    EqRefl(zero, d, d);
    EqMul(zero, d, d, (x * y) * (x * y), t * t);
    EqSym(zero, (p.z * inverse) * (p.z * inverse), 1 * 1);
    EqAdd(zero, 1 * 1, (p.z * inverse) * (p.z * inverse), d * ((x * y) * (x * y)), d * (t * t));
    EqAdd(zero, y * y, (p.y * inverse) * (p.y * inverse), x * x, (p.x * inverse) * (p.x * inverse));
    var l, r := y * y - x * x, (p.y * inverse) * (p.y * inverse) - (p.x * inverse) * (p.x * inverse);
    var l', r' := 1 + d * ((x * y) * (x * y)), (p.z * inverse) * (p.z * inverse) + d * (t * t);
    EqAdd(zero, l, r, l', r');
    ScaledEquation(d, p.x, p.y, p.z, p.t, inverse);
    Scale(zero, r - r', p.y * p.y - p.x * p.x - (p.z * p.z + d * p.t * p.t), m);
    EqZero(zero, l - l', r - r');
    assert d * (x * y) * (x * y) == d * ((x * y) * (x * y));
  }

  lemma ScaledCoordinate(zero: Zeros, a: int, z: int, inverse: int, x: int)
    requires Ideal(zero) && Eq(zero, z * inverse, 1) && Eq(zero, x, a * inverse)
    ensures zero(x * z - a * 1)
  {
    CoordinateIdentity(a, z, inverse, x);
    Combine(zero, x * z - a * 1, z, x - a * inverse, a, z * inverse - 1);
  }

  lemma CoordinateIdentity(a: int, z: int, inverse: int, x: int)
    ensures x * z - a * 1 == (x - a * inverse) * z + (z * inverse - 1) * a
  {
  }

  lemma NormalT(zero: Zeros, p: Point, inverse: int, x: int, y: int)
    requires Ideal(zero) && zero(p.x * p.y - p.z * p.t) && Eq(zero, p.z * inverse, 1)
    requires Eq(zero, x, p.x * inverse) && Eq(zero, y, p.y * inverse)
    ensures Eq(zero, x * y, p.t * inverse)
  {
    var t, m := p.t * inverse, inverse * inverse;
    EqMul(zero, x, p.x * inverse, y, p.y * inverse);
    Interchange(p.x, inverse, p.y, inverse);
    var u := (p.x * p.y) * m;
    TimesInverse(p.x * p.y, p.z, p.t, inverse);
    Combine(zero, u - t, m, p.x * p.y - p.z * p.t, t, p.z * inverse - 1);
    EqTrans(zero, x * y, u, t);
  }

  lemma TimesInverse(w: int, z: int, t: int, inverse: int)
    ensures w * (inverse * inverse) - t * inverse
            == (w - z * t) * (inverse * inverse) + (z * inverse - 1) * (t * inverse)
  {
    assert (z * t) * (inverse * inverse) == (z * inverse) * (t * inverse);
  }

  lemma ScaledEquation(d: int, x: int, y: int, z: int, t: int, k: int)
    ensures ((y * k) * (y * k) - (x * k) * (x * k)) - ((z * k) * (z * k) + d * ((t * k) * (t * k)))
            == (y * y - x * x - (z * z + d * t * t)) * (k * k)
  {
    Interchange(y, k, y, k);
    Interchange(x, k, x, k);
    Interchange(z, k, z, k);
    Interchange(t, k, t, k);
    FourTerms(y * y, x * x, z * z, d, t * t, k * k);
    assert d * t * t == d * (t * t);
  }

  lemma FourTerms(a: int, b: int, c: int, d: int, e: int, m: int)
    ensures (a * m - b * m) - (c * m + d * (e * m)) == (a - b - (c + d * e)) * m
  {
  }

  /** d y^2 + 1 is never zero: -1 is a square and d is not. */
  lemma SlopeNonzero(zero: Zeros, d: int, i: int, y: int)
    requires CurveField(zero, d, i)
    ensures !zero(d * y * y + 1)
  {
    if zero(d * y * y + 1) {
      Combine(zero, d * y * y - i * i, 1, d * y * y + 1, -1, i * i + 1);
      assert At(i, y);
      Combine(zero, 1, 1, d * y * y + 1, -(d * y), y);
    }
  }

  // ----- recovering x -----

  lemma ModuloBounds(p: int, x: int)
    requires p > 0
    ensures 0 <= x % p < p
  {
  }

  lemma HalfTurn(p: int, x: int, y: int)
    requires 0 <= x < p && 0 < y < p && (x + y) % p == 0
    ensures x + y == p
  {
    var k := (x + y) / p;
    assert x + y == p * k;
    MultipleInRange(p, k - 1);
  }

  lemma RootOrOpposite(p: int, r: int, x: int)
    requires IsPrime(p) && 0 < x < p && 0 <= r < p && Eq(Multiples(p), r * r, x * x)
    ensures r == x || r + x == p
  {
    MultiplesModulus(p);
    RootsDiffer(Multiples(p), r, x);
    if Eq(Multiples(p), r, x) {
      SmallMultiple(p, r, x);
    } else {
      HalfTurn(p, r, x);
    }
  }

  /** A root of x^2, corrected to the parity of x, is x. */
  lemma CorrectParity(p: int, r: int, x: int)
    requires p % 2 == 1 && (r == x || r + x == p)
    ensures x == if r % 2 != x % 2 then p - r else r
  {
    OddSumParity(p, r, x);
  }

  lemma OddSumParity(p: int, r: int, x: int)
    requires p % 2 == 1
    ensures r + x == p ==> r % 2 != x % 2
  {
    assert r == 2 * (r / 2) + r % 2 && x == 2 * (x / 2) + x % 2 && p == 2 * (p / 2) + 1;
  }

  /** The candidate of the search, before its parity is corrected. */
  function Candidate(c: Curve, xx: int): int
    requires c.p >= 2
  {
    var x := PowMod(c, xx, (c.p + 3) / 8);
    if (x * x - xx) % c.p != 0 then (x * c.i) % c.p else x
  }

  lemma CandidateRange(c: Curve, xx: int)
    requires c.p >= 2
    ensures 0 <= Candidate(c, xx) < c.p
  {
    var x := PowMod(c, xx, (c.p + 3) / 8);
    ModuloBounds(c.p, Pow(xx, (c.p + 3) / 8));
    ModuloBounds(c.p, x * c.i);
  }

  lemma {:induction false} CandidateIsRoot(c: Curve, xx: int, x: int)
    requires IsPrime(c.p) && c.p % 8 == 5 && (c.i * c.i + 1) % c.p == 0
    requires 0 < x < c.p && Eq(Multiples(c.p), xx, x * x)
    ensures Eq(Multiples(c.p), Candidate(c, xx) * Candidate(c, xx), x * x)
  {
    var zero, n := Multiples(c.p), (c.p + 3) / 8;
    MultiplesModulus(c.p);
    var k, r := Pow(x * x, n), PowMod(c, xx, n);
    assert x % c.p != 0 by { RemainderUnique(c.p, 0, x); }
    SquareRoot(c.p, c.i, x);
    PowEq(zero, xx, x * x, n);
    ModEq(c.p, Pow(xx, n));
    EqTrans(zero, r, Pow(xx, n), k);
    FoundRoot(c, xx, x * x, k, r, Candidate(c, xx));
  }

  /** Given the square of a reduced x, the search returns exactly that x for its own parity. */
  lemma {:induction false} RecoverXComplete(c: Curve, xx: int, x: int)
    requires IsPrime(c.p) && c.p % 8 == 5 && (c.i * c.i + 1) % c.p == 0
    requires 0 <= x < c.p && 0 <= xx < c.p && Eq(Multiples(c.p), xx, x * x)
    ensures RecoverX(c, xx, x % 2) == Some(x)
  {
    var zero := Multiples(c.p);
    MultiplesModulus(c.p);
    EqZero(zero, xx, x * x);
    if xx == 0 {
      assert At(x, x);
      RemainderUnique(c.p, 0, x);
    } else {
      assert x != 0 by { RemainderUnique(c.p, 0, xx); }
      CandidateIsRoot(c, xx, x);
      CandidateRange(c, xx);
      RootOrOpposite(c.p, Candidate(c, xx), x);
      CorrectParity(c.p, Candidate(c, xx), x);
      var r := Candidate(c, xx);
      EqSym(zero, xx, x * x);
      EqTrans(zero, r * r, x * x, xx);
    }
  }

  lemma {:induction false} FoundRoot(c: Curve, xx: int, n: int, k: int, r: int, r': int)
    requires IsPrime(c.p) && Eq(Multiples(c.p), xx, n) && Eq(Multiples(c.p), r, k)
    requires Eq(Multiples(c.p), k * k, n) || Eq(Multiples(c.p), (k * c.i) * (k * c.i), n)
    requires r' == if (r * r - xx) % c.p != 0 then (r * c.i) % c.p else r
    ensures Eq(Multiples(c.p), r' * r', n)
  {
    var zero := Multiples(c.p);
    MultiplesIdeal(c.p);
    EqMul(zero, r, k, r, k);
    EqSym(zero, xx, n);
    if (r * r - xx) % c.p == 0 {
      EqTrans(zero, r * r, xx, n);
    } else {
      if Eq(zero, k * k, n) {
        EqTrans(zero, r * r, k * k, n);
        EqTrans(zero, r * r, n, xx);
      }
      assert Eq(zero, (k * c.i) * (k * c.i), n);
      EqRefl(zero, c.i, c.i);
      EqMul(zero, r, k, c.i, c.i);
      ModEq(c.p, r * c.i);
      EqTrans(zero, r', r * c.i, k * c.i);
      EqMul(zero, r', k * c.i, r', k * c.i);
      EqTrans(zero, r' * r', (k * c.i) * (k * c.i), n);
    }
  }

  lemma ZeroIsNoRoot(p: int, r: int, xx: int)
    requires 0 < xx < p && (r * r - xx) % p == 0
    ensures r != 0
  {
    RemainderUnique(p, -1, p - xx);
    assert p * -1 + (p - xx) == 0 * 0 - xx;
  }

  lemma OppositeRoot(p: int, r: int, xx: int)
    requires p > 0 && (r * r - xx) % p == 0
    ensures ((p - r) * (p - r) - xx) % p == 0
  {
    var k := (r * r - xx) / p;
    assert (p - r) * (p - r) - xx == p * (p - 2 * r + k);
    RemainderUnique(p, p - 2 * r + k, 0);
  }

  /** Whatever the search returns is a reduced root of the asked parity. */
  lemma RecoverXSound(c: Curve, xx: int, sign: int)
    requires c.p > 2 && c.p % 2 == 1 && 0 <= xx < c.p && 0 <= sign <= 1
    ensures var x := RecoverX(c, xx, sign);
            x.Some? ==> 0 <= x.value < c.p && x.value % 2 == sign && (x.value * x.value - xx) % c.p == 0
  {
    if xx != 0 {
      var r := Candidate(c, xx);
      CandidateRange(c, xx);
      if (r * r - xx) % c.p == 0 {
        ZeroIsNoRoot(c.p, r, xx);
        OppositeParity(c.p, r);
        OppositeRoot(c.p, r, xx);
      }
    }
  }

  lemma OppositeParity(p: int, r: int)
    requires p % 2 == 1
    ensures (p - r) % 2 == 1 - r % 2
  {
    OddSumParity(p, r, p - r);
  }

  // ----- the two round trips -----

  /** The code's xx is the square of the affine x. The residues it is computed from are
      `yy`, `power` and `xx` itself. */
  lemma SquareFromSlope(zero: Zeros, d: int, i: int, x: int, y: int, yy: int, inverse: int, power: int, xx: int)
    requires CurveField(zero, d, i) && Eq(zero, yy, y * y)
    requires zero(y * y - x * x - (1 + d * (x * y) * (x * y)))
    requires !zero(d * yy + 1) ==> Eq(zero, (d * yy + 1) * inverse, 1)
    requires Eq(zero, power, inverse) && Eq(zero, xx, (yy - 1) * power)
    ensures Eq(zero, xx, x * x)
  {
    var slope := d * yy + 1;
    SlopeNonzeroModulo(zero, d, i, y, yy);
    SlopeTimesSquare(zero, d, x, y, yy);
    EqMul(zero, yy - 1, slope * (x * x), power, inverse);
    MoveInverse(slope, x * x, inverse);
    Scale(zero, slope * (x * x) * inverse - x * x, slope * inverse - 1, x * x);
    EqTrans(zero, xx, (yy - 1) * power, slope * (x * x) * inverse);
    EqTrans(zero, xx, slope * (x * x) * inverse, x * x);
  }

  lemma MoveInverse(a: int, b: int, c: int)
    ensures a * b * c - b == (a * c - 1) * b
  {
  }

  lemma SlopeNonzeroModulo(zero: Zeros, d: int, i: int, y: int, yy: int)
    requires CurveField(zero, d, i) && Eq(zero, yy, y * y)
    ensures !zero(d * yy + 1)
  {
    SlopeNonzero(zero, d, i, y);
    assert d * yy + 1 - (d * y * y + 1) == (yy - y * y) * d by {
      assert d * y * y == d * (y * y);
    }
    Scale(zero, d * yy + 1 - (d * y * y + 1), yy - y * y, d);
    EqZero(zero, d * yy + 1, d * y * y + 1);
  }

  lemma {:induction false} RecoverSquare(c: Curve, x: int, y: int)
    requires FieldConstants(c)
    requires Multiples(c.p)(y * y - x * x - (1 + c.d * (x * y) * (x * y)))
    ensures var yy := (y * y) % c.p;
            Eq(Multiples(c.p), ((yy - 1) * PowMod(c, c.d * yy + 1, c.p - 2)) % c.p, x * x)
  {
    var yy := (y * y) % c.p;
    var slope := c.d * yy + 1;
    var inverse, power := Pow(slope, c.p - 2), PowMod(c, slope, c.p - 2);
    ModEq(c.p, y * y);
    ModEq(c.p, inverse);
    ModEq(c.p, (yy - 1) * power);
    if !Multiples(c.p)(slope) {
      InverseByPower(c.p, slope);
    }
    SquareFromSlope(Multiples(c.p), c.d, c.i, x, y, yy, inverse, power, ((yy - 1) * power) % c.p);
  }

  lemma SlopeTimesSquare(zero: Zeros, d: int, x: int, y: int, yy: int)
    requires Ideal(zero) && Eq(zero, yy, y * y)
    requires zero(y * y - x * x - (1 + d * (x * y) * (x * y)))
    ensures Eq(zero, yy - 1, (d * yy + 1) * (x * x))
  {
    CurveTerm(d, x, y);
    SlopeTimes(zero, d, x * x, y * y, yy);
  }

  lemma CurveTerm(d: int, x: int, y: int)
    ensures d * (x * y) * (x * y) == d * ((x * x) * (y * y))
  {
    Interchange(x, y, x, y);
    assert d * (x * y) * (x * y) == d * ((x * y) * (x * y));
  }

  lemma SlopeTimes(zero: Zeros, d: int, a: int, b: int, yy: int)
    requires Ideal(zero) && Eq(zero, yy, b) && zero(b - a - (1 + d * (a * b)))
    ensures Eq(zero, yy - 1, (d * yy + 1) * a)
  {
    SlopeIdentity(d, a, b, yy);
    Combine(zero, (yy - 1) - (d * yy + 1) * a, 1, b - a - (1 + d * (a * b)), 1 - d * a, yy - b);
  }

  lemma SlopeIdentity(d: int, a: int, b: int, e: int)
    ensures (e - 1) - (d * e + 1) * a == (b - a - (1 + d * (a * b))) * 1 + (e - b) * (1 - d * a)
  {
  }

  /** The affine coordinates of a point, as compression computes them. */
  function Affine(c: Curve, point: Point): (int, int)
    requires c.p >= 2
  {
    var inverse := PowMod(c, point.z, c.p - 2);
    ((point.x * inverse) % c.p, (point.y * inverse) % c.p)
  }

  lemma {:induction false} AffineOnCurve(c: Curve, point: Point)
    requires FieldConstants(c) && Valid(c, point)
    ensures var (x, y) := Affine(c, point);
            && 0 <= x < c.p && 0 <= y < c.p
            && Same(Multiples(c.p), Point(x, y, 1, (x * y) % c.p), point)
            && Multiples(c.p)(y * y - x * x - (1 + c.d * (x * y) * (x * y)))
  {
    var zero := Multiples(c.p);
    var inverse := Pow(point.z, c.p - 2);
    var k := inverse % c.p;
    var x, y := (point.x * k) % c.p, (point.y * k) % c.p;
    InverseByPower(c.p, point.z);
    ModEq(c.p, inverse);
    EqRefl(zero, point.z, point.z);
    EqMul(zero, point.z, point.z, k, inverse);
    EqTrans(zero, point.z * k, point.z * inverse, 1);
    ModEq(c.p, point.x * k);
    ModEq(c.p, point.y * k);
    Normalise(zero, c.d, point, k, x, y);
  }

  lemma OnCurveTest(c: Curve, x: int, y: int)
    requires c.p > 0
    ensures IsOnCurve(c, x, y) <==> Multiples(c.p)(y * y - x * x - (1 + c.d * (x * y) * (x * y)))
  {
    var zero := Multiples(c.p);
    MultiplesIdeal(c.p);
    var xx, yy := (x * x) % c.p, (y * y) % c.p;
    ModEq(c.p, x * x);
    ModEq(c.p, y * y);
    OnCurveResidues(zero, c.d, x, y, xx, yy);
  }

  lemma OnCurveResidues(zero: Zeros, d: int, x: int, y: int, xx: int, yy: int)
    requires Ideal(zero) && Eq(zero, xx, x * x) && Eq(zero, yy, y * y)
    ensures zero(yy - xx - 1 - d * xx * yy) <==> zero(y * y - x * x - (1 + d * (x * y) * (x * y)))
  {
    CurveTerm(d, x, y);
    ResidueTerms(zero, d, x * x, y * y, xx, yy);
  }

  lemma ResidueTerms(zero: Zeros, d: int, a: int, b: int, xx: int, yy: int)
    requires Ideal(zero) && Eq(zero, xx, a) && Eq(zero, yy, b)
    ensures zero(yy - xx - 1 - d * xx * yy) <==> zero(b - a - (1 + d * (a * b)))
  {
    EqMul(zero, xx, a, yy, b);
    EqRefl(zero, d, d);
    EqMul(zero, d, d, xx * yy, a * b);
    var u, v := d * (xx * yy), d * (a * b);
    EqAdd(zero, yy, b, xx, a);
    EqRefl(zero, 1, 1);
    EqAdd(zero, 1, 1, u, v);
    EqAdd(zero, yy - xx, b - a, 1 + u, 1 + v);
    EqZero(zero, yy - xx - (1 + u), b - a - (1 + v));
    assert d * xx * yy == u;
  }

  lemma SignedInteger(y: nat, k: nat, bit: int)
    requires k > 0 && y < TopBit(k) && 0 <= bit <= 1
    ensures FromLittle(ToLittle(y, k)[k - 1 := OrTopBit(ToLittle(y, k)[k - 1], bit)]) == TopBit(k) * bit + y
  {
    var top, n := TopBit(k), y + bit * TopBit(k);
    BitTimes(bit, top);
    TopBitTwice(k);
    LittleTopBit(y, k, bit);
    LittleRoundTrip(n, k);
  }

  lemma BitTimes(bit: int, top: int)
    requires 0 <= bit <= 1
    ensures bit * top == top * bit == if bit == 0 then 0 else top
  {
    assert bit == 0 || bit == 1;
  }

  /** What compression writes, as one integer. */
  lemma {:induction false} EncodedInteger(c: Curve, point: Point)
    requires FieldConstants(c) && Valid(c, point)
    ensures var (x, y) := Affine(c, point);
            FromLittle(EncodePoint(c, point)) == TopBit(c.width) * (x % 2) + y
  {
    var (x, y) := Affine(c, point);
    AffineOnCurve(c, point);
    SignedInteger(y, c.width, x % 2);
  }

  /** Every point of the curve survives compression: decompressing its encoding succeeds and
      gives projectively the same point, on the curve. */
  lemma {:induction false} DecodeEncode(c: Curve, point: Point)
    requires FieldConstants(c) && Valid(c, point)
    ensures var r := DecodePoint(c, EncodePoint(c, point));
            r.Some? && PointsEqual(c, r.value, point) && Valid(c, r.value)
  {
    var (x, y) := Affine(c, point);
    AffineOnCurve(c, point);
    EncodedInteger(c, point);
    RecoverSquare(c, x, y);
    RecoverXComplete(c, SquareOf(c, y), x);
    OnCurveTest(c, x, y);
    DecodedAs(c, EncodePoint(c, point), x, y);
    DecodedValid(c, x, y);
  }

  /** The square of x that decompression computes from y. */
  function SquareOf(c: Curve, y: int): int
    requires c.p >= 2
  {
    var yy := (y * y) % c.p;
    ((yy - 1) * PowMod(c, c.d * yy + 1, c.p - 2)) % c.p
  }

  lemma DecodedAs(c: Curve, encoded: Bytes, x: int, y: int)
    requires c.p >= 2 && c.width > 0 && |encoded| == c.width && 0 <= y < c.p <= TopBit(c.width)
    requires FromLittle(encoded) == TopBit(c.width) * (x % 2) + y
    requires RecoverX(c, SquareOf(c, y), x % 2) == Some(x) && IsOnCurve(c, x, y)
    ensures DecodePoint(c, encoded) == Some(Point(x, y, 1, (x * y) % c.p))
  {
    RemainderUnique(TopBit(c.width), x % 2, y);
  }

  lemma DecodedValid(c: Curve, x: int, y: int)
    requires IsPrime(c.p) && Multiples(c.p)(y * y - x * x - (1 + c.d * (x * y) * (x * y)))
    ensures Valid(c, Point(x, y, 1, (x * y) % c.p))
  {
    var zero := Multiples(c.p);
    MultiplesModulus(c.p);
    var q := Point(x, y, 1, x * y);
    assert OnCurve(zero, c.d, q);
    ModEq(c.p, x * y);
    EqRefl(zero, x, x);
    EqRefl(zero, y, y);
    EqRefl(zero, 1, 1);
    CongruentOnCurve(zero, c.d, Point(x, y, 1, (x * y) % c.p), q);
  }

  lemma {:induction false} DecodedParts(c: Curve, encoded: Bytes) returns (sign: int)
    requires FieldConstants(c) && DecodePoint(c, encoded).Some?
    ensures var point := DecodePoint(c, encoded).value;
            && 0 <= sign <= 1 && FromLittle(encoded) == point.y + sign * TopBit(c.width)
            && 0 <= point.x < c.p && point.x % 2 == sign && 0 <= point.y < c.p && point.z == 1
            && IsOnCurve(c, point.x, point.y) && point.t == (point.x * point.y) % c.p
  {
    var n, top := FromLittle(encoded), TopBit(c.width);
    TopBitTwice(c.width);
    LittleBytes(encoded);
    sign := n / top;
    SignBit(n, top);
    DecodedFields(c, encoded, n % top, sign);
    SquareOfBounds(c, n % top);
    RecoverXSound(c, SquareOf(c, n % top), sign);
  }

  lemma SquareOfBounds(c: Curve, y: int)
    requires c.p >= 2
    ensures 0 <= SquareOf(c, y) < c.p
  {
    var yy := (y * y) % c.p;
    ModuloBounds(c.p, (yy - 1) * PowMod(c, c.d * yy + 1, c.p - 2));
  }

  lemma DecodedFields(c: Curve, encoded: Bytes, y: int, sign: int)
    requires c.p >= 2 && c.width > 0 && TopBit(c.width) > 0 && DecodePoint(c, encoded).Some?
    requires y == FromLittle(encoded) % TopBit(c.width) && sign == FromLittle(encoded) / TopBit(c.width)
    ensures var point := DecodePoint(c, encoded).value;
            && RecoverX(c, SquareOf(c, y), sign) == Some(point.x) && 0 <= point.y == y < c.p && point.z == 1
            && IsOnCurve(c, point.x, y) && point.t == (point.x * y) % c.p
  {
  }

  /** Every decoded point lies on the curve, and compressing it gives back the same bytes. */
  lemma {:induction false} EncodeDecode(c: Curve, encoded: Bytes)
    requires FieldConstants(c) && DecodePoint(c, encoded).Some?
    ensures Valid(c, DecodePoint(c, encoded).value)
    ensures EncodePoint(c, DecodePoint(c, encoded).value) == encoded
  {
    var point := DecodePoint(c, encoded).value;
    var sign := DecodedParts(c, encoded);
    OnCurveTest(c, point.x, point.y);
    DecodedValid(c, point.x, point.y);
    UnitAffine(c, point);
    LittleTopBit(point.y, c.width, sign);
    LittleBytes(encoded);
  }

  lemma SignBit(n: nat, top: int)
    requires top > 0 && n < 2 * top
    ensures 0 <= n / top <= 1 && n == n % top + (n / top) * top
  {
    if n >= top {
      RemainderUnique(top, 1, n - top);
    } else {
      RemainderUnique(top, 0, n);
    }
  }

  lemma {:induction false} UnitAffine(c: Curve, point: Point)
    requires c.p >= 2 && point.z == 1 && 0 <= point.x < c.p && 0 <= point.y < c.p
    ensures Affine(c, point) == (point.x, point.y)
  {
    PowOne(c.p - 2);
    RemainderUnique(c.p, 0, 1);
    RemainderUnique(c.p, 0, point.x);
    RemainderUnique(c.p, 0, point.y);
  }
}
