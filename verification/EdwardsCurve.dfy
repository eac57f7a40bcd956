/** The twisted Edwards curve -x^2 + y^2 = 1 + d x^2 y^2 in extended coordinates, over an
    abstract prime residue system. Nothing here mentions a modulus: the facts hold for
    every prime ideal in which -1 is a square and `d` is not. */
module EdwardsCurve {
  import opened Residues

  datatype Point = Point(x: int, y: int, z: int, t: int)

  const IDENTITY := Point(0, 1, 1, 0)

  /** The hypotheses on the field: `i` is a square root of -1, 2 is not zero and `d` is not
      a square. */
  ghost predicate CurveField(zero: Zeros, d: int, i: int) {
    && PrimeIdeal(zero)
    && !zero(2)
    && zero(i * i + 1)
    && (forall a, b {:trigger At(a, b)} :: zero(d * b * b - a * a) ==> zero(b))
  }

  /** Extended coordinates of a finite point of the curve. */
  ghost predicate OnCurve(zero: Zeros, d: int, p: Point) {
    && !zero(p.z)
    && zero(p.x * p.y - p.z * p.t)
    && zero(p.y * p.y - p.x * p.x - (p.z * p.z + d * p.t * p.t))
  }

  /** Projective equality, as the source tests it. */
  ghost predicate Same(zero: Zeros, p: Point, q: Point) {
    zero(p.x * q.z - q.x * p.z) && zero(p.y * q.z - q.y * p.z)
  }

  ghost predicate Congruent(zero: Zeros, p: Point, q: Point) {
    Eq(zero, p.x, q.x) && Eq(zero, p.y, q.y) && Eq(zero, p.z, q.z) && Eq(zero, p.t, q.t)
  }

  // The four intermediate values of the addition formula, without their factor two.
  ghost function E(p: Point, q: Point): int { p.x * q.y + p.y * q.x }
  ghost function H(p: Point, q: Point): int { p.y * q.y + p.x * q.x }
  ghost function F(d: int, p: Point, q: Point): int { p.z * q.z - d * (p.t * q.t) }
  ghost function G(d: int, p: Point, q: Point): int { p.z * q.z + d * (p.t * q.t) }

  ghost function RawSum(d: int, p: Point, q: Point): Point {
    var e, f, g, h := E(p, q), F(d, p, q), G(d, p, q), H(p, q);
    Point(4 * (e * f), 4 * (g * h), 4 * (f * g), 4 * (e * h))
  }

  // ----- congruent coordinates -----

  lemma CongruentOnCurve(zero: Zeros, d: int, p: Point, q: Point)
    requires Ideal(zero) && Congruent(zero, p, q) && OnCurve(zero, d, q)
    ensures OnCurve(zero, d, p)
  {
    EqZero(zero, p.z, q.z);
    EqMul(zero, p.x, q.x, p.y, q.y);
    EqMul(zero, p.z, q.z, p.t, q.t);
    EqAdd(zero, p.x * p.y, q.x * q.y, p.z * p.t, q.z * q.t);
    EqZero(zero, p.x * p.y - p.z * p.t, q.x * q.y - q.z * q.t);
    EqMul(zero, p.y, q.y, p.y, q.y);
    EqMul(zero, p.x, q.x, p.x, q.x);
    EqMul(zero, p.z, q.z, p.z, q.z);
    EqRefl(zero, d, d);
    EqMul(zero, d, d, p.t, q.t);
    EqMul(zero, d * p.t, d * q.t, p.t, q.t);
    EqAdd(zero, p.z * p.z, q.z * q.z, d * p.t * p.t, d * q.t * q.t);
    EqAdd(zero, p.y * p.y, q.y * q.y, p.x * p.x, q.x * q.x);
    var l, r := p.y * p.y - p.x * p.x, q.y * q.y - q.x * q.x;
    var l', r' := p.z * p.z + d * p.t * p.t, q.z * q.z + d * q.t * q.t;
    EqAdd(zero, l, r, l', r');
    EqZero(zero, l - l', r - r');
  }

  lemma CongruentSame(zero: Zeros, p: Point, q: Point)
    requires Ideal(zero) && Congruent(zero, p, q)
    ensures Same(zero, p, q)
  {
    Combine(zero, p.x * q.z - q.x * p.z, q.z, p.x - q.x, -q.x, p.z - q.z);
    Combine(zero, p.y * q.z - q.y * p.z, q.z, p.y - q.y, -q.y, p.z - q.z);
  }

  // ----- projective equality is an equivalence -----

  lemma SameRefl(zero: Zeros, p: Point)
    requires Ideal(zero)
    ensures Same(zero, p, p)
  {
  }

  lemma SameSym(zero: Zeros, p: Point, q: Point)
    requires Ideal(zero) && Same(zero, p, q)
    ensures Same(zero, q, p)
  {
    Scale(zero, q.x * p.z - p.x * q.z, p.x * q.z - q.x * p.z, -1);
    Scale(zero, q.y * p.z - p.y * q.z, p.y * q.z - q.y * p.z, -1);
  }

  lemma CrossTrans(zero: Zeros, a: int, az: int, b: int, bz: int, c: int, cz: int)
    requires PrimeIdeal(zero) && !zero(bz)
    requires zero(a * bz - b * az) && zero(b * cz - c * bz)
    ensures zero(a * cz - c * az)
  {
    var u, v := a * bz - b * az, b * cz - c * bz;
    assert bz * (a * cz - c * az) == u * cz + v * az;
    Combine(zero, bz * (a * cz - c * az), cz, u, az, v);
    Cancel(zero, bz, a * cz - c * az);
  }

  lemma SameTrans(zero: Zeros, p: Point, q: Point, r: Point)
    requires PrimeIdeal(zero) && !zero(q.z) && Same(zero, p, q) && Same(zero, q, r)
    ensures Same(zero, p, r)
  {
    CrossTrans(zero, p.x, p.z, q.x, q.z, r.x, r.z);
    CrossTrans(zero, p.y, p.z, q.y, q.z, r.y, r.z);
  }

  // ----- the sum lies on the curve -----

  lemma Times(a: int, a': int, b: int, b': int)
    requires a == a' && b == b'
    ensures a * b == a' * b'
  {
  }

  lemma ExpandSquare(a: int, b: int, c: int, e: int)
    ensures a * b * ((c + e) * (c + e)) == (b * c) * (a * c) + 2 * ((a * c) * (b * e)) + (a * e) * (b * e)
  {
    assert (c + e) * (c + e) == c * c + 2 * (c * e) + e * e;
  }

  lemma ExpandProduct(a: int, b: int, c: int, e: int)
    ensures (a + b) * (c + e) == a * c + b * e + a * e + b * c
  {
  }

  lemma ExpandClosure(x: int, y: int, v: int, w: int)
    ensures (x + y) * (x + y + v + w)
            == (x - y) * (x - y) + ((w * x + 2 * (x * y) + v * y) + (v * x + 2 * (x * y) + w * y))
  {
  }

  /** The identity behind closure: `a`, `c` are the squares of z and `b`, `e` the scaled
      squares of t. */
  lemma ClosureIdentity(a: int, b: int, c: int, e: int)
    ensures (a * c + b * e) * ((a + b) * (c + e))
            == (a * c - b * e) * (a * c - b * e) + (a * b * ((c + e) * (c + e)) + c * e * ((a + b) * (a + b)))
  {
    var x, y, v, w := a * c, b * e, a * e, b * c;
    ExpandProduct(a, b, c, e);
    Times(x + y, x + y, (a + b) * (c + e), x + y + v + w);
    ExpandSquare(a, b, c, e);
    ExpandSquare(c, e, a, b);
    ExpandClosure(x, y, v, w);
  }

  lemma SumSquares(x1: int, y1: int, x2: int, y2: int)
    ensures var e, h, w := x1 * y2 + y1 * x2, y1 * y2 + x1 * x2, (x1 * y1) * (x2 * y2);
            && e * e == (x1 * x1) * (y2 * y2) + (y1 * y1) * (x2 * x2) + 2 * w
            && h * h == (y1 * y1) * (y2 * y2) + (x1 * x1) * (x2 * x2) + 2 * w
  {
    var w := (x1 * y1) * (x2 * y2);
    SquareProduct(x1, y2);
    SquareProduct(y1, x2);
    SquareProduct(y1, y2);
    SquareProduct(x1, x2);
    assert (x1 * y2) * (y1 * x2) == w && (y1 * y2) * (x1 * x2) == w;
  }

  lemma SumProduct(x1: int, y1: int, x2: int, y2: int)
    ensures (x1 * y2 + y1 * x2) * (y1 * y2 + x1 * x2)
            == (x1 * y1) * (y2 * y2 + x2 * x2) + (x2 * y2) * (y1 * y1 + x1 * x1)
  {
    assert (x1 * y2) * (y1 * y2) == (x1 * y1) * (y2 * y2) && (x1 * y2) * (x1 * x2) == (x2 * y2) * (x1 * x1);
    assert (y1 * x2) * (y1 * y2) == (x2 * y2) * (y1 * y1) && (y1 * x2) * (x1 * x2) == (x1 * y1) * (x2 * x2);
  }

  lemma SumIdentities(x1: int, y1: int, x2: int, y2: int)
    ensures var e, h := x1 * y2 + y1 * x2, y1 * y2 + x1 * x2;
            var s1, s2, r1, r2 := y1 * y1 - x1 * x1, y2 * y2 - x2 * x2, y1 * y1 + x1 * x1, y2 * y2 + x2 * x2;
            && h * h - e * e == s1 * s2
            && h * h + e * e == r1 * r2 + 4 * ((x1 * y1) * (x2 * y2))
            && e * h == (x1 * y1) * r2 + (x2 * y2) * r1
  {
    SumSquares(x1, y1, x2, y2);
    SumProduct(x1, y1, x2, y2);
    ProductsOfSquares(x1 * x1, y1 * y1, x2 * x2, y2 * y2);
  }

  lemma ProductsOfSquares(a: int, b: int, c: int, k: int)
    ensures (b - a) * (k - c) == b * k + a * c - a * k - b * c
    ensures (b + a) * (k + c) == b * k + a * c + a * k + b * c
  {
  }

  lemma SquareIdentity(x: int, y: int)
    ensures var s, r := y * y - x * x, y * y + x * x;
            r * r == s * s + 4 * ((x * y) * (x * y))
  {
    assert (x * y) * (x * y) == (x * x) * (y * y);
  }

  /** The curve equation of a sum, with everything but the coordinates' products named. */
  lemma SumExpression(d: int, u: int, v: int, e: int, h: int, s1: int, s2: int, r1: int, r2: int, p1: int, p2: int)
    requires h * h - e * e == s1 * s2
    requires h * h + e * e == r1 * r2 + 4 * (p1 * p2)
    requires e * h == p1 * r2 + p2 * r1
    requires r1 * r1 == s1 * s1 + 4 * (p1 * p1)
    requires r2 * r2 == s2 * s2 + 4 * (p2 * p2)
    ensures var f, g := u - v, u + v;
            (g * h) * (g * h) - (e * f) * (e * f) - ((f * g) * (f * g) + d * (e * h) * (e * h))
            == (u * u + v * v) * (s1 * s2) - (u * u - v * v) * (u * u - v * v)
               - d * (p1 * p1 * (s2 * s2) + p2 * p2 * (s1 * s1))
               + (u * v - d * (p1 * p2)) * (2 * (r1 * r2) + 8 * (p1 * p2))
  {
    var w, r := p1 * p2, r1 * r2;
    var k := p1 * p1 * (s2 * s2) + p2 * p2 * (s1 * s1);
    ScaledSquares(u, v, e, h, s1 * s2, r + 4 * w);
    SquareOfDifference(u, v);
    CrossTerm(d, e * h, p1, r2, p2, r1, s2 * s2, s1 * s1);
    CollectTerms(d, u * v, w, r, k);
  }

  lemma SquareOfDifference(u: int, v: int)
    ensures ((u - v) * (u + v)) * ((u - v) * (u + v)) == (u * u - v * v) * (u * u - v * v)
  {
    assert (u - v) * (u + v) == u * u - v * v;
  }

  lemma CrossTerm(d: int, m: int, p1: int, r2: int, p2: int, r1: int, q2: int, q1: int)
    requires m == p1 * r2 + p2 * r1
    requires r1 * r1 == q1 + 4 * (p1 * p1) && r2 * r2 == q2 + 4 * (p2 * p2)
    ensures d * m * m == d * (p1 * p1 * q2 + p2 * p2 * q1 + 8 * ((p1 * p2) * (p1 * p2)) + 2 * ((p1 * p2) * (r1 * r2)))
  {
    SquareOfSum(p1, r2, p2, r1, q2, q1);
    assert d * m * m == d * (m * m);
  }

  lemma ScaledSquares(u: int, v: int, e: int, h: int, s: int, t: int)
    requires h * h - e * e == s && h * h + e * e == t
    ensures var f, g := u - v, u + v;
            (g * h) * (g * h) - (e * f) * (e * f) == (u * u + v * v) * s + 2 * (u * v) * t
  {
    var f, g, m, n := u - v, u + v, u * u + v * v, 2 * (u * v);
    SquareProduct(g, h);
    SquareProduct(e, f);
    assert g * g == m + n && f * f == m - n;
    DifferenceOfScaled(m, n, h * h, e * e);
  }

  lemma CollectTerms(d: int, a: int, w: int, r: int, k: int)
    ensures 2 * a * (r + 4 * w) - d * (k + 8 * (w * w) + 2 * (w * r)) == (a - d * w) * (2 * r + 8 * w) - d * k
  {
    assert (a - d * w) * (2 * r + 8 * w) == 2 * (a * r) + 8 * (a * w) - d * (2 * (w * r)) - d * (8 * (w * w));
  }

  lemma SquareProduct(x: int, y: int)
    ensures (x * y) * (x * y) == (x * x) * (y * y)
  {
  }

  lemma DifferenceOfScaled(a: int, b: int, x: int, y: int)
    ensures (a + b) * x - (a - b) * y == a * (x - y) + b * (x + y)
  {
  }

  lemma SquareOfSum(p1: int, r2: int, p2: int, r1: int, q2: int, q1: int)
    requires r1 * r1 == q1 + 4 * (p1 * p1) && r2 * r2 == q2 + 4 * (p2 * p2)
    ensures var k := p1 * r2 + p2 * r1;
            k * k == p1 * p1 * q2 + p2 * p2 * q1 + 8 * ((p1 * p2) * (p1 * p2)) + 2 * ((p1 * p2) * (r1 * r2))
  {
    var a, b := p1 * r2, p2 * r1;
    assert (a + b) * (a + b) == a * a + b * b + 2 * (a * b);
    assert a * a == (p1 * p1) * (r2 * r2) && b * b == (p2 * p2) * (r1 * r1);
    assert a * b == (p1 * p2) * (r1 * r2);
    assert (p1 * p1) * (q2 + 4 * (p2 * p2)) == p1 * p1 * q2 + 4 * ((p1 * p1) * (p2 * p2));
    assert (p2 * p2) * (q1 + 4 * (p1 * p1)) == p2 * p2 * q1 + 4 * ((p2 * p2) * (p1 * p1));
    assert (p1 * p1) * (p2 * p2) == (p1 * p2) * (p1 * p2);
  }

  /** The addition formula maps solutions of the curve equation to solutions. */
  lemma SumOnEquation(zero: Zeros, d: int, p: Point, q: Point)
    requires Ideal(zero) && OnCurve(zero, d, p) && OnCurve(zero, d, q)
    ensures var e, f, g, h := E(p, q), F(d, p, q), G(d, p, q), H(p, q);
            zero((g * h) * (g * h) - (e * f) * (e * f) - ((f * g) * (f * g) + d * (e * h) * (e * h)))
  {
    var e, f, g, h := E(p, q), F(d, p, q), G(d, p, q), H(p, q);
    var u, v := p.z * q.z, d * (p.t * q.t);
    var s1, s2 := p.y * p.y - p.x * p.x, q.y * q.y - q.x * q.x;
    var r1, r2 := p.y * p.y + p.x * p.x, q.y * q.y + q.x * q.x;
    var p1, p2 := p.x * p.y, q.x * q.y;
    var bracket := (u * u + v * v) * (s1 * s2) - (u * u - v * v) * (u * u - v * v)
                   - d * (p1 * p1 * (s2 * s2) + p2 * p2 * (s1 * s1));
    var gap, c := u * v - d * (p1 * p2), 2 * (r1 * r2) + 8 * (p1 * p2);
    var target := (g * h) * (g * h) - (e * f) * (e * f) - ((f * g) * (f * g) + d * (e * h) * (e * h));
    assert target == bracket + gap * c by {
      SumIdentities(p.x, p.y, q.x, q.y);
      SquareIdentity(p.x, p.y);
      SquareIdentity(q.x, q.y);
      SumExpression(d, u, v, e, h, s1, s2, r1, r2, p1, p2);
    }
    assert zero(bracket) by { MainBracket(zero, d, p, q, s1, s2, p1, p2); }
    assert zero(gap) by { GapZero(zero, d, p, q); }
    Combine(zero, target, 1, bracket, c, gap);
  }

  lemma GapZero(zero: Zeros, d: int, p: Point, q: Point)
    requires Ideal(zero) && OnCurve(zero, d, p) && OnCurve(zero, d, q)
    ensures zero((p.z * q.z) * (d * (p.t * q.t)) - d * ((p.x * p.y) * (q.x * q.y)))
  {
    var p1, p2, w1, w2 := p.x * p.y, q.x * q.y, p.z * p.t, q.z * q.t;
    EqMul(zero, p1, w1, p2, w2);
    assert (p.z * q.z) * (d * (p.t * q.t)) == d * (w1 * w2);
    Scale(zero, (p.z * q.z) * (d * (p.t * q.t)) - d * (p1 * p2), p1 * p2 - w1 * w2, -d);
  }

  lemma MainBracket(zero: Zeros, d: int, p: Point, q: Point, s1: int, s2: int, p1: int, p2: int)
    requires Ideal(zero)
    requires Eq(zero, s1, p.z * p.z + d * p.t * p.t) && Eq(zero, s2, q.z * q.z + d * q.t * q.t)
    requires Eq(zero, p1, p.z * p.t) && Eq(zero, p2, q.z * q.t)
    ensures var u, v := p.z * q.z, d * (p.t * q.t);
            zero((u * u + v * v) * (s1 * s2) - (u * u - v * v) * (u * u - v * v)
                 - d * (p1 * p1 * (s2 * s2) + p2 * p2 * (s1 * s1)))
  {
    var u, v := p.z * q.z, d * (p.t * q.t);
    var k1, k2, w1, w2 := p.z * p.z + d * p.t * p.t, q.z * q.z + d * q.t * q.t, p.z * p.t, q.z * q.t;
    var m, n := u * u + v * v, u * u - v * v;
    assert m * (k1 * k2) == n * n + d * (w1 * w1 * (k2 * k2) + w2 * w2 * (k1 * k1)) by {
      BracketIdentity(d, p.z, p.t, q.z, q.t);
    }
    EqMul(zero, s1, k1, s2, k2);
    EqMul(zero, s1, k1, s1, k1);
    EqMul(zero, s2, k2, s2, k2);
    EqMul(zero, p1, w1, p1, w1);
    EqMul(zero, p2, w2, p2, w2);
    EqMul(zero, p1 * p1, w1 * w1, s2 * s2, k2 * k2);
    EqMul(zero, p2 * p2, w2 * w2, s1 * s1, k1 * k1);
    var a, a' := p1 * p1 * (s2 * s2) + p2 * p2 * (s1 * s1), w1 * w1 * (k2 * k2) + w2 * w2 * (k1 * k1);
    EqAdd(zero, p1 * p1 * (s2 * s2), w1 * w1 * (k2 * k2), p2 * p2 * (s1 * s1), w2 * w2 * (k1 * k1));
    var x, x' := s1 * s2, k1 * k2;
    ScaledDifference(m, x, x', n * n, d, a, a');
    Combine(zero, m * x - n * n - d * a, m, x - x', -d, a - a');
  }

  lemma ScaledDifference(m: int, x: int, x': int, n: int, d: int, a: int, a': int)
    requires m * x' == n + d * a'
    ensures m * x - n - d * a == (x - x') * m + (a - a') * (-d)
  {
  }

  lemma BracketIdentity(d: int, z1: int, t1: int, z2: int, t2: int)
    ensures var u, v := z1 * z2, d * (t1 * t2);
            var m, n := u * u + v * v, u * u - v * v;
            var k1, k2, w1, w2 := z1 * z1 + d * t1 * t1, z2 * z2 + d * t2 * t2, z1 * t1, z2 * t2;
            m * (k1 * k2) == n * n + d * (w1 * w1 * (k2 * k2) + w2 * w2 * (k1 * k1))
  {
    var u, v := z1 * z2, d * (t1 * t2);
    var a, b, c, e := z1 * z1, d * t1 * t1, z2 * z2, d * t2 * t2;
    var k1, k2, w1, w2 := a + b, c + e, z1 * t1, z2 * t2;
    SquareProduct(z1, z2);
    ScaledSquareProduct(d, t1, t2);
    SquareProduct(z1, t1);
    SquareProduct(z2, t2);
    ScaleInner(d, z1 * z1, t1);
    ScaleInner(d, z2 * z2, t2);
    ClosureIdentity(a, b, c, e);
    Times(u * u + v * v, a * c + b * e, k1 * k2, k1 * k2);
    Times(u * u - v * v, a * c - b * e, u * u - v * v, a * c - b * e);
    Times(d * (w1 * w1), a * b, k2 * k2, k2 * k2);
    Times(d * (w2 * w2), c * e, k1 * k1, k1 * k1);
    Regroup(d, w1 * w1, k2 * k2, w2 * w2, k1 * k1);
  }

  lemma ScaledSquareProduct(d: int, x: int, y: int)
    ensures (d * (x * y)) * (d * (x * y)) == (d * x * x) * (d * y * y)
  {
    SquareProduct(d, x * y);
    SquareProduct(x, y);
    assert (d * x * x) * (d * y * y) == (d * d) * ((x * x) * (y * y));
  }

  lemma ScaleInner(d: int, a: int, t: int)
    ensures a * (d * t * t) == d * (a * (t * t))
  {
  }

  lemma Regroup(d: int, a: int, b: int, c: int, e: int)
    ensures d * (a * b + c * e) == d * a * b + d * c * e
  {
  }

  // ----- the denominators never vanish -----

  /** On the curve the square of j x + s y is a form in z and t alone. */
  lemma HalfSquare(zero: Zeros, d: int, j: int, s: int, p: Point)
    requires Ideal(zero) && OnCurve(zero, d, p) && zero(j * j + 1) && s * s == 1
    ensures var k := j * p.x + s * p.y;
            Eq(zero, k * k, p.z * p.z + d * p.t * p.t + 2 * (j * s) * (p.z * p.t))
  {
    var k, n := j * p.x + s * p.y, p.z * p.z + d * p.t * p.t;
    var c, w := p.y * p.y - p.x * p.x - n, p.x * p.y - p.z * p.t;
    var a := (j * j + 1) * (p.x * p.x) + c;
    Combine(zero, a, p.x * p.x, j * j + 1, 1, c);
    HalfSquareIdentity(j, s, p.x, p.y, n, p.z * p.t);
    Combine(zero, k * k - (n + 2 * (j * s) * (p.z * p.t)), 1, a, 2 * (j * s), w);
  }

  lemma HalfSquareIdentity(j: int, s: int, x: int, y: int, n: int, w: int)
    requires s * s == 1
    ensures (j * x + s * y) * (j * x + s * y) - (n + 2 * (j * s) * w)
            == ((j * j + 1) * (x * x) + (y * y - x * x - n)) * 1 + (x * y - w) * (2 * (j * s))
  {
    SquareOfForm(j, s, x, y);
    var b, c := x * y, 2 * (j * s);
    assert (b - w) * c == c * b - c * w;
    assert (j * j + 1) * (x * x) == (j * j) * (x * x) + x * x;
  }

  lemma SquareOfForm(j: int, s: int, x: int, y: int)
    requires s * s == 1
    ensures (j * x + s * y) * (j * x + s * y) == (j * j) * (x * x) + y * y + 2 * (j * s) * (x * y)
  {
    var a, b := j * x, s * y;
    SquareProduct(j, x);
    SquareProduct(s, y);
    CrossProduct(j, x, s, y);
    SquareOfTwo(a, b);
    assert 2 * (j * s) * (x * y) == 2 * (a * b);
    assert (s * s) * (y * y) == y * y;
  }

  lemma CrossProduct(j: int, x: int, s: int, y: int)
    ensures (j * x) * (s * y) == (j * s) * (x * y)
  {
  }

  lemma SquareOfTwo(a: int, b: int)
    ensures (a + b) * (a + b) == a * a + b * b + 2 * (a * b)
  {
  }

  lemma VanishingDenominator(zero: Zeros, d: int, i: int, p: Point, q: Point, j: int, s: int)
    requires CurveField(zero, d, i) && OnCurve(zero, d, p) && OnCurve(zero, d, q)
    requires zero(j * j + 1) && s * s == 1
    requires zero(s * (p.z * q.z) - d * (p.t * q.t))
    ensures zero(p.t * (j * q.x + q.y))
  {
    var k, l := j * p.x + s * p.y, j * q.x + q.y;
    HalfSquare(zero, d, j, s, p);
    HalfSquare(zero, d, j, 1, q);
    var m, n := p.z * p.z + d * p.t * p.t + 2 * (j * s) * (p.z * p.t), q.z * q.z + d * q.t * q.t + 2 * j * (q.z * q.t);
    var u, v := s * (p.z * q.z), d * (p.t * q.t);
    var w := -(v + u + 2 * j * (p.t * q.z));
    DenominatorIdentity(d, j, s, p.z, p.t, q.z, q.t);
    SquareClass(zero, d, k, l, q.z, p.t, m, n, u - v, w);
    assert At(k * q.z, p.t * l);
  }

  /** If k^2 and l^2 are m and n up to a vanishing difference, d (t l)^2 and (k z)^2 agree. */
  lemma SquareClass(zero: Zeros, d: int, k: int, l: int, z: int, t: int, m: int, n: int, e: int, w: int)
    requires Ideal(zero) && Eq(zero, k * k, m) && Eq(zero, l * l, n)
    requires zero(e) && d * (t * t) * n - m * (z * z) == e * w
    ensures zero(d * (t * l) * (t * l) - (k * z) * (k * z))
  {
    var tt, zz := d * (t * t), z * z;
    EqRefl(zero, zz, zz);
    EqMul(zero, k * k, m, zz, zz);
    EqRefl(zero, tt, tt);
    EqMul(zero, tt, tt, l * l, n);
    EqAdd(zero, tt * (l * l), tt * n, (k * k) * zz, m * zz);
    Scale(zero, tt * n - m * zz, e, w);
    EqZero(zero, tt * (l * l) - (k * k) * zz, tt * n - m * zz);
    SquareProduct(k, z);
    ScaledSquare(d, t, l);
  }

  lemma ScaledSquare(d: int, t: int, l: int)
    ensures d * (t * l) * (t * l) == d * (t * t) * (l * l)
  {
    SquareProduct(t, l);
    assert d * (t * l) * (t * l) == d * ((t * l) * (t * l));
    assert d * (t * t) * (l * l) == d * ((t * t) * (l * l));
  }

  lemma DenominatorIdentity(d: int, j: int, s: int, z1: int, t1: int, z2: int, t2: int)
    requires s * s == 1
    ensures d * (t1 * t1) * (z2 * z2 + d * t2 * t2 + 2 * j * (z2 * t2))
            - (z1 * z1 + d * t1 * t1 + 2 * (j * s) * (z1 * t1)) * (z2 * z2)
            == (s * (z1 * z2) - d * (t1 * t2)) * -(d * (t1 * t2) + s * (z1 * z2) + 2 * j * (t1 * z2))
  {
    var u, v, w, k := s * (z1 * z2), d * (t1 * t2), t1 * z2, d * (t1 * t1);
    assert u * u == (z1 * z1) * (z2 * z2) by {
      SquareProduct(s, z1 * z2);
      SquareProduct(z1, z2);
    }
    assert v * v == k * (d * t2 * t2) by {
      ScaledSquareProduct(d, t1, t2);
      assert d * t1 * t1 == k;
    }
    assert k * (2 * j * (z2 * t2)) == 2 * j * (w * v) by { MoveFactors(d, t1, z2, t2, j); }
    assert 2 * (j * s) * (z1 * t1) * (z2 * z2) == 2 * j * (w * u) by { MoveFactors'(s, z1, t1, z2, j); }
    DistributeThree(k, z2 * z2, d * t2 * t2, 2 * j * (z2 * t2));
    DistributeThree(z2 * z2, z1 * z1, k, 2 * (j * s) * (z1 * t1));
    DifferenceOfSquares(u, v, j, w);
  }

  lemma MoveFactors(d: int, t1: int, z2: int, t2: int, j: int)
    ensures d * (t1 * t1) * (2 * j * (z2 * t2)) == 2 * j * ((t1 * z2) * (d * (t1 * t2)))
  {
    assert (t1 * z2) * (d * (t1 * t2)) == d * (t1 * t1) * (z2 * t2);
  }

  lemma MoveFactors'(s: int, z1: int, t1: int, z2: int, j: int)
    ensures 2 * (j * s) * (z1 * t1) * (z2 * z2) == 2 * j * ((t1 * z2) * (s * (z1 * z2)))
  {
    assert (t1 * z2) * (s * (z1 * z2)) == s * (z1 * t1) * (z2 * z2);
  }

  lemma DistributeThree(k: int, a: int, b: int, c: int)
    ensures k * (a + b + c) == k * a + k * b + k * c && (a + b + c) * k == a * k + b * k + c * k
  {
  }

  lemma DifferenceOfSquares(u: int, v: int, j: int, w: int)
    ensures (u - v) * -(v + u + 2 * j * w) == v * v - u * u + 2 * j * (w * v) - 2 * j * (w * u)
  {
  }

  lemma VanishingMakesTNonzero(zero: Zeros, d: int, p: Point, q: Point, s: int)
    requires PrimeIdeal(zero) && !zero(p.z) && !zero(q.z) && s * s == 1
    requires zero(s * (p.z * q.z) - d * (p.t * q.t))
    ensures !zero(p.t * q.t)
  {
    var a, b := p.z * q.z, p.t * q.t;
    NonzeroProduct(zero, p.z, q.z);
    if zero(b) {
      assert a == (s * a - d * b) * s + b * (d * s) by {
        assert (s * a - d * b) * s == (s * s) * a - b * (d * s);
      }
      Combine(zero, a, s, s * a - d * b, d * s, b);
    }
  }

  lemma DenominatorNonzero(zero: Zeros, d: int, i: int, p: Point, q: Point, s: int)
    requires CurveField(zero, d, i) && OnCurve(zero, d, p) && OnCurve(zero, d, q) && s * s == 1
    ensures !zero(s * (p.z * q.z) - d * (p.t * q.t))
  {
    if zero(s * (p.z * q.z) - d * (p.t * q.t)) {
      VanishingMakesTNonzero(zero, d, p, q, s);
      var a, b := i * q.x + q.y, -i * q.x + q.y;
      assert zero(p.t * a) by { VanishingDenominator(zero, d, i, p, q, i, s); }
      assert (-i) * (-i) + 1 == i * i + 1;
      assert zero(p.t * b) by { VanishingDenominator(zero, d, i, p, q, -i, s); }
      BothHalvesVanish(zero, p.t, i, q);
    }
  }

  /** The two linear forms can only vanish together at t = 0. */
  lemma BothHalvesVanish(zero: Zeros, t: int, i: int, q: Point)
    requires PrimeIdeal(zero) && !zero(2) && !zero(q.z) && zero(q.x * q.y - q.z * q.t)
    requires zero(t * (i * q.x + q.y)) && zero(t * (-i * q.x + q.y))
    ensures zero(t * q.t)
  {
    if zero(t) {
      Scale(zero, t * q.t, t, q.t);
    } else {
      var a, b := i * q.x + q.y, -i * q.x + q.y;
      Cancel(zero, t, a);
      Cancel(zero, t, b);
      Combine(zero, 2 * q.y, 1, a, 1, b);
      Cancel(zero, 2, q.y);
      Combine(zero, q.z * q.t, q.x, q.y, -1, q.x * q.y - q.z * q.t);
      Cancel(zero, q.z, q.t);
      Scale(zero, t * q.t, q.t, t);
    }
  }

  /** Closure: the sum of two points of the curve is a point of the curve, with a nonzero z. */
  lemma SumOnCurve(zero: Zeros, d: int, i: int, p: Point, q: Point)
    requires CurveField(zero, d, i) && OnCurve(zero, d, p) && OnCurve(zero, d, q)
    ensures !zero(F(d, p, q)) && !zero(G(d, p, q))
    ensures OnCurve(zero, d, RawSum(d, p, q))
  {
    var e, f, g, h := E(p, q), F(d, p, q), G(d, p, q), H(p, q);
    DenominatorNonzero(zero, d, i, p, q, 1);
    DenominatorNonzero(zero, d, i, p, q, -1);
    assert !zero(g) by {
      if zero(g) { Scale(zero, -1 * (p.z * q.z) - d * (p.t * q.t), g, -1); }
    }
    NonzeroProduct(zero, f, g);
    NonzeroProduct(zero, 2, 2);
    NonzeroProduct(zero, 4, f * g);
    var r := RawSum(d, p, q);
    assert r.x * r.y == r.z * r.t by { FourProducts(e, f, g, h); }
    SumOnEquation(zero, d, p, q);
    var c := (g * h) * (g * h) - (e * f) * (e * f) - ((f * g) * (f * g) + d * (e * h) * (e * h));
    assert d * r.t * r.t == 16 * (d * (e * h) * (e * h));
    Scale(zero, r.y * r.y - r.x * r.x - (r.z * r.z + d * r.t * r.t), c, 16);
  }

  lemma FourProducts(e: int, f: int, g: int, h: int)
    ensures (4 * (e * f)) * (4 * (g * h)) == (4 * (f * g)) * (4 * (e * h))
  {
    assert (e * f) * (g * h) == (f * g) * (e * h);
  }

  // ----- the group operations, up to projective equality -----

  ghost function Negate(p: Point): Point {
    Point(-p.x, p.y, p.z, -p.t)
  }

  lemma SumCommutes(d: int, p: Point, q: Point)
    ensures RawSum(d, p, q) == RawSum(d, q, p)
  {
    assert E(p, q) == E(q, p) && H(p, q) == H(q, p) && F(d, p, q) == F(d, q, p) && G(d, p, q) == G(d, q, p);
  }

  lemma SumIdentity(zero: Zeros, d: int, p: Point)
    requires Ideal(zero)
    ensures Same(zero, RawSum(d, p, IDENTITY), p)
  {
    var r := RawSum(d, p, IDENTITY);
    assert r.x == 4 * (p.x * p.z) && r.y == 4 * (p.z * p.y) && r.z == 4 * (p.z * p.z);
    assert r.x * p.z - p.x * r.z == 0 && r.y * p.z - p.y * r.z == 0;
  }

  lemma NegateOnCurve(zero: Zeros, d: int, p: Point)
    requires Ideal(zero) && OnCurve(zero, d, p)
    ensures OnCurve(zero, d, Negate(p))
  {
    var n := Negate(p);
    assert n.x * n.y == -(p.x * p.y) && n.z * n.t == -(p.z * p.t);
    Scale(zero, n.x * n.y - n.z * n.t, p.x * p.y - p.z * p.t, -1);
    assert n.x * n.x == p.x * p.x && d * n.t * n.t == d * p.t * p.t;
  }

  lemma NegateTerms(d: int, p: Point)
    ensures E(p, Negate(p)) == 0
    ensures H(p, Negate(p)) - F(d, p, Negate(p)) == p.y * p.y - p.x * p.x - (p.z * p.z + d * p.t * p.t)
  {
    var n := Negate(p);
    assert p.y * n.x == -(p.x * p.y) && p.x * n.x == -(p.x * p.x);
    assert d * (p.t * n.t) == -(d * p.t * p.t);
  }

  lemma SumInverse(zero: Zeros, d: int, p: Point)
    requires Ideal(zero) && OnCurve(zero, d, p)
    ensures OnCurve(zero, d, Negate(p))
    ensures Same(zero, RawSum(d, p, Negate(p)), IDENTITY)
  {
    NegateOnCurve(zero, d, p);
    NegateTerms(d, p);
    VanishingE(zero, E(p, Negate(p)), F(d, p, Negate(p)), G(d, p, Negate(p)), H(p, Negate(p)));
  }

  lemma VanishingE(zero: Zeros, e: int, f: int, g: int, h: int)
    requires Ideal(zero) && e == 0 && zero(h - f)
    ensures zero(4 * (e * f) * 1 - 0 * (4 * (f * g))) && zero(4 * (g * h) * 1 - 1 * (4 * (f * g)))
  {
    assert 4 * (e * f) * 1 - 0 * (4 * (f * g)) == 0;
    Scale(zero, 0, h - f, 0);
    assert 4 * (g * h) - 4 * (f * g) == (h - f) * (4 * g);
    Scale(zero, 4 * (g * h) * 1 - 1 * (4 * (f * g)), h - f, 4 * g);
  }

  /** Coordinates in proportion to z are in proportion to each other. */
  lemma CrossProportion(zero: Zeros, a: int, a': int, b: int, b': int, z: int, z': int)
    requires PrimeIdeal(zero) && !zero(z) && !zero(z')
    requires zero(a * z' - a' * z) && zero(b * z' - b' * z)
    ensures zero(a * b' - a' * b)
  {
    var u, v := a * z' - a' * z, b * z' - b' * z;
    CrossIdentity(a, a', b, b', z, z');
    Combine(zero, (z * z') * (a * b' - a' * b), b' * z, u, -(a' * z), v);
    NonzeroProduct(zero, z, z');
    Cancel(zero, z * z', a * b' - a' * b);
  }

  lemma CrossIdentity(a: int, a': int, b: int, b': int, z: int, z': int)
    ensures (z * z') * (a * b' - a' * b) == (a * z' - a' * z) * (b' * z) + (b * z' - b' * z) * -(a' * z)
  {
    assert (a * z' - a' * z) * (b' * z) == (a * z') * (b' * z) - (a' * z) * (b' * z);
    assert (b * z' - b' * z) * -(a' * z) == (b' * z) * (a' * z) - (b * z') * (a' * z);
    assert (z * z') * (a * b' - a' * b) == (z * z') * (a * b') - (z * z') * (a' * b);
  }

  lemma SameProportionsT(zero: Zeros, d: int, p: Point, q: Point)
    requires PrimeIdeal(zero) && OnCurve(zero, d, p) && OnCurve(zero, d, q) && Same(zero, p, q)
    ensures zero(p.t * q.z - q.t * p.z)
  {
    var a, b, c, e := p.x * q.z, q.x * p.z, p.y * q.z, q.y * p.z;
    EqMul(zero, a, b, c, e);
    var u, v, w := p.x * p.y - p.z * p.t, q.x * q.y - q.z * q.t, a * c - b * e;
    var m := v * (p.z * p.z) + w;
    Combine(zero, m, p.z * p.z, v, 1, w);
    var target := (p.z * q.z) * (p.t * q.z - q.t * p.z);
    ProportionIdentity(p.x, p.y, p.z, p.t, q.x, q.y, q.z, q.t);
    Combine(zero, target, 1, m, -(q.z * q.z), u);
    NonzeroProduct(zero, p.z, q.z);
    Cancel(zero, p.z * q.z, p.t * q.z - q.t * p.z);
  }

  lemma ProportionIdentity(x1: int, y1: int, z1: int, t1: int, x2: int, y2: int, z2: int, t2: int)
    ensures (z1 * z2) * (t1 * z2 - t2 * z1)
            == ((x2 * y2 - z2 * t2) * (z1 * z1) + ((x1 * z2) * (y1 * z2) - (x2 * z1) * (y2 * z1))) * 1
               + (x1 * y1 - z1 * t1) * -(z2 * z2)
  {
    Swap(x1, y1, z2, z2);
    Swap(x2, y2, z1, z1);
    Swap(z1, t1, z2, z2);
    Swap(z2, t2, z1, z1);
    CollectProportion(x1 * y1, z1 * t1, x2 * y2, z2 * t2, z1 * z1, z2 * z2);
    ScaleDifference(t1 * z2, t2 * z1, z1 * z2);
  }

  lemma Swap(a: int, b: int, c: int, e: int)
    ensures (a * c) * (b * e) == (a * b) * (c * e) && (c * a) * (b * e) == (a * b) * (c * e)
  {
  }

  lemma CollectProportion(a: int, w: int, b: int, v: int, m: int, n: int)
    ensures ((b - v) * m + (a * n - b * m)) * 1 + (a - w) * -n == w * n - v * m
  {
  }

  lemma ScaleDifference(a: int, b: int, c: int)
    ensures (a - b) * c == a * c - b * c && c * (a - b) == a * c - b * c
  {
  }

  /** One product of the addition formula, on two representations of each summand. */
  lemma TermRespects(zero: Zeros, k: int, p: Point, p': Point, q: Point, q': Point, a: int, a': int, b: int, b': int)
    requires Ideal(zero)
    requires zero(a * p'.z - a' * p.z) && zero(a * p'.t - a' * p.t)
    requires zero(b * q'.z - b' * q.z) && zero(b * q'.t - b' * q.t)
    ensures Eq(zero, (a * b) * (p'.z * q'.z + k * (p'.t * q'.t)), (a' * b') * (p.z * q.z + k * (p.t * q.t)))
  {
    EqMul(zero, a * p'.z, a' * p.z, b * q'.z, b' * q.z);
    EqMul(zero, a * p'.t, a' * p.t, b * q'.t, b' * q.t);
    var u, u' := (a * p'.z) * (b * q'.z), (a' * p.z) * (b' * q.z);
    var v, v' := (a * p'.t) * (b * q'.t), (a' * p.t) * (b' * q.t);
    TermExpansion(a, b, p'.z, q'.z, k, p'.t, q'.t);
    TermExpansion(a', b', p.z, q.z, k, p.t, q.t);
    Combine(zero, (a * b) * (p'.z * q'.z + k * (p'.t * q'.t)) - (a' * b') * (p.z * q.z + k * (p.t * q.t)), 1, u - u', k, v - v');
  }

  lemma TermExpansion(a: int, b: int, z: int, z': int, k: int, t: int, t': int)
    ensures (a * b) * (z * z' + k * (t * t')) == (a * z) * (b * z') + k * ((a * t) * (b * t'))
  {
  }

  ghost predicate Proportional(zero: Zeros, p: Point, p': Point) {
    && zero(p.x * p'.z - p'.x * p.z) && zero(p.x * p'.t - p'.x * p.t)
    && zero(p.y * p'.z - p'.y * p.z) && zero(p.y * p'.t - p'.y * p.t)
  }

  lemma SameProportional(zero: Zeros, d: int, p: Point, p': Point)
    requires PrimeIdeal(zero) && OnCurve(zero, d, p) && OnCurve(zero, d, p') && Same(zero, p, p')
    ensures Proportional(zero, p, p')
  {
    SameProportionsT(zero, d, p, p');
    CrossProportion(zero, p.x, p'.x, p.t, p'.t, p.z, p'.z);
    CrossProportion(zero, p.y, p'.y, p.t, p'.t, p.z, p'.z);
  }

  lemma FormsRespect(zero: Zeros, d: int, p: Point, p': Point, q: Point, q': Point)
    requires Ideal(zero) && Proportional(zero, p, p') && Proportional(zero, q, q')
    ensures Eq(zero, E(p, q) * G(d, p', q'), E(p', q') * G(d, p, q))
    ensures Eq(zero, H(p, q) * F(d, p', q'), H(p', q') * F(d, p, q))
  {
    TwoTermsRespect(zero, d, p, p', q, q', p.x, p'.x, q.y, q'.y, p.y, p'.y, q.x, q'.x);
    TwoTermsRespect(zero, -d, p, p', q, q', p.y, p'.y, q.y, q'.y, p.x, p'.x, q.x, q'.x);
    assert F(d, p', q') == p'.z * q'.z + -d * (p'.t * q'.t) && F(d, p, q) == p.z * q.z + -d * (p.t * q.t);
  }

  lemma TwoTermsRespect(zero: Zeros, k: int, p: Point, p': Point, q: Point, q': Point,
                        a: int, a': int, b: int, b': int, c: int, c': int, e: int, e': int)
    requires Ideal(zero)
    requires zero(a * p'.z - a' * p.z) && zero(a * p'.t - a' * p.t) && zero(b * q'.z - b' * q.z) && zero(b * q'.t - b' * q.t)
    requires zero(c * p'.z - c' * p.z) && zero(c * p'.t - c' * p.t) && zero(e * q'.z - e' * q.z) && zero(e * q'.t - e' * q.t)
    ensures Eq(zero, (a * b + c * e) * (p'.z * q'.z + k * (p'.t * q'.t)), (a' * b' + c' * e') * (p.z * q.z + k * (p.t * q.t)))
  {
    var g, g' := p.z * q.z + k * (p.t * q.t), p'.z * q'.z + k * (p'.t * q'.t);
    TermRespects(zero, k, p, p', q, q', a, a', b, b');
    TermRespects(zero, k, p, p', q, q', c, c', e, e');
    EqAdd(zero, (a * b) * g', (a' * b') * g, (c * e) * g', (c' * e') * g);
    Distribute(a * b, c * e, g');
    Distribute(a' * b', c' * e', g);
  }

  lemma Distribute(a: int, b: int, c: int)
    ensures (a + b) * c == a * c + b * c
  {
  }

  /** Addition does not depend on the representation of its arguments. */
  lemma SumRespectsSame(zero: Zeros, d: int, p: Point, p': Point, q: Point, q': Point)
    requires PrimeIdeal(zero)
    requires OnCurve(zero, d, p) && OnCurve(zero, d, p') && OnCurve(zero, d, q) && OnCurve(zero, d, q')
    requires Same(zero, p, p') && Same(zero, q, q')
    ensures Same(zero, RawSum(d, p, q), RawSum(d, p', q'))
  {
    SameProportional(zero, d, p, p');
    SameProportional(zero, d, q, q');
    FormsRespect(zero, d, p, p', q, q');
    SameFromForms(zero, E(p, q), F(d, p, q), G(d, p, q), H(p, q), E(p', q'), F(d, p', q'), G(d, p', q'), H(p', q'));
  }

  lemma SameFromForms(zero: Zeros, e: int, f: int, g: int, h: int, e': int, f': int, g': int, h': int)
    requires Ideal(zero) && zero(e * g' - e' * g) && zero(h * f' - h' * f)
    ensures zero((4 * (e * f)) * (4 * (f' * g')) - (4 * (e' * f')) * (4 * (f * g)))
    ensures zero((4 * (g * h)) * (4 * (f' * g')) - (4 * (g' * h')) * (4 * (f * g)))
  {
    RegroupForms(e, f, g, e', f', g');
    Scale(zero, (4 * (e * f)) * (4 * (f' * g')) - (4 * (e' * f')) * (4 * (f * g)), e * g' - e' * g, 16 * (f * f'));
    RegroupForms'(f, g, h, f', g', h');
    Scale(zero, (4 * (g * h)) * (4 * (f' * g')) - (4 * (g' * h')) * (4 * (f * g)), h * f' - h' * f, 16 * (g * g'));
  }

  lemma RegroupForms(e: int, f: int, g: int, e': int, f': int, g': int)
    ensures (4 * (e * f)) * (4 * (f' * g')) - (4 * (e' * f')) * (4 * (f * g)) == (e * g' - e' * g) * (16 * (f * f'))
  {
    assert (e * f) * (f' * g') == (e * g') * (f * f') && (e' * f') * (f * g) == (e' * g) * (f * f');
    ScaleDifference(e * g', e' * g, f * f');
  }

  lemma RegroupForms'(f: int, g: int, h: int, f': int, g': int, h': int)
    ensures (4 * (g * h)) * (4 * (f' * g')) - (4 * (g' * h')) * (4 * (f * g)) == (h * f' - h' * f) * (16 * (g * g'))
  {
    assert (g * h) * (f' * g') == (h * f') * (g * g') && (g' * h') * (f * g) == (h' * f) * (g * g');
    ScaleDifference(h * f', h' * f, g * g');
  }

  // ----- the formula with reduced intermediate values -----

  lemma DoubledSums(zero: Zeros, p: Point, q: Point, a: int, b: int, e: int, h: int)
    requires Ideal(zero) && Eq(zero, e, b - a) && Eq(zero, h, b + a)
    requires Eq(zero, a, (p.y - p.x) * (q.y - q.x)) && Eq(zero, b, (p.y + p.x) * (q.y + q.x))
    ensures Eq(zero, e, 2 * E(p, q)) && Eq(zero, h, 2 * H(p, q))
  {
    ExpandProduct(p.y, p.x, q.y, q.x);
    ExpandProduct(p.y, -p.x, q.y, -q.x);
    EqAdd(zero, b, (p.y + p.x) * (q.y + q.x), a, (p.y - p.x) * (q.y - q.x));
    EqTrans(zero, e, b - a, 2 * E(p, q));
    EqTrans(zero, h, b + a, 2 * H(p, q));
  }

  lemma DoubledDifferences(zero: Zeros, w: int, c: int, z: int, t: int, f: int, g: int)
    requires Ideal(zero) && Eq(zero, w, 2 * z) && Eq(zero, c, 2 * t) && Eq(zero, f, w - c) && Eq(zero, g, w + c)
    ensures Eq(zero, f, 2 * (z - t)) && Eq(zero, g, 2 * (z + t))
  {
    EqAdd(zero, w, 2 * z, c, 2 * t);
    EqTrans(zero, f, w - c, 2 * (z - t));
    EqTrans(zero, g, w + c, 2 * (z + t));
  }

  /** However its intermediate values are reduced, the formula computes `RawSum`. */
  lemma FormulaCongruent(zero: Zeros, d: int, p: Point, q: Point,
                         a: int, b: int, c: int, w: int, e: int, f: int, g: int, h: int, r: Point)
    requires Ideal(zero)
    requires Eq(zero, a, (p.y - p.x) * (q.y - q.x)) && Eq(zero, b, (p.y + p.x) * (q.y + q.x))
    requires Eq(zero, c, 2 * d * p.t * q.t) && Eq(zero, w, 2 * p.z * q.z)
    requires Eq(zero, e, b - a) && Eq(zero, f, w - c) && Eq(zero, g, w + c) && Eq(zero, h, b + a)
    requires Eq(zero, r.x, e * f) && Eq(zero, r.y, g * h) && Eq(zero, r.z, f * g) && Eq(zero, r.t, e * h)
    ensures Congruent(zero, r, RawSum(d, p, q))
  {
    var e', f', g', h' := E(p, q), F(d, p, q), G(d, p, q), H(p, q);
    DoubledSums(zero, p, q, a, b, e, h);
    assert 2 * d * p.t * q.t == 2 * (d * (p.t * q.t)) && 2 * p.z * q.z == 2 * (p.z * q.z);
    DoubledDifferences(zero, w, c, p.z * q.z, d * (p.t * q.t), f, g);
    DoubledProduct(zero, r.x, e, f, e', f');
    DoubledProduct(zero, r.y, g, h, g', h');
    DoubledProduct(zero, r.z, f, g, f', g');
    DoubledProduct(zero, r.t, e, h, e', h');
  }

  lemma DoubledProduct(zero: Zeros, r: int, a: int, b: int, a': int, b': int)
    requires Ideal(zero) && Eq(zero, r, a * b) && Eq(zero, a, 2 * a') && Eq(zero, b, 2 * b')
    ensures Eq(zero, r, 4 * (a' * b'))
  {
    EqMul(zero, a, 2 * a', b, 2 * b');
    assert (2 * a') * (2 * b') == 4 * (a' * b');
    EqTrans(zero, r, a * b, 4 * (a' * b'));
  }
}
