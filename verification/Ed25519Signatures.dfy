/** The signature scheme: the source's addition is a group operation up to associativity,
    double-and-add is repeated addition, signatures verify, and they verify for one scalar. */
module Ed25519Signatures {
  import opened Common
  import opened Residues
  import opened EdwardsCurve
  import opened Primes
  import opened Arithmetic
  import opened Ed25519
  import opened Ed25519Compression
  import Groups

  lemma FactorsCongruent(c: Curve, p: Point, q: Point, a: int, b: int, k: int, w: int)
    requires c.p > 0
    requires a == ((p.y - p.x) * (q.y - q.x)) % c.p && b == ((p.y + p.x) * (q.y + q.x)) % c.p
    requires k == (2 * c.d * p.t * q.t) % c.p && w == (2 * p.z * q.z) % c.p
    ensures Eq(Multiples(c.p), a, (p.y - p.x) * (q.y - q.x)) && Eq(Multiples(c.p), b, (p.y + p.x) * (q.y + q.x))
    ensures Eq(Multiples(c.p), k, 2 * c.d * p.t * q.t) && Eq(Multiples(c.p), w, 2 * p.z * q.z)
  {
    ModEq(c.p, (p.y - p.x) * (q.y - q.x));
    ModEq(c.p, (p.y + p.x) * (q.y + q.x));
    ModEq(c.p, 2 * c.d * p.t * q.t);
    ModEq(c.p, 2 * p.z * q.z);
  }

  lemma SumsCongruent(m: int, a: int, b: int)
    requires m > 0
    ensures Eq(Multiples(m), (b - a) % m, b - a) && Eq(Multiples(m), (b + a) % m, b + a)
  {
    ModEq(m, b - a);
    ModEq(m, b + a);
  }

  lemma ProductsCongruent(m: int, e: int, f: int, g: int, h: int)
    requires m > 0
    ensures Eq(Multiples(m), (e * f) % m, e * f) && Eq(Multiples(m), (g * h) % m, g * h)
    ensures Eq(Multiples(m), (f * g) % m, f * g) && Eq(Multiples(m), (e * h) % m, e * h)
  {
    ModEq(m, e * f);
    ModEq(m, g * h);
    ModEq(m, f * g);
    ModEq(m, e * h);
  }

  lemma {:induction false} PointAddCongruent(c: Curve, p: Point, q: Point)
    requires c.p > 0
    ensures Congruent(Multiples(c.p), PointAdd(c, p, q), RawSum(c.d, p, q))
  {
    var m := c.p;
    MultiplesIdeal(m);
    var a, b := ((p.y - p.x) * (q.y - q.x)) % m, ((p.y + p.x) * (q.y + q.x)) % m;
    var k, w := (2 * c.d * p.t * q.t) % m, (2 * p.z * q.z) % m;
    var e, f, g, h := (b - a) % m, (w - k) % m, (w + k) % m, (b + a) % m;
    FactorsCongruent(c, p, q, a, b, k, w);
    SumsCongruent(m, a, b);
    SumsCongruent(m, k, w);
    ProductsCongruent(m, e, f, g, h);
    FormulaCongruent(Multiples(m), c.d, p, q, a, b, k, w, e, f, g, h, PointAdd(c, p, q));
  }

  /** Closure: the source's sum of two points of the curve keeps X Y = Z T, the projective
      curve equation and a nonzero Z. */
  lemma {:induction false} PointAddValid(c: Curve, p: Point, q: Point)
    requires FieldConstants(c) && Valid(c, p) && Valid(c, q)
    ensures Valid(c, PointAdd(c, p, q)) && Valid(c, RawSum(c.d, p, q))
    ensures PointsEqual(c, PointAdd(c, p, q), RawSum(c.d, p, q))
  {
    PointAddCongruent(c, p, q);
    SumOnCurve(Multiples(c.p), c.d, c.i, p, q);
    CongruentOnCurve(Multiples(c.p), c.d, PointAdd(c, p, q), RawSum(c.d, p, q));
    CongruentSame(Multiples(c.p), PointAdd(c, p, q), RawSum(c.d, p, q));
  }

  /** The source's addition does not depend on the representation of its arguments. */
  lemma {:induction false} PointAddRespects(c: Curve, p: Point, p': Point, q: Point, q': Point)
    requires FieldConstants(c) && Valid(c, p) && Valid(c, p') && Valid(c, q) && Valid(c, q')
    requires PointsEqual(c, p, p') && PointsEqual(c, q, q')
    ensures PointsEqual(c, PointAdd(c, p, q), PointAdd(c, p', q'))
  {
    var zero := Multiples(c.p);
    PointAddValid(c, p, q);
    PointAddValid(c, p', q');
    SumRespectsSame(zero, c.d, p, p', q, q');
    var s, r, r', s' := PointAdd(c, p, q), RawSum(c.d, p, q), RawSum(c.d, p', q'), PointAdd(c, p', q');
    SameSym(zero, s', r');
    SameTrans(zero, s, r, r');
    SameTrans(zero, s, r', s');
  }

  lemma {:induction false} IdentityValid(c: Curve)
    requires FieldConstants(c)
    ensures Valid(c, IDENTITY)
  {
    MultiplesModulus(c.p);
  }

  lemma {:induction false} PointAddIdentity(c: Curve, p: Point)
    requires FieldConstants(c) && Valid(c, p)
    ensures PointsEqual(c, PointAdd(c, p, IDENTITY), p)
  {
    IdentityValid(c);
    PointAddValid(c, p, IDENTITY);
    SumIdentity(Multiples(c.p), c.d, p);
    SameTrans(Multiples(c.p), PointAdd(c, p, IDENTITY), RawSum(c.d, p, IDENTITY), p);
  }

  lemma {:induction false} PointAddInverse(c: Curve, p: Point)
    requires FieldConstants(c) && Valid(c, p)
    ensures Valid(c, Negate(p)) && PointsEqual(c, PointAdd(c, p, Negate(p)), IDENTITY)
  {
    SumInverse(Multiples(c.p), c.d, p);
    PointAddValid(c, p, Negate(p));
    SameTrans(Multiples(c.p), PointAdd(c, p, Negate(p)), RawSum(c.d, p, Negate(p)), IDENTITY);
  }

  lemma {:induction false} PointAddCommutes(c: Curve, p: Point, q: Point)
    requires FieldConstants(c) && Valid(c, p) && Valid(c, q)
    ensures PointsEqual(c, PointAdd(c, p, q), PointAdd(c, q, p))
  {
    PointAddValid(c, p, q);
    PointAddValid(c, q, p);
    SumCommutes(c.d, p, q);
    SameSym(Multiples(c.p), PointAdd(c, q, p), RawSum(c.d, q, p));
    SameTrans(Multiples(c.p), PointAdd(c, p, q), RawSum(c.d, p, q), PointAdd(c, q, p));
  }

  // ----- the group -----

  lemma {:induction false} EquivalenceLaws(c: Curve)
    requires FieldConstants(c)
    ensures Groups.Equivalence(CurveGroup(c))
  {
    var g, zero := CurveGroup(c), Multiples(c.p);
    forall a | g.member(a) ensures g.same(a, a) { SameRefl(zero, a); }
    forall a, b | g.member(a) && g.member(b) && g.same(a, b) ensures g.same(b, a) { SameSym(zero, a, b); }
    forall a, b, k | g.member(a) && g.member(b) && g.member(k) && g.same(a, b) && g.same(b, k) ensures g.same(a, k) {
      SameTrans(zero, a, b, k);
    }
  }

  lemma {:induction false} CongruenceLaws(c: Curve)
    requires FieldConstants(c)
    ensures Groups.Respects(CurveGroup(c))
  {
    var g := CurveGroup(c);
    IdentityValid(c);
    forall a, b | g.member(a) && g.member(b) ensures g.member(g.add(a, b)) { PointAddValid(c, a, b); }
    forall a | g.member(a) ensures g.member(g.negate(a)) { PointAddInverse(c, a); }
    forall a, a', b, b' | g.member(a) && g.member(a') && g.member(b) && g.member(b') && g.same(a, a') && g.same(b, b')
      ensures g.same(g.add(a, b), g.add(a', b'))
    {
      PointAddRespects(c, a, a', b, b');
    }
  }

  lemma {:induction false} NeutralLaws(c: Curve)
    requires FieldConstants(c)
    ensures Groups.NeutralAndInverse(CurveGroup(c))
  {
    var g := CurveGroup(c);
    forall a | g.member(a) ensures g.same(g.add(a, g.neutral), a) { PointAddIdentity(c, a); }
    forall a | g.member(a) ensures g.same(g.add(a, g.negate(a)), g.neutral) { PointAddInverse(c, a); }
    forall a, b | g.member(a) && g.member(b) ensures g.same(g.add(a, b), g.add(b, a)) { PointAddCommutes(c, a, b); }
  }

  /** The hypotheses on the group: associativity, and a base point of order q. */
  ghost predicate GroupConstants(c: Curve) {
    && FieldConstants(c) && c.width > 1
    && 0 < c.q <= TopBit(c.width)
    && Groups.Associative(CurveGroup(c))
    && Valid(c, c.base)
    && Groups.HasOrder(CurveGroup(c), c.base, c.q)
  }

  /** All group laws but associativity are theorems about the source's formulas. */
  lemma {:induction false} GroupLaws(c: Curve)
    requires FieldConstants(c) && Groups.Associative(CurveGroup(c))
    ensures Groups.Laws(CurveGroup(c))
  {
    EquivalenceLaws(c);
    CongruenceLaws(c);
    NeutralLaws(c);
  }

  /** Double-and-add is repeated addition, for every scalar, and stays on the curve. */
  lemma {:induction false} ScalarProductRepeats(c: Curve, point: Point, scalar: nat)
    requires FieldConstants(c) && Groups.Associative(CurveGroup(c)) && Valid(c, point)
    ensures Valid(c, ScalarProduct(c, point, scalar))
    ensures PointsEqual(c, ScalarProduct(c, point, scalar), Groups.Repeat(CurveGroup(c), point, scalar))
  {
    GroupLaws(c);
    Groups.LadderFromNeutral(CurveGroup(c), point, scalar);
  }

  /** After every turn of the loop both points are on the curve. */
  lemma TurnsOnCurve(c: Curve, point: Point, scalar: nat, turns: nat)
    requires FieldConstants(c) && Valid(c, point)
    ensures var t := Groups.Turns(CurveGroup(c), point, scalar, turns); Valid(c, t.result) && Valid(c, t.addend)
  {
    CongruenceLaws(c);
    Groups.TurnsMember(CurveGroup(c), point, scalar, turns);
  }

  /** After every turn the result is the multiple by the bits read so far, the addend the multiple by
      the next power of two, and the rest the bits to come. */
  lemma TurnsAreMultiples(c: Curve, point: Point, scalar: nat, turns: nat)
    requires FieldConstants(c) && Groups.Associative(CurveGroup(c)) && Valid(c, point)
    ensures var t := Groups.Turns(CurveGroup(c), point, scalar, turns);
            && t.rest == scalar / Pow2(turns)
            && PointsEqual(c, t.result, Groups.Repeat(CurveGroup(c), point, scalar % Pow2(turns)))
            && PointsEqual(c, t.addend, Groups.Repeat(CurveGroup(c), point, Pow2(turns)))
  {
    GroupLaws(c);
    Groups.TurnsMultiples(CurveGroup(c), point, scalar, turns);
  }

  /** Equal points have equal multiples, so equality never depends on the representation. */
  lemma {:induction false} ScalarProductRespects(c: Curve, p: Point, q: Point, scalar: nat)
    requires FieldConstants(c) && Groups.Associative(CurveGroup(c)) && Valid(c, p) && Valid(c, q) && PointsEqual(c, p, q)
    ensures PointsEqual(c, ScalarProduct(c, p, scalar), ScalarProduct(c, q, scalar))
  {
    var g := CurveGroup(c);
    GroupLaws(c);
    Groups.LadderFromNeutral(g, p, scalar);
    Groups.LadderFromNeutral(g, q, scalar);
    Groups.RepeatMember(g, p, scalar);
    Groups.RepeatMember(g, q, scalar);
    Groups.RepeatSame(g, p, q, scalar);
    var x, y := ScalarProduct(c, p, scalar), ScalarProduct(c, q, scalar);
    Groups.Trans(g, x, Groups.Repeat(g, p, scalar), Groups.Repeat(g, q, scalar));
    Groups.Sym(g, y, Groups.Repeat(g, q, scalar));
    Groups.Trans(g, x, Groups.Repeat(g, q, scalar), y);
  }

  // ----- pruned scalars -----

  lemma {:induction false} LittleAppend(s: Bytes, b: Byte)
    ensures FromLittle(s + [b]) == FromLittle(s) + Pow(256, |s|) * b
  {
    if s == [] {
      assert s + [b] == [b] && [b][1..] == [];
      assert FromLittle([b]) == b + 256 * FromLittle([]);
    } else {
      LittleAppend(s[1..], b);
      assert (s + [b])[1..] == s[1..] + [b];
      Associate(256, Pow(256, |s| - 1), b);
    }
  }

  lemma {:induction false} ClampedParts(low: int, mid: int, power: int, last: int)
    requires power > 0 && 0 <= last && 0 <= low + 256 * mid < power
    ensures var n := low + 256 * mid + power * last;
            n % (64 * power) == low + 256 * mid + power * (last % 64)
  {
    var l, r := low + 256 * mid, last % 64;
    assert last == 64 * (last / 64) + r;
    assert power * last == 64 * power * (last / 64) + power * r;
    assert l + power * r < 64 * power by { BelowMultiple(power, r, l); }
    RemainderUnique(64 * power, last / 64, l + power * r);
  }

  lemma {:induction false} BelowMultiple(power: int, r: int, l: int)
    requires power > 0 && 0 <= r < 64 && 0 <= l < power
    ensures 0 <= l + power * r < 64 * power
  {
    assert power * r <= power * 63;
    assert 0 <= power * r;
  }

  /** First byte, middle and last byte of a little-endian integer. */
  lemma {:induction false} LittleParts(s: Bytes)
    requires |s| > 1
    ensures var k := |s| - 1;
            FromLittle(s) == s[0] + 256 * FromLittle(s[1..k]) + Pow(256, k) * s[k]
    ensures 0 <= s[0] + 256 * FromLittle(s[1..|s| - 1]) < Pow(256, |s| - 1)
  {
    var k := |s| - 1;
    var low := s[..k];
    assert s == low + [s[k]];
    LittleAppend(low, s[k]);
    assert low[1..] == s[1..k];
    LittleBytes(low);
  }

  lemma LowCleared(first: int)
    ensures (first - first % 8) % 8 == 0
  {
    RemainderUnique(8, first / 8, 0);
  }

  lemma {:induction false} ClampArithmetic(first: int, mid: int, power: int, p: int, last: int, n: int, m: int)
    requires power == 256 * p && power > 0 && 0 <= first && 0 <= last && 0 <= first + 256 * mid < power
    requires n == first + 256 * mid + power * last
    requires m == (first - first % 8) + 256 * mid + power * (last % 64 + 64)
    requires 0 <= (first - first % 8) + 256 * mid
    ensures m == n % (64 * power) - n % 8 + 64 * power
    ensures m % 8 == 0 && 64 * power <= m < 128 * power
  {
    var low, kept := first - first % 8, last % 64;
    ClampedParts(first, mid, power, last);
    LowBits(first, mid, power, last, p);
    LowBits(low, mid, power, kept + 64, p);
    LowCleared(first);
    SixtyFourMore(power, kept);
    BelowMultiple(power, kept, low + 256 * mid);
  }

  lemma {:induction false} SixtyFourMore(power: int, r: int)
    ensures power * (r + 64) == power * r + 64 * power
  {
  }

  /** Pruning clears the low three bits and the top bit and sets the bit below it. */
  lemma {:induction false} PrunedIsClamped(half: Bytes)
    requires |half| > 1
    ensures FromLittle(PrunedBytes(half)) == Clamped(FromLittle(half), |half|)
    ensures FromLittle(PrunedBytes(half)) % 8 == 0
    ensures 64 * Pow(256, |half| - 1) <= FromLittle(PrunedBytes(half)) < TopBit(|half|)
  {
    var k, pruned := |half| - 1, PrunedBytes(half);
    var first, last, mid, power := half[0], half[k], FromLittle(half[1..k]), Pow(256, k);
    LittleParts(half);
    LittleParts(pruned);
    assert pruned[1..k] == half[1..k];
    PowPositive(256, k);
    ClampArithmetic(first, mid, power, Pow(256, k - 1), last, FromLittle(half), FromLittle(pruned));
  }

  lemma {:induction false} LowBits(first: int, mid: int, power: int, last: int, p: int)
    requires power == 256 * p
    ensures (first + 256 * mid + power * last) % 8 == first % 8
  {
    assert first + 256 * mid + power * last == 8 * (32 * mid + 32 * (p * last)) + first;
  }

  // ----- the scheme -----

  /** The encoded multiple of the base point decodes to that multiple. */
  lemma {:induction false} DecodedMultiple(c: Curve, n: nat)
    requires GroupConstants(c)
    ensures var point := DecodePoint(c, EncodePoint(c, ScalarProduct(c, c.base, n)));
            point.Some? && Valid(c, point.value) && PointsEqual(c, point.value, Groups.Repeat(CurveGroup(c), c.base, n))
  {
    var g, x := CurveGroup(c), ScalarProduct(c, c.base, n);
    GroupLaws(c);
    ScalarProductRepeats(c, c.base, n);
    DecodeEncode(c, x);
    Groups.RepeatMember(g, c.base, n);
    Groups.Trans(g, DecodePoint(c, EncodePoint(c, x)).value, x, Groups.Repeat(g, c.base, n));
  }

  lemma {:induction false} DivideWithRemainder(r: nat, h: nat, a: nat, q: int)
    requires q > 0
    ensures (r + h * a) / q >= 0 && r + a * h == (r + h * a) % q + q * ((r + h * a) / q)
  {
    assert a * h == h * a;
  }

  lemma {:induction false} VerifierEquation(c: Curve, a: nat, r: nat, h: nat, s: nat, k: nat, pr: Point, pa: Point)
    requires GroupConstants(c) && Valid(c, pr) && Valid(c, pa) && r + a * h == s + c.q * k
    requires PointsEqual(c, pr, Groups.Repeat(CurveGroup(c), c.base, r))
    requires PointsEqual(c, pa, Groups.Repeat(CurveGroup(c), c.base, a))
    ensures PointsEqual(c, ScalarProduct(c, c.base, s), PointAdd(c, pr, ScalarProduct(c, pa, h)))
  {
    GroupLaws(c);
    Groups.LadderEquation(CurveGroup(c), c.base, c.q, a, r, h, s, k, pr, pa);
  }

  /** The verifier's test on the two halves of a signature. */
  ghost predicate AcceptsParts(c: Curve, hash: Hash, encodedR: Bytes, s: nat, key: Bytes, message: Bytes)
    requires c.p >= 2 && c.q > 0 && c.width > 0
  {
    var r, a := DecodePoint(c, encodedR), DecodePoint(c, key);
    && r.Some? && a.Some? && s < c.q
    && PointsEqual(c, ScalarProduct(c, c.base, s),
                   PointAdd(c, r.value, ScalarProduct(c, a.value, Challenge(c, hash, encodedR, key, message))))
  }

  lemma {:induction false} AcceptsSplit(c: Curve, hash: Hash, encodedR: Bytes, half: Bytes, key: Bytes, message: Bytes)
    requires c.p >= 2 && c.q > 0 && c.width > 0 && |encodedR| == |half| == c.width
    ensures Accepts(c, hash, encodedR + half, key, message)
            <==> |key| == c.width && AcceptsParts(c, hash, encodedR, FromLittle(half), key, message)
  {
    var signature := encodedR + half;
    assert signature[..c.width] == encodedR && signature[c.width..] == half;
  }

  lemma {:induction false} HonestParts(c: Curve, hash: Hash, a: nat, r: nat, message: Bytes)
    requires GroupConstants(c)
    ensures var key, encodedR := EncodePoint(c, ScalarProduct(c, c.base, a)), EncodePoint(c, ScalarProduct(c, c.base, r));
            var s := (r + Challenge(c, hash, encodedR, key, message) * a) % c.q;
            AcceptsParts(c, hash, encodedR, s, key, message)
  {
    var key, encodedR := EncodePoint(c, ScalarProduct(c, c.base, a)), EncodePoint(c, ScalarProduct(c, c.base, r));
    var h := Challenge(c, hash, encodedR, key, message);
    DecodedMultiple(c, a);
    DecodedMultiple(c, r);
    DivideWithRemainder(r, h, a, c.q);
    VerifierEquation(c, a, r, h, (r + h * a) % c.q, (r + h * a) / c.q, DecodePoint(c, encodedR).value, DecodePoint(c, key).value);
  }

  lemma {:induction false} JoinedAccepted(c: Curve, hash: Hash, encodedR: Bytes, s: int, key: Bytes, message: Bytes)
    requires c.p >= 2 && c.width > 0 && 0 <= s < c.q <= TopBit(c.width) && |encodedR| == |key| == c.width
    requires AcceptsParts(c, hash, encodedR, s, key, message)
    ensures Accepts(c, hash, encodedR + ToLittle(s, c.width), key, message)
  {
    TopBitTwice(c.width);
    LittleRoundTrip(s, c.width);
    AcceptsSplit(c, hash, encodedR, ToLittle(s, c.width), key, message);
  }

  /** What a signer with secret scalar `a` and nonce `r` makes is accepted. */
  lemma {:induction false} HonestAccepted(c: Curve, hash: Hash, a: nat, r: nat, message: Bytes)
    requires GroupConstants(c)
    ensures Accepts(c, hash, SignatureWith(c, hash, a, r, message), EncodePoint(c, ScalarProduct(c, c.base, a)), message)
  {
    var key, encodedR := EncodePoint(c, ScalarProduct(c, c.base, a)), EncodePoint(c, ScalarProduct(c, c.base, r));
    var h := Challenge(c, hash, encodedR, key, message);
    HonestParts(c, hash, a, r, message);
    ModuloBounds(c.q, r + h * a);
    JoinedAccepted(c, hash, encodedR, (r + h * a) % c.q, key, message);
  }

  /** Every signature made with a seed verifies under the public key of that seed. */
  lemma {:induction false} SignThenVerify(c: Curve, hash: Hash, seed: Bytes, message: Bytes)
    requires GroupConstants(c) && |seed| == c.width && HashWidth(c, hash, seed)
    ensures Accepts(c, hash, Signature(c, hash, seed, message), PublicKey(c, hash, seed), message)
  {
    var r := FromLittle(hash(hash(seed)[c.width..] + message)) % c.q;
    HonestAccepted(c, hash, SecretScalar(c, hash, seed), r, message);
  }

  /** For one commitment, key and message at most one scalar is accepted. */
  lemma {:induction false} UniqueScalar(c: Curve, hash: Hash, encodedR: Bytes, key: Bytes, message: Bytes, s: Bytes, s': Bytes)
    requires GroupConstants(c) && |encodedR| == |s| == |s'| == c.width
    requires Accepts(c, hash, encodedR + s, key, message) && Accepts(c, hash, encodedR + s', key, message)
    ensures s == s'
  {
    AcceptsSplit(c, hash, encodedR, s, key, message);
    AcceptsSplit(c, hash, encodedR, s', key, message);
    UniqueInteger(c, hash, encodedR, key, message, FromLittle(s), FromLittle(s'));
    LittleBytes(s);
    LittleBytes(s');
  }

  lemma {:induction false} UniqueInteger(c: Curve, hash: Hash, encodedR: Bytes, key: Bytes, message: Bytes, m: nat, n: nat)
    requires GroupConstants(c)
    requires AcceptsParts(c, hash, encodedR, m, key, message) && AcceptsParts(c, hash, encodedR, n, key, message)
    ensures m == n
  {
    var r, a := DecodePoint(c, encodedR).value, DecodePoint(c, key).value;
    var h := Challenge(c, hash, encodedR, key, message);
    EncodeDecode(c, encodedR);
    EncodeDecode(c, key);
    GroupLaws(c);
    ScalarProductRepeats(c, a, h);
    PointAddValid(c, r, ScalarProduct(c, a, h));
    Groups.LadderInjective(CurveGroup(c), c.base, c.q, m, n, PointAdd(c, r, ScalarProduct(c, a, h)));
  }
}
