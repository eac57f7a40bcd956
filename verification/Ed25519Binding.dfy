/** What an accepted signature is about. The equation of section 5.1.7 of RFC 8032 is stated with
    repeated addition and with the bytes that are hashed written out, and so are the parts of a
    signature; an accepted signature is accepted for another message exactly when the challenges agree. */
module Ed25519Binding {
  import opened Common
  import opened Ed25519
  import opened Ed25519Compression
  import opened Ed25519Signatures
  import opened EdwardsCurve
  import Groups

  /** The verifier's equation: s B = R + h A. */
  ghost predicate Equation(c: Curve, r: Point, a: Point, s: nat, h: nat)
    requires c.p > 0
  {
    var g := CurveGroup(c);
    PointsEqual(c, Groups.Repeat(g, c.base, s), PointAdd(c, r, Groups.Repeat(g, a, h)))
  }

  /** Ladders may be replaced by repeated addition on both sides. */
  lemma {:induction false} LadderEquationIff(c: Curve, r: Point, a: Point, s: nat, h: nat)
    requires GroupConstants(c) && Valid(c, r) && Valid(c, a)
    ensures PointsEqual(c, ScalarProduct(c, c.base, s), PointAdd(c, r, ScalarProduct(c, a, h))) <==> Equation(c, r, a, s, h)
  {
    var g := CurveGroup(c);
    GroupLaws(c);
    ScalarProductRepeats(c, c.base, s);
    ScalarProductRepeats(c, a, h);
    Groups.RepeatMember(g, c.base, s);
    Groups.RepeatMember(g, a, h);
    Groups.SumOfSame(g, r, ScalarProduct(c, a, h), Groups.Repeat(g, a, h));
    Groups.SameSides(g, ScalarProduct(c, c.base, s), Groups.Repeat(g, c.base, s),
                     PointAdd(c, r, ScalarProduct(c, a, h)), PointAdd(c, r, Groups.Repeat(g, a, h)));
  }

  /** A signature is accepted exactly when both points decode, the scalar is reduced, and the equation
      holds for the digest of R, key and message. */
  lemma {:induction false} AcceptsIff(c: Curve, hash: Hash, encodedR: Bytes, half: Bytes, key: Bytes, message: Bytes)
    requires GroupConstants(c) && |encodedR| == |half| == |key| == c.width
    ensures Accepts(c, hash, encodedR + half, key, message) <==>
            var r, a := DecodePoint(c, encodedR), DecodePoint(c, key);
            && r.Some? && a.Some? && FromLittle(half) < c.q
            && Equation(c, r.value, a.value, FromLittle(half), FromLittle(hash(encodedR + key + message)) % c.q)
  {
    AcceptsSplit(c, hash, encodedR, half, key, message);
    var r, a := DecodePoint(c, encodedR), DecodePoint(c, key);
    if r.Some? && a.Some? {
      EncodeDecode(c, encodedR);
      EncodeDecode(c, key);
      LadderEquationIff(c, r.value, a.value, FromLittle(half), FromLittle(hash(encodedR + key + message)) % c.q);
    }
  }

  /** Two challenges solve one equation exactly when they are equal, for a key of order q. */
  lemma {:induction false} EquationDetermines(c: Curve, r: Point, a: Point, s: nat, h: nat, h': nat)
    requires GroupConstants(c) && Valid(c, r) && Valid(c, a) && Groups.HasOrder(CurveGroup(c), a, c.q)
    requires h < c.q && h' < c.q && Equation(c, r, a, s, h)
    ensures Equation(c, r, a, s, h') <==> h == h'
  {
    if Equation(c, r, a, s, h') {
      GroupLaws(c);
      Groups.RepeatMember(CurveGroup(c), c.base, s);
      Groups.CommonSum(CurveGroup(c), r, a, c.q, h, h', Groups.Repeat(CurveGroup(c), c.base, s));
    }
  }

  /** A signature that is accepted for one message is accepted for another exactly when the digests of
      R, key and message agree as scalars. */
  lemma {:induction false} MessageBinding(c: Curve, hash: Hash, encodedR: Bytes, half: Bytes, key: Bytes, m: Bytes, m': Bytes)
    requires GroupConstants(c) && |encodedR| == |half| == |key| == c.width
    requires Accepts(c, hash, encodedR + half, key, m)
    requires DecodePoint(c, key).Some? && Groups.HasOrder(CurveGroup(c), DecodePoint(c, key).value, c.q)
    ensures Accepts(c, hash, encodedR + half, key, m') <==>
            FromLittle(hash(encodedR + key + m)) % c.q == FromLittle(hash(encodedR + key + m')) % c.q
  {
    AcceptsIff(c, hash, encodedR, half, key, m);
    AcceptsIff(c, hash, encodedR, half, key, m');
    EncodeDecode(c, encodedR);
    EncodeDecode(c, key);
    EquationDetermines(c, DecodePoint(c, encodedR).value, DecodePoint(c, key).value, FromLittle(half),
                       FromLittle(hash(encodedR + key + m)) % c.q, FromLittle(hash(encodedR + key + m')) % c.q);
  }

  /** The parts of a signature: with `a` the clamped first half of the digest of the seed and `r` the digest
      of its second half and the message, R encodes r B, the key encodes a B, and the scalar is r + h a. */
  lemma {:induction false} SignatureParts(c: Curve, hash: Hash, seed: Bytes, message: Bytes)
    requires GroupConstants(c) && HashWidth(c, hash, seed)
    ensures var signature, key := Signature(c, hash, seed, message), PublicKey(c, hash, seed);
            var a := Clamped(FromLittle(hash(seed)[..c.width]), c.width);
            var r := FromLittle(hash(hash(seed)[c.width..] + message)) % c.q;
            && |signature| == 2 * c.width && |key| == c.width && a >= 0
            && Represents(c, key, a) && Represents(c, signature[..c.width], r)
            && FromLittle(signature[c.width..]) == (r + FromLittle(hash(signature[..c.width] + key + message)) % c.q * a) % c.q
  {
    var digest := hash(seed);
    var a := SecretScalar(c, hash, seed);
    var r := FromLittle(hash(digest[c.width..] + message)) % c.q;
    PrunedIsClamped(digest[..c.width]);
    PartsOf(c, hash, a, r, message);
  }

  /** The bytes decode to the n-fold base point. */
  ghost predicate Represents(c: Curve, encoded: Bytes, n: nat)
    requires c.p >= 2 && c.width > 0
  {
    var point := DecodePoint(c, encoded);
    point.Some? && Valid(c, point.value) && PointsEqual(c, point.value, Groups.Repeat(CurveGroup(c), c.base, n))
  }

  lemma {:induction false} EncodedMultiple(c: Curve, n: nat)
    requires GroupConstants(c)
    ensures var encoded := EncodePoint(c, ScalarProduct(c, c.base, n)); |encoded| == c.width && Represents(c, encoded, n)
  {
    DecodedMultiple(c, n);
  }

  lemma {:induction false} SignatureIs(c: Curve, hash: Hash, a: nat, r: nat, message: Bytes, key: Bytes, encodedR: Bytes, s: int)
    requires GroupConstants(c)
    requires key == EncodePoint(c, ScalarProduct(c, c.base, a)) && encodedR == EncodePoint(c, ScalarProduct(c, c.base, r))
    requires s == (r + FromLittle(hash(encodedR + key + message)) % c.q * a) % c.q && s >= 0
    ensures SignatureWith(c, hash, a, r, message) == encodedR + ToLittle(s, c.width)
  {
  }

  /** The scalar of a signature, for the encodings of its key and its commitment. */
  lemma {:induction false} ScalarOf(c: Curve, hash: Hash, a: nat, r: nat, message: Bytes, key: Bytes, encodedR: Bytes, n: int)
    requires GroupConstants(c) && |encodedR| == c.width
    requires key == EncodePoint(c, ScalarProduct(c, c.base, a)) && encodedR == EncodePoint(c, ScalarProduct(c, c.base, r))
    requires n == r + FromLittle(hash(encodedR + key + message)) % c.q * a
    ensures var signature := SignatureWith(c, hash, a, r, message);
            |signature| == 2 * c.width && signature[..c.width] == encodedR && FromLittle(signature[c.width..]) == n % c.q
  {
    ScalarRead(c, encodedR, n % c.q, n);
    SignatureIs(c, hash, a, r, message, key, encodedR, n % c.q);
  }

  lemma {:induction false} PartsOf(c: Curve, hash: Hash, a: nat, r: nat, message: Bytes)
    requires GroupConstants(c)
    ensures var signature, key := SignatureWith(c, hash, a, r, message), EncodePoint(c, ScalarProduct(c, c.base, a));
            && |signature| == 2 * c.width && |key| == c.width
            && Represents(c, key, a) && Represents(c, signature[..c.width], r)
            && FromLittle(signature[c.width..]) == (r + FromLittle(hash(signature[..c.width] + key + message)) % c.q * a) % c.q
  {
    EncodedMultiple(c, a);
    EncodedMultiple(c, r);
    var key, encodedR := EncodePoint(c, ScalarProduct(c, c.base, a)), EncodePoint(c, ScalarProduct(c, c.base, r));
    ScalarOf(c, hash, a, r, message, key, encodedR, r + FromLittle(hash(encodedR + key + message)) % c.q * a);
  }

  lemma ScalarRead(c: Curve, encodedR: Bytes, s: int, n: int)
    requires c.width > 0 && 0 < c.q <= TopBit(c.width) && |encodedR| == c.width && s == n % c.q
    ensures 0 <= s
    ensures var signature := encodedR + ToLittle(s, c.width);
            signature[..c.width] == encodedR && FromLittle(signature[c.width..]) == s
  {
    ModuloBounds(c.q, n);
    TopBitTwice(c.width);
    LittleRoundTrip(s, c.width);
    var half := ToLittle(s, c.width);
    assert (encodedR + half)[c.width..] == half;
  }
}
