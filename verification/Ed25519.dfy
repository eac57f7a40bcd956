/** The Ed25519 signatures of the offline artifact tools (sections 5.1.2 to 5.1.7 of RFC 8032).

    The constants of the scheme are the fields of `Curve`: the modulus p, the order q of the
    base point, the coefficient d, a square root i of -1, the base point, and the width of an
    encoding in bytes, 32 in the source. What a theorem needs of them is spelled out in
    `FieldConstants` and `GroupConstants`; the hash is a parameter. */
module Ed25519 {
  import opened Common
  import opened EdwardsCurve
  import opened Primes
  import opened Arithmetic
  import Groups

  datatype Curve = Curve(p: int, q: int, d: int, i: int, base: Point, width: nat)

  type Hash = Bytes -> Bytes

  // ----- bytes and integers -----

  function FromLittle(s: Bytes): nat {
    if s == [] then 0 else s[0] + 256 * FromLittle(s[1..])
  }

  function ToLittle(n: nat, k: nat): (s: Bytes)
    ensures |s| == k
    decreases k
  {
    if k == 0 then [] else [n % 256] + ToLittle(n / 256, k - 1)
  }

  /** The value of the top bit of `k` bytes: 2^255 for 32 of them. */
  function TopBit(k: nat): int
    requires k > 0
  {
    128 * Pow(256, k - 1)
  }

  // ----- point arithmetic, as in the source -----

  function PointAdd(c: Curve, left: Point, right: Point): Point
    requires c.p > 0
  {
    var Point(x1, y1, z1, t1) := left;
    var Point(x2, y2, z2, t2) := right;
    var a := ((y1 - x1) * (y2 - x2)) % c.p;
    var b := ((y1 + x1) * (y2 + x2)) % c.p;
    var k := (2 * c.d * t1 * t2) % c.p;
    var w := (2 * z1 * z2) % c.p;
    var e := (b - a) % c.p;
    var f := (w - k) % c.p;
    var g := (w + k) % c.p;
    var h := (b + a) % c.p;
    Point((e * f) % c.p, (g * h) % c.p, (f * g) % c.p, (e * h) % c.p)
  }

  predicate PointsEqual(c: Curve, left: Point, right: Point)
    requires c.p > 0
  {
    (left.x * right.z - right.x * left.z) % c.p == 0 && (left.y * right.z - right.y * left.z) % c.p == 0
  }

  predicate IsOnCurve(c: Curve, x: int, y: int)
    requires c.p > 0
  {
    var xx, yy := (x * x) % c.p, (y * y) % c.p;
    (yy - xx - 1 - c.d * xx * yy) % c.p == 0
  }

  function PowMod(c: Curve, b: int, n: nat): int
    requires c.p > 0
  {
    Pow(b, n) % c.p
  }

  /** The byte with its top bit set when `bit` is one. */
  function OrTopBit(b: Byte, bit: int): Byte
    requires 0 <= bit <= 1
  {
    if bit == 1 && b < 128 then b + 128 else b
  }

  function EncodePoint(c: Curve, point: Point): (s: Bytes)
    requires c.p >= 2 && c.width > 0
    ensures |s| == c.width
  {
    var inverse := PowMod(c, point.z, c.p - 2);
    var x, y := (point.x * inverse) % c.p, (point.y * inverse) % c.p;
    var encoded := ToLittle(y, c.width);
    encoded[c.width - 1 := OrTopBit(encoded[c.width - 1], x % 2)]
  }

  /** A square root of `xx` as the source searches it, and then with the wanted parity. */
  function RecoverX(c: Curve, xx: int, sign: int): Option<int>
    requires c.p >= 2
  {
    if xx == 0 then
      if sign != 0 then None else Some(0)
    else
      var x := PowMod(c, xx, (c.p + 3) / 8);
      var x' := if (x * x - xx) % c.p != 0 then (x * c.i) % c.p else x;
      if (x' * x' - xx) % c.p != 0 then None
      else Some(if x' % 2 != sign then c.p - x' else x')
  }

  function DecodePoint(c: Curve, encoded: Bytes): Option<Point>
    requires c.p >= 2 && c.width > 0
  {
    if |encoded| != c.width then None
    else
      var compressed := FromLittle(encoded);
      assert TopBit(c.width) > 0 by { PowPositive(256, c.width - 1); }
      var y, sign := compressed % TopBit(c.width), compressed / TopBit(c.width);
      if y >= c.p then None
      else
        var yy := (y * y) % c.p;
        var xx := ((yy - 1) * PowMod(c, c.d * yy + 1, c.p - 2)) % c.p;
        var x := RecoverX(c, xx, sign);
        if x.None? || !IsOnCurve(c, x.value, y) then None
        else Some(Point(x.value, y, 1, (x.value * y) % c.p))
  }

  // ----- scalars, keys and signatures -----

  /** The points of the curve with the source's addition and equality. */
  ghost function CurveGroup(c: Curve): Groups.Group<Point>
    requires c.p > 0
  {
    Groups.Group((a, b) => PointAdd(c, a, b), (a, b) => PointsEqual(c, a, b), a => OnCurve(Multiples(c.p), c.d, a),
                 IDENTITY, a => Negate(a))
  }

  ghost function ScalarProduct(c: Curve, point: Point, scalar: nat): Point
    requires c.p > 0
  {
    Groups.Ladder(CurveGroup(c), IDENTITY, point, scalar)
  }

  /** Double and add. */
  method ScalarMult(c: Curve, point: Point, scalar: nat) returns (result: Point)
    requires c.p > 0
    ensures result == ScalarProduct(c, point, scalar)
  {
    result := IDENTITY;
    var addend, rest := point, scalar;
    ghost var turns := 0;
    while rest > 0
      invariant Groups.Ladder(CurveGroup(c), result, addend, rest) == ScalarProduct(c, point, scalar)
      invariant Groups.Turn(result, addend, rest) == Groups.Turns(CurveGroup(c), point, scalar, turns)
    {
      if rest % 2 == 1 {
        result := PointAdd(c, result, addend);
      }
      addend := PointAdd(c, addend, addend);
      rest := rest / 2;
      turns := turns + 1;
    }
  }

  /** A scalar with its low three bits cleared, its top bit cleared and the next one set. */
  ghost function Clamped(n: nat, k: nat): int
    requires k > 1
  {
    PowPositive(256, k - 1);
    n % (64 * Pow(256, k - 1)) - n % 8 + 64 * Pow(256, k - 1)
  }

  function PrunedBytes(half: Bytes): Bytes
    requires |half| > 1
  {
    var last := |half| - 1;
    half[0 := half[0] - half[0] % 8][last := half[last] % 64 + 64]
  }

  /** Prunes a buffer in place and reads it as a little-endian integer. */
  method PruneScalar(half: Bytes) returns (scalar: nat)
    requires |half| > 1
    ensures scalar == FromLittle(PrunedBytes(half))
  {
    var buffer := new Byte[|half|](i requires 0 <= i < |half| => half[i]);
    var last := |half| - 1;
    buffer[0] := buffer[0] - buffer[0] % 8;
    buffer[last] := buffer[last] % 64;
    buffer[last] := buffer[last] + 64;
    assert buffer[..] == PrunedBytes(half);
    scalar := FromLittle(buffer[..]);
  }

  predicate HashWidth(c: Curve, hash: Hash, message: Bytes) {
    |hash(message)| == 2 * c.width
  }

  ghost function SecretScalar(c: Curve, hash: Hash, seed: Bytes): nat
    requires c.width > 1 && HashWidth(c, hash, seed)
  {
    FromLittle(PrunedBytes(hash(seed)[..c.width]))
  }

  ghost function PublicKey(c: Curve, hash: Hash, seed: Bytes): Bytes
    requires c.p >= 2 && c.width > 1 && HashWidth(c, hash, seed)
  {
    EncodePoint(c, ScalarProduct(c, c.base, SecretScalar(c, hash, seed)))
  }

  function Challenge(c: Curve, hash: Hash, encodedR: Bytes, key: Bytes, message: Bytes): nat
    requires c.q > 0
  {
    FromLittle(hash(encodedR + key + message)) % c.q
  }

  /** The signature made with a secret scalar and a nonce. */
  ghost function SignatureWith(c: Curve, hash: Hash, scalar: nat, r: nat, message: Bytes): Bytes
    requires c.p >= 2 && c.q > 0 && c.width > 1
  {
    var key, encodedR := EncodePoint(c, ScalarProduct(c, c.base, scalar)), EncodePoint(c, ScalarProduct(c, c.base, r));
    var s := (r + Challenge(c, hash, encodedR, key, message) * scalar) % c.q;
    encodedR + ToLittle(s, c.width)
  }

  ghost function Signature(c: Curve, hash: Hash, seed: Bytes, message: Bytes): Bytes
    requires c.p >= 2 && c.q > 0 && c.width > 1 && HashWidth(c, hash, seed)
  {
    var r := FromLittle(hash(hash(seed)[c.width..] + message)) % c.q;
    SignatureWith(c, hash, SecretScalar(c, hash, seed), r, message)
  }

  /** Signing with a seed of the wrong length is refused. */
  method Sign(c: Curve, hash: Hash, seed: Bytes, message: Bytes) returns (signature: Option<Bytes>)
    requires c.p >= 2 && c.q > 0 && c.width > 1 && HashWidth(c, hash, seed)
    ensures signature == if |seed| != c.width then None else Some(Signature(c, hash, seed, message))
  {
    if |seed| != c.width { return None; }
    var digest := hash(seed);
    var scalar := PruneScalar(digest[..c.width]);
    var keyPoint := ScalarMult(c, c.base, scalar);
    var key := EncodePoint(c, keyPoint);
    var r := FromLittle(hash(digest[c.width..] + message)) % c.q;
    var point := ScalarMult(c, c.base, r);
    var encodedR := EncodePoint(c, point);
    var s := (r + Challenge(c, hash, encodedR, key, message) * scalar) % c.q;
    return Some(encodedR + ToLittle(s, c.width));
  }

  ghost predicate Accepts(c: Curve, hash: Hash, signature: Bytes, key: Bytes, message: Bytes)
    requires c.p >= 2 && c.q > 0 && c.width > 0
  {
    && |signature| == 2 * c.width && |key| == c.width
    && var r, a := DecodePoint(c, signature[..c.width]), DecodePoint(c, key);
    && r.Some? && a.Some?
    && var s, h := FromLittle(signature[c.width..]), Challenge(c, hash, signature[..c.width], key, message);
    && s < c.q
    && PointsEqual(c, ScalarProduct(c, c.base, s), PointAdd(c, r.value, ScalarProduct(c, a.value, h)))
  }

  method Verify(c: Curve, hash: Hash, signature: Bytes, key: Bytes, message: Bytes) returns (ok: bool)
    requires c.p >= 2 && c.q > 0 && c.width > 0
    ensures ok <==> Accepts(c, hash, signature, key, message)
  {
    if |signature| != 2 * c.width || |key| != c.width { return false; }
    var r, a := DecodePoint(c, signature[..c.width]), DecodePoint(c, key);
    if r.None? || a.None? { return false; }
    var s := FromLittle(signature[c.width..]);
    if s >= c.q { return false; }
    var h := Challenge(c, hash, signature[..c.width], key, message);
    var left := ScalarMult(c, c.base, s);
    var product := ScalarMult(c, a.value, h);
    return PointsEqual(c, left, PointAdd(c, r.value, product));
  }
}
