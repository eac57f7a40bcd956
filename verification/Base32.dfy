/** Base32 (section 6 of RFC 4648) without padding: the encoding as digits of one big-endian
    integer, and the bit accumulator that decodes it. */
module Base32 {
  import opened Common
  import opened Arithmetic
  import opened Positional

  // ----- the encoding -----

  /** The number of base32 characters for `n` bytes. */
  function EncodedLength(n: nat): nat {
    (8 * n + 4) / 5
  }

  /** The number of zero bits that fill the last character. */
  function Padding(n: nat): nat {
    5 * EncodedLength(n) - 8 * n
  }

  /** The bits of the bytes, filled with zeros to a multiple of five, in groups of five. */
  function Encode(bytes: Bytes): (s: seq<nat>)
    ensures |s| == EncodedLength(|bytes|) && forall i :: 0 <= i < |s| ==> s[i] < 32
  {
    Digits(32, BigEndian(256, bytes) * Pow2(Padding(|bytes|)), EncodedLength(|bytes|))
  }

  lemma {:induction false} PowerIsPow2(k: nat, base: nat, n: nat)
    requires base == Pow2(k)
    ensures Pow(base, n) == Pow2(k * n)
    decreases n
  {
    if n > 0 {
      PowerIsPow2(k, base, n - 1);
      Pow2Add(k, k * (n - 1));
      assert k + k * (n - 1) == k * n;
    }
  }

  lemma {:induction false} EncodedBound(v: nat, n: nat)
    requires v < Pow(256, n)
    ensures v * Pow2(Padding(n)) < Pow(32, EncodedLength(n))
  {
    SmallPowers();
    PowerIsPow2(8, 256, n);
    PowerIsPow2(5, 32, EncodedLength(n));
    Pow2Add(8 * n, Padding(n));
    ScaledBelow(v, Pow2(8 * n), Pow2(Padding(n)));
  }

  lemma {:induction false} EncodedValue(bytes: Bytes)
    ensures BigEndian(32, Encode(bytes)) == BigEndian(256, bytes) * Pow2(Padding(|bytes|))
  {
    var value := BigEndian(256, bytes) * Pow2(Padding(|bytes|));
    assert value < Pow(32, EncodedLength(|bytes|)) by {
      DigitsOfValue(256, bytes);
      EncodedBound(BigEndian(256, bytes), |bytes|);
    }
    ValueOfDigits(32, value, EncodedLength(|bytes|));
  }

  lemma ScaledBelow(v: nat, p: nat, k: nat)
    requires v < p && k > 0
    ensures v * k < p * k
  {
  }

  lemma SmallPowers()
    ensures Pow2(0) == 1 && Pow2(1) == 2 && Pow2(2) == 4 && Pow2(3) == 8 && Pow2(4) == 16 && Pow2(5) == 32
    ensures Pow2(6) == 64 && Pow2(7) == 128 && Pow2(8) == 256 && Pow2(12) == 4096
  {
    assert Pow2(8) == 256;
    assert Pow2(12) == 16 * Pow2(8);
  }

  // ----- the accumulator -----

  datatype Accumulator = Accumulator(output: Bytes, bits: nat, count: nat)

  ghost predicate Valid(a: Accumulator) {
    a.count < 8 && a.bits < Pow2(a.count)
  }

  lemma ShiftedBelow(bits: nat, count: nat, v: nat)
    requires count < 8 && bits < Pow2(count) && v < 32
    ensures bits * 32 + v < Pow2(count + 5) <= 4096
  {
    SmallPowers();
    Pow2Add(count, 5);
    Pow2Add(count + 5, 7 - count);
    assert Pow2(count + 5) <= Pow2(count + 5) * Pow2(7 - count);
    assert (bits + 1) * 32 <= Pow2(count) * 32;
  }

  lemma SplitBelow(x: nat, count: nat)
    requires 8 <= count < 13 && x < Pow2(count)
    ensures 0 <= x / Pow2(count - 8) < 256 && 0 <= x % Pow2(count - 8) < Pow2(count - 8)
  {
    SmallPowers();
    Pow2Add(count - 8, 8);
    QuotientBelow(Pow2(count - 8), x, 256);
  }

  lemma FeedFits(bits: nat, count: nat, v: nat)
    requires count < 8 && bits < Pow2(count) && v < 32
    ensures var x, n := bits * 32 + v, count + 5;
            if n >= 8 then 0 <= x / Pow2(n - 8) < 256 && 0 <= x % Pow2(n - 8) < Pow2(n - 8) else x < Pow2(n)
  {
    ShiftedBelow(bits, count, v);
    if count + 5 >= 8 {
      SplitBelow(bits * 32 + v, count + 5);
    }
  }

  /** One base32 digit: shift it in, and shift a byte out when eight bits are there. */
  function Feed(a: Accumulator, v: nat): (r: Accumulator)
    requires Valid(a) && v < 32
    ensures Valid(r)
    ensures 8 * |r.output| + r.count == 8 * |a.output| + a.count + 5
  {
    FeedFits(a.bits, a.count, v);
    var bits, count := a.bits * 32 + v, a.count + 5;
    if count >= 8 then Accumulator(a.output + [bits / Pow2(count - 8)], bits % Pow2(count - 8), count - 8)
    else Accumulator(a.output, bits, count)
  }

  /** The updates of the source's inner loop. The shifted bits stay below 2^12, and the byte
      shifted out below 2^8. */
  method ShiftIn(output: Bytes, bits: nat, count: nat, v: nat) returns (output': Bytes, bits': nat, count': nat)
    requires Valid(Accumulator(output, bits, count)) && v < 32
    ensures Accumulator(output', bits', count') == Feed(Accumulator(output, bits, count), v)
  {
    FeedFits(bits, count, v);
    ShiftedBelow(bits, count, v);
    output', bits', count' := output, bits * 32 + v, count + 5;
    assert bits' < 4096;
    if count' >= 8 {
      count' := count' - 8;
      output' := output' + [bits' / Pow2(count')];
      bits' := bits' % Pow2(count');
    }
  }

  const START := Accumulator([], 0, 0)

  function FeedAll(a: Accumulator, vs: seq<nat>): (r: Accumulator)
    requires Valid(a) && forall i :: 0 <= i < |vs| ==> vs[i] < 32
    ensures Valid(r)
    decreases |vs|
  {
    if vs == [] then a else Feed(FeedAll(a, vs[..|vs| - 1]), vs[|vs| - 1])
  }

  /** The integer an accumulator stands for. */
  ghost function Value(a: Accumulator): nat {
    BigEndian(256, a.output) * Pow2(a.count) + a.bits
  }

  lemma {:induction false} FeedValue(a: Accumulator, v: nat)
    requires Valid(a) && v < 32
    ensures Value(Feed(a, v)) == Value(a) * 32 + v
  {
    var bits, count, out := a.bits * 32 + v, a.count + 5, BigEndian(256, a.output);
    ShiftedPower(a.count, 5, 32);
    ShiftedValue(out, Pow2(a.count), a.bits, v);
    if count >= 8 {
      ByteOut(a.output, bits, count - 8, Pow2(count - 8), Feed(a, v));
    }
  }

  /** Moving a byte from the bits to the output keeps the value. */
  lemma ByteOut(output: Bytes, bits: nat, count: nat, p: nat, r: Accumulator)
    requires p == Pow2(count) && r.count == count && r.bits == bits % p && |r.output| == |output| + 1
    requires r.output[..|output|] == output && r.output[|output|] == bits / p
    ensures Value(r) == BigEndian(256, output) * Pow2(count + 8) + bits
  {
    var high, low := bits / p, bits % p;
    assert bits == high * p + low;
    ShiftedPower(count, 8, 256);
    SplitValue(BigEndian(256, output), p, high);
  }

  lemma ShiftedPower(count: nat, shift: nat, factor: nat)
    requires (shift == 5 && factor == 32) || (shift == 8 && factor == 256)
    ensures Pow2(count + shift) == Pow2(count) * factor
  {
    SmallPowers();
    Pow2Add(count, shift);
  }

  lemma ShiftedValue(out: nat, p: nat, bits: nat, v: nat)
    ensures (out * p + bits) * 32 + v == out * (p * 32) + (bits * 32 + v)
  {
    assert (out * p) * 32 == out * (p * 32);
  }

  lemma SplitValue(out: nat, p: nat, high: nat)
    ensures (out * 256 + high) * p == out * (p * 256) + high * p
  {
    assert (out * 256) * p == out * (p * 256);
  }

  /** The accumulator keeps the integer read so far, and its size in bits. */
  lemma {:induction false} FeedAllValue(vs: seq<nat>)
    requires forall i :: 0 <= i < |vs| ==> vs[i] < 32
    ensures var r := FeedAll(START, vs);
            Value(r) == BigEndian(32, vs) && 8 * |r.output| + r.count == 5 * |vs|
  {
    if vs == [] {
      assert Pow2(0) == 1;
    } else {
      FeedAllValue(vs[..|vs| - 1]);
      FeedValue(FeedAll(START, vs[..|vs| - 1]), vs[|vs| - 1]);
    }
  }

  // ----- decoding is the inverse of encoding -----

  /** No more than the padding is left over, and it is zero. */
  predicate Accepts(a: Accumulator) {
    a.count < 5 && a.bits == 0
  }

  lemma LeftOver(n: nat, m: nat, count: nat)
    requires 8 * n + count == 5 * m && count < 5
    ensures m == EncodedLength(n) && count == Padding(n)
  {
  }

  /** Every accepted digit string is the encoding of its output. */
  lemma {:induction false} AcceptedIsEncoding(vs: seq<nat>)
    requires (forall i :: 0 <= i < |vs| ==> vs[i] < 32) && Accepts(FeedAll(START, vs))
    ensures vs == Encode(FeedAll(START, vs).output)
  {
    var r := FeedAll(START, vs);
    FeedAllValue(vs);
    LeftOver(|r.output|, |vs|, r.count);
    DigitsOfValue(32, vs);
  }

  /** The encoding of every byte string is accepted and decodes to it. */
  lemma {:induction false} EncodingAccepted(bytes: Bytes)
    ensures var r := FeedAll(START, Encode(bytes));
            Accepts(r) && r.output == bytes
  {
    var vs := Encode(bytes);
    var r, n, pad := FeedAll(START, vs), |bytes|, Padding(|bytes|);
    FeedAllValue(vs);
    EncodedValue(bytes);
    SameSize(n, |vs|, |r.output|, r.count);
    UniqueParts(BigEndian(256, r.output), BigEndian(256, bytes), Pow2(pad), r.bits);
    DigitsOfValue(256, bytes);
    DigitsOfValue(256, r.output);
  }

  lemma SameSize(n: nat, m: nat, k: nat, count: nat)
    requires m == EncodedLength(n) && 8 * k + count == 5 * m && count < 8
    ensures k == n && count == Padding(n)
  {
  }

  lemma UniqueParts(a: nat, b: nat, p: nat, bits: nat)
    requires bits < p && a * p + bits == b * p
    ensures a == b && bits == 0
  {
    QuotientRemainder(p, a, bits);
    QuotientRemainder(p, b, 0);
  }
}
