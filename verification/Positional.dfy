/** Big-endian numbers in a fixed base and their digits. */
module Positional {
  import opened Arithmetic

  function BigEndian(base: nat, s: seq<nat>): nat {
    if s == [] then 0 else BigEndian(base, s[..|s| - 1]) * base + s[|s| - 1]
  }

  function Digits(base: nat, value: nat, n: nat): (s: seq<nat>)
    requires base > 0
    ensures |s| == n && forall i :: 0 <= i < n ==> s[i] < base
    decreases n
  {
    if n == 0 then [] else Digits(base, value / base, n - 1) + [value % base]
  }

  ghost predicate Below(base: nat, s: seq<nat>) {
    forall i :: 0 <= i < |s| ==> s[i] < base
  }

  lemma QuotientRemainder(base: nat, q: nat, r: nat)
    requires r < base
    ensures (q * base + r) / base == q && (q * base + r) % base == r
  {
    RemainderUnique(base, q, r);
  }

  lemma {:induction false} DigitsOfValue(base: nat, s: seq<nat>)
    requires base > 0 && Below(base, s)
    ensures Digits(base, BigEndian(base, s), |s|) == s && BigEndian(base, s) < Pow(base, |s|)
  {
    if s != [] {
      var n := |s| - 1;
      DigitsOfValue(base, s[..n]);
      QuotientRemainder(base, BigEndian(base, s[..n]), s[n]);
      assert s == s[..n] + [s[n]];
      BelowNext(base, BigEndian(base, s[..n]), s[n], Pow(base, n));
    }
  }

  lemma BelowNext(base: nat, v: nat, r: nat, p: int)
    requires r < base && v < p
    ensures v * base + r < base * p
  {
    assert (v + 1) * base <= p * base;
  }

  lemma {:induction false} ValueOfDigits(base: nat, value: nat, n: nat)
    requires base > 0 && value < Pow(base, n)
    ensures BigEndian(base, Digits(base, value, n)) == value
    decreases n
  {
    if n > 0 {
      var s := Digits(base, value, n);
      assert s[..n - 1] == Digits(base, value / base, n - 1);
      QuotientBelow(base, value, Pow(base, n - 1));
      ValueOfDigits(base, value / base, n - 1);
      Recombine(base, value);
    }
  }

  lemma Recombine(base: nat, value: nat)
    requires base > 0
    ensures value / base >= 0 && value / base * base + value % base == value
  {
  }

  // ----- leading digits -----

  lemma {:induction false} LeadingZeros(base: nat, s: seq<nat>, k: nat)
    requires k <= |s| && forall i :: 0 <= i < k ==> s[i] == 0
    ensures BigEndian(base, s) == BigEndian(base, s[k..])
    decreases |s|
  {
    var n := |s| - 1;
    if k < |s| {
      LeadingZeros(base, s[..n], k);
      assert s[..n][k..] == s[k..][..n - k];
    } else if s != [] {
      LeadingZeros(base, s[..n], n);
      assert s[..n][n..] == s[k..];
    }
  }

  lemma ZeroValue(base: nat, s: seq<nat>)
    ensures (forall i :: 0 <= i < |s| ==> s[i] == 0) ==> BigEndian(base, s) == 0
  {
    if forall i :: 0 <= i < |s| ==> s[i] == 0 {
      LeadingZeros(base, s, |s|);
    }
  }

  /** A number whose first digit is not zero needs all its digits. */
  lemma {:induction false} LeadingDigit(base: nat, s: seq<nat>)
    requires base > 0 && s != [] && s[0] > 0
    ensures BigEndian(base, s) >= Pow(base, |s| - 1)
  {
    var n := |s| - 1;
    if n > 0 {
      LeadingDigit(base, s[..n]);
      Scale(base, BigEndian(base, s[..n]), Pow(base, n - 1));
    }
  }

  lemma Scale(base: nat, v: int, p: int)
    requires v >= p
    ensures v * base >= base * p
  {
    assert (v - p) * base >= 0;
  }

  lemma {:induction false} PowMonotone(base: nat, m: nat, n: nat)
    requires base > 0 && m <= n
    ensures Pow(base, m) <= Pow(base, n)
    decreases n
  {
    if m < n {
      PowMonotone(base, m, n - 1);
      PowPositive(base, n - 1);
      Scale(Pow(base, n - 1), base, 1);
    }
  }
}
