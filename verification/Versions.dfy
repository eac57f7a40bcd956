/** The natural order of artifact version strings: digit runs compare as numbers, other runs
    bytewise, and a proper prefix comes first. Strings are their UTF-8 bytes. */
module Versions {
  import opened Common
  import opened Arithmetic
  import opened KeyOrders

  datatype Ordering = Less | Equal | Greater

  predicate IsDigit(b: Byte) {
    48 <= b <= 57
  }

  // ----- runs -----

  /** The length of the leading run of bytes of one class. */
  function RunLength(s: Bytes, digit: bool): (n: nat)
    ensures n <= |s| && forall i :: 0 <= i < n ==> IsDigit(s[i]) == digit
    ensures n < |s| ==> IsDigit(s[n]) != digit
  {
    if s != [] && IsDigit(s[0]) == digit then 1 + RunLength(s[1..], digit) else 0
  }

  function Runs(s: Bytes): seq<Bytes> {
    if s == [] then []
    else
      var n := RunLength(s, IsDigit(s[0]));
      [s[..n]] + Runs(s[n..])
  }

  predicate IsRun(r: Bytes) {
    r != [] && forall i :: 0 <= i < |r| ==> IsDigit(r[i]) == IsDigit(r[0])
  }

  predicate AllRuns(runs: seq<Bytes>) {
    forall i :: 0 <= i < |runs| ==> IsRun(runs[i])
  }

  lemma {:induction false} RunsAreRuns(s: Bytes)
    ensures AllRuns(Runs(s))
    decreases |s|
  {
    if s != [] {
      RunsAreRuns(s[RunLength(s, IsDigit(s[0]))..]);
    }
  }

  /** Neighbouring runs are of different classes. */
  predicate Alternate(runs: seq<Bytes>)
    requires AllRuns(runs)
  {
    forall i :: 0 < i < |runs| ==> IsDigit(runs[i][0]) != IsDigit(runs[i - 1][0])
  }

  lemma {:induction false} ConcatFirst(r: Bytes, rest: seq<Bytes>)
    ensures Concat([r] + rest) == r + Concat(rest)
    decreases |rest|
  {
    var all, n := [r] + rest, |rest|;
    if n == 0 {
      assert all[..0] == [] && all[0] == r;
    } else {
      ConcatFirst(r, rest[..n - 1]);
      assert all[..n] == [r] + rest[..n - 1] && all[n] == rest[n - 1];
    }
  }

  lemma AlternateFirst(r: Bytes, rest: seq<Bytes>)
    requires IsRun(r) && AllRuns(rest) && Alternate(rest)
    requires rest != [] ==> IsDigit(rest[0][0]) != IsDigit(r[0])
    ensures AllRuns([r] + rest) && Alternate([r] + rest)
  {
  }

  lemma {:induction false} RunsSplit(s: Bytes)
    ensures AllRuns(Runs(s)) && Alternate(Runs(s)) && Concat(Runs(s)) == s
    decreases |s|
  {
    if s != [] {
      var n := RunLength(s, IsDigit(s[0]));
      var r, tail := s[..n], s[n..];
      RunsSplit(tail);
      assert tail != [] ==> Runs(tail)[0][0] == tail[0];
      AlternateFirst(r, Runs(tail));
      ConcatFirst(r, Runs(tail));
      assert s == r + tail;
    }
  }

  lemma {:induction false} SplitIsRuns(runs: seq<Bytes>)
    requires AllRuns(runs) && Alternate(runs)
    ensures Runs(Concat(runs)) == runs
    decreases |runs|
  {
    if runs != [] {
      var r, rest := runs[0], runs[1..];
      SplitIsRuns(rest);
      ConcatFirst(r, rest);
      assert runs == [r] + rest;
      if rest != [] {
        ConcatFirst(rest[0], rest[1..]);
        assert rest == [rest[0]] + rest[1..];
        assert IsDigit(rest[0][0]) != IsDigit(r[0]);
      }
      FirstRun(r, Concat(rest));
    }
  }

  lemma {:induction false} FirstRun(r: Bytes, tail: Bytes)
    requires IsRun(r) && (tail == [] || IsDigit(tail[0]) != IsDigit(r[0]))
    ensures Runs(r + tail) == [r] + Runs(tail)
  {
    var s := r + tail;
    RunLengthUnique(s, IsDigit(s[0]), |r|);
    assert s[..|r|] == r && s[|r|..] == tail;
  }

  /** The runs of a string are its only division into alternating runs. */
  lemma {:induction false} RunsIff(s: Bytes, runs: seq<Bytes>)
    ensures runs == Runs(s) <==> AllRuns(runs) && Alternate(runs) && Concat(runs) == s
  {
    RunsSplit(s);
    if AllRuns(runs) && Alternate(runs) {
      SplitIsRuns(runs);
    }
  }

  lemma {:induction false} RunLengthUnique(s: Bytes, digit: bool, n: nat)
    requires n <= |s| && (forall i :: 0 <= i < n ==> IsDigit(s[i]) == digit)
    requires n == |s| || IsDigit(s[n]) != digit
    ensures RunLength(s, digit) == n
  {
    if n > 0 {
      RunLengthUnique(s[1..], digit, n - 1);
    }
  }

  lemma {:induction false} RunsStep(value: Bytes, start: nat, end: nat)
    requires start < end <= |value| && (forall i :: start <= i < end ==> IsDigit(value[i]) == IsDigit(value[start]))
    requires end == |value| || IsDigit(value[end]) != IsDigit(value[start])
    ensures Runs(value[start..]) == [value[start..end]] + Runs(value[end..])
  {
    var rest := value[start..];
    RunLengthUnique(rest, IsDigit(value[start]), end - start);
    assert rest[..end - start] == value[start..end] && rest[end - start..] == value[end..];
  }

  lemma Regroup(a: seq<Bytes>, r: Bytes, b: seq<Bytes>)
    ensures a + ([r] + b) == (a + [r]) + b
  {
  }

  /** The scanner of the source, with its two positions. */
  method ScanRuns(value: Bytes) returns (runs: seq<Bytes>)
    ensures runs == Runs(value)
  {
    runs := [];
    var start := 0;
    while start < |value|
      invariant 0 <= start <= |value|
      invariant runs + Runs(value[start..]) == Runs(value)
    {
      var digit := IsDigit(value[start]);
      var end := start + 1;
      while end < |value| && IsDigit(value[end]) == digit
        invariant start < end <= |value|
        invariant forall i :: start <= i < end ==> IsDigit(value[i]) == digit
      {
        end := end + 1;
      }
      RunsStep(value, start, end);
      Regroup(runs, value[start..end], Runs(value[end..]));
      runs := runs + [value[start..end]];
      start := end;
    }
    assert runs + [] == runs;
  }

  // ----- comparison -----

  function CompareNat(a: int, b: int): Ordering {
    if a < b then Less else if a > b then Greater else Equal
  }

  function CompareBytes(a: Bytes, b: Bytes): Ordering {
    if a == [] then (if b == [] then Equal else Less)
    else if b == [] then Greater
    else if a[0] != b[0] then CompareNat(a[0], b[0])
    else CompareBytes(a[1..], b[1..])
  }

  function TrimZeros(s: Bytes): (t: Bytes)
    ensures t != [] ==> t[0] != 48
  {
    if s != [] && s[0] == 48 then TrimZeros(s[1..]) else s
  }

  function CompareRun(a: Bytes, b: Bytes): Ordering
    requires a != [] && b != []
  {
    if IsDigit(a[0]) && IsDigit(b[0]) then
      var x, y := TrimZeros(a), TrimZeros(b);
      if |x| != |y| then CompareNat(|x|, |y|) else CompareBytes(x, y)
    else CompareBytes(a, b)
  }

  function CompareRuns(a: seq<Bytes>, b: seq<Bytes>): Ordering
    requires AllRuns(a) && AllRuns(b)
  {
    if a == [] || b == [] then CompareNat(|a|, |b|)
    else
      var o := CompareRun(a[0], b[0]);
      if o != Equal then o else CompareRuns(a[1..], b[1..])
  }

  function Compare(left: Bytes, right: Bytes): Ordering {
    RunsAreRuns(left);
    RunsAreRuns(right);
    CompareRuns(Runs(left), Runs(right))
  }

  /** The comparator of the source. */
  method CompareArtifactVersions(left: Bytes, right: Bytes) returns (r: Ordering)
    ensures r == Compare(left, right)
  {
    var a := ScanRuns(left);
    var b := ScanRuns(right);
    RunsAreRuns(left);
    RunsAreRuns(right);
    var i := 0;
    while i < |a| && i < |b|
      invariant i <= |a| && i <= |b|
      invariant CompareRuns(a[i..], b[i..]) == CompareRuns(a, b)
    {
      var o := CompareRun(a[i], b[i]);
      if o != Equal { return o; }
      i := i + 1;
    }
    return CompareNat(|a|, |b|);
  }

  // ----- digit runs are numbers -----

  predicate AllDigits(s: Bytes) {
    forall i :: 0 <= i < |s| ==> IsDigit(s[i])
  }

  function NatOf(s: Bytes): int {
    if s == [] then 0 else (s[0] - 48) * Pow(10, |s| - 1) + NatOf(s[1..])
  }

  lemma {:induction false} NatOfBounds(s: Bytes)
    requires AllDigits(s)
    ensures 0 <= NatOf(s) < Pow(10, |s|)
    ensures s != [] && s[0] != 48 ==> Pow(10, |s| - 1) <= NatOf(s)
  {
    if s != [] {
      NatOfBounds(s[1..]);
      PowPositive(10, |s| - 1);
      DigitBounds(s[0] - 48, Pow(10, |s| - 1));
    }
  }

  lemma DigitBounds(d: int, p: int)
    requires 0 <= d <= 9 && p > 0
    ensures 0 <= d * p <= 9 * p && (d > 0 ==> d * p >= p)
  {
  }

  lemma {:induction false} TrimKeepsValue(s: Bytes)
    requires AllDigits(s)
    ensures AllDigits(TrimZeros(s)) && NatOf(TrimZeros(s)) == NatOf(s)
  {
    if s != [] && s[0] == 48 {
      TrimKeepsValue(s[1..]);
    }
  }

  lemma {:induction false} SameLengthDigits(a: Bytes, b: Bytes)
    requires AllDigits(a) && AllDigits(b) && |a| == |b|
    ensures CompareBytes(a, b) == CompareNat(NatOf(a), NatOf(b))
    ensures CompareBytes(a, b) == Equal ==> a == b
  {
    if a != [] {
      if a[0] == b[0] {
        SameLengthDigits(a[1..], b[1..]);
        assert a == [a[0]] + a[1..] && b == [b[0]] + b[1..];
      } else {
        NatOfBounds(a[1..]);
        NatOfBounds(b[1..]);
        LeadingDigitDecides(a[0] - 48, b[0] - 48, Pow(10, |a| - 1), NatOf(a[1..]), NatOf(b[1..]));
      }
    }
  }

  lemma LeadingDigitDecides(d: int, e: int, p: int, x: int, y: int)
    requires d != e && 0 <= x < p && 0 <= y < p
    ensures d * p + x < e * p + y <==> d < e
    ensures d * p + x != e * p + y
  {
    MultipleOutside(p, e - d);
    assert p * (e - d) == e * p - d * p;
  }

  lemma {:induction false} PowGrows(m: nat, n: nat)
    requires m <= n
    ensures Pow(10, m) <= Pow(10, n)
    decreases n
  {
    if m < n {
      PowGrows(m, n - 1);
      PowPositive(10, n - 1);
    }
  }

  lemma {:induction false} ShorterIsSmaller(x: Bytes, y: Bytes)
    requires AllDigits(x) && AllDigits(y) && |x| < |y| && y[0] != 48
    ensures NatOf(x) < NatOf(y)
  {
    NatOfBounds(x);
    NatOfBounds(y);
    PowGrows(|x|, |y| - 1);
  }

  /** Two digit runs compare exactly as the numbers they denote. */
  lemma {:induction false} DigitRunsAreNumbers(a: Bytes, b: Bytes)
    requires a != [] && b != [] && AllDigits(a) && AllDigits(b)
    ensures CompareRun(a, b) == CompareNat(NatOf(a), NatOf(b))
  {
    var x, y := TrimZeros(a), TrimZeros(b);
    TrimKeepsValue(a);
    TrimKeepsValue(b);
    assert IsDigit(a[0]) && IsDigit(b[0]);
    if |x| == |y| {
      SameLengthDigits(x, y);
    } else if |x| < |y| {
      ShorterIsSmaller(x, y);
    } else {
      ShorterIsSmaller(y, x);
    }
  }

  // ----- the order as one lexicographic order -----

  /** A run as integers: a digit run as a mark in the place of the digits and its number. */
  ghost function Key(r: Bytes): seq<int>
    requires r != []
  {
    if IsDigit(r[0]) then [48, NatOf(r)] else r
  }

  /** The keys of the runs, each closed by a mark below everything else. */
  ghost function FlatKey(runs: seq<Bytes>): seq<int>
    requires AllRuns(runs)
  {
    if runs == [] then [] else Key(runs[0]) + [-1] + FlatKey(runs[1..])
  }

  ghost function VersionKey(s: Bytes): seq<int> {
    RunsAreRuns(s);
    FlatKey(Runs(s))
  }

  ghost function CompareKeys(a: seq<int>, b: seq<int>): Ordering {
    if LexLess(a, b) then Less else if LexLess(b, a) then Greater else Equal
  }

  lemma {:induction false} BytesAreKeys(a: Bytes, b: Bytes)
    ensures CompareBytes(a, b) == CompareKeys(a, b)
    ensures CompareBytes(a, b) == Equal <==> a == b
  {
    if a != [] && b != [] {
      BytesAreKeys(a[1..], b[1..]);
      assert a == [a[0]] + a[1..] && b == [b[0]] + b[1..];
    }
  }

  lemma {:induction false} MarkedNumbers(m: int, n: int)
    ensures LexLess([48, m], [48, n]) <==> m < n
    ensures [48, m] == [48, n] <==> m == n
  {
    var x, y, e: seq<int> := [m], [n], [];
    assert x[1..] == e && y[1..] == e && !LexLess(e, e);
    assert LexLess(x, y) <==> m < n;
    LexSharedPrefix([48], x, y);
    assert [48] + x == [48, m] && [48] + y == [48, n];
    assert [48, m][1] == m && [48, n][1] == n;
  }

  lemma {:induction false} RunsAreKeys(a: Bytes, b: Bytes)
    requires IsRun(a) && IsRun(b)
    ensures CompareRun(a, b) == CompareKeys(Key(a), Key(b))
    ensures CompareRun(a, b) == Equal <==> Key(a) == Key(b)
  {
    var x, y := Key(a), Key(b);
    if IsDigit(a[0]) && IsDigit(b[0]) {
      DigitRunsAreNumbers(a, b);
      MarkedNumbers(NatOf(a), NatOf(b));
      MarkedNumbers(NatOf(b), NatOf(a));
    } else if !IsDigit(a[0]) && !IsDigit(b[0]) {
      BytesAreKeys(a, b);
    }
  }

  ghost predicate NonNegative(a: seq<int>) {
    forall i :: 0 <= i < |a| ==> a[i] >= 0
  }

  lemma {:induction false} KeyNonNegative(r: Bytes)
    requires IsRun(r)
    ensures NonNegative(Key(r))
  {
    if IsDigit(r[0]) {
      NatOfBounds(r);
    }
  }

  /** The closing mark makes the first differing key decide. */
  lemma {:induction false} ClosedKeysDecide(a: seq<int>, b: seq<int>, x: seq<int>, y: seq<int>)
    requires NonNegative(a) && NonNegative(b) && LexLess(a, b)
    ensures LexLess(a + [-1] + x, b + [-1] + y) && !LexLess(b + [-1] + y, a + [-1] + x)
  {
    var s, t := a + [-1] + x, b + [-1] + y;
    if a != [] && a[0] == b[0] {
      ClosedKeysDecide(a[1..], b[1..], x, y);
      assert s[1..] == a[1..] + [-1] + x && t[1..] == b[1..] + [-1] + y;
    } else if a == [] {
      assert s[0] == -1 && t[0] == b[0];
    } else {
      assert s[0] == a[0] && t[0] == b[0];
    }
  }

  lemma {:induction false} RunListsAreKeys(a: seq<Bytes>, b: seq<Bytes>)
    requires AllRuns(a) && AllRuns(b)
    ensures CompareRuns(a, b) == CompareKeys(FlatKey(a), FlatKey(b))
  {
    if a != [] && b != [] {
      var k, l := Key(a[0]), Key(b[0]);
      RunsAreKeys(a[0], b[0]);
      KeyNonNegative(a[0]);
      KeyNonNegative(b[0]);
      if k == l {
        RunListsAreKeys(a[1..], b[1..]);
        LexSharedPrefix(k + [-1], FlatKey(a[1..]), FlatKey(b[1..]));
        LexSharedPrefix(k + [-1], FlatKey(b[1..]), FlatKey(a[1..]));
      } else if LexLess(k, l) {
        ClosedKeysDecide(k, l, FlatKey(a[1..]), FlatKey(b[1..]));
      } else {
        LexConnected(k, l);
        ClosedKeysDecide(l, k, FlatKey(b[1..]), FlatKey(a[1..]));
      }
    }
  }

  /** The comparator is the lexicographic order of the version keys. */
  lemma {:induction false} CompareIsKeyOrder(left: Bytes, right: Bytes)
    ensures Compare(left, right) == CompareKeys(VersionKey(left), VersionKey(right))
  {
    RunsAreRuns(left);
    RunsAreRuns(right);
    RunListsAreKeys(Runs(left), Runs(right));
  }

  function Flip(o: Ordering): Ordering {
    match o
    case Less => Greater
    case Equal => Equal
    case Greater => Less
  }

  /** Any two versions compare, and swapping them flips the result. */
  lemma {:induction false} CompareTotal(a: Bytes, b: Bytes)
    ensures Compare(b, a) == Flip(Compare(a, b))
  {
    CompareIsKeyOrder(a, b);
    CompareIsKeyOrder(b, a);
    var x, y := VersionKey(a), VersionKey(b);
    if LexLess(x, y) {
      LexAsymmetric(x, y);
    }
  }

  predicate AtMost(a: Bytes, b: Bytes) {
    Compare(a, b) != Greater
  }

  /** The comparator is transitive, on all strings. */
  lemma {:induction false} CompareTransitive(a: Bytes, b: Bytes, c: Bytes)
    requires AtMost(a, b) && AtMost(b, c)
    ensures AtMost(a, c)
  {
    var x, y, z := VersionKey(a), VersionKey(b), VersionKey(c);
    CompareIsKeyOrder(a, b);
    CompareIsKeyOrder(b, c);
    CompareIsKeyOrder(a, c);
    if LexLess(z, x) {
      if x != y { LexConnected(x, y); LexTransitive(z, x, y); }
      if y != z { LexConnected(y, z); LexAsymmetric(y, z); }
      if LexLess(x, y) && LexLess(y, z) { LexTransitive(x, y, z); LexAsymmetric(x, z); }
    }
  }

  lemma {:induction false} FlatKeyInjective(a: seq<Bytes>, b: seq<Bytes>)
    requires AllRuns(a) && AllRuns(b)
    ensures CompareRuns(a, b) == Equal <==> |a| == |b| && forall i :: 0 <= i < |a| ==> Key(a[i]) == Key(b[i])
  {
    if a != [] && b != [] {
      RunsAreKeys(a[0], b[0]);
      FlatKeyInjective(a[1..], b[1..]);
      assert forall i :: 0 < i < |a| ==> a[i] == a[1..][i - 1];
      assert forall i :: 0 < i < |b| ==> b[i] == b[1..][i - 1];
      assert forall i :: 0 <= i < |a| - 1 ==> a[1..][i] == a[i + 1];
      assert forall i :: 0 <= i < |b| - 1 ==> b[1..][i] == b[i + 1];
    }
  }

  /** The same run, up to the leading zeros of a digit run. */
  ghost predicate SameRun(a: Bytes, b: Bytes)
    requires a != [] && b != []
  {
    if IsDigit(a[0]) && IsDigit(b[0]) then TrimZeros(a) == TrimZeros(b) else a == b
  }

  lemma {:induction false} SameRunIffKey(a: Bytes, b: Bytes)
    requires IsRun(a) && IsRun(b)
    ensures SameRun(a, b) <==> CompareRun(a, b) == Equal
  {
    var x, y := TrimZeros(a), TrimZeros(b);
    BytesAreKeys(x, y);
    BytesAreKeys(a, b);
  }

  /** Two versions are equal exactly when their runs match up to leading zeros. */
  lemma {:induction false} EqualVersions(left: Bytes, right: Bytes)
    ensures AllRuns(Runs(left)) && AllRuns(Runs(right))
    ensures var a, b := Runs(left), Runs(right);
            Compare(left, right) == Equal <==> |a| == |b| && forall i :: 0 <= i < |a| ==> SameRun(a[i], b[i])
  {
    var a, b := Runs(left), Runs(right);
    RunsAreRuns(left);
    RunsAreRuns(right);
    FlatKeyInjective(a, b);
    forall i | 0 <= i < |a| && i < |b|
      ensures SameRun(a[i], b[i]) <==> Key(a[i]) == Key(b[i])
    {
      SameRunIffKey(a[i], b[i]);
      RunsAreKeys(a[i], b[i]);
    }
  }

  // ----- versions made of numbers -----

  function Decimal(n: nat): Bytes {
    if n < 10 then [0x30 + n] else Decimal(n / 10) + [0x30 + n % 10]
  }

  /** Numbers with dots between them. */
  function Dotted(numbers: seq<nat>): Bytes {
    if numbers == [] then []
    else if |numbers| == 1 then Decimal(numbers[0])
    else Decimal(numbers[0]) + ([0x2e] + Dotted(numbers[1..]))
  }

  lemma {:induction false} NatOfLast(s: Bytes, d: Byte)
    ensures NatOf(s + [d]) == NatOf(s) * 10 + (d as int - 0x30)
  {
    if s == [] {
      assert s + [d] == [d] && [d][1..] == [];
    } else {
      NatOfLast(s[1..], d);
      assert (s + [d])[1..] == s[1..] + [d];
      var p := Pow(10, |s| - 1);
      assert Pow(10, |s|) == 10 * p;
      assert (s[0] as int - 48) * (10 * p) == ((s[0] as int - 48) * p) * 10;
    }
  }

  lemma {:induction false} DecimalIsNumber(n: nat)
    ensures Decimal(n) != [] && AllDigits(Decimal(n)) && NatOf(Decimal(n)) == n
  {
    if n < 10 {
      assert Decimal(n)[1..] == [];
    } else {
      DecimalIsNumber(n / 10);
      NatOfLast(Decimal(n / 10), 0x30 + n % 10);
    }
  }

  /** The runs of a dotted version: its numbers and the dots between them. */
  ghost function DottedRuns(numbers: seq<nat>): seq<Bytes> {
    if numbers == [] then []
    else if |numbers| == 1 then [Decimal(numbers[0])]
    else [Decimal(numbers[0])] + ([[0x2e]] + DottedRuns(numbers[1..]))
  }

  lemma {:induction false} DottedSplits(numbers: seq<nat>)
    ensures Runs(Dotted(numbers)) == DottedRuns(numbers)
    ensures numbers != [] ==> Dotted(numbers) != [] && IsDigit(Dotted(numbers)[0])
  {
    if numbers != [] {
      var r := Decimal(numbers[0]);
      DecimalIsNumber(numbers[0]);
      assert IsDigit(r[0]);
      if |numbers| == 1 {
        FirstRun(r, []);
        assert r + [] == r && Runs([]) == [] && [r] + [] == [r];
      } else {
        var rest := Dotted(numbers[1..]);
        DottedSplits(numbers[1..]);
        FirstRun([0x2e], rest);
        FirstRun(r, [0x2e] + rest);
      }
    }
  }

  lemma FirstNumbers(x: int, xs: seq<int>, y: int, ys: seq<int>)
    ensures CompareKeys([x] + xs, [y] + ys) == if x == y then CompareKeys(xs, ys) else CompareNat(x, y)
  {
    var a, b := [x] + xs, [y] + ys;
    assert a[1..] == xs && b[1..] == ys && a[0] == x && b[0] == y;
  }

  lemma FirstRuns(a: Bytes, rest: seq<Bytes>, b: Bytes, others: seq<Bytes>)
    requires AllRuns([a] + rest) && AllRuns([b] + others)
    ensures IsRun(a) && IsRun(b) && AllRuns(rest) && AllRuns(others)
    ensures CompareRuns([a] + rest, [b] + others) ==
            if CompareRun(a, b) == Equal then CompareRuns(rest, others) else CompareRun(a, b)
  {
    var s, t := [a] + rest, [b] + others;
    assert s[1..] == rest && t[1..] == others && s[0] == a && t[0] == b;
    assert forall i :: 0 <= i < |rest| ==> rest[i] == s[i + 1];
    assert forall i :: 0 <= i < |others| ==> others[i] == t[i + 1];
  }

  ghost function AfterNumber(numbers: seq<nat>): seq<Bytes>
    requires numbers != []
  {
    if |numbers| == 1 then [] else [[0x2e]] + DottedRuns(numbers[1..])
  }

  lemma {:induction false} DottedRunsCompare(left: seq<nat>, right: seq<nat>)
    requires AllRuns(DottedRuns(left)) && AllRuns(DottedRuns(right))
    ensures CompareRuns(DottedRuns(left), DottedRuns(right)) == CompareKeys(left, right)
    decreases |left|
  {
    if left != [] && right != [] {
      var x, y := left[0], right[0];
      assert left == [x] + left[1..] && right == [y] + right[1..];
      assert DottedRuns(left) == [Decimal(x)] + AfterNumber(left) && DottedRuns(right) == [Decimal(y)] + AfterNumber(right);
      FirstRuns(Decimal(x), AfterNumber(left), Decimal(y), AfterNumber(right));
      FirstNumbers(x, left[1..], y, right[1..]);
      DecimalIsNumber(x);
      DecimalIsNumber(y);
      DigitRunsAreNumbers(Decimal(x), Decimal(y));
      if x == y && |left| > 1 && |right| > 1 {
        FirstRuns([0x2e], DottedRuns(left[1..]), [0x2e], DottedRuns(right[1..]));
        assert CompareBytes([0x2e], [0x2e]) == Equal;
        DottedRunsCompare(left[1..], right[1..]);
      }
    }
  }

  /** Versions made of numbers compare as the lists of their numbers. */
  lemma {:induction false} DottedNumbers(left: seq<nat>, right: seq<nat>)
    ensures Compare(Dotted(left), Dotted(right)) == CompareKeys(left, right)
  {
    DottedSplits(left);
    DottedSplits(right);
    RunsAreRuns(Dotted(left));
    RunsAreRuns(Dotted(right));
    DottedRunsCompare(left, right);
  }
}
