/** The two orders in which the canonical JSON writers sort object keys: by UTF-16 code units
    (Rust) and by UTF-8 bytes (Python), on strings of Unicode scalar values. */
module KeyOrders {

  // ----- lexicographic order -----

  predicate LexLess(a: seq<int>, b: seq<int>) {
    if b == [] then false
    else if a == [] then true
    else a[0] < b[0] || (a[0] == b[0] && LexLess(a[1..], b[1..]))
  }

  lemma {:induction false} LexIrreflexive(a: seq<int>)
    ensures !LexLess(a, a)
  {
    if a != [] {
      LexIrreflexive(a[1..]);
    }
  }

  lemma {:induction false} LexTransitive(a: seq<int>, b: seq<int>, c: seq<int>)
    requires LexLess(a, b) && LexLess(b, c)
    ensures LexLess(a, c)
  {
    if a != [] && a[0] == b[0] == c[0] {
      LexTransitive(a[1..], b[1..], c[1..]);
    }
  }

  lemma {:induction false} LexAsymmetric(a: seq<int>, b: seq<int>)
    requires LexLess(a, b)
    ensures !LexLess(b, a)
  {
    if LexLess(b, a) {
      LexTransitive(a, b, a);
      LexIrreflexive(a);
    }
  }

  lemma {:induction false} LexConnected(a: seq<int>, b: seq<int>)
    requires a != b
    ensures LexLess(a, b) || LexLess(b, a)
  {
    if a != [] && b != [] && a[0] == b[0] {
      assert a == [a[0]] + a[1..] && b == [b[0]] + b[1..];
      LexConnected(a[1..], b[1..]);
    }
  }

  lemma {:induction false} LexSharedPrefix(p: seq<int>, a: seq<int>, b: seq<int>)
    ensures LexLess(p + a, p + b) <==> LexLess(a, b)
  {
    if p == [] {
      assert p + a == a && p + b == b;
    } else {
      LexSharedPrefix(p[1..], a, b);
      assert (p + a)[1..] == p[1..] + a && (p + b)[1..] == p[1..] + b;
    }
  }

  /** `a` and `b` part at a position that both have, `a` with the smaller element. */
  ghost predicate PartsBelow(a: seq<int>, b: seq<int>) {
    exists i :: 0 <= i < |a| && i < |b| && a[..i] == b[..i] && a[i] < b[i]
  }

  lemma {:induction false} PartingDecides(a: seq<int>, b: seq<int>, x: seq<int>, y: seq<int>)
    requires PartsBelow(a, b)
    ensures LexLess(a + x, b + y) && !LexLess(b + y, a + x)
  {
    var i :| 0 <= i < |a| && i < |b| && a[..i] == b[..i] && a[i] < b[i];
    var p, a', b' := a[..i], a[i..] + x, b[i..] + y;
    assert a + x == p + a' && b + y == p + b';
    LexSharedPrefix(p, a', b');
    LexSharedPrefix(p, b', a');
  }

  // ----- encodings -----

  function Utf16Unit(c: char): (u: seq<int>) {
    var n := c as int;
    if n < 0x10000 then [n] else [0xD800 + (n - 0x10000) / 1024, 0xDC00 + (n - 0x10000) % 1024]
  }

  function Utf8Unit(c: char): (u: seq<int>) {
    var n := c as int;
    if n < 0x80 then [n]
    else if n < 0x800 then [0xC0 + n / 64, 0x80 + n % 64]
    else if n < 0x10000 then [0xE0 + n / 4096, 0x80 + n / 64 % 64, 0x80 + n % 64]
    else [0xF0 + n / 262144, 0x80 + n / 4096 % 64, 0x80 + n / 64 % 64, 0x80 + n % 64]
  }

  function Encode(unit: char -> seq<int>, s: string): seq<int> {
    if s == [] then [] else unit(s[0]) + Encode(unit, s[1..])
  }

  type Order = (string, string) -> bool

  /** The order of the Rust writer. */
  function Utf16Order(): Order {
    (a: string, b: string) => LexLess(Encode(Utf16Unit, a), Encode(Utf16Unit, b))
  }

  /** The order of the Python writer. */
  function Utf8Order(): Order {
    (a: string, b: string) => LexLess(Encode(Utf8Unit, a), Encode(Utf8Unit, b))
  }

  // ----- encoded order is an order on characters -----

  /** Ranks the characters in the order of their encodings. */
  ghost predicate Ranks(rank: char -> int, unit: char -> seq<int>) {
    && (forall c, d :: rank(c) == rank(d) ==> c == d)
    && (forall c :: unit(c) != [])
    && (forall c, d :: rank(c) < rank(d) ==> PartsBelow(unit(c), unit(d)))
  }

  function CodePoint(c: char): int {
    c as int
  }

  /** UTF-16 puts the supplementary characters, written as surrogates, below U+E000 to U+FFFF. */
  function SurrogateRank(c: char): int {
    var n := c as int;
    if n >= 0x10000 then n - 0x10000 + 0xD800 else if n >= 0xE000 then n + 0x100000 else n
  }

  function Rank(rank: char -> int, s: string): seq<int> {
    seq(|s|, i requires 0 <= i < |s| => rank(s[i]))
  }

  lemma {:induction false} EncodedOrder(rank: char -> int, unit: char -> seq<int>, a: string, b: string)
    requires Ranks(rank, unit)
    ensures LexLess(Encode(unit, a), Encode(unit, b)) <==> LexLess(Rank(rank, a), Rank(rank, b))
  {
    if a != [] && b != [] {
      assert Rank(rank, a)[1..] == Rank(rank, a[1..]) && Rank(rank, b)[1..] == Rank(rank, b[1..]);
      if a[0] == b[0] {
        EncodedOrder(rank, unit, a[1..], b[1..]);
        LexSharedPrefix(unit(a[0]), Encode(unit, a[1..]), Encode(unit, b[1..]));
      } else if rank(a[0]) < rank(b[0]) {
        PartingDecides(unit(a[0]), unit(b[0]), Encode(unit, a[1..]), Encode(unit, b[1..]));
      } else {
        PartingDecides(unit(b[0]), unit(a[0]), Encode(unit, b[1..]), Encode(unit, a[1..]));
      }
    }
  }

  lemma Utf16Parts(c: char, d: char)
    requires SurrogateRank(c) < SurrogateRank(d)
    ensures PartsBelow(Utf16Unit(c), Utf16Unit(d))
  {
    var u, v := Utf16Unit(c), Utf16Unit(d);
    assert u[..0] == v[..0];
    if u[0] == v[0] {
      assert u[..1] == v[..1];
      assert u[1] < v[1];
    } else {
      assert u[0] < v[0];
    }
  }

  lemma Utf16Ranks()
    ensures Ranks(SurrogateRank, Utf16Unit)
  {
    forall c, d | SurrogateRank(c) < SurrogateRank(d)
      ensures PartsBelow(Utf16Unit(c), Utf16Unit(d))
    {
      Utf16Parts(c, d);
    }
  }

  lemma Base64Digits(n: nat, m: nat)
    requires n < m
    ensures n / 64 < m / 64 || (n / 64 == m / 64 && n % 64 < m % 64)
  {
  }

  lemma TwoDigits(n: nat, m: nat)
    requires n < m
    ensures PartsBelow([n / 64, n % 64], [m / 64, m % 64])
  {
    var u, v := [n / 64, n % 64], [m / 64, m % 64];
    Base64Digits(n, m);
    assert u[..0] == v[..0] && (u[0] == v[0] ==> u[..1] == v[..1]);
  }

  lemma ThreeDigits(n: nat, m: nat)
    requires n < m
    ensures PartsBelow([n / 4096, n / 64 % 64, n % 64], [m / 4096, m / 64 % 64, m % 64])
  {
    var u, v := [n / 4096, n / 64 % 64, n % 64], [m / 4096, m / 64 % 64, m % 64];
    assert n / 4096 == n / 64 / 64 && m / 4096 == m / 64 / 64;
    Base64Digits(n, m);
    if n / 64 < m / 64 {
      Base64Digits(n / 64, m / 64);
      assert u[..0] == v[..0] && u[..1] == [u[0]] && v[..1] == [v[0]];
    } else {
      assert u[..2] == v[..2];
    }
  }

  lemma PartsExtended(a: seq<int>, b: seq<int>, x: seq<int>, y: seq<int>)
    requires PartsBelow(a, b)
    ensures PartsBelow(a + x, b + y)
  {
    var i :| 0 <= i < |a| && i < |b| && a[..i] == b[..i] && a[i] < b[i];
    assert (a + x)[..i] == a[..i] && (b + y)[..i] == b[..i];
  }

  lemma FourDigits(n: nat, m: nat)
    requires n < m
    ensures PartsBelow([n / 262144, n / 4096 % 64, n / 64 % 64, n % 64], [m / 262144, m / 4096 % 64, m / 64 % 64, m % 64])
  {
    var u, v := [n / 262144, n / 4096 % 64, n / 64 % 64, n % 64], [m / 262144, m / 4096 % 64, m / 64 % 64, m % 64];
    assert n / 262144 == n / 64 / 4096 && m / 262144 == m / 64 / 4096;
    assert n / 4096 == n / 64 / 64 && m / 4096 == m / 64 / 64;
    Base64Digits(n, m);
    if n / 64 < m / 64 {
      ThreeDigits(n / 64, m / 64);
      var a, b := [n / 64 / 4096, n / 64 / 64 % 64, n / 64 % 64], [m / 64 / 4096, m / 64 / 64 % 64, m / 64 % 64];
      PartsExtended(a, b, [n % 64], [m % 64]);
      assert u == a + [n % 64] && v == b + [m % 64];
    } else {
      assert u[..3] == v[..3];
    }
  }

  /** Adding the same marks to the digits keeps the parting. */
  lemma MarkedParts(a: seq<int>, b: seq<int>, u: seq<int>, v: seq<int>)
    requires PartsBelow(a, b) && |u| == |a| && |v| == |b|
    requires forall i :: 0 <= i < |a| && i < |b| ==> u[i] - a[i] == v[i] - b[i]
    ensures PartsBelow(u, v)
  {
    var i :| 0 <= i < |a| && i < |b| && a[..i] == b[..i] && a[i] < b[i];
    forall j | 0 <= j < i
      ensures u[j] == v[j]
    {
      assert a[..i][j] == b[..i][j];
    }
    assert u[..i] == v[..i];
  }

  lemma Utf8Parts(c: char, d: char)
    requires CodePoint(c) < CodePoint(d)
    ensures PartsBelow(Utf8Unit(c), Utf8Unit(d))
  {
    var u, v, n, m := Utf8Unit(c), Utf8Unit(d), c as int, d as int;
    assert u[..0] == v[..0];
    if |u| == |v| == 2 {
      TwoDigits(n, m);
      MarkedParts([n / 64, n % 64], [m / 64, m % 64], u, v);
    } else if |u| == |v| == 3 {
      ThreeDigits(n, m);
      MarkedParts([n / 4096, n / 64 % 64, n % 64], [m / 4096, m / 64 % 64, m % 64], u, v);
    } else if |u| == |v| == 4 {
      FourDigits(n, m);
      MarkedParts([n / 262144, n / 4096 % 64, n / 64 % 64, n % 64], [m / 262144, m / 4096 % 64, m / 64 % 64, m % 64], u, v);
    } else {
      assert u[0] < v[0];
    }
  }

  lemma Utf8Ranks()
    ensures Ranks(CodePoint, Utf8Unit)
  {
    forall c, d | CodePoint(c) < CodePoint(d)
      ensures PartsBelow(Utf8Unit(c), Utf8Unit(d))
    {
      Utf8Parts(c, d);
    }
  }

  /** UTF-8 byte order is code-point order, on all strings. */
  lemma Utf8IsCodePointOrder(a: string, b: string)
    ensures Utf8Order()(a, b) <==> LexLess(Rank(CodePoint, a), Rank(CodePoint, b))
  {
    Utf8Ranks();
    EncodedOrder(CodePoint, Utf8Unit, a, b);
  }

  lemma Utf16IsSurrogateOrder(a: string, b: string)
    ensures Utf16Order()(a, b) <==> LexLess(Rank(SurrogateRank, a), Rank(SurrogateRank, b))
  {
    Utf16Ranks();
    EncodedOrder(SurrogateRank, Utf16Unit, a, b);
  }

  // ----- strict total orders -----

  ghost predicate TotalOrder(less: Order) {
    && (forall a :: !less(a, a))
    && (forall a, b, c :: less(a, b) && less(b, c) ==> less(a, c))
    && (forall a, b :: a != b ==> less(a, b) || less(b, a))
  }

  lemma RankInjective(rank: char -> int, a: string, b: string)
    requires forall c, d :: rank(c) == rank(d) ==> c == d
    requires Rank(rank, a) == Rank(rank, b)
    ensures a == b
  {
    assert |a| == |Rank(rank, a)| == |b|;
    forall i | 0 <= i < |a|
      ensures a[i] == b[i]
    {
      assert Rank(rank, a)[i] == rank(a[i]) && Rank(rank, b)[i] == rank(b[i]);
    }
  }

  lemma RankedTotalOrder(rank: char -> int, less: Order)
    requires forall c, d :: rank(c) == rank(d) ==> c == d
    requires forall a, b :: less(a, b) <==> LexLess(Rank(rank, a), Rank(rank, b))
    ensures TotalOrder(less)
  {
    forall a: string ensures !less(a, a) { LexIrreflexive(Rank(rank, a)); }
    forall a, b, c | less(a, b) && less(b, c) ensures less(a, c) {
      LexTransitive(Rank(rank, a), Rank(rank, b), Rank(rank, c));
    }
    forall a, b | a != b ensures less(a, b) || less(b, a) {
      if Rank(rank, a) == Rank(rank, b) { RankInjective(rank, a, b); }
      LexConnected(Rank(rank, a), Rank(rank, b));
    }
  }

  lemma Utf16Total()
    ensures TotalOrder(Utf16Order())
  {
    forall a, b ensures Utf16Order()(a, b) <==> LexLess(Rank(SurrogateRank, a), Rank(SurrogateRank, b)) {
      Utf16IsSurrogateOrder(a, b);
    }
    Utf16Ranks();
    RankedTotalOrder(SurrogateRank, Utf16Order());
  }

  lemma Utf8Total()
    ensures TotalOrder(Utf8Order())
  {
    forall a, b ensures Utf8Order()(a, b) <==> LexLess(Rank(CodePoint, a), Rank(CodePoint, b)) {
      Utf8IsCodePointOrder(a, b);
    }
    Utf8Ranks();
    RankedTotalOrder(CodePoint, Utf8Order());
  }

  // ----- where the two orders part -----

  predicate Supplementary(c: char) {
    c as int >= 0x10000
  }

  predicate AboveSurrogates(c: char) {
    0xE000 <= c as int < 0x10000
  }

  /** The first difference of two keys pits a supplementary character against one of
      U+E000 to U+FFFF. */
  predicate Clash(a: string, b: string) {
    if a == [] || b == [] then false
    else if a[0] == b[0] then Clash(a[1..], b[1..])
    else (Supplementary(a[0]) && AboveSurrogates(b[0])) || (AboveSurrogates(a[0]) && Supplementary(b[0]))
  }

  lemma {:induction false} ClashIsDisagreement(a: string, b: string)
    ensures Clash(a, b) <==> (LexLess(Rank(CodePoint, a), Rank(CodePoint, b)) !=
                              LexLess(Rank(SurrogateRank, a), Rank(SurrogateRank, b)))
  {
    if a != [] && b != [] {
      assert Rank(CodePoint, a)[1..] == Rank(CodePoint, a[1..]) && Rank(CodePoint, b)[1..] == Rank(CodePoint, b[1..]);
      assert Rank(SurrogateRank, a)[1..] == Rank(SurrogateRank, a[1..]) && Rank(SurrogateRank, b)[1..] == Rank(SurrogateRank, b[1..]);
      assert Rank(CodePoint, a)[0] == CodePoint(a[0]) && Rank(CodePoint, b)[0] == CodePoint(b[0]);
      assert Rank(SurrogateRank, a)[0] == SurrogateRank(a[0]) && Rank(SurrogateRank, b)[0] == SurrogateRank(b[0]);
      if a[0] == b[0] {
        ClashIsDisagreement(a[1..], b[1..]);
      } else {
        assert CodePoint(a[0]) != CodePoint(b[0]) && SurrogateRank(a[0]) != SurrogateRank(b[0]);
      }
    }
  }

  /** The two orders disagree on a pair of keys exactly when the keys clash. */
  lemma OrdersAgree(a: string, b: string)
    ensures Clash(a, b) <==> (Utf8Order()(a, b) != Utf16Order()(a, b))
  {
    Utf8IsCodePointOrder(a, b);
    Utf16IsSurrogateOrder(a, b);
    ClashIsDisagreement(a, b);
  }

  predicate InBmp(s: string) {
    forall i :: 0 <= i < |s| ==> !Supplementary(s[i])
  }

  /** Keys of the Basic Multilingual Plane never clash. */
  lemma {:induction false} BmpNeverClashes(a: string, b: string)
    requires InBmp(a) && InBmp(b)
    ensures !Clash(a, b)
  {
    if a != [] && b != [] && a[0] == b[0] {
      BmpNeverClashes(a[1..], b[1..]);
    }
  }
}
