/** Canonical JSON (section 3.2.3 of RFC 8785): the Rust writer, its Python twin, and what
    their texts determine. An object is a map, so nothing depends on insertion order. */
module CanonicalJson {
  import opened KeyOrders
  import opened JsonText

  const MAX_SAFE_JSON_INT := 9_007_199_254_740_991

  datatype Number = Integer(i: int) | Float(bits: nat)

  datatype Value =
    | Null
    | Bool(b: bool)
    | Num(n: Number)
    | Str(s: string)
    | Arr(items: seq<Value>)
    | Obj(members: map<string, Value>)

  datatype WriteError = UnsafeInteger(magnitude: nat) | NonCanonicalFloat

  // ----- listing the keys of an object in order -----

  ghost predicate IsListing(less: Order, keys: set<string>, s: seq<string>) {
    && (forall i, j :: 0 <= i < j < |s| ==> less(s[i], s[j]))
    && (forall k :: k in keys <==> k in s)
  }

  lemma {:induction false} HasLeast(less: Order, keys: set<string>) returns (least: string)
    requires TotalOrder(less) && keys != {}
    ensures least in keys && forall k :: k in keys && k != least ==> less(least, k)
    decreases keys
  {
    var k :| k in keys;
    if keys == {k} {
      least := k;
    } else {
      var rest := keys - {k};
      assert rest != {};
      var l := HasLeast(less, rest);
      least := if less(k, l) then k else l;
      forall x | x in keys && x != least
        ensures less(least, x)
      {
        assert x in rest || x == k;
        assert x in rest && x != l ==> less(l, x);
      }
    }
  }

  ghost function Listing(less: Order, keys: set<string>): (s: seq<string>)
    requires TotalOrder(less)
    ensures IsListing(less, keys, s)
    decreases keys
  {
    if keys == {} then []
    else
      assert exists k :: k in keys && forall l :: l in keys && l != k ==> less(k, l) by {
        var least := HasLeast(less, keys);
      }
      var k :| k in keys && forall l :: l in keys && l != k ==> less(k, l);
      var rest := Listing(less, keys - {k});
      assert forall l :: l in rest ==> l in keys - {k};
      [k] + rest
  }

  lemma {:induction false} ListingTail(less: Order, keys: set<string>, s: seq<string>)
    requires TotalOrder(less) && IsListing(less, keys, s) && s != []
    ensures s[0] in keys && IsListing(less, keys - {s[0]}, s[1..])
  {
    assert s[0] in s;
    var t := s[1..];
    forall k
      ensures k in keys - {s[0]} <==> k in t
    {
      if k in t {
        var i :| 0 <= i < |t| && t[i] == k;
        assert s[i + 1] == k && less(s[0], s[i + 1]);
      } else if k in s {
        var i :| 0 <= i < |s| && s[i] == k;
        assert i > 0 ==> t[i - 1] == k;
      }
    }
  }

  lemma {:induction false} HeadIsLeast(less: Order, keys: set<string>, s: seq<string>)
    requires IsListing(less, keys, s) && s != []
    ensures s[0] in keys && forall k :: k in keys ==> k == s[0] || less(s[0], k)
  {
    assert s[0] in s;
    forall k | k in keys
      ensures k == s[0] || less(s[0], k)
    {
      var i :| 0 <= i < |s| && s[i] == k;
    }
  }

  /** A set of keys has one listing. */
  lemma {:induction false} ListingUnique(less: Order, keys: set<string>, s: seq<string>, t: seq<string>)
    requires TotalOrder(less) && IsListing(less, keys, s) && IsListing(less, keys, t)
    ensures s == t
    decreases s
  {
    assert s != [] ==> s[0] in s;
    assert t != [] ==> t[0] in t;
    if s != [] && t != [] {
      HeadIsLeast(less, keys, s);
      HeadIsLeast(less, keys, t);
      assert s[0] == t[0];
      ListingTail(less, keys, s);
      ListingTail(less, keys, t);
      ListingUnique(less, keys - {s[0]}, s[1..], t[1..]);
      assert s == [s[0]] + s[1..] && t == [t[0]] + t[1..];
    }
  }

  /** The sort of the object's entries. */
  method SortKeys(keys: set<string>) returns (s: seq<string>)
    ensures IsListing(Utf16Order(), keys, s)
  {
    Utf16Total();
    s := [];
    var rest := keys;
    while rest != {}
      invariant rest <= keys
      invariant IsListing(Utf16Order(), keys - rest, s)
      decreases rest
    {
      var k :| k in rest;
      ghost var done, before := keys - rest, s;
      s := Insert(s, k, done);
      rest := rest - {k};
      assert keys - rest == done + {k};
    }
    assert keys - rest == keys;
  }

  lemma {:induction false} InsertListing(less: Order, keys: set<string>, s: seq<string>, i: nat, k: string)
    requires TotalOrder(less) && IsListing(less, keys, s) && k !in keys && i <= |s|
    requires forall j :: 0 <= j < i ==> less(s[j], k)
    requires i < |s| ==> !less(s[i], k)
    ensures IsListing(less, keys + {k}, s[..i] + [k] + s[i..])
  {
    assert forall j :: 0 <= j < |s| ==> s[j] in s;
    assert forall j :: i <= j < |s| ==> less(k, s[j]);
    assert s == s[..i] + s[i..];
  }

  method Insert(s: seq<string>, k: string, ghost keys: set<string>) returns (t: seq<string>)
    requires TotalOrder(Utf16Order()) && IsListing(Utf16Order(), keys, s) && k !in keys
    ensures IsListing(Utf16Order(), keys + {k}, t)
  {
    var i := 0;
    while i < |s| && Utf16Order()(s[i], k)
      invariant 0 <= i <= |s|
      invariant forall j :: 0 <= j < i ==> Utf16Order()(s[j], k)
    {
      i := i + 1;
    }
    t := s[..i] + [k] + s[i..];
    InsertListing(Utf16Order(), keys, s, i, k);
  }

  // ----- from values to documents -----

  /** Numbers that can be written: integers of magnitude up to 2^53 - 1. */
  predicate Safe(n: Number) {
    n.Integer? && -MAX_SAFE_JSON_INT <= n.i <= MAX_SAFE_JSON_INT
  }

  /** No number at any depth is a float or beyond the safe range. */
  ghost predicate Representable(v: Value) {
    match v
    case Num(n) => Safe(n)
    case Arr(items) => forall i :: 0 <= i < |items| ==> Representable(items[i])
    case Obj(members) => forall k :: k in members ==> Representable(members[k])
    case _ => true
  }

  /** The document of a representable value, with every object's keys in the given order. */
  ghost function Arrange(less: Order, v: Value): Doc
    requires TotalOrder(less) && Representable(v)
    decreases v, 1
  {
    match v
    case Null => DNull
    case Bool(b) => DBool(b)
    case Num(n) => DInt(n.i)
    case Str(s) => DStr(s)
    case Arr(items) => DArr(ArrangeItems(less, v, |items|))
    case Obj(members) => DObj(ArrangeEntries(less, v, Listing(less, members.Keys)))
  }

  ghost function ArrangeItems(less: Order, v: Value, n: nat): (docs: seq<Doc>)
    requires TotalOrder(less) && v.Arr? && Representable(v) && n <= |v.items|
    ensures |docs| == n && forall i :: 0 <= i < n ==> docs[i] == Arrange(less, v.items[i])
    decreases v, 0
  {
    seq(n, i requires 0 <= i < n => Arrange(less, v.items[i]))
  }

  ghost function ArrangeEntries(less: Order, v: Value, keys: seq<string>): (entries: seq<Entry>)
    requires TotalOrder(less) && v.Obj? && Representable(v) && forall k :: k in keys ==> k in v.members
    ensures |entries| == |keys|
    ensures forall i :: 0 <= i < |keys| ==> entries[i] == Entry(keys[i], Arrange(less, v.members[keys[i]]))
    decreases v, 0
  {
    seq(|keys|, i requires 0 <= i < |keys| => Entry(keys[i], Arrange(less, v.members[keys[i]])))
  }

  /** The value of a document: the order of its members is forgotten. */
  function Forget(d: Doc): Value
    decreases d, 0
  {
    match d
    case DNull => Null
    case DBool(b) => Bool(b)
    case DInt(i) => Num(Integer(i))
    case DStr(s) => Str(s)
    case DArr(items) => Arr(seq(|items|, i requires 0 <= i < |items| => Forget(items[i])))
    case DObj(entries) => Obj(ForgetEntries(entries))
  }

  function ForgetEntries(entries: seq<Entry>): map<string, Value>
    decreases entries, 1
  {
    if entries == [] then map[] else ForgetEntries(entries[1..])[entries[0].key := Forget(entries[0].value)]
  }

  lemma {:induction false} ForgetArrange(less: Order, v: Value)
    requires TotalOrder(less) && Representable(v)
    ensures Forget(Arrange(less, v)) == v
    decreases v, 1
  {
    match v
    case Arr(items) =>
      forall i | 0 <= i < |items|
        ensures Forget(Arrange(less, items[i])) == items[i]
      {
        ForgetArrange(less, items[i]);
      }
    case Obj(members) =>
      var keys := Listing(less, members.Keys);
      ForgetArrangeEntries(less, v, keys);
      assert (map k | k in keys :: members[k]) == members;
    case _ =>
  }

  lemma {:induction false} ForgetArrangeEntries(less: Order, v: Value, keys: seq<string>)
    requires TotalOrder(less) && v.Obj? && Representable(v) && forall k :: k in keys ==> k in v.members
    ensures ForgetEntries(ArrangeEntries(less, v, keys)) == map k | k in keys :: v.members[k]
    decreases v, 0, |keys|
  {
    if keys != [] {
      var entries := ArrangeEntries(less, v, keys);
      assert entries[1..] == ArrangeEntries(less, v, keys[1..]);
      ForgetArrangeEntries(less, v, keys[1..]);
      ForgetArrange(less, v.members[keys[0]]);
    }
  }

  // ----- the two writers -----

  ghost function RustText(v: Value): string
    requires Representable(v)
  {
    Utf16Total();
    Print(Arrange(Utf16Order(), v))
  }

  ghost function PythonText(v: Value): string
    requires Representable(v)
  {
    Utf8Total();
    Print(Arrange(Utf8Order(), v))
  }

  /** The parser reads the value back from its canonical text. */
  lemma ParseRecovers(v: Value)
    requires Representable(v)
    ensures var r := Parse(RustText(v));
            r.Some? && r.value.1 == [] && Forget(r.value.0) == v
  {
    Utf16Total();
    var d := Arrange(Utf16Order(), v);
    ParsePrint(d, []);
    assert Print(d) + [] == Print(d);
    ForgetArrange(Utf16Order(), v);
  }

  /** Canonical text is unambiguous: equal texts exactly for equal values. */
  lemma TextDeterminesValue(v: Value, w: Value)
    requires Representable(v) && Representable(w)
    ensures RustText(v) == RustText(w) <==> v == w
  {
    ParseRecovers(v);
    ParseRecovers(w);
  }

  // ----- where the writers agree -----

  /** No object at any depth holds two keys that clash. */
  ghost predicate NoClash(v: Value) {
    match v
    case Arr(items) => forall i :: 0 <= i < |items| ==> NoClash(items[i])
    case Obj(members) =>
      && (forall a, b :: a in members && b in members ==> !Clash(a, b))
      && (forall k :: k in members ==> NoClash(members[k]))
    case _ => true
  }

  lemma {:induction false} CommonListing(l: Order, m: Order, keys: set<string>, s: seq<string>, a: string, b: string)
    requires TotalOrder(l) && TotalOrder(m) && IsListing(l, keys, s) && IsListing(m, keys, s) && a in keys && b in keys
    ensures l(a, b) == m(a, b)
  {
    var i :| 0 <= i < |s| && s[i] == a;
    var j :| 0 <= j < |s| && s[j] == b;
    assert i < j ==> l(a, b) && m(a, b);
    assert j < i ==> l(b, a) && m(b, a);
  }

  /** Two orders list a set of keys alike exactly when they agree on every pair of keys. */
  lemma {:induction false} ListingsAgree(l: Order, m: Order, keys: set<string>)
    requires TotalOrder(l) && TotalOrder(m)
    ensures Listing(l, keys) == Listing(m, keys) <==> forall a, b :: a in keys && b in keys ==> l(a, b) == m(a, b)
  {
    var s, t := Listing(l, keys), Listing(m, keys);
    if s == t {
      forall a, b | a in keys && b in keys
        ensures l(a, b) == m(a, b)
      {
        CommonListing(l, m, keys, s, a, b);
      }
    } else if forall a, b :: a in keys && b in keys ==> l(a, b) == m(a, b) {
      forall i, j | 0 <= i < j < |s|
        ensures m(s[i], s[j])
      {
        assert s[i] in s && s[j] in s && l(s[i], s[j]);
      }
      ListingUnique(m, keys, s, t);
    }
  }

  /** The two orders agree on the keys of every object in the value. */
  ghost predicate SameOrder(l: Order, m: Order, v: Value) {
    match v
    case Arr(items) => forall i :: 0 <= i < |items| ==> SameOrder(l, m, items[i])
    case Obj(members) =>
      && (forall a, b :: a in members && b in members ==> l(a, b) == m(a, b))
      && (forall k :: k in members ==> SameOrder(l, m, members[k]))
    case _ => true
  }

  lemma {:induction false} ArrangementsAgree(l: Order, m: Order, v: Value)
    requires TotalOrder(l) && TotalOrder(m) && Representable(v)
    ensures Arrange(l, v) == Arrange(m, v) <==> SameOrder(l, m, v)
    decreases v, 1
  {
    match v
    case Arr(items) =>
      var d, e := ArrangeItems(l, v, |items|), ArrangeItems(m, v, |items|);
      forall i | 0 <= i < |items|
        ensures d[i] == e[i] <==> SameOrder(l, m, items[i])
      {
        ArrangementsAgree(l, m, items[i]);
      }
    case Obj(members) =>
      forall k | k in members
        ensures Arrange(l, members[k]) == Arrange(m, members[k]) <==> SameOrder(l, m, members[k])
      {
        ArrangementsAgree(l, m, members[k]);
      }
      ListingsAgree(l, m, members.Keys);
      EntriesAgree(l, m, v, Listing(l, members.Keys), Listing(m, members.Keys));
    case _ =>
  }

  /** Two lists of entries are equal exactly when their keys and their values are. */
  lemma {:induction false} EntriesAgree(l: Order, m: Order, v: Value, s: seq<string>, t: seq<string>)
    requires TotalOrder(l) && TotalOrder(m) && Representable(v) && v.Obj?
    requires forall k :: k in s ==> k in v.members
    requires forall k :: k in t ==> k in v.members
    ensures ArrangeEntries(l, v, s) == ArrangeEntries(m, v, t)
            <==> s == t && forall k :: k in s ==> Arrange(l, v.members[k]) == Arrange(m, v.members[k])
  {
    var d, e := ArrangeEntries(l, v, s), ArrangeEntries(m, v, t);
    if d == e {
      forall i | 0 <= i < |s|
        ensures s[i] == t[i] && Arrange(l, v.members[s[i]]) == Arrange(m, v.members[s[i]])
      {
        assert d[i] == e[i];
      }
    }
  }

  lemma {:induction false} NoClashIsSameOrder(v: Value)
    ensures NoClash(v) <==> SameOrder(Utf8Order(), Utf16Order(), v)
  {
    match v
    case Arr(items) =>
      forall i | 0 <= i < |items|
        ensures NoClash(items[i]) <==> SameOrder(Utf8Order(), Utf16Order(), items[i])
      {
        NoClashIsSameOrder(items[i]);
      }
    case Obj(members) =>
      forall k | k in members
        ensures NoClash(members[k]) <==> SameOrder(Utf8Order(), Utf16Order(), members[k])
      {
        NoClashIsSameOrder(members[k]);
      }
      forall a, b | a in members && b in members
        ensures !Clash(a, b) <==> Utf8Order()(a, b) == Utf16Order()(a, b)
      {
        OrdersAgree(a, b);
      }
    case _ =>
  }

  /** The two writers give one text exactly for the values without clashing keys. */
  lemma WritersAgree(v: Value)
    requires Representable(v)
    ensures RustText(v) == PythonText(v) <==> NoClash(v)
  {
    Utf8Total();
    Utf16Total();
    ArrangementsAgree(Utf8Order(), Utf16Order(), v);
    NoClashIsSameOrder(v);
    if RustText(v) == PythonText(v) {
      PrintInjective(Arrange(Utf8Order(), v), Arrange(Utf16Order(), v));
    }
  }

  /** Every object key, at any depth, lies in the Basic Multilingual Plane. */
  ghost predicate BmpKeys(v: Value) {
    match v
    case Arr(items) => forall i :: 0 <= i < |items| ==> BmpKeys(items[i])
    case Obj(members) => forall k :: k in members ==> InBmp(k) && BmpKeys(members[k])
    case _ => true
  }

  lemma {:induction false} BmpKeysNoClash(v: Value)
    requires BmpKeys(v)
    ensures NoClash(v)
  {
    match v
    case Arr(items) =>
      forall i | 0 <= i < |items| ensures NoClash(items[i]) { BmpKeysNoClash(items[i]); }
    case Obj(members) =>
      forall k | k in members ensures NoClash(members[k]) { BmpKeysNoClash(members[k]); }
      forall a, b | a in members && b in members ensures !Clash(a, b) { BmpNeverClashes(a, b); }
    case _ =>
  }

  /** An input on which the writers differ: two one-character keys, U+10000 and U+E000. */
  lemma WritersDiffer()
    ensures var v := Obj(map["\U{10000}" := Num(Integer(1)), "\U{E000}" := Num(Integer(2))]);
            Representable(v) && RustText(v) != PythonText(v)
  {
    var a, b := "\U{10000}", "\U{E000}";
    var v := Obj(map[a := Num(Integer(1)), b := Num(Integer(2))]);
    assert a[0] as int == 0x10000 && b[0] as int == 0xE000;
    assert Clash(a, b) && a in v.members && b in v.members;
    WritersAgree(v);
  }
}
