/** Stable sorting by a rank and removal of repeated neighbours, as the library calls of the source do it. */
module Sorting {

  function Insert<T>(rank: T -> int, k: T, s: seq<T>): seq<T> {
    if s == [] || rank(k) <= rank(s[0]) then [k] + s else [s[0]] + Insert(rank, k, s[1..])
  }

  function Sort<T>(rank: T -> int, s: seq<T>): seq<T> {
    if s == [] then [] else Insert(rank, s[0], Sort(rank, s[1..]))
  }

  /** Drops every element equal to its predecessor. */
  function Dedup<T(==)>(s: seq<T>): (r: seq<T>)
    ensures r == [] <==> s == []
    ensures s != [] ==> r[0] == s[0]
  {
    if |s| <= 1 then s
    else if s[0] == s[1] then Dedup(s[1..])
    else [s[0]] + Dedup(s[1..])
  }

  function NormalList<T(==)>(rank: T -> int, s: seq<T>): seq<T> {
    Dedup(Sort(rank, s))
  }

  predicate Sorted<T>(rank: T -> int, s: seq<T>) {
    forall i, j :: 0 <= i < j < |s| ==> rank(s[i]) <= rank(s[j])
  }

  predicate StrictlySorted<T>(rank: T -> int, s: seq<T>) {
    forall i, j :: 0 <= i < j < |s| ==> rank(s[i]) < rank(s[j])
  }

  ghost predicate SameElements<T(!new)>(s: seq<T>, t: seq<T>) {
    forall x :: x in s <==> x in t
  }

  lemma {:induction false} InsertSorted<T(!new)>(rank: T -> int, k: T, s: seq<T>)
    requires Sorted(rank, s)
    ensures Sorted(rank, Insert(rank, k, s)) && SameElements(Insert(rank, k, s), [k] + s)
  {
    if s != [] && rank(k) > rank(s[0]) {
      InsertSorted(rank, k, s[1..]);
      var r := Insert(rank, k, s[1..]);
      assert s == [s[0]] + s[1..];
      forall i | 0 <= i < |r|
        ensures rank(s[0]) <= rank(r[i])
      {
        assert r[i] in r;
        assert r[i] in [k] + s[1..];
      }
    }
  }

  lemma {:induction false} SortSorted<T(!new)>(rank: T -> int, s: seq<T>)
    ensures Sorted(rank, Sort(rank, s)) && SameElements(Sort(rank, s), s)
  {
    if s != [] {
      SortSorted(rank, s[1..]);
      InsertSorted(rank, s[0], Sort(rank, s[1..]));
      assert s == [s[0]] + s[1..];
    }
  }

  ghost predicate Injective<T(!new)>(rank: T -> int) {
    forall a, b :: rank(a) == rank(b) ==> a == b
  }

  lemma {:induction false} DedupStrict<T(!new)>(rank: T -> int, s: seq<T>)
    requires Injective(rank) && Sorted(rank, s)
    ensures StrictlySorted(rank, Dedup(s)) && SameElements(Dedup(s), s)
  {
    if |s| > 1 {
      DedupStrict(rank, s[1..]);
      assert s == [s[0]] + s[1..];
      var r := Dedup(s[1..]);
      if s[0] != s[1] {
        forall i | 0 <= i < |r|
          ensures rank(s[0]) < rank(r[i])
        {
          assert r[i] in r;
          assert r[i] in s[1..];
          assert rank(s[0]) < rank(s[1]);
        }
      } else {
        assert s[1] in s[1..];
      }
    }
  }

  lemma {:induction false} StrictTail<T(!new)>(rank: T -> int, s: seq<T>)
    requires StrictlySorted(rank, s) && s != []
    ensures forall x :: x in s[1..] <==> x in s && x != s[0]
    ensures forall x :: x in s ==> rank(s[0]) <= rank(x)
  {
    assert s == [s[0]] + s[1..];
    forall x | x in s[1..]
      ensures x != s[0]
    {
      var i :| 0 <= i < |s[1..]| && s[1..][i] == x;
      assert rank(s[0]) < rank(s[i + 1]);
    }
  }

  lemma {:induction false} StrictListUnique<T(!new)>(rank: T -> int, s: seq<T>, t: seq<T>)
    requires Injective(rank) && StrictlySorted(rank, s) && StrictlySorted(rank, t) && SameElements(s, t)
    ensures s == t
    decreases s
  {
    assert s != [] ==> s[0] in s;
    assert t != [] ==> t[0] in t;
    if s != [] && t != [] {
      StrictTail(rank, s);
      StrictTail(rank, t);
      assert s[0] == t[0];
      StrictListUnique(rank, s[1..], t[1..]);
      assert s == [s[0]] + s[1..] && t == [t[0]] + t[1..];
    }
  }

  /** Two lists have one normal form exactly when they hold the same elements. */
  lemma {:induction false} NormalListIff<T(!new)>(rank: T -> int, s: seq<T>, t: seq<T>)
    requires Injective(rank)
    ensures NormalList(rank, s) == NormalList(rank, t) <==> SameElements(s, t)
  {
    SortSorted(rank, s);
    SortSorted(rank, t);
    DedupStrict(rank, Sort(rank, s));
    DedupStrict(rank, Sort(rank, t));
    if SameElements(s, t) {
      StrictListUnique(rank, NormalList(rank, s), NormalList(rank, t));
    }
  }

  // ----- sorting keeps every element with its multiplicity -----

  lemma {:induction false} InsertPermutes<T>(rank: T -> int, k: T, s: seq<T>)
    ensures multiset(Insert(rank, k, s)) == multiset([k] + s)
  {
    if s != [] && rank(k) > rank(s[0]) {
      InsertPermutes(rank, k, s[1..]);
      assert s == [s[0]] + s[1..];
    }
  }

  lemma {:induction false} SortPermutes<T>(rank: T -> int, s: seq<T>)
    ensures multiset(Sort(rank, s)) == multiset(s)
  {
    if s != [] {
      SortPermutes(rank, s[1..]);
      InsertPermutes(rank, s[0], Sort(rank, s[1..]));
      assert s == [s[0]] + s[1..];
    }
  }
}
