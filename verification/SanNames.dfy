/** How a certificate name carries a chunk, and which lists of names carry which byte string. */
module SanNames {
  import opened Common
  import opened Sorting
  import opened SanChunks

  // ----- one name -----

  function IndexDigits(i: nat): Bytes
    requires i < 100
  {
    [48 + i / 10, 48 + i % 10]
  }

  /** A label holds an index and data exactly when it is two digits followed by the data. */
  lemma LabelIff(text: Bytes, i: nat, data: Bytes)
    ensures GoodLabel(text) && LabelChunk(text) == Chunk(i, data) <==>
            i < 100 && data != [] && text == IndexDigits(i) + data
  {
    if GoodLabel(text) {
      assert text == [text[0], text[1]] + text[2..];
    }
    if i < 100 && text == IndexDigits(i) + data {
      assert text[2..] == data;
    }
  }

  /** Index, data and tag, and any further labels. */
  function Write(i: nat, data: Bytes, tag: Bytes, rest: Bytes): Bytes
    requires i < 100
  {
    (IndexDigits(i) + data) + ([0x2e] + (tag + rest))
  }

  predicate Labels(rest: Bytes) {
    rest == [] || rest[0] == 0x2e
  }

  /** The name is written with this index and data, and with the tag in some letter case. */
  ghost predicate IsName(name: Bytes, tag: Bytes, i: nat, data: Bytes) {
    && i < 100 && data != [] && 0x2e !in data
    && exists t: Bytes, rest: Bytes ::
         0x2e !in t && SameIgnoringCase(t, tag) && Labels(rest) && name == Write(i, data, t, rest)
  }

  lemma {:induction false} DotAtFirst(a: Bytes, rest: Bytes)
    requires 0x2e !in a && Labels(rest)
    ensures DotAt(a + rest) == |a| && FirstLabel(a + rest) == a
  {
    if a == [] {
      assert a + rest == rest;
    } else {
      assert (a + rest)[1..] == a[1..] + rest;
      DotAtFirst(a[1..], rest);
    }
    assert (a + rest)[..|a|] == a;
  }

  lemma {:induction false} NoDotBefore(name: Bytes)
    ensures 0x2e !in FirstLabel(name)
  {
    if name != [] && name[0] != 0x2e {
      NoDotBefore(name[1..]);
      assert FirstLabel(name) == [name[0]] + FirstLabel(name[1..]);
    }
  }

  lemma WrittenReads(name: Bytes, tag: Bytes, i: nat, data: Bytes)
    requires IsName(name, tag, i, data)
    ensures Tagged(name, tag) && GoodLabel(FirstLabel(name)) && LabelChunk(FirstLabel(name)) == Chunk(i, data)
  {
    var t: Bytes, rest: Bytes :|
      0x2e !in t && SameIgnoringCase(t, tag) && Labels(rest) && name == Write(i, data, t, rest);
    var first := IndexDigits(i) + data;
    LabelIff(first, i, data);
    LabelsOf(name, first, t, rest);
  }

  /** The first two labels of a name that is put together from its parts. */
  lemma LabelsOf(name: Bytes, first: Bytes, t: Bytes, rest: Bytes)
    requires 0x2e !in first && 0x2e !in t && Labels(rest) && name == first + ([0x2e] + (t + rest))
    ensures FirstLabel(name) == first && SecondLabel(name) == Some(t)
  {
    DotAtFirst(first, [0x2e] + (t + rest));
    assert name[|first| + 1..] == t + rest;
    DotAtFirst(t, rest);
  }

  lemma ReadIsWritten(name: Bytes, tag: Bytes)
    requires Tagged(name, tag) && GoodLabel(FirstLabel(name))
    ensures var c := LabelChunk(FirstLabel(name)); IsName(name, tag, c.index, c.data)
  {
    var first, n := FirstLabel(name), DotAt(name);
    var c := LabelChunk(first);
    LabelIff(first, c.index, c.data);
    NoDotBefore(name);
    assert 0x2e !in c.data;
    var after := name[n + 1..];
    NoDotBefore(after);
    var t, rest := FirstLabel(after), after[DotAt(after)..];
    assert after == t + rest;
    assert name == first + ([0x2e] + after);
    assert name == Write(c.index, c.data, t, rest);
  }

  /** A name is read as a chunk exactly when it was written with its index, data and tag. */
  lemma NameIff(name: Bytes, tag: Bytes, i: nat, data: Bytes)
    ensures Tagged(name, tag) && GoodLabel(FirstLabel(name)) && LabelChunk(FirstLabel(name)) == Chunk(i, data) <==>
            IsName(name, tag, i, data)
  {
    if IsName(name, tag, i, data) {
      WrittenReads(name, tag, i, data);
    }
    if Tagged(name, tag) && GoodLabel(FirstLabel(name)) {
      ReadIsWritten(name, tag);
    }
  }

  // ----- the chunks of a list of names, in any order -----

  lemma GoodParts(a: seq<Bytes>, b: seq<Bytes>, tag: Bytes)
    requires LabelsGood(a + b, tag)
    ensures LabelsGood(a, tag) && LabelsGood(b, tag)
  {
    assert forall i :: 0 <= i < |a| ==> (a + b)[i] == a[i];
    assert forall i :: 0 <= i < |b| ==> (a + b)[|a| + i] == b[i];
  }

  lemma {:induction false} ChunksAppend(a: seq<Bytes>, b: seq<Bytes>, tag: Bytes)
    requires LabelsGood(a + b, tag)
    ensures LabelsGood(a, tag) && LabelsGood(b, tag) && Chunks(a + b, tag) == Chunks(a, tag) + Chunks(b, tag)
    decreases |b|
  {
    GoodParts(a, b, tag);
    if b == [] {
      assert a + b == a;
    } else {
      var n := |b| - 1;
      assert (a + b)[..|a| + n] == a + b[..n];
      ChunksAppend(a, b[..n], tag);
    }
  }

  lemma GoodPermuted(a: seq<Bytes>, b: seq<Bytes>, tag: Bytes)
    requires LabelsGood(a, tag) && multiset(a) == multiset(b)
    ensures LabelsGood(b, tag)
  {
    forall i | 0 <= i < |b| && Tagged(b[i], tag) ensures GoodLabel(FirstLabel(b[i])) {
      assert b[i] in multiset(a);
      var k :| 0 <= k < |a| && a[k] == b[i];
    }
  }

  lemma {:induction false} ChunksPermuted(a: seq<Bytes>, b: seq<Bytes>, tag: Bytes)
    requires LabelsGood(a, tag) && LabelsGood(b, tag) && multiset(a) == multiset(b)
    ensures multiset(Chunks(a, tag)) == multiset(Chunks(b, tag))
    decreases |a|
  {
    if a == [] {
      assert |b| == |multiset(b)| == 0;
    } else {
      var n := |a| - 1;
      var x := a[n];
      assert a == a[..n] + [x];
      assert x in multiset(b);
      var k :| 0 <= k < |b| && b[k] == x;
      var p, q := b[..k], b[k + 1..];
      assert b == (p + [x]) + q;
      Removed(a[..n], x, p, q);
      ChunksAppend(p + [x], q, tag);
      ChunksAppend(p, [x], tag);
      ChunksAppend(a[..n], [x], tag);
      GoodPermuted(a[..n], p + q, tag);
      ChunksAppend(p, q, tag);
      ChunksPermuted(a[..n], p + q, tag);
      Reordered(Chunks(a[..n], tag), Chunks(p, tag), Chunks([x], tag), Chunks(q, tag));
    }
  }

  lemma Removed(a: seq<Bytes>, x: Bytes, p: seq<Bytes>, q: seq<Bytes>)
    requires multiset(a + [x]) == multiset((p + [x]) + q)
    ensures multiset(a) == multiset(p + q)
  {
    assert multiset(a + [x]) == multiset(a) + multiset{x};
    assert multiset((p + [x]) + q) == multiset(p + q) + multiset{x};
    TakeOne(multiset(a), multiset(p + q), x);
  }

  lemma TakeOne(a: multiset<Bytes>, b: multiset<Bytes>, x: Bytes)
    requires a + multiset{x} == b + multiset{x}
    ensures a == b
  {
    assert (a + multiset{x}) - multiset{x} == a && (b + multiset{x}) - multiset{x} == b;
  }

  lemma Reordered(a: seq<Chunk>, p: seq<Chunk>, x: seq<Chunk>, q: seq<Chunk>)
    requires multiset(a) == multiset(p + q)
    ensures multiset(a + x) == multiset((p + x) + q)
  {
  }

  // ----- a list of names -----

  /** The names are, in some order, those of the numbered parts and names without the tag. */
  ghost predicate Arranged(names: seq<Bytes>, tag: Bytes, written: seq<Bytes>, others: seq<Bytes>, datas: seq<Bytes>) {
    && multiset(names) == multiset(written + others)
    && |written| == |datas|
    && (forall i :: 0 <= i < |datas| ==> IsName(written[i], tag, i, datas[i]))
    && (forall i :: 0 <= i < |others| ==> !Tagged(others[i], tag))
  }

  lemma {:induction false} TaggedChunks(names: seq<Bytes>, tag: Bytes)
    requires LabelsGood(names, tag) && forall i :: 0 <= i < |names| ==> Tagged(names[i], tag)
    ensures |Chunks(names, tag)| == |names|
    ensures forall i :: 0 <= i < |names| ==> Chunks(names, tag)[i] == LabelChunk(FirstLabel(names[i]))
  {
    TaggedCount(names, tag);
    forall i | 0 <= i < |names| ensures Chunks(names, tag)[i] == LabelChunk(FirstLabel(names[i])) {
      TaggedChunkAt(names, tag, i);
    }
  }

  lemma {:induction false} TaggedCount(names: seq<Bytes>, tag: Bytes)
    requires LabelsGood(names, tag) && forall i :: 0 <= i < |names| ==> Tagged(names[i], tag)
    ensures |Chunks(names, tag)| == |names|
  {
    if names != [] {
      TaggedCount(names[..|names| - 1], tag);
    }
  }

  lemma {:induction false} TaggedChunkAt(names: seq<Bytes>, tag: Bytes, i: nat)
    requires LabelsGood(names, tag) && i < |names| && forall i :: 0 <= i < |names| ==> Tagged(names[i], tag)
    ensures |Chunks(names, tag)| == |names| && Chunks(names, tag)[i] == LabelChunk(FirstLabel(names[i]))
    decreases |names|
  {
    var n := |names| - 1;
    TaggedCount(names[..n], tag);
    if i < n {
      TaggedChunkAt(names[..n], tag, i);
    }
  }

  lemma {:induction false} WrittenChunks(written: seq<Bytes>, tag: Bytes, datas: seq<Bytes>)
    requires |written| == |datas| && forall i :: 0 <= i < |datas| ==> IsName(written[i], tag, i, datas[i])
    ensures LabelsGood(written, tag) && Chunks(written, tag) == Labelled(datas)
  {
    forall i | 0 <= i < |written|
      ensures Tagged(written[i], tag) && GoodLabel(FirstLabel(written[i]))
      ensures LabelChunk(FirstLabel(written[i])) == Chunk(i, datas[i])
    {
      WrittenReads(written[i], tag, i, datas[i]);
    }
    TaggedChunks(written, tag);
  }

  lemma {:induction false} OthersChunks(others: seq<Bytes>, tag: Bytes)
    requires forall i :: 0 <= i < |others| ==> !Tagged(others[i], tag)
    ensures LabelsGood(others, tag) && Chunks(others, tag) == []
  {
    if others != [] {
      OthersChunks(others[..|others| - 1], tag);
    }
  }

  lemma JoinedGood(a: seq<Bytes>, b: seq<Bytes>, tag: Bytes)
    requires LabelsGood(a, tag) && LabelsGood(b, tag)
    ensures LabelsGood(a + b, tag)
  {
  }

  lemma {:induction false} ArrangedCarried(
    names: seq<Bytes>, tag: Bytes, written: seq<Bytes>, others: seq<Bytes>, datas: seq<Bytes>, bytes: Bytes)
    requires Arranged(names, tag, written, others, datas)
    requires datas != [] && SameIgnoringCase(Concat(datas), Text(bytes))
    ensures Carries(names, tag, bytes)
  {
    WrittenChunks(written, tag, datas);
    OthersChunks(others, tag);
    JoinedGood(written, others, tag);
    GoodPermuted(written + others, names, tag);
    ChunksAppend(written, others, tag);
    ChunksPermuted(names, written + others, tag);
    SplitCarried(names, tag, datas, bytes);
  }

  // ----- from a byte string to names -----

  /** Parts of base32 text hold no dot. */
  lemma {:induction false} PartsWithoutDot(datas: seq<Bytes>, bytes: Bytes, i: nat)
    requires SameIgnoringCase(Concat(datas), Text(bytes)) && i < |datas|
    ensures 0x2e !in datas[i]
  {
    DecodesIffText(Concat(datas), bytes);
    if !AllCharacters(datas[i]) {
      NotAllCharacters(datas, i);
    }
  }

  /** A byte string's text, cut into at most 100 parts and written into names with the tag in any
      case, any further labels, any names without the tag beside them and in any order, is carried. */
  lemma {:induction false} WrittenCarried(
    bytes: Bytes, datas: seq<Bytes>, tag: Bytes, tags: seq<Bytes>, rests: seq<Bytes>,
    written: seq<Bytes>, others: seq<Bytes>, names: seq<Bytes>)
    requires SameIgnoringCase(Concat(datas), Text(bytes)) && 1 <= |datas| <= 100
    requires |tags| == |rests| == |written| == |datas|
    requires forall i :: 0 <= i < |datas| ==>
               && datas[i] != [] && 0x2e !in tags[i] && SameIgnoringCase(tags[i], tag) && Labels(rests[i])
               && written[i] == Write(i, datas[i], tags[i], rests[i])
    requires forall i :: 0 <= i < |others| ==> !Tagged(others[i], tag)
    requires multiset(names) == multiset(written + others)
    ensures Carries(names, tag, bytes)
  {
    forall i | 0 <= i < |datas| ensures IsName(written[i], tag, i, datas[i]) {
      PartsWithoutDot(datas, bytes, i);
      assert written[i] == Write(i, datas[i], tags[i], rests[i]);
    }
    ArrangedCarried(names, tag, written, others, datas, bytes);
  }

  // ----- from names to a byte string -----

  function Select(names: seq<Bytes>, tag: Bytes, tagged: bool): (r: seq<Bytes>)
    ensures forall i :: 0 <= i < |r| ==> Tagged(r[i], tag) == tagged
  {
    if names == [] then []
    else
      var n := |names| - 1;
      var before := Select(names[..n], tag, tagged);
      if Tagged(names[n], tag) == tagged then before + [names[n]] else before
  }

  lemma {:induction false} SelectBoth(names: seq<Bytes>, tag: Bytes)
    ensures multiset(names) == multiset(Select(names, tag, true) + Select(names, tag, false))
  {
    if names != [] {
      var n := |names| - 1;
      SelectBoth(names[..n], tag);
      assert names == names[..n] + [names[n]];
      PlacedLast(names[..n], names[n], Select(names[..n], tag, true), Select(names[..n], tag, false));
    }
  }

  lemma PlacedLast(all: seq<Bytes>, x: Bytes, a: seq<Bytes>, b: seq<Bytes>)
    requires multiset(all) == multiset(a + b)
    ensures multiset(all + [x]) == multiset((a + [x]) + b) == multiset(a + (b + [x]))
  {
  }

  /** The index of a name, if it has one. */
  function NameIndex(name: Bytes): int {
    var first := FirstLabel(name);
    if GoodLabel(first) then LabelChunk(first).index else 0
  }

  /** The tagged names in the order of their indices. */
  function Ordered(names: seq<Bytes>, tag: Bytes): seq<Bytes> {
    Sort(NameIndex, Select(names, tag, true))
  }

  lemma OrderedFacts(names: seq<Bytes>, tag: Bytes)
    ensures Sorted(NameIndex, Ordered(names, tag))
    ensures multiset(names) == multiset(Ordered(names, tag) + Select(names, tag, false))
    ensures forall i :: 0 <= i < |Ordered(names, tag)| ==> Tagged(Ordered(names, tag)[i], tag)
  {
    var tagged, ordered := Select(names, tag, true), Ordered(names, tag);
    SortSorted(NameIndex, tagged);
    SortPermutes(NameIndex, tagged);
    SelectBoth(names, tag);
    forall i | 0 <= i < |ordered| ensures Tagged(ordered[i], tag) {
      assert ordered[i] in ordered;
      var k :| 0 <= k < |tagged| && tagged[k] == ordered[i];
    }
  }

  /** In the order of their indices, the tagged names hold the sorted chunks. */
  lemma {:induction false} OrderedChunks(names: seq<Bytes>, tag: Bytes, datas: seq<Bytes>)
    requires LabelsGood(names, tag) && multiset(Chunks(names, tag)) == multiset(Labelled(datas))
    ensures LabelsGood(Ordered(names, tag), tag) && Chunks(Ordered(names, tag), tag) == Labelled(datas)
  {
    var ordered, others := Ordered(names, tag), Select(names, tag, false);
    OrderedFacts(names, tag);
    GoodPermuted(names, ordered + others, tag);
    ChunksAppend(ordered, others, tag);
    OthersChunks(others, tag);
    ChunksPermuted(names, ordered + others, tag);
    TaggedChunks(ordered, tag);
    SortedArrangement(Chunks(ordered, tag), datas);
  }

  lemma {:induction false} CarriedArranged(names: seq<Bytes>, tag: Bytes, bytes: Bytes) returns (datas: seq<Bytes>)
    requires Carries(names, tag, bytes)
    ensures datas != [] && SameIgnoringCase(Concat(datas), Text(bytes))
    ensures Arranged(names, tag, Ordered(names, tag), Select(names, tag, false), datas)
  {
    CarriedIsSplit(names, tag, bytes);
    datas :| IsSplit(Chunks(names, tag), datas, bytes);
    var ordered := Ordered(names, tag);
    OrderedFacts(names, tag);
    OrderedChunks(names, tag, datas);
    TaggedChunks(ordered, tag);
    forall i | 0 <= i < |datas| ensures IsName(ordered[i], tag, i, datas[i]) {
      ReadIsWritten(ordered[i], tag);
      assert Labelled(datas)[i] == Chunk(i, datas[i]);
    }
  }

  /** The names were written from the byte string. */
  ghost predicate WrittenFrom(names: seq<Bytes>, tag: Bytes, bytes: Bytes) {
    exists written, others, datas: seq<Bytes> ::
      Arranged(names, tag, written, others, datas) && datas != [] && SameIgnoringCase(Concat(datas), Text(bytes))
  }

  /** Names decode to a byte string exactly when they were written from it. */
  lemma {:induction false} CarriesIff(names: seq<Bytes>, tag: Bytes, bytes: Bytes)
    ensures Carries(names, tag, bytes) <==> WrittenFrom(names, tag, bytes)
  {
    if Carries(names, tag, bytes) {
      var datas := CarriedArranged(names, tag, bytes);
    }
    if WrittenFrom(names, tag, bytes) {
      var written, others, datas: seq<Bytes> :|
        Arranged(names, tag, written, others, datas) && datas != [] && SameIgnoringCase(Concat(datas), Text(bytes));
      ArrangedCarried(names, tag, written, others, datas, bytes);
    }
  }
}
