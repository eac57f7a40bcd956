/** Byte strings carried in certificate names: each name holds a two-digit index and a chunk of
    base32 text in its first label and a tag in its second. Names are bytes, in any order. */
module SanChunks {
  import opened Common
  import opened Sorting
  import opened Base32

  const DOT: Byte := 46

  datatype DecodeError = BadIndex | MissingOrDuplicateChunk | BadBase32 | BadPadding

  datatype Chunk = Chunk(index: nat, data: Bytes)

  // ----- ASCII -----

  function Upper(b: Byte): Byte {
    if 97 <= b <= 122 then b - 32 else b
  }

  predicate SameIgnoringCase(a: Bytes, b: Bytes) {
    |a| == |b| && forall i :: 0 <= i < |a| ==> Upper(a[i]) == Upper(b[i])
  }

  predicate IsDigit(b: Byte) {
    48 <= b <= 57
  }

  /** The base32 character of a digit. */
  function Character(v: nat): Byte
    requires v < 32
  {
    if v < 26 then 65 + v else 24 + v
  }

  function CharacterValue(b: Byte): (v: Option<nat>)
    ensures v.Some? ==> v.value < 32
  {
    var u := Upper(b);
    if 65 <= u <= 90 then Some(u - 65) else if 50 <= u <= 55 then Some(b - 50 + 26) else None
  }

  lemma CharacterRoundTrip(b: Byte, v: nat)
    requires v < 32
    ensures CharacterValue(b) == Some(v) <==> Upper(b) == Character(v)
  {
  }

  function Spell(digits: seq<nat>): (t: Bytes)
    requires forall i :: 0 <= i < |digits| ==> digits[i] < 32
    ensures |t| == |digits| && forall i :: 0 <= i < |t| ==> t[i] == Character(digits[i])
  {
    seq(|digits|, i requires 0 <= i < |digits| => Character(digits[i]))
  }

  /** The text of a byte string, in upper case. */
  function Text(bytes: Bytes): Bytes {
    Spell(Encode(bytes))
  }

  // ----- names -----

  /** The position of the first dot, or the length. */
  function DotAt(name: Bytes): (n: nat)
    ensures n <= |name| && (n < |name| ==> name[n] == DOT)
  {
    if name == [] || name[0] == DOT then 0 else 1 + DotAt(name[1..])
  }

  function FirstLabel(name: Bytes): Bytes {
    name[..DotAt(name)]
  }

  function SecondLabel(name: Bytes): Option<Bytes> {
    var n := DotAt(name);
    if n == |name| then None else Some(FirstLabel(name[n + 1..]))
  }

  predicate Tagged(name: Bytes, tag: Bytes) {
    SecondLabel(name).Some? && SameIgnoringCase(SecondLabel(name).value, tag)
  }

  predicate GoodLabel(text: Bytes) {
    |text| >= 3 && IsDigit(text[0]) && IsDigit(text[1])
  }

  /** The index and data of a label. In machine bytes no intermediate result exceeds 147. */
  function LabelChunk(text: Bytes): (c: Chunk)
    requires GoodLabel(text)
    ensures c.index < 100 && c.data != []
  {
    var tens := (text[0] - 48) * 10;
    assert tens + text[1] <= 147;
    Chunk(tens + text[1] - 48, text[2..])
  }

  ghost predicate LabelsGood(names: seq<Bytes>, tag: Bytes) {
    forall i :: 0 <= i < |names| && Tagged(names[i], tag) ==> GoodLabel(FirstLabel(names[i]))
  }

  /** The chunks of the tagged names, in the order of the names. */
  ghost function Chunks(names: seq<Bytes>, tag: Bytes): seq<Chunk>
    requires LabelsGood(names, tag)
  {
    if names == [] then []
    else
      var n := |names| - 1;
      var before := Chunks(names[..n], tag);
      if Tagged(names[n], tag) then before + [LabelChunk(FirstLabel(names[n]))] else before
  }

  // ----- sorting by index -----

  function IndexOf(c: Chunk): int {
    c.index
  }

  function SortByIndex(s: seq<Chunk>): seq<Chunk> {
    Sort(IndexOf, s)
  }

  lemma SortFacts(s: seq<Chunk>)
    ensures Sorted(IndexOf, SortByIndex(s)) && multiset(SortByIndex(s)) == multiset(s)
  {
    SortSorted(IndexOf, s);
    SortPermutes(IndexOf, s);
  }

  /** The chunks with their positions as indices. */
  function Labelled(datas: seq<Bytes>): (s: seq<Chunk>)
    ensures |s| == |datas|
  {
    seq(|datas|, i requires 0 <= i < |datas| => Chunk(i, datas[i]))
  }

  predicate Contiguous(s: seq<Chunk>) {
    forall i :: 0 <= i < |s| ==> s[i].index == i
  }

  function Datas(s: seq<Chunk>): (d: seq<Bytes>)
    ensures |d| == |s|
  {
    seq(|s|, i requires 0 <= i < |s| => s[i].data)
  }

  /** Sorting puts any arrangement of numbered chunks back into their order. */
  lemma {:induction false} SortedArrangement(s: seq<Chunk>, datas: seq<Bytes>)
    requires Sorted(IndexOf, s) && multiset(s) == multiset(Labelled(datas))
    ensures s == Labelled(datas)
  {
    var l := Labelled(datas);
    assert |s| == |multiset(s)| == |multiset(l)| == |l|;
    SortedPrefix(s, l, |s|);
    assert s[..|s|] == s && l[..|l|] == l;
  }

  lemma Cancel(a: multiset<Chunk>, b: multiset<Chunk>, c: multiset<Chunk>)
    requires a + b == a + c
    ensures b == c
  {
    assert (a + b) - a == b && (a + c) - a == c;
  }

  lemma SplitMultiset(s: seq<Chunk>, k: nat)
    requires k <= |s|
    ensures multiset(s) == multiset(s[..k]) + multiset(s[k..])
  {
    assert s == s[..k] + s[k..];
  }

  lemma {:induction false} SortedPrefix(s: seq<Chunk>, l: seq<Chunk>, n: nat)
    requires Sorted(IndexOf, s) && Contiguous(l) && multiset(s) == multiset(l) && n <= |s| == |l|
    ensures s[..n] == l[..n]
    decreases n
  {
    if n > 0 {
      var k := n - 1;
      SortedPrefix(s, l, k);
      assert s[k] == l[k] by {
        SplitMultiset(s, k);
        SplitMultiset(l, k);
        Cancel(multiset(s[..k]), multiset(s[k..]), multiset(l[k..]));
        LeastFirst(s[k..], l[k..], k);
      }
      assert s[..n] == s[..k] + [s[k]] && l[..n] == l[..k] + [l[k]];
    }
  }

  lemma {:induction false} LeastFirst(a: seq<Chunk>, b: seq<Chunk>, k: nat)
    requires a != [] && b != [] && Sorted(IndexOf, a) && multiset(a) == multiset(b)
    requires forall i :: 0 <= i < |b| ==> b[i].index == k + i
    ensures a[0] == b[0]
  {
    assert b[0] in multiset(b) && a[0] in multiset(a);
    assert b[0] in a && a[0] in b;
    var i :| 0 <= i < |a| && a[i] == b[0];
    var j :| 0 <= j < |b| && b[j] == a[0];
    assert a[0].index <= a[i].index;
  }

  // ----- decoding -----

  predicate AllCharacters(text: Bytes) {
    forall i :: 0 <= i < |text| ==> CharacterValue(text[i]).Some?
  }

  function Values(text: Bytes): (vs: seq<nat>)
    requires AllCharacters(text)
    ensures |vs| == |text| && forall i :: 0 <= i < |vs| ==> vs[i] < 32 && CharacterValue(text[i]) == Some(vs[i])
  {
    seq(|text|, i requires 0 <= i < |text| => CharacterValue(text[i]).value)
  }

  ghost predicate Decodes(text: Bytes, bytes: Bytes) {
    && AllCharacters(text)
    && Accepts(FeedAll(START, Values(text)))
    && FeedAll(START, Values(text)).output == bytes
  }

  lemma {:induction false} SpellIff(text: Bytes, digits: seq<nat>)
    requires forall i :: 0 <= i < |digits| ==> digits[i] < 32
    ensures SameIgnoringCase(text, Spell(digits)) <==> AllCharacters(text) && Values(text) == digits
  {
    forall i | 0 <= i < |text| && i < |digits|
      ensures CharacterValue(text[i]) == Some(digits[i]) <==> Upper(text[i]) == Upper(Spell(digits)[i])
    {
      CharacterRoundTrip(text[i], digits[i]);
    }
  }

  /** A text decodes to a byte string exactly when it is that string's text, up to case. */
  lemma {:induction false} DecodesIffText(text: Bytes, bytes: Bytes)
    ensures Decodes(text, bytes) <==> SameIgnoringCase(text, Text(bytes))
  {
    SpellIff(text, Encode(bytes));
    EncodingAccepted(bytes);
    if Decodes(text, bytes) {
      AcceptedIsEncoding(Values(text));
    }
  }

  /** What the source decodes from the names: the tagged labels are well formed, their indices
      are 0, 1, 2, ... in some order, and the data in that order decodes. */
  ghost predicate Carries(names: seq<Bytes>, tag: Bytes, bytes: Bytes) {
    && LabelsGood(names, tag)
    && var s := SortByIndex(Chunks(names, tag));
    && s != [] && Contiguous(s) && Decodes(Concat(Datas(s)), bytes)
  }

  /** The chunks are, in some order, the numbered parts of the string's text. */
  ghost predicate IsSplit(chunks: seq<Chunk>, datas: seq<Bytes>, bytes: Bytes) {
    datas != [] && multiset(chunks) == multiset(Labelled(datas)) && SameIgnoringCase(Concat(datas), Text(bytes))
  }

  /** Whatever the order of the names, the parts of a numbered split decode to the string. */
  lemma {:induction false} SplitCarried(names: seq<Bytes>, tag: Bytes, datas: seq<Bytes>, bytes: Bytes)
    requires LabelsGood(names, tag) && IsSplit(Chunks(names, tag), datas, bytes)
    ensures Carries(names, tag, bytes)
  {
    var chunks := Chunks(names, tag);
    SortFacts(chunks);
    SortedArrangement(SortByIndex(chunks), datas);
    assert Datas(Labelled(datas)) == datas;
    DecodesIffText(Concat(datas), bytes);
  }

  /** Conversely whatever is decoded was split that way. */
  lemma {:induction false} CarriedIsSplit(names: seq<Bytes>, tag: Bytes, bytes: Bytes)
    requires Carries(names, tag, bytes)
    ensures exists datas :: IsSplit(Chunks(names, tag), datas, bytes)
  {
    var chunks := Chunks(names, tag);
    var s := SortByIndex(chunks);
    SortFacts(chunks);
    assert s == Labelled(Datas(s));
    DecodesIffText(Concat(Datas(s)), bytes);
    assert IsSplit(chunks, Datas(s), bytes);
  }

  lemma {:induction false} ChunkBounds(names: seq<Bytes>, tag: Bytes)
    requires LabelsGood(names, tag)
    ensures forall i :: 0 <= i < |Chunks(names, tag)| ==> Chunks(names, tag)[i].index < 100 && Chunks(names, tag)[i].data != []
  {
    if names != [] {
      ChunkBounds(names[..|names| - 1], tag);
    }
  }

  /** What is carried is never empty, and comes in 1 to 100 non-empty chunks. */
  lemma {:induction false} CarriedShape(names: seq<Bytes>, tag: Bytes, bytes: Bytes)
    requires Carries(names, tag, bytes)
    ensures bytes != [] && 1 <= |Chunks(names, tag)| <= 100
  {
    var chunks := Chunks(names, tag);
    var s := SortByIndex(chunks);
    SortFacts(chunks);
    ChunkBounds(names, tag);
    assert |s| == |multiset(s)| == |multiset(chunks)| == |chunks|;
    var n := |s| - 1;
    assert s[n] in multiset(s);
    assert s[n] in chunks;
    var datas := Datas(s);
    assert Concat(datas) == Concat(datas[..n]) + datas[n];
    DecodesIffText(Concat(datas), bytes);
  }

  // ----- the source's loops -----

  method CollectChunks(names: seq<Bytes>, tag: Bytes) returns (r: Result<seq<Chunk>, DecodeError>)
    ensures r.Ok? <==> LabelsGood(names, tag)
    ensures r.Ok? ==> r.value == Chunks(names, tag)
    ensures r.Err? ==> r.error == BadIndex
  {
    var chunks: seq<Chunk> := [];
    for i := 0 to |names|
      invariant LabelsGood(names[..i], tag) && chunks == Chunks(names[..i], tag)
    {
      assert names[..i + 1][..i] == names[..i];
      if Tagged(names[i], tag) {
        var first := FirstLabel(names[i]);
        if !GoodLabel(first) { return Err(BadIndex); }
        chunks := chunks + [LabelChunk(first)];
      }
    }
    assert names[..|names|] == names;
    return Ok(chunks);
  }

  lemma {:induction false} FeedNext(text: Bytes, b: Byte)
    requires AllCharacters(text) && CharacterValue(b).Some?
    ensures AllCharacters(text + [b])
    ensures FeedAll(START, Values(text + [b])) == Feed(FeedAll(START, Values(text)), CharacterValue(b).value)
  {
    var vs := Values(text + [b]);
    assert vs[..|vs| - 1] == Values(text);
  }

  lemma NextCharacter(before: Bytes, chunk: Bytes, i: nat)
    requires i < |chunk| && AllCharacters(chunk[..i]) && CharacterValue(chunk[i]).Some?
    ensures AllCharacters(chunk[..i + 1]) && (before + chunk[..i]) + [chunk[i]] == before + chunk[..i + 1]
  {
    assert chunk[..i + 1] == chunk[..i] + [chunk[i]];
  }

  /** The inner loop over one chunk. */
  method DecodeChunk(chunk: Bytes, start: Accumulator, ghost before: Bytes) returns (r: Option<Accumulator>)
    requires AllCharacters(before) && start == FeedAll(START, Values(before))
    ensures r.Some? <==> AllCharacters(chunk)
    ensures r.Some? ==> AllCharacters(before + chunk) && r.value == FeedAll(START, Values(before + chunk))
  {
    var output: Bytes, bits: nat, count: nat := start.output, start.bits, start.count;
    ghost var read: Bytes := before;
    for i := 0 to |chunk|
      invariant AllCharacters(read) && AllCharacters(chunk[..i]) && read == before + chunk[..i]
      invariant Accumulator(output, bits, count) == FeedAll(START, Values(read))
    {
      var value := CharacterValue(chunk[i]);
      if value.None? { return None; }
      FeedNext(read, chunk[i]);
      output, bits, count := ShiftIn(output, bits, count, value.value);
      NextCharacter(before, chunk, i);
      read := read + [chunk[i]];
    }
    assert chunk[..|chunk|] == chunk;
    return Some(Accumulator(output, bits, count));
  }

  method DecodeDomains(names: seq<Bytes>, tag: Bytes) returns (r: Result<Bytes, DecodeError>)
    ensures r.Ok? ==> Carries(names, tag, r.value)
    ensures forall bytes :: Carries(names, tag, bytes) ==> r == Ok(bytes)
  {
    var collected := CollectChunks(names, tag);
    if collected.Err? { return Err(collected.error); }
    var s := SortByIndex(collected.value);
    if s == [] || !Contiguous(s) { return Err(MissingOrDuplicateChunk); }
    var a := START;
    ghost var datas := Datas(s);
    for i := 0 to |s|
      invariant AllCharacters(Concat(datas[..i]))
      invariant a == FeedAll(START, Values(Concat(datas[..i])))
    {
      assert datas[..i + 1][..i] == datas[..i] && datas[i] == s[i].data;
      assert Concat(datas[..i + 1]) == Concat(datas[..i]) + s[i].data;
      var next := DecodeChunk(s[i].data, a, Concat(datas[..i]));
      if next.None? {
        NotAllCharacters(datas, i);
        return Err(BadBase32);
      }
      a := next.value;
    }
    assert datas[..|s|] == datas;
    if a.count >= 5 || a.bits != 0 { return Err(BadPadding); }
    return Ok(a.output);
  }

  lemma {:induction false} NotAllCharacters(datas: seq<Bytes>, i: nat)
    requires i < |datas| && !AllCharacters(datas[i])
    ensures !AllCharacters(Concat(datas))
    decreases |datas|
  {
    var n := |datas| - 1;
    if i == n {
      var k :| 0 <= k < |datas[n]| && CharacterValue(datas[n][k]).None?;
      assert Concat(datas)[|Concat(datas[..n])| + k] == datas[n][k];
    } else {
      NotAllCharacters(datas[..n], i);
      var k :| 0 <= k < |Concat(datas[..n])| && CharacterValue(Concat(datas[..n])[k]).None?;
      assert Concat(datas)[k] == Concat(datas[..n])[k];
    }
  }
}
