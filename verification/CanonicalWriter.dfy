/** The recursive writer of the source: it appends to the text so far, looping over the items
    of an array and over the sorted entries of an object. */
module CanonicalWriter {
  import opened Common
  import opened KeyOrders
  import opened JsonText
  import opened CanonicalJson

  // ----- what a loop has written -----

  /** The texts written so far, separated by commas. */
  ghost function Joined(parts: seq<string>): string {
    if parts == [] then []
    else
      var n := |parts| - 1;
      Joined(parts[..n]) + (Separator(n) + parts[n])
  }

  function Separator(index: nat): string {
    if index > 0 then "," else ""
  }

  ghost function Commas(parts: seq<string>): string {
    if parts == [] then [] else "," + parts[0] + Commas(parts[1..])
  }

  lemma Associates(a: string, b: string, c: string)
    ensures (a + b) + c == a + (b + c)
  {
  }

  lemma Closing(out: string, open: string, body: string, close: string)
    ensures ((out + open) + body) + close == out + (open + body + close)
  {
  }

  lemma {:induction false} JoinedStep(parts: seq<string>, t: string)
    ensures Joined(parts + [t]) == Joined(parts) + (Separator(|parts|) + t)
  {
    assert (parts + [t])[..|parts|] == parts;
  }

  lemma {:induction false} CommaStep(a: seq<string>, b: seq<string>, t: string, rest: seq<string>)
    requires a != [] && b == [t] + rest && Joined((a + [t]) + rest) == Joined(a + [t]) + Commas(rest)
    ensures Joined(a + b) == Joined(a) + Commas(b)
  {
    assert b[0] == t && b[1..] == rest;
    assert (a + [t]) + rest == a + b;
    JoinedStep(a, t);
    Associates(Joined(a), "," + t, Commas(rest));
  }

  lemma {:induction false} JoinedCommas(a: seq<string>, b: seq<string>)
    requires a != []
    ensures Joined(a + b) == Joined(a) + Commas(b)
    decreases b
  {
    if b == [] {
      assert a + b == a;
    } else {
      JoinedCommas(a + [b[0]], b[1..]);
      CommaStep(a, b, b[0], b[1..]);
    }
  }

  lemma {:induction false} JoinedAll(parts: seq<string>)
    requires parts != []
    ensures Joined(parts) == parts[0] + Commas(parts[1..])
  {
    JoinedStep([], parts[0]);
    assert [] + [parts[0]] == [parts[0]] && [parts[0]] + parts[1..] == parts;
    JoinedCommas([parts[0]], parts[1..]);
  }

  ghost function Texts(docs: seq<Doc>): (t: seq<string>)
    ensures |t| == |docs| && forall i :: 0 <= i < |docs| ==> t[i] == Print(docs[i])
  {
    seq(|docs|, i requires 0 <= i < |docs| => Print(docs[i]))
  }

  ghost function EntryTexts(entries: seq<Entry>): (t: seq<string>)
    ensures |t| == |entries| && forall i :: 0 <= i < |entries| ==> t[i] == PrintEntry(entries[i])
  {
    seq(|entries|, i requires 0 <= i < |entries| => PrintEntry(entries[i]))
  }

  lemma {:induction false} ItemsText(docs: seq<Doc>)
    ensures PrintItems(docs) == Commas(Texts(docs)) + "]"
  {
    if docs != [] {
      ItemsText(docs[1..]);
      assert Texts(docs)[1..] == Texts(docs[1..]);
      Associates("," + Print(docs[0]), Commas(Texts(docs[1..])), "]");
    }
  }

  lemma {:induction false} EntriesText(entries: seq<Entry>)
    ensures PrintEntries(entries) == Commas(EntryTexts(entries)) + "}"
  {
    if entries != [] {
      EntriesText(entries[1..]);
      assert EntryTexts(entries)[1..] == EntryTexts(entries[1..]);
      Associates("," + PrintEntry(entries[0]), Commas(EntryTexts(entries[1..])), "}");
    }
  }

  lemma {:induction false} ArrayText(docs: seq<Doc>)
    ensures Print(DArr(docs)) == "[" + Joined(Texts(docs)) + "]"
  {
    if docs != [] {
      ItemsText(docs[1..]);
      assert Texts(docs)[1..] == Texts(docs[1..]);
      JoinedAll(Texts(docs));
      Associates(Print(docs[0]), Commas(Texts(docs[1..])), "]");
      Associates("[", Joined(Texts(docs)), "]");
    }
  }

  lemma {:induction false} ObjectText(entries: seq<Entry>)
    ensures Print(DObj(entries)) == "{" + Joined(EntryTexts(entries)) + "}"
  {
    if entries != [] {
      EntriesText(entries[1..]);
      assert EntryTexts(entries)[1..] == EntryTexts(entries[1..]);
      JoinedAll(EntryTexts(entries));
      Associates(PrintEntry(entries[0]), Commas(EntryTexts(entries[1..])), "}");
      Associates("{", Joined(EntryTexts(entries)), "}");
    }
  }

  /** One turn of a writing loop. */
  lemma {:induction false} LoopStep(start: string, parts: seq<string>, text: string, t: string)
    requires text == start + Joined(parts)
    ensures (text + Separator(|parts|)) + t == start + Joined(parts + [t])
  {
    JoinedStep(parts, t);
    Associates(text, Separator(|parts|), t);
    Associates(start, Joined(parts), Separator(|parts|) + t);
  }

  // ----- the writer -----

  method WriteNumber(n: Number, out: string) returns (r: Result<string, WriteError>)
    ensures r.Ok? <==> Safe(n)
    ensures r.Ok? <==> n.Integer? && -0x20_0000_0000_0000 < n.i < 0x20_0000_0000_0000
    ensures r.Ok? ==> r.value == out + IntText(n.i)
    ensures r.Err? ==> r.error == if n.Float? then NonCanonicalFloat else UnsafeInteger(if n.i < 0 then -n.i else n.i)
  {
    match n
    case Float(_) => return Err(NonCanonicalFloat);
    case Integer(i) =>
      var magnitude := if i < 0 then -i else i;
      if magnitude > MAX_SAFE_JSON_INT { return Err(UnsafeInteger(magnitude)); }
      return Ok(out + IntText(i));
  }

  /** The writer succeeds exactly on the representable values, and then appends their
      canonical text. */
  method WriteValue(v: Value, out: string) returns (r: Result<string, WriteError>)
    ensures r.Ok? <==> Representable(v)
    ensures r.Ok? ==> r.value == out + RustText(v)
    decreases v, 1
  {
    Utf16Total();
    match v
    case Null => return Ok(out + "null");
    case Bool(b) => return Ok(out + if b then "true" else "false");
    case Num(n) => r := WriteNumber(n, out);
    case Str(s) => return Ok(out + Quote(s));
    case Arr(items) => r := WriteArray(v, out);
    case Obj(members) => r := WriteObject(v, out);
  }

  method WriteArray(v: Value, out: string) returns (r: Result<string, WriteError>)
    requires v.Arr?
    ensures r.Ok? <==> Representable(v)
    ensures r.Ok? ==> r.value == out + RustText(v)
    decreases v, 0
  {
    var text := out + "[";
    ghost var parts: seq<string> := [];
    for idx := 0 to |v.items|
      invariant |parts| == idx && ItemsWritten(v, parts)
      invariant text == out + "[" + Joined(parts)
    {
      ghost var before := text;
      text := text + Separator(idx);
      var item := WriteValue(v.items[idx], text);
      if item.Err? { return item; }
      text := item.value;
      ghost var t := RustText(v.items[idx]);
      LoopStep(out + "[", parts, before, t);
      ItemsStep(v, parts, t);
      parts := parts + [t];
    }
    ArrayDone(v, parts);
    Closing(out, "[", Joined(parts), "]");
    return Ok(text + "]");
  }

  ghost predicate ItemsWritten(v: Value, parts: seq<string>)
    requires v.Arr?
  {
    && |parts| <= |v.items|
    && forall j :: 0 <= j < |parts| ==> Representable(v.items[j]) && parts[j] == RustText(v.items[j])
  }

  lemma ItemsStep(v: Value, parts: seq<string>, t: string)
    requires v.Arr? && |parts| < |v.items| && ItemsWritten(v, parts)
    requires Representable(v.items[|parts|]) && t == RustText(v.items[|parts|])
    ensures ItemsWritten(v, parts + [t])
  {
  }

  lemma {:induction false} ArrayDone(v: Value, parts: seq<string>)
    requires v.Arr? && |parts| == |v.items| && ItemsWritten(v, parts)
    ensures Representable(v) && RustText(v) == "[" + Joined(parts) + "]"
  {
    Utf16Total();
    var docs := ArrangeItems(Utf16Order(), v, |v.items|);
    ArrayText(docs);
    assert Texts(docs) == parts;
  }

  method WriteObject(v: Value, out: string) returns (r: Result<string, WriteError>)
    requires v.Obj?
    ensures r.Ok? <==> Representable(v)
    ensures r.Ok? ==> r.value == out + RustText(v)
    decreases v, 0, 2
  {
    var keys := SortKeys(v.members.Keys);
    ghost var parts;
    r, parts := WriteEntries(v, keys, out + "{");
    if r.Ok? {
      ObjectDone(v, keys, parts);
      Closing(out, "{", Joined(parts), "}");
      r := Ok(r.value + "}");
    }
  }

  method WriteEntries(v: Value, keys: seq<string>, start: string)
    returns (r: Result<string, WriteError>, ghost parts: seq<string>)
    requires v.Obj? && forall k :: k in keys ==> k in v.members
    ensures r.Err? ==> !Representable(v)
    ensures r.Ok? ==> |parts| == |keys| && EntriesWritten(v, keys, parts)
    ensures r.Ok? ==> r.value == start + Joined(parts)
    decreases v, 0, 1
  {
    var text := start;
    parts := [];
    for idx := 0 to |keys|
      invariant |parts| == idx && EntriesWritten(v, keys, parts)
      invariant text == start + Joined(parts)
    {
      var key := keys[idx];
      assert key in keys;
      var entry := WriteEntry(v, key, text + Separator(idx));
      if entry.Err? { return entry, parts; }
      ghost var t := EntryText(v, key);
      LoopStep(start, parts, text, t);
      EntriesStep(v, keys, parts, t);
      text := entry.value;
      parts := parts + [t];
    }
    return Ok(text), parts;
  }

  ghost predicate EntriesWritten(v: Value, keys: seq<string>, parts: seq<string>)
    requires v.Obj?
  {
    |parts| <= |keys| && forall j :: 0 <= j < |parts| ==> EntryWritten(v, keys[j], parts[j])
  }

  lemma EntriesStep(v: Value, keys: seq<string>, parts: seq<string>, t: string)
    requires v.Obj? && |parts| < |keys| && EntriesWritten(v, keys, parts) && EntryWritten(v, keys[|parts|], t)
    ensures EntriesWritten(v, keys, parts + [t])
  {
  }

  ghost function EntryText(v: Value, key: string): string
    requires v.Obj? && key in v.members && Representable(v.members[key])
  {
    Quote(key) + ":" + RustText(v.members[key])
  }

  ghost predicate EntryWritten(v: Value, key: string, t: string)
    requires v.Obj?
  {
    key in v.members && Representable(v.members[key]) && t == EntryText(v, key)
  }

  method WriteEntry(v: Value, key: string, out: string) returns (r: Result<string, WriteError>)
    requires v.Obj? && key in v.members
    ensures r.Ok? <==> Representable(v.members[key])
    ensures r.Ok? ==> r.value == out + EntryText(v, key)
    decreases v, 0, 0
  {
    r := WriteValue(v.members[key], out + (Quote(key) + ":"));
    if r.Ok? {
      Associates(out, Quote(key) + ":", RustText(v.members[key]));
    }
  }

  lemma {:induction false} ObjectDone(v: Value, keys: seq<string>, parts: seq<string>)
    requires v.Obj? && IsListing(Utf16Order(), v.members.Keys, keys) && |parts| == |keys|
    requires EntriesWritten(v, keys, parts)
    ensures Representable(v) && RustText(v) == "{" + Joined(parts) + "}"
  {
    MembersRepresentable(v, keys, parts);
    Utf16Total();
    ListingUnique(Utf16Order(), v.members.Keys, keys, Listing(Utf16Order(), v.members.Keys));
    var entries := ArrangeEntries(Utf16Order(), v, keys);
    ObjectText(entries);
    forall i | 0 <= i < |keys|
      ensures EntryTexts(entries)[i] == parts[i]
    {
      assert EntryWritten(v, keys[i], parts[i]);
    }
    assert EntryTexts(entries) == parts;
  }

  lemma MembersRepresentable(v: Value, keys: seq<string>, parts: seq<string>)
    requires v.Obj? && IsListing(Utf16Order(), v.members.Keys, keys) && |parts| == |keys| && EntriesWritten(v, keys, parts)
    ensures Representable(v)
  {
    forall k | k in v.members
      ensures Representable(v.members[k])
    {
      var i :| 0 <= i < |keys| && keys[i] == k;
      assert EntryWritten(v, keys[i], parts[i]);
    }
  }
}
