/** The replay of an event log said without its functions: which bytes are hashed for a record, how the
    register is extended, which records make up the identity and how its text is written. */
module EventLogMeaning {
  import opened Common
  import opened EventLog

  // ----- hexadecimal -----

  const SMALL := "0123456789abcdef"
  const CAPITAL := "0123456789ABCDEF"

  /** The byte is the digit of this value, in either letter case. */
  predicate IsDigitOf(c: Byte, v: nat) {
    v < 16 && |SMALL| == 16 && |CAPITAL| == 16 && (c as int == SMALL[v] as int || c as int == CAPITAL[v] as int)
  }

  /** The text spells the bytes with two digits each. */
  predicate Spells(text: Bytes, bytes: Bytes) {
    && |text| == 2 * |bytes|
    && forall i :: 0 <= i < |bytes| ==> IsDigitOf(text[2 * i], bytes[i] / 16) && IsDigitOf(text[2 * i + 1], bytes[i] % 16)
  }

  /** The spelling with small letters. */
  predicate SpellsSmall(text: Bytes, bytes: Bytes) {
    && |text| == 2 * |bytes| && |SMALL| == 16
    && forall i :: 0 <= i < |bytes| ==>
         text[2 * i] as int == SMALL[bytes[i] / 16] as int && text[2 * i + 1] as int == SMALL[bytes[i] % 16] as int
  }

  lemma DigitOf(c: Byte, v: nat)
    requires v < 16
    ensures IsDigitOf(c, v) <==> ToLower(c) == HexDigit(v)
  {
  }

  lemma SmallDigit(v: nat)
    requires v < 16
    ensures |SMALL| == 16 && HexDigit(v) as int == SMALL[v] as int
  {
  }

  lemma {:induction false} HexTextAt(bytes: Bytes, i: nat)
    requires i < |bytes|
    ensures |HexText(bytes)| == 2 * |bytes|
    ensures HexText(bytes)[2 * i] == HexDigit(bytes[i] / 16) && HexText(bytes)[2 * i + 1] == HexDigit(bytes[i] % 16)
  {
    HexTextShape(bytes);
    if i > 0 {
      HexTextAt(bytes[1..], i - 1);
      assert HexText(bytes)[2..] == HexText(bytes[1..]);
      TwoLater(HexText(bytes), HexText(bytes[1..]), i);
    }
  }

  lemma TwoLater(s: Bytes, t: Bytes, i: nat)
    requires |s| >= 2 && s[2..] == t && 0 < i && 2 * i + 1 < |s|
    ensures s[2 * i] == t[2 * (i - 1)] && s[2 * i + 1] == t[2 * (i - 1) + 1]
  {
  }

  lemma {:induction false} SameText(a: Bytes, b: Bytes, n: nat)
    requires |a| == |b| == 2 * n && forall i :: 0 <= i < n ==> a[2 * i] == b[2 * i] && a[2 * i + 1] == b[2 * i + 1]
    ensures a == b
  {
    forall k | 0 <= k < |a| ensures a[k] == b[k] {
      var i := k / 2;
      assert k == 2 * i || k == 2 * i + 1;
    }
  }

  /** The source writes the one spelling with small letters. */
  lemma {:induction false} HexTextIff(text: Bytes, bytes: Bytes)
    ensures text == HexText(bytes) <==> SpellsSmall(text, bytes)
  {
    HexTextShape(bytes);
    forall i | 0 <= i < |bytes|
      ensures |SMALL| == 16
      ensures HexText(bytes)[2 * i] as int == SMALL[bytes[i] / 16] as int
      ensures HexText(bytes)[2 * i + 1] as int == SMALL[bytes[i] % 16] as int
    {
      HexTextAt(bytes, i);
      SmallDigit(bytes[i] / 16);
      SmallDigit(bytes[i] % 16);
    }
    if SpellsSmall(text, bytes) {
      SameText(text, HexText(bytes), |bytes|);
    }
  }

  lemma {:induction false} SpelledPair(text: Bytes, bytes: Bytes, i: nat)
    requires i < |bytes| && |text| == 2 * |bytes|
    ensures |HexText(bytes)| == 2 * |bytes| && |Lower(text)| == |text|
    ensures IsDigitOf(text[2 * i], bytes[i] / 16) && IsDigitOf(text[2 * i + 1], bytes[i] % 16) <==>
            Lower(text)[2 * i] == HexText(bytes)[2 * i] && Lower(text)[2 * i + 1] == HexText(bytes)[2 * i + 1]
  {
    HexTextAt(bytes, i);
    DigitOf(text[2 * i], bytes[i] / 16);
    DigitOf(text[2 * i + 1], bytes[i] % 16);
  }

  /** The source reads exactly the spellings, in either letter case. */
  lemma {:induction false} HexReads(text: Bytes, bytes: Bytes)
    ensures Hex(text) == Some(bytes) <==> Spells(text, bytes)
  {
    HexIff(text, bytes);
    HexTextShape(bytes);
    if |text| == 2 * |bytes| {
      forall i | 0 <= i < |bytes|
        ensures IsDigitOf(text[2 * i], bytes[i] / 16) && IsDigitOf(text[2 * i + 1], bytes[i] % 16) <==>
                Lower(text)[2 * i] == HexText(bytes)[2 * i] && Lower(text)[2 * i + 1] == HexText(bytes)[2 * i + 1]
      {
        SpelledPair(text, bytes, i);
      }
      if Spells(text, bytes) {
        SameText(Lower(text), HexText(bytes), |bytes|);
      }
    }
  }

  // ----- the line of a record -----

  /** Four bytes of kind, the lowest first, a colon, the name, a colon and the payload. */
  predicate IsLine(line: Bytes, e: Entry) {
    var n := |e.name|;
    && |line| == 6 + n + |e.payload|
    && e.kind == line[0] as int + 0x100 * (line[1] as int) + 0x1_0000 * (line[2] as int) + 0x100_0000 * (line[3] as int)
    && line[4] == 0x3a && line[5..5 + n] == e.name && line[5 + n] == 0x3a && line[6 + n..] == e.payload
  }

  lemma LineOf(e: Entry)
    requires e.kind < 0x1_0000_0000
    ensures IsLine(Encode(e), e)
  {
    var line, n := Encode(e), |e.name|;
    Le32Value(e.kind, Le32(e.kind));
    assert line[..4] == Le32(e.kind);
    assert line[0] == Le32(e.kind)[0] && line[1] == Le32(e.kind)[1] && line[2] == Le32(e.kind)[2] && line[3] == Le32(e.kind)[3];
    assert line[5..] == e.name + ([COLON] + e.payload);
    assert line[5..5 + n] == e.name && line[6 + n..] == e.payload;
  }

  lemma FourBytes(a: Byte, b: Byte, c: Byte, d: Byte, n: nat)
    requires n == a as int + 0x100 * (b as int) + 0x1_0000 * (c as int) + 0x100_0000 * (d as int)
    ensures Le32(n) == [a, b, c, d]
  {
    assert n / 256 == b as int + 0x100 * (c as int) + 0x1_0000 * (d as int);
    assert n / 65536 == c as int + 0x100 * (d as int);
    assert n / 16777216 == d;
  }

  /** The bytes that are hashed for a record are its line. */
  lemma LineIff(line: Bytes, e: Entry)
    requires e.kind < 0x1_0000_0000
    ensures line == Encode(e) <==> IsLine(line, e)
  {
    LineOf(e);
    if IsLine(line, e) {
      FourBytes(line[0], line[1], line[2], line[3], e.kind);
      LineCut(line, |e.name|);
    }
  }

  lemma LineCut(line: Bytes, n: nat)
    requires |line| >= 6 + n && line[4] == COLON && line[5 + n] == COLON
    ensures line == [line[0], line[1], line[2], line[3]] + ([COLON] + (line[5..5 + n] + ([COLON] + line[6 + n..])))
  {
    assert line[5..] == line[5..5 + n] + ([line[5 + n]] + line[6 + n..]);
  }

  // ----- the register -----

  /** The values of the register: 48 zero bytes, and after every record the hash of the value so far
      followed by the hash of the record's line. */
  ghost predicate Registers(h: Hash, entries: seq<Entry>, values: seq<Bytes>) {
    && |values| == |entries| + 1 && |values[0]| == 48 && (forall i :: 0 <= i < 48 ==> values[0][i] == 0)
    && forall i :: 0 <= i < |entries| ==> ExtendsAt(h, entries, values, i)
  }

  ghost predicate ExtendsAt(h: Hash, entries: seq<Entry>, values: seq<Bytes>, i: nat)
    requires i < |entries| && |values| == |entries| + 1
  {
    Extends(h, values[i], entries[i], values[i + 1])
  }

  ghost predicate Extends(h: Hash, before: Bytes, e: Entry, after: Bytes) {
    exists line: Bytes :: IsLine(line, e) && after == h(before + h(line))
  }

  predicate AllKinds(entries: seq<Entry>) {
    forall i :: 0 <= i < |entries| ==> entries[i].kind < 0x1_0000_0000
  }

  ghost function ValuesOf(h: Hash, entries: seq<Entry>): (r: seq<Bytes>)
    ensures |r| == |entries| + 1
  {
    seq(|entries| + 1, i requires 0 <= i <= |entries| => Chain(h, entries[..i]))
  }

  lemma ChainExtends(h: Hash, entries: seq<Entry>, i: nat)
    requires i < |entries| && AllKinds(entries)
    ensures Extends(h, Chain(h, entries[..i]), entries[i], Chain(h, entries[..i + 1]))
  {
    assert entries[..i + 1][..i] == entries[..i];
    LineOf(entries[i]);
  }

  lemma RegistersExist(h: Hash, entries: seq<Entry>)
    requires AllKinds(entries)
    ensures Registers(h, entries, ValuesOf(h, entries)) && ValuesOf(h, entries)[|entries|] == Chain(h, entries)
  {
    var values := ValuesOf(h, entries);
    forall i | 0 <= i < |entries| ensures ExtendsAt(h, entries, values, i) {
      ChainExtends(h, entries, i);
    }
    assert entries[..0] == [] && entries[..|entries|] == entries;
  }

  lemma ExtendsWithLine(h: Hash, before: Bytes, e: Entry, after: Bytes)
    requires Extends(h, before, e, after) && e.kind < 0x1_0000_0000
    ensures after == h(before + h(Encode(e)))
  {
    var line: Bytes :| IsLine(line, e) && after == h(before + h(line));
    LineIff(line, e);
  }

  /** The register is determined by the records, and the source replays it. */
  lemma {:induction false} RegisterIsChain(h: Hash, entries: seq<Entry>, values: seq<Bytes>, i: nat)
    requires Registers(h, entries, values) && AllKinds(entries) && i <= |entries|
    ensures values[i] == Chain(h, entries[..i])
    decreases i
  {
    if i == 0 {
      assert values[0] == Zero();
    } else {
      RegisterIsChain(h, entries, values, i - 1);
      assert ExtendsAt(h, entries, values, i - 1);
      ExtendsWithLine(h, values[i - 1], entries[i - 1], values[i]);
      assert entries[..i][..i - 1] == entries[..i - 1];
    }
  }

  /** The quoted text spells the last value of the register. */
  ghost predicate Quotes(h: Hash, entries: seq<Entry>, quoted: Bytes) {
    exists values: seq<Bytes> :: Registers(h, entries, values) && Spells(quoted, values[|entries|])
  }

  lemma QuotesIff(h: Hash, entries: seq<Entry>, quoted: Bytes)
    requires AllKinds(entries)
    ensures Quotes(h, entries, quoted) <==> Hex(quoted) == Some(Chain(h, entries))
  {
    RegistersExist(h, entries);
    HexReads(quoted, Chain(h, entries));
    if values: seq<Bytes> :| Registers(h, entries, values) && Spells(quoted, values[|entries|]) {
      RegisterIsChain(h, entries, values, |entries|);
      assert entries[..|entries|] == entries;
    }
  }

  // ----- the records -----

  /** The record of register 3 with this entry; a digest that is not empty is that of its line. */
  ghost predicate Reads(h: Hash, event: Event, e: Entry) {
    && event.kind == Some(e.kind) && e.kind < 0x1_0000_0000 && event.name == Some(e.name)
    && event.payload.Some? && Spells(event.payload.value, e.payload)
    && event.digest.Some? && (event.digest.value == [] || DigestSpelled(h, event.digest.value, e))
  }

  ghost predicate DigestSpelled(h: Hash, text: Bytes, e: Entry) {
    exists line: Bytes :: IsLine(line, e) && Spells(text, h(line))
  }

  lemma DigestIff(h: Hash, text: Bytes, e: Entry)
    requires e.kind < 0x1_0000_0000
    ensures DigestSpelled(h, text, e) <==> Hex(text) == Some(h(Encode(e)))
  {
    LineOf(e);
    HexReads(text, h(Encode(e)));
    if line: Bytes :| IsLine(line, e) && Spells(text, h(line)) {
      LineIff(line, e);
    }
  }

  lemma ReadsIff(h: Hash, event: Event, e: Entry)
    requires event.register == Some(3)
    ensures Reads(h, event, e) <==> RecordValid(h, event) && Decode(event) == Ok(e)
  {
    if event.payload.Some? {
      HexReads(event.payload.value, e.payload);
    }
    if event.digest.Some? && e.kind < 0x1_0000_0000 {
      DigestIff(h, event.digest.value, e);
    }
  }

  /** The entries are those of the records of register 3, in order; every record names its register. */
  ghost predicate Selected(h: Hash, events: seq<Event>, entries: seq<Entry>)
    decreases |events|
  {
    if events == [] then entries == []
    else if events[0].register == Some(3) then entries != [] && Reads(h, events[0], entries[0]) && Selected(h, events[1..], entries[1..])
    else events[0].register.Some? && Selected(h, events[1..], entries)
  }

  lemma {:induction false} SelectedIff(h: Hash, events: seq<Event>, entries: seq<Entry>)
    ensures Selected(h, events, entries) <==>
            entries == Entries(events) && forall i :: 0 <= i < |events| ==> RecordValid(h, events[i])
    decreases |events|, 0
  {
    if events != [] {
      var first, rest := events[0], events[1..];
      assert events == [first] + rest;
      if first.register == Some(3) {
        SelectedFirst(h, first, rest, entries);
      } else {
        SelectedIff(h, rest, entries);
      }
    }
  }

  lemma {:induction false} SelectedFirst(h: Hash, first: Event, rest: seq<Event>, entries: seq<Entry>)
    requires first.register == Some(3)
    ensures entries != [] && Reads(h, first, entries[0]) && Selected(h, rest, entries[1..]) <==>
            entries == Entries([first] + rest) && RecordValid(h, first) && forall i :: 0 <= i < |rest| ==> RecordValid(h, rest[i])
    decreases |rest|, 1
  {
    assert ([first] + rest)[1..] == rest;
    if entries != [] {
      ReadsIff(h, first, entries[0]);
      SelectedIff(h, rest, entries[1..]);
      assert entries == [entries[0]] + entries[1..];
      if entries == Entries([first] + rest) && RecordValid(h, first) {
        assert entries[1..] == Entries(rest);
      }
    }
  }

  lemma {:induction false} SelectedKinds(h: Hash, events: seq<Event>, entries: seq<Entry>)
    requires Selected(h, events, entries)
    ensures AllKinds(entries)
    decreases |events|
  {
    if events != [] {
      if events[0].register == Some(3) {
        SelectedKinds(h, events[1..], entries[1..]);
        assert entries == [entries[0]] + entries[1..];
      } else {
        SelectedKinds(h, events[1..], entries);
      }
    }
  }

  // ----- the identity -----

  predicate Plain(s: string) {
    forall i :: 0 <= i < |s| ==> s[i] as int < 128
  }

  function Letters(s: string): Bytes
    requires Plain(s)
  {
    seq(|s|, i requires 0 <= i < |s| => s[i] as int)
  }

  /** An identity record with this name. */
  predicate Names(e: Entry, name: string)
    requires Plain(name)
  {
    e.kind == 0x0800_0001 && e.name == Letters(name)
  }

  /** The only identity record with this name has this payload. */
  predicate Component(entries: seq<Entry>, name: string, p: Bytes)
    requires Plain(name)
  {
    exists i :: 0 <= i < |entries| && OnlyAt(entries, name, i) && entries[i].payload == p
  }

  predicate OnlyAt(entries: seq<Entry>, name: string, i: nat)
    requires Plain(name) && i < |entries|
  {
    Names(entries[i], name) && forall j :: 0 <= j < |entries| && j != i ==> !Names(entries[j], name)
  }

  predicate Absent(entries: seq<Entry>, name: string)
    requires Plain(name)
  {
    forall j :: 0 <= j < |entries| ==> !Names(entries[j], name)
  }

  datatype Parts = Parts(compose: Bytes, app: Option<Bytes>, kms: Bytes, provider: Bytes)

  /** The four components, of which only the application may be missing. */
  predicate HasParts(entries: seq<Entry>, parts: Parts) {
    && Component(entries, "compose-hash", parts.compose) && |parts.compose| == 32
    && (match parts.app
        case None => Absent(entries, "app-id")
        case Some(app) => Component(entries, "app-id", app) && |app| == 20)
    && Component(entries, "mr-kms", parts.kms) && |parts.kms| == 32
    && Component(entries, "key-provider", parts.provider) && parts.provider != []
  }

  /** The components in hexadecimal, each after its label. */
  function Labelled(c: Bytes, a: Bytes, k: Bytes, p: Bytes): Bytes {
    Letters("compose:") + (c + (Letters(":app:") + (a + (Letters(":kms:") + (k + (Letters(":key_provider:") + p))))))
  }

  predicate WrittenAs(text: Bytes, parts: Parts, c: Bytes, a: Bytes, k: Bytes, p: Bytes) {
    && SpellsSmall(c, parts.compose) && (if parts.app.None? then a == [] else SpellsSmall(a, parts.app.value))
    && SpellsSmall(k, parts.kms) && SpellsSmall(p, parts.provider) && text == Labelled(c, a, k, p)
  }

  /** The identity text in small hexadecimal digits. */
  ghost predicate IdentityWritten(text: Bytes, parts: Parts) {
    exists c: Bytes, a: Bytes, k: Bytes, p: Bytes :: WrittenAs(text, parts, c, a, k, p)
  }

  function SlotLabel(slot: Slot): (s: string)
    ensures Plain(s)
  {
    match slot
    case Compose => "compose-hash"
    case AppId => "app-id"
    case Kms => "mr-kms"
    case KeyProvider => "key-provider"
  }

  lemma LettersAreAscii(s: string)
    requires Plain(s)
    ensures Letters(s) == Ascii(s)
  {
  }

  lemma LabelsDiffer()
    ensures Letters("compose-hash")[0] == 99 && Letters("app-id")[0] == 97
    ensures Letters("mr-kms")[0] == 109 && Letters("key-provider")[0] == 107
  {
  }

  lemma FillsIffNames(e: Entry, slot: Slot)
    ensures Fills(e, slot) <==> Names(e, SlotLabel(slot))
  {
    LabelsDiffer();
    LettersAreAscii("compose-hash");
    LettersAreAscii("app-id");
    LettersAreAscii("mr-kms");
    LettersAreAscii("key-provider");
  }

  /** A slot that is filled once, by a record with this payload. */
  lemma ComponentIff(entries: seq<Entry>, slot: Slot, p: Bytes)
    ensures Component(entries, SlotLabel(slot), p) <==>
            AtMostOneFill(entries, slot) && exists i :: 0 <= i < |entries| && Fills(entries[i], slot) && entries[i].payload == p
  {
    forall i | 0 <= i < |entries| ensures Fills(entries[i], slot) <==> Names(entries[i], SlotLabel(slot)) {
      FillsIffNames(entries[i], slot);
    }
    if AtMostOneFill(entries, slot) {
      if i :| 0 <= i < |entries| && Fills(entries[i], slot) && entries[i].payload == p {
        assert OnlyAt(entries, SlotLabel(slot), i);
      }
    }
  }

  lemma AbsentIff(entries: seq<Entry>, slot: Slot)
    ensures Absent(entries, SlotLabel(slot)) <==> NoFill(entries, slot)
  {
    forall i | 0 <= i < |entries| ensures Fills(entries[i], slot) <==> Names(entries[i], SlotLabel(slot)) {
      FillsIffNames(entries[i], slot);
    }
  }

  /** The records allow one identity exactly when they have the four components. */
  lemma PartsAllowed(entries: seq<Entry>, parts: Parts, slot: Slot)
    requires HasParts(entries, parts)
    ensures LengthsAllowed(entries, slot) && AtMostOneFill(entries, slot)
    ensures slot != AppId ==> Filled(entries, slot)
  {
    var p := PartOf(parts, slot);
    if p.Some? {
      ComponentIff(entries, slot, p.value);
      OneLength(entries, slot, p.value);
    } else {
      AbsentIff(entries, slot);
    }
  }

  function PartOf(parts: Parts, slot: Slot): Option<Bytes> {
    match slot
    case Compose => Some(parts.compose)
    case AppId => parts.app
    case Kms => Some(parts.kms)
    case KeyProvider => Some(parts.provider)
  }

  lemma OneLength(entries: seq<Entry>, slot: Slot, p: Bytes)
    requires AtMostOneFill(entries, slot) && LengthAllowed(slot, |p|)
    requires exists i :: 0 <= i < |entries| && Fills(entries[i], slot) && entries[i].payload == p
    ensures LengthsAllowed(entries, slot) && Filled(entries, slot)
  {
    var i :| 0 <= i < |entries| && Fills(entries[i], slot) && entries[i].payload == p;
    forall j | 0 <= j < |entries| && Fills(entries[j], slot) ensures LengthAllowed(slot, |entries[j].payload|) {
      assert j == i;
    }
  }

  lemma {:induction false} PartsAccepted(h: Hash, events: seq<Event>, entries: seq<Entry>, quoted: Bytes, parts: Parts)
    requires Selected(h, events, entries) && Quotes(h, entries, quoted) && HasParts(entries, parts)
    ensures Identity(h, events, quoted).Ok? && entries == Entries(events)
  {
    SelectedIff(h, events, entries);
    SelectedKinds(h, events, entries);
    QuotesIff(h, entries, quoted);
    forall slot: Slot ensures LengthsAllowed(entries, slot) && AtMostOneFill(entries, slot) {
      PartsAllowed(entries, parts, slot);
    }
    PartsAllowed(entries, parts, Compose);
    PartsAllowed(entries, parts, Kms);
    PartsAllowed(entries, parts, KeyProvider);
    AcceptedIff(h, events, quoted);
  }

  /** The text of a slot is that of its component. */
  ghost predicate SlotSpells(entries: seq<Entry>, slot: Slot, text: Option<Bytes>, p: Option<Bytes>) {
    match text
    case None => p == None && slot == AppId && Absent(entries, SlotLabel(slot))
    case Some(t) => p.Some? && t == HexText(p.value) && LengthAllowed(slot, |p.value|) && Component(entries, SlotLabel(slot), p.value)
  }

  lemma SlotComponent(h: Hash, events: seq<Event>, quoted: Bytes, slot: Slot) returns (p: Option<Bytes>)
    requires Identity(h, events, quoted).Ok?
    ensures SlotSpells(Entries(events), slot, Get(Run(h, Start(), events).value.slots, slot), p)
  {
    var entries := Entries(events);
    var text := Get(Run(h, Start(), events).value.slots, slot);
    var i := IdentityExtracted(h, events, quoted, slot);
    AbsentIff(entries, slot);
    if text == None {
      p := None;
    } else {
      p := Some(entries[i].payload);
      AcceptedIff(h, events, quoted);
      ComponentIff(entries, slot, entries[i].payload);
    }
  }

  /** What the source returns for an accepted log. */
  lemma {:induction false} AcceptedParts(h: Hash, events: seq<Event>, quoted: Bytes) returns (parts: Parts)
    requires Identity(h, events, quoted).Ok?
    ensures HasParts(Entries(events), parts)
    ensures IdentityWritten(Identity(h, events, quoted).value.0, parts)
    ensures SpellsSmall(Identity(h, events, quoted).value.1, parts.compose)
  {
    var slots := Run(h, Start(), events).value.slots;
    var c := SlotComponent(h, events, quoted, Compose);
    var a := SlotComponent(h, events, quoted, AppId);
    var k := SlotComponent(h, events, quoted, Kms);
    var p := SlotComponent(h, events, quoted, KeyProvider);
    parts := Parts(c.value, a, k.value, p.value);
    TextWritten(slots, parts);
    HexTextIff(slots.compose.value, parts.compose);
  }

  lemma TextWritten(slots: Slots, parts: Parts)
    requires Complete(slots) && slots.compose.value == HexText(parts.compose)
    requires slots.kms.value == HexText(parts.kms) && slots.keyProvider.value == HexText(parts.provider)
    requires if parts.app.None? then slots.appId == None else slots.appId == Some(HexText(parts.app.value))
    ensures IdentityWritten(IdentityText(slots), parts)
  {
    HexTextIff(slots.compose.value, parts.compose);
    if parts.app.Some? {
      HexTextIff(slots.appId.value, parts.app.value);
    }
    HexTextIff(slots.kms.value, parts.kms);
    HexTextIff(slots.keyProvider.value, parts.provider);
    LabelledText(slots);
    assert WrittenAs(IdentityText(slots), parts, slots.compose.value, AppText(slots), slots.kms.value, slots.keyProvider.value);
  }

  lemma LabelledText(slots: Slots)
    requires Complete(slots)
    ensures IdentityText(slots) == Labelled(slots.compose.value, AppText(slots), slots.kms.value, slots.keyProvider.value)
  {
    LettersAreAscii("compose:");
    LettersAreAscii(":app:");
    LettersAreAscii(":kms:");
    LettersAreAscii(":key_provider:");
  }

  lemma ComponentUnique(entries: seq<Entry>, name: string, p: Bytes, q: Bytes)
    requires Plain(name) && Component(entries, name, p) && Component(entries, name, q)
    ensures p == q
  {
    var i :| 0 <= i < |entries| && OnlyAt(entries, name, i) && entries[i].payload == p;
    var j :| 0 <= j < |entries| && OnlyAt(entries, name, j) && entries[j].payload == q;
    assert i == j;
  }

  lemma PartsUnique(entries: seq<Entry>, x: Parts, y: Parts)
    requires HasParts(entries, x) && HasParts(entries, y)
    ensures x == y
  {
    ComponentUnique(entries, "compose-hash", x.compose, y.compose);
    ComponentUnique(entries, "mr-kms", x.kms, y.kms);
    ComponentUnique(entries, "key-provider", x.provider, y.provider);
    if x.app.Some? && y.app.Some? {
      ComponentUnique(entries, "app-id", x.app.value, y.app.value);
    }
  }

  lemma WrittenUnique(text: Bytes, other: Bytes, parts: Parts)
    requires IdentityWritten(text, parts) && IdentityWritten(other, parts)
    ensures text == other
  {
    var c: Bytes, a: Bytes, k: Bytes, p: Bytes :| WrittenAs(text, parts, c, a, k, p);
    var c': Bytes, a': Bytes, k': Bytes, p': Bytes :| WrittenAs(other, parts, c', a', k', p');
    SmallUnique(c, c', parts.compose);
    SmallUnique(k, k', parts.kms);
    SmallUnique(p, p', parts.provider);
    if parts.app.Some? {
      SmallUnique(a, a', parts.app.value);
    }
  }

  lemma SmallUnique(t: Bytes, u: Bytes, bytes: Bytes)
    requires SpellsSmall(t, bytes) && SpellsSmall(u, bytes)
    ensures t == u
  {
    HexTextIff(t, bytes);
    HexTextIff(u, bytes);
  }

  /** The result of the replay, for every log and every quoted value: the records of register 3 replay to the
      quoted register, have the four components, and the identity is written from them. */
  ghost predicate Replays(h: Hash, events: seq<Event>, quoted: Bytes, text: Bytes, compose: Bytes) {
    exists entries: seq<Entry>, parts: Parts ::
      && Selected(h, events, entries) && Quotes(h, entries, quoted) && HasParts(entries, parts)
      && IdentityWritten(text, parts) && SpellsSmall(compose, parts.compose)
  }

  lemma {:induction false} IdentityIff(h: Hash, events: seq<Event>, quoted: Bytes, text: Bytes, compose: Bytes)
    ensures Identity(h, events, quoted) == Ok((text, compose)) <==> Replays(h, events, quoted, text, compose)
  {
    if Identity(h, events, quoted).Ok? {
      var entries := Entries(events);
      var parts := AcceptedParts(h, events, quoted);
      AcceptedIff(h, events, quoted);
      SelectedIff(h, events, entries);
      SelectedKinds(h, events, entries);
      QuotesIff(h, entries, quoted);
    }
    if entries: seq<Entry>, parts: Parts :|
      && Selected(h, events, entries) && Quotes(h, entries, quoted) && HasParts(entries, parts)
      && IdentityWritten(text, parts) && SpellsSmall(compose, parts.compose) {
      PartsAccepted(h, events, entries, quoted, parts);
      var found := AcceptedParts(h, events, quoted);
      SameResult(Identity(h, events, quoted).value, text, compose, entries, found, parts);
    }
  }

  lemma SameResult(r: (Bytes, Bytes), text: Bytes, compose: Bytes, entries: seq<Entry>, found: Parts, parts: Parts)
    requires HasParts(entries, found) && IdentityWritten(r.0, found) && SpellsSmall(r.1, found.compose)
    requires HasParts(entries, parts) && IdentityWritten(text, parts) && SpellsSmall(compose, parts.compose)
    ensures r == (text, compose)
  {
    PartsUnique(entries, found, parts);
    WrittenUnique(r.0, text, parts);
    SmallUnique(r.1, compose, parts.compose);
  }
}
