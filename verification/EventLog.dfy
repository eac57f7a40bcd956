/** Replaying the dstack event log: a hash chain over the records of register 3 and, in the same loop,
    the four application identity events. JSON parsing and the 48-byte hash are parameters. */
module EventLog {
  import opened Common

  type Digest = s: Bytes | |s| == 48 witness seq(48, _ => 0)

  type Hash = Bytes -> Digest

  const COLON: Byte := 58
  const IDENTITY_EVENT := 0x0800_0001

  datatype LogError = BadRegister | BadType | MissingField | BadHex | DigestMismatch | BadIdentity | Duplicate
    | RegisterMismatch | MissingIdentity

  /** One record of the log as parsed; a missing or ill-typed field is `None`. */
  datatype Event = Event(register: Option<nat>, kind: Option<nat>, name: Option<Bytes>, payload: Option<Bytes>,
                         digest: Option<Bytes>)

  /** What a record contributes to the chain. */
  datatype Entry = Entry(kind: nat, name: Bytes, payload: Bytes)

  datatype Slots = Slots(compose: Option<Bytes>, appId: Option<Bytes>, kms: Option<Bytes>, keyProvider: Option<Bytes>)

  datatype State = State(replay: Digest, slots: Slots)

  function Zero(): Digest {
    seq(48, _ => 0)
  }

  // ----- hexadecimal -----

  predicate IsHexDigit(c: Byte) {
    48 <= c <= 57 || 65 <= c <= 70 || 97 <= c <= 102
  }

  function HexValue(c: Byte): (v: nat)
    requires IsHexDigit(c)
    ensures v < 16
  {
    if c <= 57 then c - 48 else if c <= 70 then c - 55 else c - 87
  }

  function HexDigit(v: nat): Byte
    requires v < 16
  {
    if v < 10 then v + 48 else v + 87
  }

  function ToLower(c: Byte): Byte {
    if 65 <= c <= 90 then c + 32 else c
  }

  function Lower(text: Bytes): Bytes {
    seq(|text|, i requires 0 <= i < |text| => ToLower(text[i]))
  }

  function Hex(text: Bytes): (r: Option<Bytes>)
    decreases |text|
  {
    if text == [] then Some([])
    else if |text| == 1 || !IsHexDigit(text[0]) || !IsHexDigit(text[1]) then None
    else
      match Hex(text[2..])
      case None => None
      case Some(rest) => Some([16 * HexValue(text[0]) + HexValue(text[1])] + rest)
  }

  /** Two lower-case digits a byte. */
  function HexText(bytes: Bytes): Bytes {
    if bytes == [] then [] else [HexDigit(bytes[0] / 16), HexDigit(bytes[0] % 16)] + HexText(bytes[1..])
  }

  lemma HexPair(c: Byte, d: Byte, b: Byte)
    ensures IsHexDigit(c) && IsHexDigit(d) && 16 * HexValue(c) + HexValue(d) == b
            <==> ToLower(c) == HexDigit(b / 16) && ToLower(d) == HexDigit(b % 16)
  {
    DigitIff(c, b / 16);
    DigitIff(d, b % 16);
    if IsHexDigit(c) && IsHexDigit(d) && 16 * HexValue(c) + HexValue(d) == b {
      assert b / 16 == HexValue(c) && b % 16 == HexValue(d);
    }
  }

  lemma DigitIff(c: Byte, v: nat)
    requires v < 16
    ensures IsHexDigit(c) && HexValue(c) == v <==> ToLower(c) == HexDigit(v)
  {
  }

  lemma LowerSplit(text: Bytes)
    requires |text| >= 2
    ensures Lower(text) == [ToLower(text[0]), ToLower(text[1])] + Lower(text[2..])
  {
  }

  /** Decoding accepts exactly the encodings, in either letter case. */
  lemma {:induction false} HexIff(text: Bytes, bytes: Bytes)
    ensures Hex(text) == Some(bytes) <==> Lower(text) == HexText(bytes)
    decreases |text|
  {
    if |text| >= 2 && bytes != [] {
      HexIff(text[2..], bytes[1..]);
      HexPair(text[0], text[1], bytes[0]);
      LowerSplit(text);
      var l, h := Lower(text), HexText(bytes);
      assert l[2..] == Lower(text[2..]) && h[2..] == HexText(bytes[1..]);
      assert l == h <==> l[0] == h[0] && l[1] == h[1] && l[2..] == h[2..] by {
        assert l == [l[0], l[1]] + l[2..] && h == [h[0], h[1]] + h[2..];
      }
      assert bytes == [bytes[0]] + bytes[1..];
      HexHead(text, bytes);
    } else if |text| == 1 {
      assert |Lower(text)| == 1;
    }
  }

  lemma HexHead(text: Bytes, bytes: Bytes)
    requires |text| >= 2 && bytes != []
    ensures Hex(text) == Some(bytes) <==>
            && IsHexDigit(text[0]) && IsHexDigit(text[1]) && 16 * HexValue(text[0]) + HexValue(text[1]) == bytes[0]
            && Hex(text[2..]) == Some(bytes[1..])
  {
    assert bytes == [bytes[0]] + bytes[1..];
    if Hex(text) == Some(bytes) {
      assert bytes[1..] == Hex(text[2..]).value;
    }
  }

  lemma {:induction false} HexTextShape(bytes: Bytes)
    ensures |HexText(bytes)| == 2 * |bytes| && COLON !in HexText(bytes) && Lower(HexText(bytes)) == HexText(bytes)
  {
    if bytes != [] {
      HexTextShape(bytes[1..]);
      LowerSplit(HexText(bytes));
      assert HexText(bytes)[2..] == HexText(bytes[1..]);
    }
  }

  lemma HexRoundTrip(bytes: Bytes)
    ensures Hex(HexText(bytes)) == Some(bytes)
  {
    HexTextShape(bytes);
    HexIff(HexText(bytes), bytes);
  }

  // ----- the chain -----

  function Le32(n: nat): Bytes {
    [n % 256, n / 256 % 256, n / 65536 % 256, n / 16777216 % 256]
  }

  function Encode(e: Entry): Bytes {
    Le32(e.kind) + ([COLON] + (e.name + ([COLON] + e.payload)))
  }

  function Extend(h: Hash, replay: Digest, e: Entry): Bytes {
    replay + h(Encode(e))
  }

  function Chain(h: Hash, entries: seq<Entry>): Digest {
    if entries == [] then Zero() else h(Extend(h, Chain(h, entries[..|entries| - 1]), entries[|entries| - 1]))
  }

  /** What two different logs with the same register value give away. */
  datatype Witness = Collision(left: Bytes, right: Bytes) | ZeroPreimage(input: Bytes)

  predicate Breaks(h: Hash, w: Witness) {
    match w
    case Collision(x, y) => x != y && h(x) == h(y)
    case ZeroPreimage(x) => h(x) == Zero()
  }

  predicate Broken(h: Hash, w: Option<Witness>) {
    w.Some? && Breaks(h, w.value)
  }

  /** Walks two logs back from their ends; nothing is extracted when all encodings agree. */
  function Extract(h: Hash, a: seq<Entry>, b: seq<Entry>): Option<Witness>
    decreases |a| + |b|
  {
    if a == [] && b == [] then None
    else if a == [] then Some(ZeroPreimage(Extend(h, Chain(h, b[..|b| - 1]), b[|b| - 1])))
    else if b == [] then Some(ZeroPreimage(Extend(h, Chain(h, a[..|a| - 1]), a[|a| - 1])))
    else
      var x, y := Extend(h, Chain(h, a[..|a| - 1]), a[|a| - 1]), Extend(h, Chain(h, b[..|b| - 1]), b[|b| - 1]);
      if x != y then Some(Collision(x, y))
      else if Encode(a[|a| - 1]) != Encode(b[|b| - 1]) then Some(Collision(Encode(a[|a| - 1]), Encode(b[|b| - 1])))
      else Extract(h, a[..|a| - 1], b[..|b| - 1])
  }

  predicate SameEncodings(a: seq<Entry>, b: seq<Entry>) {
    |a| == |b| && forall i :: 0 <= i < |a| ==> Encode(a[i]) == Encode(b[i])
  }

  lemma ExtendInjective(h: Hash, r: Digest, e: Entry, s: Digest, f: Entry)
    requires Extend(h, r, e) == Extend(h, s, f)
    ensures r == s && h(Encode(e)) == h(Encode(f))
  {
    var x, y := Extend(h, r, e), Extend(h, s, f);
    assert x[..48] == r && y[..48] == s;
    assert x[48..] == h(Encode(e)) && y[48..] == h(Encode(f));
  }

  lemma SameLast(a: seq<Entry>, b: seq<Entry>)
    requires a != [] && b != [] && SameEncodings(a[..|a| - 1], b[..|b| - 1])
    requires Encode(a[|a| - 1]) == Encode(b[|b| - 1])
    ensures SameEncodings(a, b)
  {
  }

  /** One register value binds one sequence of encoded records, or the hash function is broken by
      inputs that are computed from the two logs. */
  lemma {:induction false} ChainBinding(h: Hash, a: seq<Entry>, b: seq<Entry>)
    requires Chain(h, a) == Chain(h, b)
    ensures match Extract(h, a, b)
            case None => SameEncodings(a, b)
            case Some(w) => Breaks(h, w)
    decreases |a| + |b|
  {
    if a != [] && b != [] {
      var m, n := |a| - 1, |b| - 1;
      var x, y := Extend(h, Chain(h, a[..m]), a[m]), Extend(h, Chain(h, b[..n]), b[n]);
      if x == y && Encode(a[m]) == Encode(b[n]) {
        ExtendInjective(h, Chain(h, a[..m]), a[m], Chain(h, b[..n]), b[n]);
        ChainBinding(h, a[..m], b[..n]);
        if Extract(h, a[..m], b[..n]) == None {
          SameLast(a, b);
        }
      } else if x == y {
        ExtendInjective(h, Chain(h, a[..m]), a[m], Chain(h, b[..n]), b[n]);
      }
    }
  }

  lemma {:induction false} SameEncodingsChain(h: Hash, a: seq<Entry>, b: seq<Entry>)
    requires SameEncodings(a, b)
    ensures Chain(h, a) == Chain(h, b)
  {
    if a != [] {
      SameEncodingsChain(h, a[..|a| - 1], b[..|b| - 1]);
    }
  }

  lemma {:induction false} NothingExtracted(h: Hash, a: seq<Entry>, b: seq<Entry>)
    requires SameEncodings(a, b)
    ensures Extract(h, a, b) == None
    decreases |a|
  {
    if a != [] {
      SameEncodingsChain(h, a[..|a| - 1], b[..|b| - 1]);
      NothingExtracted(h, a[..|a| - 1], b[..|b| - 1]);
    }
  }

  // ----- which records share an encoding -----

  lemma FirstColon(s: Bytes, a: Bytes, x: Bytes)
    requires s == a + ([COLON] + x) && COLON !in a
    ensures |a| < |s| && s[|a|] == COLON && (forall i :: 0 <= i < |a| ==> s[i] != COLON)
    ensures s[..|a|] == a && s[|a| + 1..] == x
  {
    forall i | 0 <= i < |a| ensures s[i] != COLON {
      assert s[i] == a[i];
    }
  }

  /** Cutting at the first colon is unambiguous. */
  lemma CutAtColon(a: Bytes, x: Bytes, b: Bytes, y: Bytes)
    requires a + ([COLON] + x) == b + ([COLON] + y) && COLON !in a && COLON !in b
    ensures a == b && x == y
  {
    var s := a + ([COLON] + x);
    FirstColon(s, a, x);
    FirstColon(s, b, y);
  }

  lemma FourDigits(n: nat)
    ensures n == n % 256 + 256 * (n / 256 % 256) + 65536 * (n / 65536 % 256) + 16777216 * (n / 16777216)
  {
    assert n / 65536 == n / 256 / 256 && n / 16777216 == n / 65536 / 256;
  }

  lemma Le32Injective(m: nat, n: nat)
    requires m < 0x1_0000_0000 && n < 0x1_0000_0000 && Le32(m) == Le32(n)
    ensures m == n
  {
    Le32Value(m, Le32(m));
    Le32Value(n, Le32(n));
  }

  lemma Le32Value(n: nat, s: Bytes)
    requires n < 0x1_0000_0000 && s == Le32(n)
    ensures |s| == 4 && n == s[0] as int + 256 * (s[1] as int) + 65536 * (s[2] as int) + 16777216 * (s[3] as int)
  {
    FourDigits(n);
    assert n / 16777216 % 256 == n / 16777216;
  }

  lemma EncodeParts(e: Entry, f: Entry)
    requires e.kind < 0x1_0000_0000 && f.kind < 0x1_0000_0000
    ensures Encode(e) == Encode(f) <==> e.kind == f.kind && e.name + ([COLON] + e.payload) == f.name + ([COLON] + f.payload)
  {
    var x, y := e.name + ([COLON] + e.payload), f.name + ([COLON] + f.payload);
    assert Encode(e)[..4] == Le32(e.kind) && Encode(f)[..4] == Le32(f.kind);
    assert Encode(e)[5..] == x && Encode(f)[5..] == y;
    if Le32(e.kind) == Le32(f.kind) {
      Le32Injective(e.kind, f.kind);
    }
  }

  /** The name of `e` continues past a colon into what is payload in `f`. */
  ghost predicate Shifted(e: Entry, f: Entry) {
    exists u: Bytes :: e.name == f.name + ([COLON] + u) && f.payload == u + ([COLON] + e.payload)
  }

  lemma ShiftedSame(e: Entry, f: Entry, u: Bytes)
    requires e.name == f.name + ([COLON] + u) && f.payload == u + ([COLON] + e.payload)
    ensures e.name + ([COLON] + e.payload) == f.name + ([COLON] + f.payload)
  {
    var p, q := e.payload, f.name;
    assert (q + ([COLON] + u)) + ([COLON] + p) == q + ([COLON] + (u + ([COLON] + p)));
  }

  lemma LongerName(e: Entry, f: Entry)
    requires e.name + ([COLON] + e.payload) == f.name + ([COLON] + f.payload) && |e.name| > |f.name|
    ensures Shifted(e, f)
  {
    var s := e.name + ([COLON] + e.payload);
    var k := |f.name|;
    var u := e.name[k + 1..];
    assert s[..k] == f.name && s[k] == COLON && s[k + 1..] == f.payload;
    assert e.name[k] == s[k] && e.name[..k] == s[..k];
    assert e.name == f.name + ([COLON] + u);
    assert s[k + 1..] == u + ([COLON] + e.payload);
  }

  /** Two records of one kind have the same encoding exactly when they are the same record or one
      name continues into the other's payload. */
  lemma EncodeIff(e: Entry, f: Entry)
    requires e.kind < 0x1_0000_0000 && f.kind < 0x1_0000_0000
    ensures Encode(e) == Encode(f) <==> e == f || (e.kind == f.kind && (Shifted(e, f) || Shifted(f, e)))
  {
    EncodeParts(e, f);
    if u: Bytes :| e.name == f.name + ([COLON] + u) && f.payload == u + ([COLON] + e.payload) {
      ShiftedSame(e, f, u);
    }
    if u: Bytes :| f.name == e.name + ([COLON] + u) && e.payload == u + ([COLON] + f.payload) {
      ShiftedSame(f, e, u);
    }
    if Encode(e) == Encode(f) {
      if |e.name| > |f.name| {
        LongerName(e, f);
      } else if |e.name| < |f.name| {
        LongerName(f, e);
      } else {
        var s, t := e.name + ([COLON] + e.payload), f.name + ([COLON] + f.payload);
        assert s[..|e.name|] == e.name && t[..|e.name|] == f.name;
        assert s[|e.name| + 1..] == e.payload && t[|e.name| + 1..] == f.payload;
      }
    }
  }

  // ----- the replay -----

  function Ascii(s: string): Bytes {
    seq(|s|, i requires 0 <= i < |s| => (s[i] as int) % 256)
  }

  datatype Slot = Compose | AppId | Kms | KeyProvider

  function SlotOf(name: Bytes): Option<Slot> {
    if name == Ascii("compose-hash") then Some(Compose)
    else if name == Ascii("app-id") then Some(AppId)
    else if name == Ascii("mr-kms") then Some(Kms)
    else if name == Ascii("key-provider") then Some(KeyProvider)
    else None
  }

  predicate LengthAllowed(slot: Slot, length: nat) {
    match slot
    case Compose => length == 32
    case AppId => length == 20
    case Kms => length == 32
    case KeyProvider => length > 0
  }

  function Get(slots: Slots, slot: Slot): Option<Bytes> {
    match slot
    case Compose => slots.compose
    case AppId => slots.appId
    case Kms => slots.kms
    case KeyProvider => slots.keyProvider
  }

  function Set(slots: Slots, slot: Slot, text: Bytes): Slots {
    match slot
    case Compose => slots.(compose := Some(text))
    case AppId => slots.(appId := Some(text))
    case Kms => slots.(kms := Some(text))
    case KeyProvider => slots.(keyProvider := Some(text))
  }

  function Fill(slots: Slots, slot: Slot, payload: Bytes): Result<Slots, LogError> {
    if !LengthAllowed(slot, |payload|) then Err(BadIdentity)
    else if Get(slots, slot).Some? then Err(Duplicate)
    else Ok(Set(slots, slot, HexText(payload)))
  }

  /** The identity event, if the record is one. */
  function Apply(slots: Slots, e: Entry): Result<Slots, LogError> {
    if e.kind != IDENTITY_EVENT then Ok(slots)
    else
      match SlotOf(e.name)
      case None => Ok(slots)
      case Some(slot) => Fill(slots, slot, e.payload)
  }

  /** The chain entry of a record of register 3. */
  function Decode(event: Event): Result<Entry, LogError> {
    if event.kind == None || event.kind.value >= 0x1_0000_0000 then Err(BadType)
    else if event.name == None || event.payload == None then Err(MissingField)
    else
      match Hex(event.payload.value)
      case None => Err(BadHex)
      case Some(payload) => Ok(Entry(event.kind.value, event.name.value, payload))
  }

  /** A supplied digest must be the computed one; an empty one is not checked. */
  function DigestError(event: Event, digest: Digest): Option<LogError> {
    if event.digest == None then Some(MissingField)
    else if event.digest.value == [] then None
    else
      match Hex(event.digest.value)
      case None => Some(BadHex)
      case Some(supplied) => if supplied != digest then Some(DigestMismatch) else None
  }

  function Step(h: Hash, state: State, event: Event): Result<State, LogError> {
    if event.register == None then Err(BadRegister)
    else if event.register.value != 3 then Ok(state)
    else
      match Decode(event)
      case Err(e) => Err(e)
      case Ok(entry) =>
        match DigestError(event, h(Encode(entry)))
        case Some(e) => Err(e)
        case None =>
          match Apply(state.slots, entry)
          case Err(e) => Err(e)
          case Ok(slots) => Ok(State(h(Extend(h, state.replay, entry)), slots))
  }

  function Start(): State {
    State(Zero(), Slots(None, None, None, None))
  }

  function Run(h: Hash, state: State, events: seq<Event>): Result<State, LogError>
    decreases |events|
  {
    if events == [] then Ok(state)
    else
      match Step(h, state, events[0])
      case Err(e) => Err(e)
      case Ok(next) => Run(h, next, events[1..])
  }

  function AppText(slots: Slots): Bytes {
    if slots.appId.Some? then slots.appId.value else []
  }

  function IdentityText(slots: Slots): Bytes
    requires Complete(slots)
  {
    Ascii("compose:") + (slots.compose.value + (Ascii(":app:") + (AppText(slots) +
      (Ascii(":kms:") + (slots.kms.value + (Ascii(":key_provider:") + slots.keyProvider.value))))))
  }

  /** The decision after the loop. */
  function Finish(state: State, quoted: Bytes): Result<(Bytes, Bytes), LogError> {
    match Hex(quoted)
    case None => Err(BadHex)
    case Some(register) =>
      if register != state.replay then Err(RegisterMismatch)
      else if !Complete(state.slots) then Err(MissingIdentity)
      else Ok((IdentityText(state.slots), state.slots.compose.value))
  }

  function Identity(h: Hash, events: seq<Event>, quoted: Bytes): Result<(Bytes, Bytes), LogError> {
    match Run(h, Start(), events)
    case Err(e) => Err(e)
    case Ok(state) => Finish(state, quoted)
  }

  method DstackIdentity(h: Hash, events: seq<Event>, quoted: Bytes) returns (r: Result<(Bytes, Bytes), LogError>)
    ensures r == Identity(h, events, quoted)
  {
    var replay := Zero();
    var slots := Slots(None, None, None, None);
    for i := 0 to |events|
      invariant Run(h, Start(), events) == Run(h, State(replay, slots), events[i..])
    {
      var event := events[i];
      assert events[i..][0] == event && events[i..][1..] == events[i + 1..];
      if event.register == None {
        return Err(BadRegister);
      }
      if event.register.value != 3 {
        continue;
      }
      var entry := Decode(event);
      if entry.Err? {
        return Err(entry.error);
      }
      var digest := h(Encode(entry.value));
      var mismatch := DigestError(event, digest);
      if mismatch.Some? {
        return Err(mismatch.value);
      }
      replay := h(Extend(h, replay, entry.value));
      var applied := Apply(slots, entry.value);
      if applied.Err? {
        return Err(applied.error);
      }
      slots := applied.value;
    }
    return Finish(State(replay, slots), quoted);
  }

  // ----- what an accepted log binds -----

  /** The entries of the records of register 3. */
  function Entries(events: seq<Event>): seq<Entry>
    decreases |events|
  {
    if events == [] then []
    else if events[0].register == Some(3) && Decode(events[0]).Ok? then [Decode(events[0]).value] + Entries(events[1..])
    else Entries(events[1..])
  }

  function Absorb(h: Hash, state: State, e: Entry): Result<State, LogError> {
    match Apply(state.slots, e)
    case Err(e) => Err(e)
    case Ok(slots) => Ok(State(h(Extend(h, state.replay, e)), slots))
  }

  function AbsorbAll(h: Hash, state: State, entries: seq<Entry>): Result<State, LogError>
    decreases |entries|
  {
    if entries == [] then Ok(state)
    else
      match Absorb(h, state, entries[0])
      case Err(e) => Err(e)
      case Ok(next) => AbsorbAll(h, next, entries[1..])
  }

  lemma StepIsAbsorb(h: Hash, state: State, event: Event)
    requires Step(h, state, event).Ok?
    ensures event.register != Some(3) ==> Step(h, state, event) == Ok(state)
    ensures event.register == Some(3) ==> Decode(event).Ok? && Step(h, state, event) == Absorb(h, state, Decode(event).value)
  {
  }

  /** A replay that succeeds depends on the entries alone. */
  lemma {:induction false} RunIsAbsorb(h: Hash, state: State, events: seq<Event>)
    requires Run(h, state, events).Ok?
    ensures AbsorbAll(h, state, Entries(events)) == Run(h, state, events)
    decreases |events|
  {
    if events != [] {
      var next := Step(h, state, events[0]).value;
      StepIsAbsorb(h, state, events[0]);
      RunIsAbsorb(h, next, events[1..]);
      if events[0].register == Some(3) {
        assert Entries(events)[1..] == Entries(events[1..]);
      }
    }
  }

  lemma ChainStep(h: Hash, done: seq<Entry>, e: Entry)
    ensures Chain(h, done + [e]) == h(Extend(h, Chain(h, done), e))
  {
    assert (done + [e])[..|done|] == done;
  }

  /** The register ends as the chain of the entries. */
  lemma {:induction false} AbsorbIsChain(h: Hash, state: State, done: seq<Entry>, entries: seq<Entry>)
    requires state.replay == Chain(h, done) && AbsorbAll(h, state, entries).Ok?
    ensures AbsorbAll(h, state, entries).value.replay == Chain(h, done + entries)
    decreases |entries|
  {
    if entries == [] {
      assert done + entries == done;
    } else {
      ChainStep(h, done, entries[0]);
      AbsorbIsChain(h, Absorb(h, state, entries[0]).value, done + [entries[0]], entries[1..]);
      assert done + [entries[0]] + entries[1..] == done + entries;
    }
  }

  lemma {:induction false} EntryKinds(events: seq<Event>)
    ensures forall i :: 0 <= i < |Entries(events)| ==> Entries(events)[i].kind < 0x1_0000_0000
  {
    if events != [] {
      EntryKinds(events[1..]);
    }
  }

  lemma AcceptedChain(h: Hash, events: seq<Event>, quoted: Bytes)
    requires Identity(h, events, quoted).Ok?
    ensures Hex(quoted) == Some(Chain(h, Entries(events)))
    ensures AbsorbAll(h, Start(), Entries(events)).Ok?
    ensures Identity(h, events, quoted) == Finish(AbsorbAll(h, Start(), Entries(events)).value, quoted)
  {
    RunIsAbsorb(h, Start(), events);
    AbsorbIsChain(h, Start(), [], Entries(events));
    assert [] + Entries(events) == Entries(events);
  }

  // ----- other registers -----

  function OnlyRegister3(events: seq<Event>): seq<Event> {
    if events == [] then []
    else if events[0].register.Some? && events[0].register.value != 3 then OnlyRegister3(events[1..])
    else [events[0]] + OnlyRegister3(events[1..])
  }

  lemma {:induction false} RunIgnoresOthers(h: Hash, state: State, events: seq<Event>)
    ensures Run(h, state, events) == Run(h, state, OnlyRegister3(events))
    decreases |events|
  {
    if events != [] {
      var kept := OnlyRegister3(events);
      if events[0].register.Some? && events[0].register.value != 3 {
        RunIgnoresOthers(h, state, events[1..]);
      } else {
        assert kept[0] == events[0] && kept[1..] == OnlyRegister3(events[1..]);
        if Step(h, state, events[0]).Ok? {
          RunIgnoresOthers(h, Step(h, state, events[0]).value, events[1..]);
        }
      }
    }
  }

  /** Records of other registers change neither the outcome nor the error. */
  lemma OtherRegistersNeverMatter(h: Hash, a: seq<Event>, b: seq<Event>, quoted: Bytes)
    requires OnlyRegister3(a) == OnlyRegister3(b)
    ensures Identity(h, a, quoted) == Identity(h, b, quoted)
  {
    RunIgnoresOthers(h, Start(), a);
    RunIgnoresOthers(h, Start(), b);
  }

  // ----- the identity text -----

  /** What the replay can leave in the slots: hexadecimal text, and never an empty application. */
  predicate Clean(text: Option<Bytes>) {
    text.Some? ==> text.value != [] && COLON !in text.value
  }

  predicate SlotsClean(slots: Slots) {
    Clean(slots.compose) && Clean(slots.appId) && Clean(slots.kms) && Clean(slots.keyProvider)
  }

  lemma FillClean(slots: Slots, slot: Slot, payload: Bytes)
    requires SlotsClean(slots) && Fill(slots, slot, payload).Ok?
    ensures SlotsClean(Fill(slots, slot, payload).value)
  {
    HexTextShape(payload);
  }

  lemma {:induction false} AbsorbAllClean(h: Hash, state: State, entries: seq<Entry>)
    requires SlotsClean(state.slots) && AbsorbAll(h, state, entries).Ok?
    ensures SlotsClean(AbsorbAll(h, state, entries).value.slots)
    decreases |entries|
  {
    if entries != [] {
      var e := entries[0];
      if e.kind == IDENTITY_EVENT && SlotOf(e.name).Some? {
        FillClean(state.slots, SlotOf(e.name).value, e.payload);
      }
      AbsorbAllClean(h, Absorb(h, state, e).value, entries[1..]);
    }
  }

  predicate Complete(slots: Slots) {
    slots.compose.Some? && slots.kms.Some? && slots.keyProvider.Some?
  }

  lemma CutSeparator(separator: Bytes, a: Bytes, x: Bytes, b: Bytes, y: Bytes)
    requires separator != [] && separator[0] == COLON && a + (separator + x) == b + (separator + y)
    requires COLON !in a && COLON !in b
    ensures a == b && x == y
  {
    var tail := separator[1..];
    assert separator + x == [COLON] + (tail + x) && separator + y == [COLON] + (tail + y);
    CutAtColon(a, tail + x, b, tail + y);
    assert (tail + x)[|tail|..] == x && (tail + y)[|tail|..] == y;
  }

  /** The identity text determines all four components. */
  lemma IdentityInjective(s: Slots, t: Slots)
    requires SlotsClean(s) && SlotsClean(t) && Complete(s) && Complete(t) && IdentityText(s) == IdentityText(t)
    ensures s == t
  {
    var k1, k2 := s.keyProvider.value, t.keyProvider.value;
    var c1, c2 := s.kms.value + (Ascii(":key_provider:") + k1), t.kms.value + (Ascii(":key_provider:") + k2);
    var b1, b2 := AppText(s) + (Ascii(":kms:") + c1), AppText(t) + (Ascii(":kms:") + c2);
    var a1, a2 := s.compose.value + (Ascii(":app:") + b1), t.compose.value + (Ascii(":app:") + b2);
    assert a1 == IdentityText(s)[8..] && a2 == IdentityText(t)[8..];
    CutSeparator(Ascii(":app:"), s.compose.value, b1, t.compose.value, b2);
    CutSeparator(Ascii(":kms:"), AppText(s), c1, AppText(t), c2);
    CutSeparator(Ascii(":key_provider:"), s.kms.value, k1, t.kms.value, k2);
  }

  /** Two accepted logs with the same identity text hold the same four components. */
  lemma IdentityDeterminesComponents(h: Hash, a: seq<Event>, p: Bytes, b: seq<Event>, q: Bytes)
    requires Identity(h, a, p).Ok? && Identity(h, b, q).Ok?
    requires Identity(h, a, p).value.0 == Identity(h, b, q).value.0
    ensures Run(h, Start(), a).value.slots == Run(h, Start(), b).value.slots
  {
    RunIsAbsorb(h, Start(), a);
    RunIsAbsorb(h, Start(), b);
    AbsorbAllClean(h, Start(), Entries(a));
    AbsorbAllClean(h, Start(), Entries(b));
    IdentityInjective(Run(h, Start(), a).value.slots, Run(h, Start(), b).value.slots);
  }

  // ----- what the loop extracts -----

  /** The entry is the identity event for this slot. */
  predicate Fills(e: Entry, slot: Slot) {
    e.kind == IDENTITY_EVENT && SlotOf(e.name) == Some(slot)
  }

  lemma AbsorbSlot(h: Hash, state: State, e: Entry, slot: Slot)
    requires Absorb(h, state, e).Ok?
    ensures var after := Get(Absorb(h, state, e).value.slots, slot);
            && (Fills(e, slot) ==> Get(state.slots, slot) == None && after == Some(HexText(e.payload)) &&
                                   LengthAllowed(slot, |e.payload|))
            && (!Fills(e, slot) ==> after == Get(state.slots, slot))
  {
  }

  /** Once a slot is filled it stays, and no later entry fills it. */
  lemma {:induction false} FilledStays(h: Hash, state: State, entries: seq<Entry>, slot: Slot)
    requires AbsorbAll(h, state, entries).Ok? && Get(state.slots, slot).Some?
    ensures Get(AbsorbAll(h, state, entries).value.slots, slot) == Get(state.slots, slot)
    ensures forall i :: 0 <= i < |entries| ==> !Fills(entries[i], slot)
    decreases |entries|
  {
    if entries != [] {
      AbsorbSlot(h, state, entries[0], slot);
      FilledStays(h, Absorb(h, state, entries[0]).value, entries[1..], slot);
      assert entries == [entries[0]] + entries[1..];
    }
  }

  /** `i` is the only entry that fills the slot, and this is its text. */
  predicate OnlyFill(entries: seq<Entry>, i: nat, slot: Slot, text: Bytes) {
    && i < |entries| && Fills(entries[i], slot) && text == HexText(entries[i].payload)
    && LengthAllowed(slot, |entries[i].payload|)
    && forall j :: 0 <= j < |entries| && j != i ==> !Fills(entries[j], slot)
  }

  predicate NoFill(entries: seq<Entry>, slot: Slot) {
    forall j :: 0 <= j < |entries| ==> !Fills(entries[j], slot)
  }

  /** A slot that was empty ends up with the text of the one entry that fills it, or there is none. */
  lemma {:induction false} SlotExtracted(h: Hash, state: State, entries: seq<Entry>, slot: Slot) returns (i: nat)
    requires AbsorbAll(h, state, entries).Ok? && Get(state.slots, slot) == None
    ensures match Get(AbsorbAll(h, state, entries).value.slots, slot)
            case None => NoFill(entries, slot)
            case Some(text) => OnlyFill(entries, i, slot, text)
    decreases |entries|
  {
    i := 0;
    if entries != [] {
      var next := Absorb(h, state, entries[0]).value;
      assert entries == [entries[0]] + entries[1..];
      AbsorbSlot(h, state, entries[0], slot);
      if Fills(entries[0], slot) {
        FilledStays(h, next, entries[1..], slot);
      } else {
        var k := SlotExtracted(h, next, entries[1..], slot);
        i := k + 1;
        assert Get(AbsorbAll(h, next, entries[1..]).value.slots, slot).Some? ==> entries[i] == entries[1..][k];
      }
    }
  }

  /** In an accepted log each identity component comes from exactly one record of register 3. */
  lemma IdentityExtracted(h: Hash, events: seq<Event>, quoted: Bytes, slot: Slot) returns (i: nat)
    requires Identity(h, events, quoted).Ok?
    ensures match Get(Run(h, Start(), events).value.slots, slot)
            case None => slot == AppId && NoFill(Entries(events), slot)
            case Some(text) => OnlyFill(Entries(events), i, slot, text)
  {
    RunIsAbsorb(h, Start(), events);
    i := SlotExtracted(h, Start(), Entries(events), slot);
  }

  lemma StepDigest(h: Hash, state: State, event: Event)
    requires Step(h, state, event).Ok? && event.register == Some(3)
    ensures Decode(event).Ok? && event.digest.Some?
    ensures event.digest.value == [] || Hex(event.digest.value) == Some(h(Encode(Decode(event).value)))
  {
  }

  /** Every digest that an accepted log supplies is the hash of its record. */
  lemma {:induction false} DigestsChecked(h: Hash, state: State, events: seq<Event>, i: nat)
    requires Run(h, state, events).Ok? && i < |events| && events[i].register == Some(3)
    ensures Decode(events[i]).Ok? && events[i].digest.Some?
    ensures events[i].digest.value == [] || Hex(events[i].digest.value) == Some(h(Encode(Decode(events[i]).value)))
    decreases |events|
  {
    if i == 0 {
      StepDigest(h, state, events[0]);
    } else {
      DigestsChecked(h, Step(h, state, events[0]).value, events[1..], i - 1);
    }
  }

  // ----- exactly which logs are accepted -----

  /** A record that the loop does not refuse by itself. */
  predicate RecordValid(h: Hash, event: Event) {
    && event.register.Some?
    && (event.register.value == 3 ==>
          Decode(event).Ok? && DigestError(event, h(Encode(Decode(event).value))) == None)
  }

  lemma {:induction false} RunOkIff(h: Hash, state: State, events: seq<Event>)
    ensures Run(h, state, events).Ok? <==>
            (forall i :: 0 <= i < |events| ==> RecordValid(h, events[i])) && AbsorbAll(h, state, Entries(events)).Ok?
    decreases |events|
  {
    if events != [] {
      assert events == [events[0]] + events[1..];
      if RecordValid(h, events[0]) {
        if events[0].register == Some(3) {
          var entry := Decode(events[0]).value;
          assert Entries(events)[0] == entry && Entries(events)[1..] == Entries(events[1..]);
          assert Step(h, state, events[0]) == Absorb(h, state, entry);
          if Absorb(h, state, entry).Ok? {
            RunOkIff(h, Absorb(h, state, entry).value, events[1..]);
          }
        } else {
          RunOkIff(h, state, events[1..]);
        }
      } else {
        assert Step(h, state, events[0]).Err?;
      }
    }
  }

  /** What absorbing tests, entry by entry: a slot is filled at most once and with an allowed length. */
  predicate SlotOnce(filled: bool, entries: seq<Entry>, slot: Slot)
    decreases |entries|
  {
    if entries == [] then true
    else if Fills(entries[0], slot)
    then !filled && LengthAllowed(slot, |entries[0].payload|) && SlotOnce(true, entries[1..], slot)
    else SlotOnce(filled, entries[1..], slot)
  }

  predicate LengthsAllowed(entries: seq<Entry>, slot: Slot) {
    forall i :: 0 <= i < |entries| && Fills(entries[i], slot) ==> LengthAllowed(slot, |entries[i].payload|)
  }

  predicate AtMostOneFill(entries: seq<Entry>, slot: Slot) {
    forall i, j :: 0 <= i < j < |entries| ==> !(Fills(entries[i], slot) && Fills(entries[j], slot))
  }

  lemma ConsFacts(e: Entry, rest: seq<Entry>, slot: Slot)
    ensures NoFill([e] + rest, slot) <==> !Fills(e, slot) && NoFill(rest, slot)
    ensures LengthsAllowed([e] + rest, slot) <==>
            (Fills(e, slot) ==> LengthAllowed(slot, |e.payload|)) && LengthsAllowed(rest, slot)
  {
    var all := [e] + rest;
    assert all[0] == e && forall i :: 0 <= i < |rest| ==> all[i + 1] == rest[i];
  }

  lemma ConsOnce(e: Entry, rest: seq<Entry>, slot: Slot)
    ensures AtMostOneFill([e] + rest, slot) <==> AtMostOneFill(rest, slot) && (Fills(e, slot) ==> NoFill(rest, slot))
  {
    var all := [e] + rest;
    if AtMostOneFill(all, slot) {
      forall i, j | 0 <= i < j < |rest| ensures !(Fills(rest[i], slot) && Fills(rest[j], slot)) {
        assert all[i + 1] == rest[i] && all[j + 1] == rest[j];
      }
      forall j | 0 <= j < |rest| ensures Fills(e, slot) ==> !Fills(rest[j], slot) {
        assert all[0] == e && all[j + 1] == rest[j];
      }
    }
  }

  lemma {:induction false} SlotOnceIff(filled: bool, entries: seq<Entry>, slot: Slot)
    ensures SlotOnce(filled, entries, slot) <==>
            LengthsAllowed(entries, slot) && AtMostOneFill(entries, slot) && (filled ==> NoFill(entries, slot))
    decreases |entries|
  {
    if entries != [] {
      var e, rest := entries[0], entries[1..];
      assert entries == [e] + rest;
      ConsFacts(e, rest, slot);
      ConsOnce(e, rest, slot);
      SlotOnceIff(filled || Fills(e, slot), rest, slot);
    }
  }

  predicate FillsOnce(slots: Slots, entries: seq<Entry>) {
    forall slot: Slot :: SlotOnce(Get(slots, slot).Some?, entries, slot)
  }

  lemma AbsorbFails(h: Hash, state: State, e: Entry, rest: seq<Entry>)
    requires Absorb(h, state, e).Err?
    ensures !FillsOnce(state.slots, [e] + rest)
  {
    assert !SlotOnce(Get(state.slots, SlotOf(e.name).value).Some?, [e] + rest, SlotOf(e.name).value);
  }

  lemma {:induction false} AbsorbOkIff(h: Hash, state: State, entries: seq<Entry>)
    ensures AbsorbAll(h, state, entries).Ok? <==> FillsOnce(state.slots, entries)
    decreases |entries|
  {
    if entries != [] {
      var e := entries[0];
      assert entries == [e] + entries[1..];
      if Absorb(h, state, e).Ok? {
        var next := Absorb(h, state, e).value;
        AbsorbOkIff(h, next, entries[1..]);
        forall slot: Slot
          ensures SlotOnce(Get(state.slots, slot).Some?, entries, slot) <==>
                  SlotOnce(Get(next.slots, slot).Some?, entries[1..], slot)
        {
          AbsorbSlot(h, state, e, slot);
        }
      } else {
        AbsorbFails(h, state, e, entries[1..]);
      }
    }
  }

  predicate Filled(entries: seq<Entry>, slot: Slot) {
    exists i :: 0 <= i < |entries| && Fills(entries[i], slot)
  }

  lemma FilledIff(h: Hash, entries: seq<Entry>, slot: Slot)
    requires AbsorbAll(h, Start(), entries).Ok?
    ensures Get(AbsorbAll(h, Start(), entries).value.slots, slot).Some? <==> Filled(entries, slot)
  {
    var i := SlotExtracted(h, Start(), entries, slot);
  }

  lemma FinishIff(state: State, quoted: Bytes)
    ensures Finish(state, quoted).Ok? <==> Hex(quoted) == Some(state.replay) && Get(state.slots, Compose).Some? &&
                                           Get(state.slots, Kms).Some? && Get(state.slots, KeyProvider).Some?
  {
  }

  /** The loop over the records ends exactly for well formed records without repeated identity events. */
  lemma ReplayedIff(h: Hash, events: seq<Event>)
    ensures Run(h, Start(), events).Ok? <==>
            && (forall i :: 0 <= i < |events| ==> RecordValid(h, events[i]))
            && (forall slot: Slot :: LengthsAllowed(Entries(events), slot) && AtMostOneFill(Entries(events), slot))
  {
    RunOkIff(h, Start(), events);
    AbsorbOkIff(h, Start(), Entries(events));
    FirstFills(Entries(events));
  }

  lemma FirstFills(entries: seq<Entry>)
    ensures FillsOnce(Start().slots, entries) <==>
            forall slot: Slot :: LengthsAllowed(entries, slot) && AtMostOneFill(entries, slot)
  {
    forall slot: Slot
      ensures SlotOnce(Get(Start().slots, slot).Some?, entries, slot) <==>
              LengthsAllowed(entries, slot) && AtMostOneFill(entries, slot)
    {
      SlotOnceIff(false, entries, slot);
    }
  }

  lemma FinishedIff(h: Hash, events: seq<Event>, state: State, quoted: Bytes)
    requires Run(h, Start(), events) == Ok(state)
    ensures Finish(state, quoted).Ok? <==>
            && Filled(Entries(events), Compose) && Filled(Entries(events), Kms) && Filled(Entries(events), KeyProvider)
            && Hex(quoted) == Some(Chain(h, Entries(events)))
  {
    var entries := Entries(events);
    RunIsAbsorb(h, Start(), events);
    AbsorbIsChain(h, Start(), [], entries);
    assert [] + entries == entries;
    FinishIff(state, quoted);
    FilledIff(h, entries, Compose);
    FilledIff(h, entries, Kms);
    FilledIff(h, entries, KeyProvider);
  }

  /** A log is accepted exactly when its records are well formed with matching digests, no identity
      event repeats or has a wrong length, the three required ones are there, and the register value is
      the chain of its entries. */
  lemma AcceptedIff(h: Hash, events: seq<Event>, quoted: Bytes)
    ensures Identity(h, events, quoted).Ok? <==>
            && (forall i :: 0 <= i < |events| ==> RecordValid(h, events[i]))
            && (forall slot: Slot :: LengthsAllowed(Entries(events), slot) && AtMostOneFill(Entries(events), slot))
            && Filled(Entries(events), Compose) && Filled(Entries(events), Kms) && Filled(Entries(events), KeyProvider)
            && Hex(quoted) == Some(Chain(h, Entries(events)))
  {
    ReplayedIff(h, events);
    if Run(h, Start(), events).Ok? {
      FinishedIff(h, events, Run(h, Start(), events).value, quoted);
    }
  }
}
