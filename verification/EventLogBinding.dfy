/** What a register value says about the log it was quoted for. A record is hashed as kind, name and
    payload with colons between them, so a colon in a name or in a payload may let the same bytes be
    read as another record. The results here say exactly when that is possible, for one record, for a
    log and for the identity it yields.

    `text` is the set of names the replay can receive. In the source names are UTF-8 strings; the
    results hold for every set of names that can be cut and joined at a colon. */
module EventLogBinding {
  import opened Common
  import opened EventLog

  type Names = Bytes -> bool

  ghost predicate CutsAtColon(text: Names) {
    forall a: Bytes, b: Bytes :: text(a + ([COLON] + b)) <==> text(a) && text(b)
  }

  // ----- UTF-8 -----

  predicate Tail(b: Byte) {
    128 <= b < 192
  }

  /** The length of the well-formed UTF-8 sequence at the start, or zero. */
  function Utf8Length(s: Bytes): (n: nat)
    ensures n <= |s| && n <= 4
  {
    if s == [] then 0
    else if s[0] < 0x80 then 1
    else if |s| < 2 || !Tail(s[1]) then 0
    else if 0xC2 <= s[0] <= 0xDF then 2
    else if |s| < 3 || !Tail(s[2]) then 0
    else if 0xE0 <= s[0] <= 0xEF then
      if (s[0] == 0xE0 && s[1] < 0xA0) || (s[0] == 0xED && s[1] >= 0xA0) then 0 else 3
    else if |s| < 4 || !Tail(s[3]) then 0
    else if 0xF0 <= s[0] <= 0xF4 then
      if (s[0] == 0xF0 && s[1] < 0x90) || (s[0] == 0xF4 && s[1] >= 0x90) then 0 else 4
    else 0
  }

  /** Well-formed UTF-8 (section 4 of RFC 3629). */
  predicate Utf8(s: Bytes) {
    if s == [] then true else Utf8Length(s) > 0 && Utf8(s[Utf8Length(s)..])
  }

  /** A colon is never inside a sequence, so what follows it does not matter to what precedes it. */
  lemma Utf8LengthCut(a: Bytes, b: Bytes)
    requires a != []
    ensures Utf8Length(a + ([COLON] + b)) == Utf8Length(a)
  {
    var s := a + ([COLON] + b);
    assert s[0] == a[0] && s[|a|] == COLON;
    assert |a| > 1 ==> s[1] == a[1];
    assert |a| > 2 ==> s[2] == a[2];
    assert |a| > 3 ==> s[3] == a[3];
  }

  lemma {:induction false} Utf8Cut(a: Bytes, b: Bytes)
    ensures Utf8(a + ([COLON] + b)) <==> Utf8(a) && Utf8(b)
    decreases |a|
  {
    var s := a + ([COLON] + b);
    if a == [] {
      assert Utf8Length(s) == 1 && s[1..] == b;
    } else {
      Utf8LengthCut(a, b);
      var n := Utf8Length(a);
      if n > 0 {
        assert s[n..] == a[n..] + ([COLON] + b);
        Utf8Cut(a[n..], b);
      }
    }
  }

  lemma Utf8CutsAtColon()
    ensures CutsAtColon(Utf8)
  {
    forall a: Bytes, b: Bytes ensures Utf8(a + ([COLON] + b)) <==> Utf8(a) && Utf8(b) {
      Utf8Cut(a, b);
    }
  }

  // ----- one record -----

  /** A record that the replay can receive. */
  predicate Received(text: Names, e: Entry) {
    e.kind < 0x1_0000_0000 && text(e.name)
  }

  /** Some colon of the payload follows bytes that can be part of a name. */
  predicate Readable(text: Names, payload: Bytes) {
    exists k :: 0 <= k < |payload| && payload[k] == COLON && text(payload[..k])
  }

  predicate Fixed(text: Names, e: Entry) {
    COLON !in e.name && !Readable(text, e.payload)
  }

  lemma ShiftedCut(text: Names, e: Entry, f: Entry)
    requires CutsAtColon(text) && text(e.name) && Shifted(e, f)
    ensures COLON in e.name && Readable(text, f.payload)
  {
    var u: Bytes :| e.name == f.name + ([COLON] + u) && f.payload == u + ([COLON] + e.payload);
    assert e.name[|f.name|] == COLON;
    assert text(u);
    assert f.payload[|u|] == COLON && f.payload[..|u|] == u;
  }

  lemma FixedUnique(text: Names, e: Entry, f: Entry)
    requires CutsAtColon(text) && Received(text, e) && Received(text, f) && Fixed(text, e) && Encode(e) == Encode(f)
    ensures e == f
  {
    EncodeIff(e, f);
    if Shifted(e, f) {
      ShiftedCut(text, e, f);
    } else if Shifted(f, e) {
      ShiftedCut(text, f, e);
    }
  }

  /** The record that takes its name only up to the colon at `k`. */
  function Shortened(e: Entry, k: nat): Entry
    requires k < |e.name|
  {
    Entry(e.kind, e.name[..k], e.name[k + 1..] + ([COLON] + e.payload))
  }

  /** The record that takes its payload up to the colon at `k` into its name. */
  function Lengthened(e: Entry, k: nat): Entry
    requires k < |e.payload|
  {
    Entry(e.kind, e.name + ([COLON] + e.payload[..k]), e.payload[k + 1..])
  }

  lemma ShortenedReads(text: Names, e: Entry, k: nat)
    requires CutsAtColon(text) && Received(text, e) && k < |e.name| && e.name[k] == COLON
    ensures var f := Shortened(e, k); Received(text, f) && Encode(f) == Encode(e) && f != e
  {
    var f, u := Shortened(e, k), e.name[k + 1..];
    assert e.name == f.name + ([COLON] + u);
    ShiftedSame(e, f, u);
    EncodeParts(e, f);
  }

  lemma LengthenedReads(text: Names, e: Entry, k: nat)
    requires CutsAtColon(text) && Received(text, e) && k < |e.payload| && e.payload[k] == COLON && text(e.payload[..k])
    ensures var f := Lengthened(e, k); Received(text, f) && Encode(f) == Encode(e) && COLON in f.name && f != e
  {
    var f, u := Lengthened(e, k), e.payload[..k];
    assert e.payload == u + ([COLON] + f.payload);
    ShiftedSame(f, e, u);
    EncodeParts(e, f);
    assert f.name[|e.name|] == COLON;
  }

  lemma OtherReading(text: Names, e: Entry) returns (f: Entry)
    requires CutsAtColon(text) && Received(text, e) && !Fixed(text, e)
    ensures Received(text, f) && Encode(f) == Encode(e) && f != e
  {
    if COLON in e.name {
      var k :| 0 <= k < |e.name| && e.name[k] == COLON;
      f := Shortened(e, k);
      ShortenedReads(text, e, k);
    } else {
      var k :| 0 <= k < |e.payload| && e.payload[k] == COLON && text(e.payload[..k]);
      f := Lengthened(e, k);
      LengthenedReads(text, e, k);
    }
  }

  /** A record is the only one with its encoding exactly when its name has no colon and no colon of
      its payload can end a name. */
  lemma UniqueIff(text: Names, e: Entry)
    requires CutsAtColon(text) && Received(text, e)
    ensures (forall f :: Received(text, f) && Encode(f) == Encode(e) ==> f == e) <==> Fixed(text, e)
  {
    if Fixed(text, e) {
      forall f | Received(text, f) && Encode(f) == Encode(e) ensures f == e {
        FixedUnique(text, e, f);
      }
    } else {
      var f := OtherReading(text, e);
    }
  }

  function AnyBytes(): Names {
    _ => true
  }

  predicate NoColon(e: Entry) {
    COLON !in e.name && COLON !in e.payload
  }

  lemma FixedAmongBytes(e: Entry)
    ensures CutsAtColon(AnyBytes()) && (Fixed(AnyBytes(), e) <==> NoColon(e))
  {
    if COLON in e.payload {
      var k :| 0 <= k < |e.payload| && e.payload[k] == COLON;
      assert AnyBytes()(e.payload[..k]);
    }
  }

  /** If names may be any bytes, a record is the only one with its encoding exactly when it has no
      colon at all. */
  lemma UniqueAmongBytesIff(e: Entry)
    requires e.kind < 0x1_0000_0000
    ensures (forall f: Entry :: f.kind < 0x1_0000_0000 && Encode(f) == Encode(e) ==> f == e) <==> NoColon(e)
  {
    FixedAmongBytes(e);
    UniqueIff(AnyBytes(), e);
    assert forall f :: Received(AnyBytes(), f) <==> f.kind < 0x1_0000_0000;
  }

  // ----- a log -----

  predicate AllReceived(text: Names, entries: seq<Entry>) {
    forall i :: 0 <= i < |entries| ==> Received(text, entries[i])
  }

  predicate AllFixed(text: Names, entries: seq<Entry>) {
    forall i :: 0 <= i < |entries| ==> Fixed(text, entries[i])
  }

  lemma FixedSame(text: Names, a: seq<Entry>, b: seq<Entry>)
    requires CutsAtColon(text) && AllReceived(text, a) && AllReceived(text, b) && AllFixed(text, a) && SameEncodings(a, b)
    ensures a == b
  {
    forall i | 0 <= i < |a| ensures a[i] == b[i] {
      FixedUnique(text, a[i], b[i]);
    }
  }

  lemma OtherLog(text: Names, a: seq<Entry>, i: nat) returns (b: seq<Entry>)
    requires CutsAtColon(text) && AllReceived(text, a) && i < |a| && !Fixed(text, a[i])
    ensures AllReceived(text, b) && SameEncodings(a, b) && b != a
  {
    var f := OtherReading(text, a[i]);
    b := a[i := f];
    assert b[i] != a[i];
  }

  ghost predicate BoundLog(h: Hash, text: Names, a: seq<Entry>, b: seq<Entry>) {
    AllReceived(text, b) && Chain(h, b) == Chain(h, a) ==> b == a || Broken(h, Extract(h, a, b))
  }

  /** A register value binds a log, up to breaking the hash function, exactly when every record of the
      log is fixed. */
  lemma ChainBoundIff(h: Hash, text: Names, a: seq<Entry>)
    requires CutsAtColon(text) && AllReceived(text, a)
    ensures (forall b :: BoundLog(h, text, a, b)) <==> AllFixed(text, a)
  {
    if AllFixed(text, a) {
      forall b ensures BoundLog(h, text, a, b) {
        if AllReceived(text, b) && Chain(h, b) == Chain(h, a) {
          ChainBinding(h, a, b);
          if SameEncodings(a, b) {
            FixedSame(text, a, b);
          }
        }
      }
    } else {
      var i :| 0 <= i < |a| && !Fixed(text, a[i]);
      var b := OtherLog(text, a, i);
      SameEncodingsChain(h, a, b);
      NothingExtracted(h, a, b);
      assert !BoundLog(h, text, a, b);
    }
  }

  /** If names may be any bytes, a register value binds a log exactly when the log has no colon. */
  lemma ChainBoundAmongBytesIff(h: Hash, a: seq<Entry>)
    requires AllReceived(AnyBytes(), a)
    ensures (forall b :: BoundLog(h, AnyBytes(), a, b)) <==> forall i :: 0 <= i < |a| ==> NoColon(a[i])
  {
    forall i | 0 <= i < |a| ensures Fixed(AnyBytes(), a[i]) <==> NoColon(a[i]) {
      FixedAmongBytes(a[i]);
    }
    FixedAmongBytes(Entry(0, [], []));
    ChainBoundIff(h, AnyBytes(), a);
  }

  // ----- the identity, from entries -----

  function SlotName(slot: Slot): Bytes {
    match slot
    case Compose => Ascii("compose-hash")
    case AppId => Ascii("app-id")
    case Kms => Ascii("mr-kms")
    case KeyProvider => Ascii("key-provider")
  }

  lemma SlotNames(slot: Slot)
    ensures SlotOf(SlotName(slot)) == Some(slot) && COLON !in SlotName(slot)
  {
    var a, b, c, d := Ascii("compose-hash"), Ascii("app-id"), Ascii("mr-kms"), Ascii("key-provider");
    assert |a| == 12 && |b| == 6 && |c| == 6 && |d| == 12;
    assert a[0] == 99 && b[0] == 97 && c[0] == 109 && d[0] == 107;
    assert forall i :: 0 <= i < |"compose-hash"| ==> "compose-hash"[i] != ':';
    assert forall i :: 0 <= i < |"app-id"| ==> "app-id"[i] != ':';
    assert forall i :: 0 <= i < |"mr-kms"| ==> "mr-kms"[i] != ':';
    assert forall i :: 0 <= i < |"key-provider"| ==> "key-provider"[i] != ':';
  }

  lemma FillsIffNamed(e: Entry, slot: Slot)
    ensures Fills(e, slot) <==> e.kind == IDENTITY_EVENT && e.name == SlotName(slot)
  {
    SlotNames(slot);
  }

  /** The identity events that `AcceptedIff` asks for. */
  predicate IdentityEvents(a: seq<Entry>) {
    && (forall slot: Slot :: LengthsAllowed(a, slot) && AtMostOneFill(a, slot))
    && Filled(a, Compose) && Filled(a, Kms) && Filled(a, KeyProvider)
  }

  predicate HasPayload(a: seq<Entry>, slot: Slot, p: Bytes) {
    exists i :: 0 <= i < |a| && Fills(a[i], slot) && a[i].payload == p
  }

  function AsFill(slot: Slot, p: Bytes): Entry {
    Entry(IDENTITY_EVENT, SlotName(slot), p)
  }

  /** The bytes of the record can be read as the event that fills `slot` with `p`. */
  predicate Candidate(e: Entry, slot: Slot, p: Bytes) {
    Encode(e) == Encode(AsFill(slot, p)) && LengthAllowed(slot, |p|)
  }

  /** No other reading of the log fills the slot differently: the record that fills it cannot be read
      otherwise, or the slot is required and every record that could fill it has the same payload; if
      none fills it, none could. */
  ghost predicate SlotBound(text: Names, a: seq<Entry>, slot: Slot) {
    if Filled(a, slot) then
      forall i :: 0 <= i < |a| && Fills(a[i], slot) ==> Settled(text, a, slot, a[i].payload)
    else NoCandidate(a, slot)
  }

  ghost predicate Settled(text: Names, a: seq<Entry>, slot: Slot, payload: Bytes) {
    !Readable(text, payload) || (slot != AppId && OnlyCandidate(a, slot, payload))
  }

  ghost predicate OnlyCandidate(a: seq<Entry>, slot: Slot, payload: Bytes) {
    forall j, p :: 0 <= j < |a| && Candidate(a[j], slot, p) ==> p == payload
  }

  ghost predicate NoCandidate(a: seq<Entry>, slot: Slot) {
    forall j, p :: 0 <= j < |a| ==> !Candidate(a[j], slot, p)
  }

  lemma FillIsNamed(e: Entry, slot: Slot)
    requires Fills(e, slot)
    ensures e == AsFill(slot, e.payload) && COLON !in e.name
  {
    FillsIffNamed(e, slot);
    SlotNames(slot);
  }

  lemma ColonFillsNothing(e: Entry, slot: Slot)
    requires COLON in e.name
    ensures !Fills(e, slot)
  {
    FillsIffNamed(e, slot);
    SlotNames(slot);
  }

  lemma OnePayload(a: seq<Entry>, i: nat, slot: Slot, p: Bytes)
    requires AtMostOneFill(a, slot) && i < |a| && Fills(a[i], slot)
    ensures HasPayload(a, slot, p) <==> p == a[i].payload
  {
    if HasPayload(a, slot, p) {
      var k :| 0 <= k < |a| && Fills(a[k], slot) && a[k].payload == p;
      assert k == i;
    }
  }

  /** Where another reading fills a slot, the log has a candidate for it. */
  lemma FillIsCandidate(a: seq<Entry>, b: seq<Entry>, k: nat, slot: Slot)
    requires SameEncodings(a, b) && k < |b| && Fills(b[k], slot) && LengthsAllowed(b, slot)
    ensures Candidate(a[k], slot, b[k].payload)
  {
    FillIsNamed(b[k], slot);
  }

  lemma SettledPayload(text: Names, a: seq<Entry>, b: seq<Entry>, slot: Slot, i: nat, p: Bytes)
    requires CutsAtColon(text) && AllReceived(text, a) && AllReceived(text, b) && SameEncodings(a, b) && IdentityEvents(b)
    requires i < |a| && Fills(a[i], slot) && Settled(text, a, slot, a[i].payload)
    ensures HasPayload(b, slot, p) <==> p == a[i].payload
  {
    if !Readable(text, a[i].payload) {
      FillIsNamed(a[i], slot);
      FixedUnique(text, a[i], b[i]);
      OnePayload(b, i, slot, p);
    } else {
      var k :| 0 <= k < |b| && Fills(b[k], slot);
      FillIsCandidate(a, b, k, slot);
      OnePayload(b, k, slot, p);
    }
  }

  lemma BoundSlot(text: Names, a: seq<Entry>, b: seq<Entry>, slot: Slot, p: Bytes)
    requires CutsAtColon(text) && AllReceived(text, a) && AllReceived(text, b) && SameEncodings(a, b)
    requires IdentityEvents(a) && IdentityEvents(b) && SlotBound(text, a, slot)
    ensures HasPayload(a, slot, p) <==> HasPayload(b, slot, p)
  {
    if i :| 0 <= i < |a| && Fills(a[i], slot) {
      OnePayload(a, i, slot, p);
      SettledPayload(text, a, b, slot, i, p);
    } else if k :| 0 <= k < |b| && Fills(b[k], slot) {
      FillIsCandidate(a, b, k, slot);
    }
  }

  // ----- changing what fills one slot -----

  /** The two logs differ at most in what fills `slot`. */
  predicate OnlySlot(a: seq<Entry>, b: seq<Entry>, slot: Slot) {
    |a| == |b| && forall m, t: Slot :: 0 <= m < |a| && t != slot && (Fills(a[m], t) || Fills(b[m], t)) ==> a[m] == b[m]
  }

  lemma OtherSlotsKept(a: seq<Entry>, b: seq<Entry>, slot: Slot, t: Slot)
    requires OnlySlot(a, b, slot) && t != slot && LengthsAllowed(a, t) && AtMostOneFill(a, t)
    ensures LengthsAllowed(b, t) && AtMostOneFill(b, t) && (Filled(a, t) ==> Filled(b, t))
  {
    if Filled(a, t) {
      var i :| 0 <= i < |a| && Fills(a[i], t);
      assert Fills(b[i], t);
    }
  }

  lemma StaysIdentity(a: seq<Entry>, b: seq<Entry>, slot: Slot)
    requires IdentityEvents(a) && OnlySlot(a, b, slot) && LengthsAllowed(b, slot) && AtMostOneFill(b, slot)
    requires slot == AppId || Filled(b, slot)
    ensures IdentityEvents(b)
  {
    forall t: Slot ensures LengthsAllowed(b, t) && AtMostOneFill(b, t) && (t != AppId ==> Filled(b, t)) {
      if t != slot {
        OtherSlotsKept(a, b, slot, t);
      }
    }
  }

  lemma CandidateReads(text: Names, e: Entry, slot: Slot, p: Bytes)
    requires CutsAtColon(text) && Received(text, e) && Candidate(e, slot, p)
    ensures Received(text, AsFill(slot, p)) && Fills(AsFill(slot, p), slot)
    ensures Fills(e, slot) ==> e.payload == p
    ensures !Fills(e, slot) ==> COLON in e.name
  {
    var g := AsFill(slot, p);
    SlotNames(slot);
    FillsIffNamed(g, slot);
    FillsIffNamed(e, slot);
    EncodeIff(e, g);
    if Shifted(e, g) {
      ShiftedCut(text, e, g);
    }
    EncodeParts(e, g);
  }

  lemma NoOtherFill(a: seq<Entry>, i: nat, m: nat, slot: Slot)
    requires AtMostOneFill(a, slot) && i < |a| && m < |a| && m != i && Fills(a[i], slot)
    ensures !Fills(a[m], slot)
  {
    var x, y := if m < i then m else i, if m < i then i else m;
    assert !(Fills(a[x], slot) && Fills(a[y], slot));
  }

  /** Reading the record that fills a slot with a longer name empties the slot. */
  lemma Emptied(text: Names, a: seq<Entry>, i: nat, slot: Slot) returns (b: seq<Entry>)
    requires CutsAtColon(text) && AllReceived(text, a) && i < |a| && AtMostOneFill(a, slot)
    requires Fills(a[i], slot) && Readable(text, a[i].payload)
    ensures AllReceived(text, b) && SameEncodings(a, b) && OnlySlot(a, b, slot) && NoFill(b, slot)
    ensures b == a[i := b[i]]
  {
    var k :| 0 <= k < |a[i].payload| && a[i].payload[k] == COLON && text(a[i].payload[..k]);
    var f := Lengthened(a[i], k);
    LengthenedReads(text, a[i], k);
    FillIsNamed(a[i], slot);
    b := a[i := f];
    forall t: Slot ensures !Fills(f, t) && (t != slot ==> !Fills(a[i], t)) {
      ColonFillsNothing(f, t);
    }
    forall m | 0 <= m < |b| ensures !Fills(b[m], slot) {
      if m != i {
        NoOtherFill(a, i, m, slot);
      }
    }
  }

  /** Reading a candidate as the event it could be fills an empty slot. */
  lemma Refilled(text: Names, a: seq<Entry>, j: nat, slot: Slot, p: Bytes) returns (b: seq<Entry>)
    requires CutsAtColon(text) && AllReceived(text, a) && j < |a| && NoFill(a, slot) && Candidate(a[j], slot, p)
    ensures AllReceived(text, b) && SameEncodings(a, b) && OnlySlot(a, b, slot)
    ensures LengthsAllowed(b, slot) && AtMostOneFill(b, slot) && Filled(b, slot) && HasPayload(b, slot, p)
  {
    var g := AsFill(slot, p);
    CandidateReads(text, a[j], slot, p);
    b := a[j := g];
    forall t: Slot ensures !Fills(a[j], t) && (t != slot ==> !Fills(g, t)) {
      ColonFillsNothing(a[j], t);
    }
    assert Fills(b[j], slot) && b[j].payload == p;
  }

  lemma OnlySlotTwice(a: seq<Entry>, b: seq<Entry>, c: seq<Entry>, slot: Slot)
    requires OnlySlot(a, b, slot) && OnlySlot(b, c, slot) && SameEncodings(a, b) && SameEncodings(b, c)
    ensures OnlySlot(a, c, slot) && SameEncodings(a, c)
  {
    forall m, t: Slot | 0 <= m < |a| && t != slot && (Fills(a[m], t) || Fills(c[m], t)) ensures a[m] == c[m] {
      assert Fills(b[m], t);
    }
  }

  /** Another reading of the log, accepted as well, that fills the slot differently. */
  ghost predicate Differs(text: Names, a: seq<Entry>, slot: Slot, b: seq<Entry>, p: Bytes) {
    AllReceived(text, b) && SameEncodings(a, b) && IdentityEvents(b) && HasPayload(a, slot, p) != HasPayload(b, slot, p)
  }

  lemma WithoutApp(text: Names, a: seq<Entry>, i: nat) returns (b: seq<Entry>)
    requires CutsAtColon(text) && AllReceived(text, a) && IdentityEvents(a) && i < |a|
    requires Fills(a[i], AppId) && Readable(text, a[i].payload)
    ensures Differs(text, a, AppId, b, a[i].payload)
  {
    b := Emptied(text, a, i, AppId);
    StaysIdentity(a, b, AppId);
    OnePayload(a, i, AppId, a[i].payload);
  }

  lemma Exchanged(text: Names, a: seq<Entry>, i: nat, j: nat, slot: Slot, p: Bytes) returns (b: seq<Entry>)
    requires CutsAtColon(text) && AllReceived(text, a) && IdentityEvents(a) && i < |a| && j < |a|
    requires Fills(a[i], slot) && Readable(text, a[i].payload) && Candidate(a[j], slot, p) && p != a[i].payload
    ensures Differs(text, a, slot, b, p)
  {
    var emptied := Emptied(text, a, i, slot);
    b := Refilled(text, emptied, j, slot, p);
    OnlySlotTwice(a, emptied, b, slot);
    StaysIdentity(a, b, slot);
    OnePayload(a, i, slot, p);
  }

  lemma FilledAnew(text: Names, a: seq<Entry>, j: nat, slot: Slot, p: Bytes) returns (b: seq<Entry>)
    requires CutsAtColon(text) && AllReceived(text, a) && IdentityEvents(a) && j < |a|
    requires !Filled(a, slot) && Candidate(a[j], slot, p)
    ensures Differs(text, a, slot, b, p)
  {
    b := Refilled(text, a, j, slot, p);
    StaysIdentity(a, b, slot);
  }

  /** A slot that is not bound is filled differently by another reading of the log. */
  lemma OtherIdentity(text: Names, a: seq<Entry>, slot: Slot) returns (b: seq<Entry>, p: Bytes)
    requires CutsAtColon(text) && AllReceived(text, a) && IdentityEvents(a) && !SlotBound(text, a, slot)
    ensures Differs(text, a, slot, b, p)
  {
    if Filled(a, slot) {
      var i :| 0 <= i < |a| && Fills(a[i], slot) && !Settled(text, a, slot, a[i].payload);
      if slot == AppId {
        p := a[i].payload;
        b := WithoutApp(text, a, i);
      } else {
        var j, q :| 0 <= j < |a| && Candidate(a[j], slot, q) && q != a[i].payload;
        p := q;
        b := Exchanged(text, a, i, j, slot, q);
      }
    } else {
      var j, q :| 0 <= j < |a| && Candidate(a[j], slot, q);
      p := q;
      b := FilledAnew(text, a, j, slot, q);
    }
  }

  /** The readings of an accepted log agree on its identity exactly when every slot is bound. */
  lemma IdentityBoundIff(text: Names, a: seq<Entry>)
    requires CutsAtColon(text) && AllReceived(text, a) && IdentityEvents(a)
    ensures (forall slot: Slot, b, p :: !Differs(text, a, slot, b, p)) <==> forall slot: Slot :: SlotBound(text, a, slot)
  {
    if slot: Slot :| !SlotBound(text, a, slot) {
      var b, p := OtherIdentity(text, a, slot);
    } else {
      forall slot: Slot, b, p ensures !Differs(text, a, slot, b, p) {
        if AllReceived(text, b) && SameEncodings(a, b) && IdentityEvents(b) {
          BoundSlot(text, a, b, slot, p);
        }
      }
    }
  }

  // ----- logs as they are replayed -----

  /** A log that holds exactly these entries. */
  function EventsOf(entries: seq<Entry>): seq<Event> {
    if entries == [] then []
    else
      var e := entries[0];
      [Event(Some(3), Some(e.kind), Some(e.name), Some(HexText(e.payload)), Some([]))] + EventsOf(entries[1..])
  }

  lemma {:induction false} EventsOfEntries(h: Hash, entries: seq<Entry>)
    requires forall i :: 0 <= i < |entries| ==> entries[i].kind < 0x1_0000_0000
    ensures Entries(EventsOf(entries)) == entries
    ensures forall i :: 0 <= i < |EventsOf(entries)| ==> RecordValid(h, EventsOf(entries)[i])
  {
    if entries != [] {
      var events := EventsOf(entries);
      HexRoundTrip(entries[0].payload);
      EventsOfEntries(h, entries[1..]);
      assert events[1..] == EventsOf(entries[1..]);
      assert Decode(events[0]) == Ok(entries[0]);
      assert RecordValid(h, events[0]);
    }
  }

  lemma HexTextInjective(p: Bytes, q: Bytes)
    requires HexText(p) == HexText(q)
    ensures p == q
  {
    HexRoundTrip(p);
    HexRoundTrip(q);
  }

  /** A slot ends with the text of the payload that fills it. */
  lemma SlotText(h: Hash, entries: seq<Entry>, slot: Slot, p: Bytes)
    requires AbsorbAll(h, Start(), entries).Ok?
    ensures Get(AbsorbAll(h, Start(), entries).value.slots, slot) == Some(HexText(p)) <==> HasPayload(entries, slot, p)
  {
    var i := SlotExtracted(h, Start(), entries, slot);
    var value := Get(AbsorbAll(h, Start(), entries).value.slots, slot);
    if value.Some? {
      if value.value == HexText(p) {
        HexTextInjective(p, entries[i].payload);
      }
      if HasPayload(entries, slot, p) {
        var k :| 0 <= k < |entries| && Fills(entries[k], slot) && entries[k].payload == p;
        assert k == i;
      }
    }
  }

  lemma SameSlot(h: Hash, a: seq<Entry>, b: seq<Entry>, slot: Slot)
    requires AbsorbAll(h, Start(), a).Ok? && AbsorbAll(h, Start(), b).Ok?
    requires forall p :: HasPayload(a, slot, p) <==> HasPayload(b, slot, p)
    ensures Get(AbsorbAll(h, Start(), a).value.slots, slot) == Get(AbsorbAll(h, Start(), b).value.slots, slot)
  {
    var i := SlotExtracted(h, Start(), a, slot);
    var j := SlotExtracted(h, Start(), b, slot);
    if Get(AbsorbAll(h, Start(), a).value.slots, slot).Some? {
      SlotText(h, a, slot, a[i].payload);
      SlotText(h, b, slot, a[i].payload);
    } else if Get(AbsorbAll(h, Start(), b).value.slots, slot).Some? {
      SlotText(h, a, slot, b[j].payload);
      SlotText(h, b, slot, b[j].payload);
    }
  }

  lemma SameSlots(s: Slots, t: Slots)
    requires forall slot: Slot :: Get(s, slot) == Get(t, slot)
    ensures s == t
  {
    assert Get(s, Compose) == Get(t, Compose) && Get(s, AppId) == Get(t, AppId);
    assert Get(s, Kms) == Get(t, Kms) && Get(s, KeyProvider) == Get(t, KeyProvider);
  }

  /** Two logs accepted for one register value give the same identity exactly when they fill the slots
      with the same payloads. */
  lemma SameIdentityIff(h: Hash, a: seq<Event>, b: seq<Event>, quoted: Bytes)
    requires Identity(h, a, quoted).Ok? && Identity(h, b, quoted).Ok?
    ensures Identity(h, a, quoted) == Identity(h, b, quoted) <==>
            forall slot: Slot, p :: HasPayload(Entries(a), slot, p) <==> HasPayload(Entries(b), slot, p)
  {
    var x, y := Entries(a), Entries(b);
    AcceptedChain(h, a, quoted);
    AcceptedChain(h, b, quoted);
    var s, t := AbsorbAll(h, Start(), x).value.slots, AbsorbAll(h, Start(), y).value.slots;
    if forall slot: Slot, p :: HasPayload(x, slot, p) <==> HasPayload(y, slot, p) {
      forall slot: Slot ensures Get(s, slot) == Get(t, slot) {
        SameSlot(h, x, y, slot);
      }
      SameSlots(s, t);
    }
    if Identity(h, a, quoted) == Identity(h, b, quoted) {
      RunIsAbsorb(h, Start(), a);
      RunIsAbsorb(h, Start(), b);
      IdentityDeterminesComponents(h, a, quoted, b, quoted);
      forall slot: Slot, p ensures HasPayload(x, slot, p) <==> HasPayload(y, slot, p) {
        SlotText(h, x, slot, p);
        SlotText(h, y, slot, p);
      }
    }
  }

  ghost predicate BoundIdentity(h: Hash, text: Names, a: seq<Event>, b: seq<Event>, quoted: Bytes) {
    AllReceived(text, Entries(b)) && Identity(h, b, quoted).Ok? ==>
      Identity(h, b, quoted) == Identity(h, a, quoted) || Broken(h, Extract(h, Entries(a), Entries(b)))
  }

  lemma BoundSlotsBind(h: Hash, text: Names, a: seq<Event>, b: seq<Event>, quoted: Bytes)
    requires CutsAtColon(text) && AllReceived(text, Entries(a)) && Identity(h, a, quoted).Ok?
    requires forall slot: Slot :: SlotBound(text, Entries(a), slot)
    ensures BoundIdentity(h, text, a, b, quoted)
  {
    var x, y := Entries(a), Entries(b);
    if AllReceived(text, y) && Identity(h, b, quoted).Ok? {
      AcceptedEvents(h, a, quoted);
      AcceptedEvents(h, b, quoted);
      ChainBinding(h, x, y);
      if SameEncodings(x, y) {
        forall slot: Slot, p ensures HasPayload(x, slot, p) <==> HasPayload(y, slot, p) {
          BoundSlot(text, x, y, slot, p);
        }
        SameIdentityIff(h, a, b, quoted);
      }
    }
  }

  lemma AcceptedEvents(h: Hash, events: seq<Event>, quoted: Bytes)
    ensures Identity(h, events, quoted).Ok? <==>
            && (forall i :: 0 <= i < |events| ==> RecordValid(h, events[i]))
            && IdentityEvents(Entries(events)) && Hex(quoted) == Some(Chain(h, Entries(events)))
  {
    AcceptedIff(h, events, quoted);
  }

  /** Every other reading with its identity events is accepted for the same register value. */
  lemma ReadingAccepted(h: Hash, a: seq<Event>, quoted: Bytes, y: seq<Entry>)
    requires Identity(h, a, quoted).Ok? && SameEncodings(Entries(a), y) && IdentityEvents(y)
    requires forall i :: 0 <= i < |y| ==> y[i].kind < 0x1_0000_0000
    ensures Entries(EventsOf(y)) == y && Identity(h, EventsOf(y), quoted).Ok? && Extract(h, Entries(a), y) == None
  {
    EventsOfEntries(h, y);
    AcceptedEvents(h, a, quoted);
    AcceptedEvents(h, EventsOf(y), quoted);
    SameEncodingsChain(h, Entries(a), y);
    NothingExtracted(h, Entries(a), y);
  }

  lemma UnboundSlotDiffers(h: Hash, text: Names, a: seq<Event>, quoted: Bytes, slot: Slot) returns (b: seq<Event>)
    requires CutsAtColon(text) && AllReceived(text, Entries(a)) && Identity(h, a, quoted).Ok?
    requires !SlotBound(text, Entries(a), slot)
    ensures !BoundIdentity(h, text, a, b, quoted)
  {
    AcceptedEvents(h, a, quoted);
    var y, p := OtherIdentity(text, Entries(a), slot);
    ReadingAccepted(h, a, quoted, y);
    b := EventsOf(y);
    SameIdentityIff(h, a, b, quoted);
  }

  /** The register value of an accepted log binds its identity, up to breaking the hash function,
      exactly when every slot of the log is bound. */
  lemma LogIdentityIff(h: Hash, text: Names, a: seq<Event>, quoted: Bytes)
    requires CutsAtColon(text) && AllReceived(text, Entries(a)) && Identity(h, a, quoted).Ok?
    ensures (forall b :: BoundIdentity(h, text, a, b, quoted)) <==> forall slot: Slot :: SlotBound(text, Entries(a), slot)
  {
    if slot: Slot :| !SlotBound(text, Entries(a), slot) {
      var b := UnboundSlotDiffers(h, text, a, quoted, slot);
    } else {
      forall b ensures BoundIdentity(h, text, a, b, quoted) {
        BoundSlotsBind(h, text, a, b, quoted);
      }
    }
  }

  /** An accepted log whose records are all fixed is the only one, up to breaking the hash function. */
  lemma LogBinding(h: Hash, text: Names, a: seq<Event>, b: seq<Event>, quoted: Bytes)
    requires CutsAtColon(text) && AllReceived(text, Entries(a)) && AllReceived(text, Entries(b))
    requires Identity(h, a, quoted).Ok? && Identity(h, b, quoted).Ok? && AllFixed(text, Entries(a))
    ensures || (Entries(a) == Entries(b) && Identity(h, a, quoted) == Identity(h, b, quoted))
            || Broken(h, Extract(h, Entries(a), Entries(b)))
  {
    AcceptedChain(h, a, quoted);
    AcceptedChain(h, b, quoted);
    ChainBinding(h, Entries(a), Entries(b));
    if SameEncodings(Entries(a), Entries(b)) {
      FixedSame(text, Entries(a), Entries(b));
    }
  }

  predicate PlainNames(entries: seq<Entry>) {
    forall i :: 0 <= i < |entries| ==> COLON !in entries[i].name
  }

  /** Among logs without colons in their names, whatever their payloads, the register value binds. */
  lemma PlainLogBinding(h: Hash, a: seq<Event>, b: seq<Event>, quoted: Bytes)
    requires Identity(h, a, quoted).Ok? && Identity(h, b, quoted).Ok?
    requires PlainNames(Entries(a)) && PlainNames(Entries(b))
    ensures || (Entries(a) == Entries(b) && Identity(h, a, quoted) == Identity(h, b, quoted))
            || Broken(h, Extract(h, Entries(a), Entries(b)))
  {
    var x, y := Entries(a), Entries(b);
    AcceptedChain(h, a, quoted);
    AcceptedChain(h, b, quoted);
    ChainBinding(h, x, y);
    EntryKinds(a);
    EntryKinds(b);
    if SameEncodings(x, y) {
      forall i | 0 <= i < |x| ensures x[i] == y[i] {
        EncodeParts(x[i], y[i]);
        CutAtColon(x[i].name, x[i].payload, y[i].name, y[i].payload);
      }
      assert x == y;
    }
  }

  // ----- a log whose identity is not bound -----

  function Repeated(b: Byte, n: nat): Bytes {
    seq(n, _ => b)
  }

  /** Two records that can both be read as the compose hash, and the other required events. */
  function Honest(kms: Bytes, provider: Bytes): seq<Entry> {
    [AsFill(Compose, [COLON] + Repeated(0, 31)),
     Entry(IDENTITY_EVENT, SlotName(Compose) + [COLON], Repeated(1, 31)),
     AsFill(Kms, kms), AsFill(KeyProvider, provider)]
  }

  function Reread(kms: Bytes, provider: Bytes): seq<Entry> {
    [Entry(IDENTITY_EVENT, SlotName(Compose) + [COLON], Repeated(0, 31)),
     AsFill(Compose, [COLON] + Repeated(1, 31)),
     AsFill(Kms, kms), AsFill(KeyProvider, provider)]
  }

  lemma SameLine(tail: Bytes)
    ensures Encode(AsFill(Compose, [COLON] + tail)) == Encode(Entry(IDENTITY_EVENT, SlotName(Compose) + [COLON], tail))
  {
    var e, f := AsFill(Compose, [COLON] + tail), Entry(IDENTITY_EVENT, SlotName(Compose) + [COLON], tail);
    assert e.payload == [] + ([COLON] + f.payload) && f.name == e.name + ([COLON] + []);
    ShiftedSame(f, e, []);
    EncodeParts(e, f);
  }

  lemma RereadSame(kms: Bytes, provider: Bytes)
    ensures SameEncodings(Honest(kms, provider), Reread(kms, provider))
  {
    SameLine(Repeated(0, 31));
    SameLine(Repeated(1, 31));
  }

  lemma FillOf(slot: Slot, p: Bytes, t: Slot)
    ensures Fills(AsFill(slot, p), t) <==> t == slot
  {
    FillsIffNamed(AsFill(slot, p), slot);
  }

  /** The compose hash at `i`, a record that could be one at `j`, and the two other required events. */
  ghost predicate FourRecords(entries: seq<Entry>, i: nat, j: nat) {
    && |entries| == 4 && i < 2 && j == 1 - i && COLON in entries[j].name
    && entries[i] == AsFill(Compose, entries[i].payload) && |entries[i].payload| == 32
    && entries[2] == AsFill(Kms, entries[2].payload) && |entries[2].payload| == 32
    && entries[3] == AsFill(KeyProvider, entries[3].payload) && entries[3].payload != []
  }

  lemma FourFills(entries: seq<Entry>, i: nat, j: nat, t: Slot)
    requires FourRecords(entries, i, j)
    ensures Fills(entries[i], t) <==> t == Compose
    ensures Fills(entries[2], t) <==> t == Kms
    ensures Fills(entries[3], t) <==> t == KeyProvider
    ensures !Fills(entries[j], t)
  {
    FillOf(Compose, entries[i].payload, t);
    FillOf(Kms, entries[2].payload, t);
    FillOf(KeyProvider, entries[3].payload, t);
    ColonFillsNothing(entries[j], t);
  }

  lemma FourSlots(entries: seq<Entry>, i: nat, j: nat, t: Slot)
    requires FourRecords(entries, i, j)
    ensures LengthsAllowed(entries, t) && AtMostOneFill(entries, t) && (t != AppId ==> Filled(entries, t))
  {
    FourFills(entries, i, j, t);
  }

  lemma FourIdentity(entries: seq<Entry>, i: nat, j: nat, p: Bytes)
    requires FourRecords(entries, i, j)
    ensures IdentityEvents(entries) && (HasPayload(entries, Compose, p) <==> p == entries[i].payload)
  {
    forall t: Slot ensures LengthsAllowed(entries, t) && AtMostOneFill(entries, t) && (t != AppId ==> Filled(entries, t)) {
      FourSlots(entries, i, j, t);
    }
    FourFills(entries, i, j, Compose);
    OnePayload(entries, i, Compose, p);
  }

  ghost predicate TwoReadings(h: Hash, x: seq<Entry>, y: seq<Entry>) {
    var quoted := HexText(Chain(h, x));
    && Entries(EventsOf(x)) == x && Entries(EventsOf(y)) == y && Extract(h, x, y) == None
    && Identity(h, EventsOf(x), quoted).Ok? && Identity(h, EventsOf(y), quoted).Ok?
    && Identity(h, EventsOf(x), quoted) != Identity(h, EventsOf(y), quoted)
  }

  lemma ReadingsDiffer(h: Hash, x: seq<Entry>, y: seq<Entry>, slot: Slot, p: Bytes)
    requires IdentityEvents(x) && IdentityEvents(y) && SameEncodings(x, y) && HasPayload(x, slot, p) && !HasPayload(y, slot, p)
    requires forall i :: 0 <= i < |x| ==> x[i].kind < 0x1_0000_0000 && y[i].kind < 0x1_0000_0000
    ensures TwoReadings(h, x, y)
  {
    var quoted := HexText(Chain(h, x));
    EventsOfEntries(h, x);
    HexRoundTrip(Chain(h, x));
    AcceptedEvents(h, EventsOf(x), quoted);
    ReadingAccepted(h, EventsOf(x), quoted, y);
    SameIdentityIff(h, EventsOf(x), EventsOf(y), quoted);
  }

  lemma {:induction false} AsciiIsUtf8(s: Bytes)
    requires forall i :: 0 <= i < |s| ==> s[i] < 128
    ensures Utf8(s)
  {
    if s != [] {
      AsciiIsUtf8(s[1..]);
    }
  }

  lemma AsciiTextUtf8(s: string)
    requires forall i :: 0 <= i < |s| ==> s[i] as int < 128
    ensures Utf8(Ascii(s))
  {
    AsciiIsUtf8(Ascii(s));
  }

  lemma SlotNameUtf8(slot: Slot)
    ensures Utf8(SlotName(slot))
  {
    match slot
    case Compose => AsciiTextUtf8("compose-hash");
    case AppId => AsciiTextUtf8("app-id");
    case Kms => AsciiTextUtf8("mr-kms");
    case KeyProvider => AsciiTextUtf8("key-provider");
  }

  lemma HonestReceived(text: Names, kms: Bytes, provider: Bytes)
    requires CutsAtColon(text) && text([]) && forall slot: Slot :: text(SlotName(slot))
    ensures AllReceived(text, Honest(kms, provider)) && AllReceived(text, Reread(kms, provider))
  {
    var name := SlotName(Compose);
    assert name + ([COLON] + []) == name + [COLON];
    assert text(name) && text(name + ([COLON] + []));
    assert text(SlotName(Kms)) && text(SlotName(KeyProvider));
  }

  lemma HonestUtf8(kms: Bytes, provider: Bytes)
    ensures AllReceived(Utf8, Honest(kms, provider)) && AllReceived(Utf8, Reread(kms, provider))
  {
    Utf8CutsAtColon();
    forall slot: Slot ensures Utf8(SlotName(slot)) {
      SlotNameUtf8(slot);
    }
    HonestReceived(Utf8, kms, provider);
  }

  lemma FourReadings(h: Hash, x: seq<Entry>, y: seq<Entry>, p: Bytes)
    requires FourRecords(x, 0, 1) && FourRecords(y, 1, 0) && SameEncodings(x, y)
    requires x[0].payload == p && y[1].payload != p
    requires forall i :: 0 <= i < |x| ==> x[i].kind < 0x1_0000_0000 && y[i].kind < 0x1_0000_0000
    ensures TwoReadings(h, x, y)
  {
    FourIdentity(x, 0, 1, p);
    FourIdentity(y, 1, 0, p);
    ReadingsDiffer(h, x, y, Compose, p);
  }

  lemma HonestReadings(h: Hash, kms: Bytes, provider: Bytes)
    requires |kms| == 32 && provider != []
    ensures TwoReadings(h, Honest(kms, provider), Reread(kms, provider))
  {
    var x, y := Honest(kms, provider), Reread(kms, provider);
    var p := [COLON] + Repeated(0, 31);
    RereadSame(kms, provider);
    HonestFour(kms, provider);
    RereadFour(kms, provider);
    FourReadings(h, x, y, p);
  }

  lemma HonestFour(kms: Bytes, provider: Bytes)
    requires |kms| == 32 && provider != []
    ensures FourRecords(Honest(kms, provider), 0, 1) && Honest(kms, provider)[0].payload == [COLON] + Repeated(0, 31)
  {
    assert Honest(kms, provider)[1].name[|SlotName(Compose)|] == COLON;
  }

  lemma RereadFour(kms: Bytes, provider: Bytes)
    requires |kms| == 32 && provider != []
    ensures FourRecords(Reread(kms, provider), 1, 0) && Reread(kms, provider)[1].payload != [COLON] + Repeated(0, 31)
  {
    assert Reread(kms, provider)[0].name[|SlotName(Compose)|] == COLON;
    assert Reread(kms, provider)[1].payload[1] != ([COLON] + Repeated(0, 31))[1];
  }

  /** For every hash function, two logs with UTF-8 names are accepted for one register value with
      different identities, and nothing breaks the hash function. */
  lemma TwoIdentities(h: Hash, kms: Bytes, provider: Bytes)
    requires |kms| == 32 && provider != []
    ensures AllReceived(Utf8, Honest(kms, provider)) && AllReceived(Utf8, Reread(kms, provider))
    ensures TwoReadings(h, Honest(kms, provider), Reread(kms, provider))
  {
    HonestUtf8(kms, provider);
    HonestReadings(h, kms, provider);
  }
}
