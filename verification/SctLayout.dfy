/** The structures of section 3.2 of RFC 6962 byte by byte: a reader for what a log signs, written with
    the positions and values of the structure, a reader for one timestamp, the time window of a log,
    and the layout of its public key. */
module SctLayout {
  import opened Common
  import opened Positional
  import opened Der
  import opened Sct

  // ----- what a log signs -----

  datatype Fields = Fields(timestamp: Bytes, issuerHash: Bytes, tbs: Bytes, extensions: Bytes)

  /** Two or three bytes as a number, the highest first. */
  function Number(s: Bytes): nat
    requires 2 <= |s| <= 3
  {
    if |s| == 2 then 256 * (s[0] as int) + s[1] as int
    else 65536 * (s[0] as int) + 256 * (s[1] as int) + s[2] as int
  }

  /** Version v1 (0), signature type certificate_timestamp (0), 8 bytes of time, entry type precert_entry
      (0 1), 32 bytes of issuer key hash, a body with a 24-bit length and extensions with a 16-bit length. */
  function ReadEntry(t: Bytes): Option<Fields> {
    if |t| < 47 || t[0] != 0 || t[1] != 0 || t[10] != 0 || t[11] != 1 then None
    else
      var body := Number([t[44], t[45], t[46]]);
      if |t| < 49 + body || |t| != 49 + body + Number([t[47 + body], t[48 + body]]) then None
      else Some(Fields(t[2..10], t[12..44], t[47..47 + body], t[49 + body..]))
  }

  lemma Be24Value(n: nat)
    requires n <= 0xff_ffff
    ensures Number(Be24(n)) == n
  {
    ThreeDigits(n);
    assert n / 65536 % 256 == n / 65536;
  }

  lemma Be24Unique(a: Byte, b: Byte, c: Byte, n: nat)
    requires n == Number([a, b, c])
    ensures Be24(n) == [a, b, c] && n <= 0xff_ffff
  {
    assert n / 65536 == a && n / 256 == 256 * (a as int) + b;
  }

  /** The entry cut at its positions. */
  lemma EntryPlaces(timestamp: Bytes, issuerHash: Bytes, tbs: Bytes, extensions: Bytes, t: Bytes)
    requires EntryFields(timestamp, issuerHash, tbs, extensions) && t == SignedEntry(timestamp, issuerHash, tbs, extensions)
    ensures var n := |tbs|;
            && |t| == 49 + n + |extensions| && t[0] == 0 && t[1] == 0 && t[2..10] == timestamp && t[10] == 0 && t[11] == 1
            && t[12..44] == issuerHash && t[44..47] == Be24(n) && t[47..47 + n] == tbs
            && t[47 + n..49 + n] == Be16(|extensions|) && t[49 + n..] == extensions
  {
    var tail := Be24(|tbs|) + (tbs + (Be16(|extensions|) + extensions));
    var middle := [0, 1] + (issuerHash + tail);
    assert t[2..] == timestamp + middle;
    assert t[10..] == middle;
    assert t[12..] == issuerHash + tail;
    assert t[44..] == tail;
    TailPlaces(t, tbs, extensions);
  }

  lemma TailPlaces(t: Bytes, tbs: Bytes, extensions: Bytes)
    requires |t| >= 44 && t[44..] == Be24(|tbs|) + (tbs + (Be16(|extensions|) + extensions))
    ensures var n := |tbs|;
            && |t| == 49 + n + |extensions| && t[44..47] == Be24(n) && t[47..47 + n] == tbs
            && t[47 + n..49 + n] == Be16(|extensions|) && t[49 + n..] == extensions
  {
    var n, u := |tbs|, t[44..];
    assert u[..3] == Be24(n) && u[3..] == tbs + (Be16(|extensions|) + extensions);
    assert t[47..] == u[3..];
    assert t[47 + n..] == Be16(|extensions|) + extensions;
  }

  lemma Be16Value(n: nat)
    requires n < 65536
    ensures Number(Be16(n)) == n
  {
  }

  lemma EntryRead(timestamp: Bytes, issuerHash: Bytes, tbs: Bytes, extensions: Bytes)
    requires EntryFields(timestamp, issuerHash, tbs, extensions)
    ensures ReadEntry(SignedEntry(timestamp, issuerHash, tbs, extensions)) == Some(Fields(timestamp, issuerHash, tbs, extensions))
  {
    var t := SignedEntry(timestamp, issuerHash, tbs, extensions);
    var n, e := |tbs|, |extensions|;
    EntryPlaces(timestamp, issuerHash, tbs, extensions, t);
    Be24Value(n);
    assert [t[44], t[45], t[46]] == t[44..47] && [t[47 + n], t[48 + n]] == t[47 + n..49 + n];
    Be16Value(e);
  }

  lemma ReadIsEntry(t: Bytes, f: Fields)
    requires ReadEntry(t) == Some(f)
    ensures EntryFields(f.timestamp, f.issuerHash, f.tbs, f.extensions)
    ensures t == SignedEntry(f.timestamp, f.issuerHash, f.tbs, f.extensions)
  {
    var n := |f.tbs|;
    Be24Unique(t[44], t[45], t[46], n);
    Be16OfU16(t[47 + n], t[48 + n], |f.extensions|);
    assert t[44..47] == [t[44], t[45], t[46]] && t[47 + n..49 + n] == [t[47 + n], t[48 + n]];
    assert t[10..12] == [0, 1] && t[..2] == [0, 0];
    Cuts(t, n);
  }

  lemma Cuts(t: Bytes, n: nat)
    requires |t| >= 49 + n
    ensures t == t[..2] + (t[2..10] + (t[10..12] + (t[12..44] + (t[44..47] + (t[47..47 + n] + (t[47 + n..49 + n] + t[49 + n..]))))))
  {
    CutsFrom(t, 47, 47 + n, 49 + n);
    CutsFrom(t, 12, 44, 47);
    CutsFrom(t, 2, 10, 12);
    assert t == t[..2] + t[2..];
  }

  lemma CutsFrom(t: Bytes, i: nat, j: nat, k: nat)
    requires i <= j <= k <= |t|
    ensures t[i..] == t[i..j] + (t[j..k] + t[k..])
  {
  }

  /** The reader takes exactly the signed entries, each to its four fields. */
  lemma ReadEntryIff(t: Bytes, f: Fields)
    ensures ReadEntry(t) == Some(f) <==>
            && EntryFields(f.timestamp, f.issuerHash, f.tbs, f.extensions)
            && t == SignedEntry(f.timestamp, f.issuerHash, f.tbs, f.extensions)
  {
    if ReadEntry(t) == Some(f) {
      ReadIsEntry(t, f);
    }
    if EntryFields(f.timestamp, f.issuerHash, f.tbs, f.extensions) && t == SignedEntry(f.timestamp, f.issuerHash, f.tbs, f.extensions) {
      EntryRead(f.timestamp, f.issuerHash, f.tbs, f.extensions);
    }
  }

  // ----- one timestamp -----

  /** Version v1 (0), 32 bytes of log identifier, 8 bytes of time, extensions with a 16-bit length, the
      algorithms sha256 (4) and ecdsa (3), and a signature with a 16-bit length. */
  function ReadTimestamp(t: Bytes): Option<Sct> {
    if |t| < 43 || t[0] != 0 then None
    else
      var e := Number([t[41], t[42]]);
      if |t| < 47 + e || t[43 + e] != 4 || t[44 + e] != 3 || |t| != 47 + e + Number([t[45 + e], t[46 + e]]) then None
      else Some(Sct(t[1..33], t[33..41], t[43..43 + e], t[47 + e..]))
  }

  lemma TimestampPlaces(s: Sct, t: Bytes)
    requires WellFormed(s) && t == Write(s)
    ensures var e := |s.extensions|;
            && |t| == 47 + e + |s.signature| && t[0] == 0 && t[1..33] == s.logId && t[33..41] == s.timestamp
            && t[41..43] == Be16(e) && t[43..43 + e] == s.extensions && t[43 + e] == 4 && t[44 + e] == 3
            && t[45 + e..47 + e] == Be16(|s.signature|) && t[47 + e..] == s.signature
  {
    var e := |s.extensions|;
    var last := Vec16(s.signature) + [];
    var middle := Vec16(s.extensions) + ([4, 3] + last);
    assert t[1..] == s.logId + (s.timestamp + middle);
    assert t[33..] == s.timestamp + middle;
    assert t[41..] == middle;
    assert last == Be16(|s.signature|) + s.signature;
    VectorPlaces(t, 41, s.extensions, [4, 3] + last);
    assert t[45 + e..] == last;
  }

  lemma VectorPlaces(t: Bytes, i: nat, content: Bytes, rest: Bytes)
    requires i <= |t| && t[i..] == Vec16(content) + rest
    ensures var k := i + 2 + |content|;
            k <= |t| && t[i..i + 2] == Be16(|content|) && t[i + 2..k] == content && t[k..] == rest
  {
    var u := t[i..];
    assert u[..2] == Be16(|content|) && u[2..2 + |content|] == content && u[2 + |content|..] == rest;
  }

  lemma TimestampRead(s: Sct, t: Bytes)
    requires WellFormed(s) && t == Write(s)
    ensures ReadTimestamp(t) == Some(s)
  {
    var e := |s.extensions|;
    TimestampPlaces(s, t);
    Be16Value(e);
    Be16Value(|s.signature|);
    assert [t[41], t[42]] == t[41..43] && [t[45 + e], t[46 + e]] == t[45 + e..47 + e];
  }

  lemma ReadFields(t: Bytes, s: Sct, e: nat)
    requires ReadTimestamp(t) == Some(s) && e == |s.extensions|
    ensures |t| == 47 + e + |s.signature| && WellFormed(s) && t[0] == 0 && t[43 + e] == 4 && t[44 + e] == 3
    ensures Be16(e) == [t[41], t[42]] && Be16(|s.signature|) == [t[45 + e], t[46 + e]]
    ensures s == Sct(t[1..33], t[33..41], t[43..43 + e], t[47 + e..])
  {
    Be16OfU16(t[41], t[42], e);
    Be16OfU16(t[45 + e], t[46 + e], |s.signature|);
  }

  lemma ReadIsTimestamp(t: Bytes, s: Sct)
    requires ReadTimestamp(t) == Some(s)
    ensures WellFormed(s) && t == Write(s)
  {
    var e := |s.extensions|;
    ReadFields(t, s, e);
    TwoAt(t, 41, 43);
    TwoAt(t, 43 + e, 45 + e);
    TwoAt(t, 45 + e, 47 + e);
    TimestampCuts(t, 43 + e, 45 + e, 47 + e);
    assert t[..1] == [0];
    WriteJoined(s, t);
  }

  lemma TwoAt(t: Bytes, i: nat, j: nat)
    requires j == i + 2 <= |t|
    ensures t[i..j] == [t[i], t[i + 1]]
  {
  }

  lemma TimestampCuts(t: Bytes, i: nat, j: nat, k: nat)
    requires 43 <= i <= j <= k <= |t|
    ensures t == t[..1] + (t[1..33] + (t[33..41] + (t[41..43] + (t[43..i] + (t[i..j] + (t[j..k] + t[k..]))))))
  {
    CutsFrom(t, 43, i, j);
    CutsFrom(t, 33, 41, 43);
    assert t[1..] == t[1..33] + t[33..];
    assert t[j..] == t[j..k] + t[k..];
    assert t == t[..1] + t[1..];
  }

  lemma WriteJoined(s: Sct, t: Bytes)
    requires t == [0] + (s.logId + (s.timestamp + (Be16(|s.extensions|) + (s.extensions + ([4, 3] + (Be16(|s.signature|) + s.signature))))))
    ensures t == Write(s)
  {
    assert Vec16(s.signature) + [] == Be16(|s.signature|) + s.signature;
    var last := [4, 3] + (Be16(|s.signature|) + s.signature);
    assert Vec16(s.extensions) + last == Be16(|s.extensions|) + (s.extensions + last);
  }

  /** The source's parser accepts exactly what the byte-by-byte reader takes, with the same fields. */
  lemma ParseIsLayout(t: Bytes, s: Sct)
    ensures Parse(t) == Ok(s) <==> ReadTimestamp(t) == Some(s)
  {
    ParseIff(t, s);
    if ReadTimestamp(t) == Some(s) {
      ReadIsTimestamp(t, s);
    }
    if WellFormed(s) && t == Write(s) {
      TimestampRead(s, t);
    }
  }

  // ----- the window of a log -----

  /** The milliseconds of a timestamp: eight bytes, the highest first. */
  function Millis(t: Bytes): nat
    requires |t| == 8
  {
    0x1_0000_0000 * (0x1_0000 * Number(t[..2]) + Number(t[2..4])) + (0x1_0000 * Number(t[4..6]) + Number(t[6..]))
  }

  lemma {:induction false} TwoMore(t: Bytes, k: nat)
    requires k + 2 <= |t|
    ensures BigEndian(256, t[..k + 2]) == 0x1_0000 * BigEndian(256, t[..k]) + Number(t[k..k + 2])
  {
    assert t[..k + 2][..k + 1] == t[..k + 1] && t[..k + 1][..k] == t[..k];
    assert BigEndian(256, t[..k + 1]) == BigEndian(256, t[..k]) * 256 + t[k];
  }

  lemma {:induction false} MillisValue(t: Bytes)
    requires |t| == 8
    ensures BigEndian(256, t) == Millis(t)
  {
    TwoMore(t, 0);
    TwoMore(t, 2);
    TwoMore(t, 4);
    TwoMore(t, 6);
    assert t[..8] == t && t[..0] == [] && t[6..8] == t[6..] && t[0..2] == t[..2];
  }

  /** The window in nanoseconds holds the time in milliseconds. */
  predicate InForce(key: LogKey, millis: nat) {
    && key.start.Some? && key.start.value <= millis * 1_000_000
    && match key.end
       case NoEnd => true
       case BadEnd => false
       case EndAt(nanos) => millis * 1_000_000 <= nanos
  }

  lemma WindowIff(key: LogKey, timestamp: Bytes)
    requires |timestamp| == 8
    ensures InWindow(key, Nanos(timestamp)) <==> InForce(key, Millis(timestamp))
  {
    MillisValue(timestamp);
  }

  // ----- the key of a log -----

  /** One arc of an object identifier, seven bits to a byte. */
  function Arc(n: nat): Bytes {
    if n < 128 then [n] else Continued(n / 128) + [n % 128]
  }

  function Continued(n: nat): Bytes {
    if n < 128 then [128 + n] else Continued(n / 128) + [128 + n % 128]
  }

  function Arcs(arcs: seq<nat>): Bytes {
    if arcs == [] then [] else Arc(arcs[0]) + Arcs(arcs[1..])
  }

  /** The content octets of an object identifier (section 8.19 of ITU-T X.690). */
  function ObjectIdentifier(first: nat, second: nat, arcs: seq<nat>): Bytes
    requires first < 3 && second < 40
  {
    [40 * first + second] + Arcs(arcs)
  }

  /** A SubjectPublicKeyInfo (section 2 of RFC 5480): an algorithm with a curve, and the point as a bit string
      without unused bits. */
  function KeyInfo(algorithm: Bytes, curve: Bytes, point: Bytes): Bytes {
    Wrap(0x30, Wrap(0x30, Wrap(0x06, algorithm) + Wrap(0x06, curve)) + Wrap(0x03, [0] + point))
  }

  /** The algorithm is ecPublicKey 1.2.840.10045.2.1 and the curve P-256 1.2.840.10045.3.1.7. */
  function PublicKeyInfo(point: Bytes): Bytes {
    KeyInfo(ObjectIdentifier(1, 2, [840, 10045, 2, 1]), ObjectIdentifier(1, 2, [840, 10045, 3, 1, 7]), point)
  }

  lemma ArcValues()
    ensures Arc(840) == [0x86, 0x48] && Arc(10045) == [0xce, 0x3d]
  {
  }

  lemma LastArcs(x: nat, y: nat, rest: seq<nat>)
    requires x < 128 && y < 128
    ensures Arcs([x, y] + rest) == [x, y] + Arcs(rest)
  {
    var all, some := [x, y] + rest, [y] + rest;
    assert all[1..] == some && some[1..] == rest;
  }

  lemma AlgorithmIdentifier() returns (a: Bytes)
    ensures a == ObjectIdentifier(1, 2, [840, 10045, 2, 1]) && a == [0x2a, 0x86, 0x48, 0xce, 0x3d, 2, 1]
  {
    var none: seq<nat> := [];
    LastArcs(2, 1, none);
    SharedArcs([2, 1] + none);
    assert [840, 10045] + ([2, 1] + none) == [840, 10045, 2, 1];
    a := ObjectIdentifier(1, 2, [840, 10045, 2, 1]);
  }

  lemma CurveIdentifier() returns (b: Bytes)
    ensures b == ObjectIdentifier(1, 2, [840, 10045, 3, 1, 7]) && b == [0x2a, 0x86, 0x48, 0xce, 0x3d, 3, 1, 7]
  {
    var last: seq<nat> := [7];
    OneArc(7, last);
    LastArcs(3, 1, last);
    SharedArcs([3, 1] + last);
    assert [840, 10045] + ([3, 1] + last) == [840, 10045, 3, 1, 7];
    b := ObjectIdentifier(1, 2, [840, 10045, 3, 1, 7]);
  }

  lemma OneArc(n: nat, arcs: seq<nat>)
    requires n < 128 && arcs == [n]
    ensures Arcs(arcs) == [n]
  {
    assert arcs[1..] == [];
  }

  lemma SharedArcs(rest: seq<nat>)
    ensures Arcs([840, 10045] + rest) == [0x86, 0x48, 0xce, 0x3d] + Arcs(rest)
  {
    ArcValues();
    var all, some := [840, 10045] + rest, [10045] + rest;
    assert all[1..] == some && some[1..] == rest;
  }

  lemma ShortWrap(tag: Byte, content: Bytes)
    requires |content| < 128
    ensures Wrap(tag, content) == [tag, |content|] + content
  {
  }

  lemma AlgorithmLayout(a: Bytes, b: Bytes, head: Bytes)
    requires |a| == 7 && |b| == 8 && head == [0x30, 0x13, 0x06, 0x07] + a + [0x06, 0x08] + b
    ensures Wrap(0x30, Wrap(0x06, a) + Wrap(0x06, b)) == head
  {
    ShortWrap(0x06, a);
    ShortWrap(0x06, b);
    ShortWrap(0x30, Wrap(0x06, a) + Wrap(0x06, b));
  }

  lemma KeyParts(head: Bytes, point: Bytes)
    requires |head| == 21 && |point| == 65
    ensures Wrap(0x30, head + Wrap(0x03, [0] + point)) == ([0x30, 0x59] + head + [0x03, 0x42, 0x00]) + point
  {
    ShortWrap(0x03, [0] + point);
    ShortWrap(0x30, head + Wrap(0x03, [0] + point));
  }

  lemma KeyInfoLayout(a: Bytes, b: Bytes, head: Bytes, point: Bytes)
    requires |a| == 7 && |b| == 8 && |point| == 65 && head == [0x30, 0x13, 0x06, 0x07] + a + [0x06, 0x08] + b
    ensures KeyInfo(a, b, point) == ([0x30, 0x59] + head + [0x03, 0x42, 0x00]) + point
  {
    AlgorithmLayout(a, b, head);
    KeyParts(head, point);
  }

  lemma PrefixParts(a: Bytes, b: Bytes, head: Bytes)
    requires a == [0x2a, 0x86, 0x48, 0xce, 0x3d, 2, 1] && b == [0x2a, 0x86, 0x48, 0xce, 0x3d, 3, 1, 7]
    requires head == [0x30, 0x13, 0x06, 0x07] + a + [0x06, 0x08] + b
    ensures P256_PREFIX == [0x30, 0x59] + head + [0x03, 0x42, 0x00]
  {
  }

  /** The prefix that the source compares is the encoding of a P-256 key up to its point. */
  lemma KeyLayout(point: Bytes)
    requires |point| == 65
    ensures P256_PREFIX + point == PublicKeyInfo(point)
  {
    var a := AlgorithmIdentifier();
    var b := CurveIdentifier();
    var head := [0x30, 0x13, 0x06, 0x07] + a + [0x06, 0x08] + b;
    PrefixParts(a, b, head);
    KeyInfoLayout(a, b, head, point);
  }

  // ----- what one accepted timestamp means -----

  /** The log has a P-256 key whose digest is the identifier of the timestamp, was in force at its time,
      and signed the bytes. */
  ghost predicate SignedBy(trust: Trust, log: Log, s: Sct, entry: Bytes)
    requires |s.timestamp| == 8
  {
    exists point: Bytes ::
      && |point| == 65 && log.hashAlgorithm == Some("SHA2_256") && log.key.Some?
      && log.key.value.details == Some("PKIX_ECDSA_P256_SHA_256") && log.key.value.raw == Some(PublicKeyInfo(point))
      && log.keyId == Some(s.logId) && trust.sha256(PublicKeyInfo(point)) == s.logId
      && InForce(log.key.value, Millis(s.timestamp)) && trust.signed(point, entry, s.signature)
  }

  lemma KeyCut(raw: Bytes, point: Bytes)
    requires |raw| == 91
    ensures raw[..26] == P256_PREFIX && raw[26..] == point <==> |point| == 65 && raw == PublicKeyInfo(point)
  {
    if |point| == 65 {
      KeyLayout(point);
      assert (P256_PREFIX + point)[..26] == P256_PREFIX && (P256_PREFIX + point)[26..] == point;
    }
    assert raw == raw[..26] + raw[26..];
  }

  lemma SignedByIff(trust: Trust, log: Log, s: Sct, entry: Bytes)
    requires |s.timestamp| == 8
    ensures LogSigned(trust, log, s, entry) <==> SignedBy(trust, log, s, entry)
  {
    if log.key.Some? && log.key.value.raw.Some? {
      var raw := log.key.value.raw.value;
      WindowIff(log.key.value, s.timestamp);
      if |raw| == 91 {
        KeyCut(raw, raw[26..]);
      }
      forall point: Bytes | |point| == 65 && raw == PublicKeyInfo(point)
        ensures |raw| == 91 && raw[26..] == point && raw[..26] == P256_PREFIX
      {
        KeyLayout(point);
        KeyCut(raw, point);
      }
    }
  }

  /** The bytes are a timestamp, and some trusted log signed bytes that the structure of RFC 6962 takes to
      its time, this issuer, this body and its extensions. */
  ghost predicate Attested(input: Bytes, tbs: Bytes, issuerHash: Bytes, trust: Trust) {
    exists s: Sct, entry: Bytes, i: nat ::
      && ReadTimestamp(input) == Some(s) && ReadEntry(entry) == Some(Fields(s.timestamp, issuerHash, tbs, s.extensions))
      && |s.timestamp| == 8 && i < |trust.logs| && SignedBy(trust, trust.logs[i], s, entry)
  }

  /** When one timestamp verifies, for every issuer hash of 32 bytes. */
  lemma CheckIff(input: Bytes, tbs: Bytes, issuerHash: Bytes, trust: Trust)
    requires |issuerHash| == 32
    ensures Check(input, tbs, issuerHash, trust).Ok? <==> Attested(input, tbs, issuerHash, trust)
  {
    if Check(input, tbs, issuerHash, trust).Ok? {
      CheckedAttested(input, tbs, issuerHash, trust, Parse(input).value);
    }
    if s: Sct, entry: Bytes, i: nat :|
      && ReadTimestamp(input) == Some(s) && ReadEntry(entry) == Some(Fields(s.timestamp, issuerHash, tbs, s.extensions))
      && |s.timestamp| == 8 && i < |trust.logs| && SignedBy(trust, trust.logs[i], s, entry) {
      AttestedChecked(input, tbs, issuerHash, trust, s, entry, i);
    }
  }

  lemma AttestedChecked(input: Bytes, tbs: Bytes, issuerHash: Bytes, trust: Trust, s: Sct, entry: Bytes, i: nat)
    requires ReadTimestamp(input) == Some(s) && ReadEntry(entry) == Some(Fields(s.timestamp, issuerHash, tbs, s.extensions))
    requires |s.timestamp| == 8 && i < |trust.logs| && SignedBy(trust, trust.logs[i], s, entry)
    ensures Check(input, tbs, issuerHash, trust).Ok?
  {
    ParseIsLayout(input, s);
    ReadEntryIff(entry, Fields(s.timestamp, issuerHash, tbs, s.extensions));
    SignedByIff(trust, trust.logs[i], s, entry);
    TrustedChecked(input, tbs, issuerHash, trust, s, entry, i);
  }

  lemma TrustedChecked(input: Bytes, tbs: Bytes, issuerHash: Bytes, trust: Trust, s: Sct, entry: Bytes, i: nat)
    requires Parse(input) == Ok(s) && |tbs| <= 0xff_ffff && entry == SignedEntry(s.timestamp, issuerHash, tbs, s.extensions)
    requires i < |trust.logs| && LogSigned(trust, trust.logs[i], s, entry)
    ensures Check(input, tbs, issuerHash, trust).Ok?
  {
    assert Trusted(trust, s, entry);
  }

  lemma CheckedAttested(input: Bytes, tbs: Bytes, issuerHash: Bytes, trust: Trust, s: Sct)
    requires |issuerHash| == 32 && Check(input, tbs, issuerHash, trust).Ok? && Parse(input) == Ok(s)
    ensures Attested(input, tbs, issuerHash, trust)
  {
    var entry := SignedEntry(s.timestamp, issuerHash, tbs, s.extensions);
    ParseIff(input, s);
    ParseIsLayout(input, s);
    ReadEntryIff(entry, Fields(s.timestamp, issuerHash, tbs, s.extensions));
    var i :| 0 <= i < |trust.logs| && LogSigned(trust, trust.logs[i], s, entry);
    SignedByIff(trust, trust.logs[i], s, entry);
  }
}
