/** Signed certificate timestamps (sections 3.2 and 3.3 of RFC 6962): the length-prefixed vectors, one
    timestamp, the structure that its signature covers, and the list in the certificate extension.
    The entries of the trusted logs arrive parsed; hashing and the signature check are parameters. */
module Sct {
  import opened Common
  import opened Positional

  datatype SctError = Truncated | BadVersion | BadAlgorithm | Trailing | TooLarge | Untrusted | BadList

  datatype Split = Split(value: Bytes, rest: Bytes)

  // ----- vectors -----

  function Take(input: Bytes, n: nat): Result<Split, SctError> {
    if n > |input| then Err(Truncated) else Ok(Split(input[..n], input[n..]))
  }

  function Vector16(input: Bytes): Result<Split, SctError> {
    if |input| < 2 then Err(Truncated) else Take(input[2..], U16(input[0], input[1]))
  }

  function U16(high: int, low: int): nat
    requires 0 <= high < 256 && 0 <= low < 256
  {
    high * 256 + low
  }

  function Be16(n: nat): Bytes {
    [n / 256 % 256, n % 256]
  }

  function Be24(n: nat): Bytes {
    [n / 65536 % 256, n / 256 % 256, n % 256]
  }

  function Vec16(content: Bytes): Bytes {
    Be16(|content|) + content
  }

  /** A slice that reading advances. */
  class Cursor {
    var rest: Bytes

    constructor (input: Bytes)
      ensures rest == input
    {
      rest := input;
    }

    method Next(n: nat) returns (r: Result<Bytes, SctError>)
      modifies this
      ensures Take(old(rest), n).Err? ==> r == Err(Take(old(rest), n).error) && rest == old(rest)
      ensures Take(old(rest), n).Ok? ==> r.Ok? && Take(old(rest), n) == Ok(Split(r.value, rest))
    {
      if n > |rest| {
        return Err(Truncated);
      }
      r := Ok(rest[..n]);
      rest := rest[n..];
    }

    method NextVector16() returns (r: Result<Bytes, SctError>)
      modifies this
      ensures Vector16(old(rest)).Err? ==> r == Err(Vector16(old(rest)).error)
      ensures Vector16(old(rest)).Ok? ==> r.Ok? && Vector16(old(rest)) == Ok(Split(r.value, rest))
    {
      var n := Next(2);
      if n.Err? {
        return Err(n.error);
      }
      r := Next(U16(n.value[0], n.value[1]));
    }
  }

  /** Reading a vector undoes writing it, and nothing else is accepted. */
  lemma Vector16Iff(input: Bytes, content: Bytes, rest: Bytes)
    ensures Vector16(input) == Ok(Split(content, rest)) <==> |content| < 65536 && input == Vec16(content) + rest
  {
    if Vector16(input) == Ok(Split(content, rest)) {
      VectorTaken(input, content, rest);
    }
    if |content| < 65536 && input == Vec16(content) + rest {
      VectorWritten(input, content, rest);
    }
  }

  lemma VectorTaken(input: Bytes, content: Bytes, rest: Bytes)
    requires Vector16(input) == Ok(Split(content, rest))
    ensures |content| < 65536 && input == Vec16(content) + rest
  {
    var tail := input[2..];
    TakenParts(tail, U16(input[0], input[1]), content, rest);
    Be16OfU16(input[0], input[1], |content|);
    TwoAndRest(input, Be16(|content|), content, rest);
  }

  lemma TakenParts(tail: Bytes, n: nat, content: Bytes, rest: Bytes)
    requires Take(tail, n) == Ok(Split(content, rest))
    ensures tail == content + rest && |content| == n
  {
  }

  lemma Be16OfU16(a: Byte, b: Byte, n: nat)
    requires n == U16(a, b)
    ensures Be16(n) == [a, b] && n < 65536
  {
    assert n / 256 == a && n % 256 == b;
  }

  lemma TwoAndRest(input: Bytes, first: Bytes, content: Bytes, rest: Bytes)
    requires |input| >= 2 && first == [input[0], input[1]] && input[2..] == content + rest
    ensures input == (first + content) + rest
  {
    assert input == first + input[2..];
  }

  lemma VectorWritten(input: Bytes, content: Bytes, rest: Bytes)
    requires |content| < 65536 && input == Vec16(content) + rest
    ensures Vector16(input) == Ok(Split(content, rest))
  {
    assert input[0] == Be16(|content|)[0] && input[1] == Be16(|content|)[1];
    assert input[2..] == content + rest;
  }

  // ----- one timestamp -----

  datatype Sct = Sct(logId: Bytes, timestamp: Bytes, extensions: Bytes, signature: Bytes)

  predicate WellFormed(s: Sct) {
    |s.logId| == 32 && |s.timestamp| == 8 && |s.extensions| < 65536 && |s.signature| < 65536
  }

  function Write(s: Sct): Bytes {
    [0] + (s.logId + (s.timestamp + (Vec16(s.extensions) + ([4, 3] + (Vec16(s.signature) + [])))))
  }

  function Parse(input: Bytes): Result<Sct, SctError> {
    match Take(input, 1)
    case Err(e) => Err(e)
    case Ok(version) =>
      if version.value != [0] then Err(BadVersion) else
      match Take(version.rest, 32)
      case Err(e) => Err(e)
      case Ok(id) =>
        match Take(id.rest, 8)
        case Err(e) => Err(e)
        case Ok(timestamp) => ParseSigned(id.value, timestamp.value, timestamp.rest)
  }

  function ParseSigned(id: Bytes, timestamp: Bytes, input: Bytes): Result<Sct, SctError> {
    match Vector16(input)
    case Err(e) => Err(e)
    case Ok(extensions) =>
      match Take(extensions.rest, 2)
      case Err(e) => Err(e)
      case Ok(algorithm) =>
        if algorithm.value != [4, 3] then Err(BadAlgorithm) else
        match Vector16(algorithm.rest)
        case Err(e) => Err(e)
        case Ok(signature) =>
          if signature.rest != [] then Err(Trailing)
          else Ok(Sct(id, timestamp, extensions.value, signature.value))
  }

  lemma TakeIff(input: Bytes, n: nat, value: Bytes, rest: Bytes)
    ensures Take(input, n) == Ok(Split(value, rest)) <==> |value| == n && input == value + rest
  {
    if n <= |input| {
      assert input == input[..n] + input[n..];
    }
    if |value| == n && input == value + rest {
      assert input[..n] == value && input[n..] == rest;
    }
  }

  function Signed(s: Sct): Bytes {
    Vec16(s.extensions) + ([4, 3] + (Vec16(s.signature) + []))
  }

  lemma ParseSignedSound(id: Bytes, timestamp: Bytes, input: Bytes, s: Sct)
    requires ParseSigned(id, timestamp, input) == Ok(s)
    ensures s.logId == id && s.timestamp == timestamp && |s.extensions| < 65536 && |s.signature| < 65536
    ensures input == Signed(s)
  {
    var a := Vector16(input).value.rest;
    var b := Take(a, 2).value.rest;
    Vector16Iff(input, s.extensions, a);
    TakeIff(a, 2, [4, 3], b);
    Vector16Iff(b, s.signature, []);
  }

  lemma ParseSignedComplete(input: Bytes, s: Sct)
    requires WellFormed(s) && input == Signed(s)
    ensures ParseSigned(s.logId, s.timestamp, input) == Ok(s)
  {
    var b := Vec16(s.signature) + [];
    var a := [4, 3] + b;
    Vector16Iff(input, s.extensions, a);
    TakeIff(a, 2, [4, 3], b);
    Vector16Iff(b, s.signature, []);
  }

  /** Parsing inverts serialisation: exactly the serialised timestamps are accepted. */
  lemma ParseIff(input: Bytes, s: Sct)
    ensures Parse(input) == Ok(s) <==> WellFormed(s) && input == Write(s)
  {
    if Parse(input) == Ok(s) {
      var a := Take(input, 1).value.rest;
      var b := Take(a, 32).value.rest;
      var c := Take(b, 8).value.rest;
      ParseSignedSound(Take(a, 32).value.value, Take(b, 8).value.value, c, s);
      TakeIff(input, 1, [0], a);
      TakeIff(a, 32, s.logId, b);
      TakeIff(b, 8, s.timestamp, c);
    }
    if WellFormed(s) && input == Write(s) {
      var c := Signed(s);
      var b := s.timestamp + c;
      var a := s.logId + b;
      TakeIff(input, 1, [0], a);
      TakeIff(a, 32, s.logId, b);
      TakeIff(b, 8, s.timestamp, c);
      ParseSignedComplete(c, s);
    }
  }

  // ----- what the signature covers -----

  /** The precertificate entry of section 3.2 of RFC 6962. */
  function SignedEntry(timestamp: Bytes, issuerHash: Bytes, tbs: Bytes, extensions: Bytes): Bytes {
    [0, 0] + (timestamp + ([0, 1] + (issuerHash + (Be24(|tbs|) + (tbs + (Be16(|extensions|) + extensions))))))
  }

  predicate EntryFields(timestamp: Bytes, issuerHash: Bytes, tbs: Bytes, extensions: Bytes) {
    |timestamp| == 8 && |issuerHash| == 32 && |tbs| <= 0xff_ffff && |extensions| < 65536
  }

  lemma Cut(a: Bytes, b: Bytes, c: Bytes, d: Bytes)
    requires a + b == c + d && |a| == |c|
    ensures a == c && b == d
  {
    assert (a + b)[..|a|] == a && (c + d)[..|a|] == c;
    assert (a + b)[|a|..] == b && (c + d)[|a|..] == d;
  }

  lemma ThreeDigits(n: nat)
    ensures n == n / 65536 * 65536 + n / 256 % 256 * 256 + n % 256
  {
    assert n / 65536 == n / 256 / 256;
  }

  lemma Be24Injective(m: nat, n: nat)
    requires m <= 0xff_ffff && n <= 0xff_ffff && Be24(m) == Be24(n)
    ensures m == n
  {
    ThreeDigits(m);
    ThreeDigits(n);
    var x, y := Be24(m), Be24(n);
    assert x[0] == y[0] && x[1] == y[1] && x[2] == y[2];
    assert m / 65536 % 256 == m / 65536 && n / 65536 % 256 == n / 65536;
  }

  /** Different fields never give the same bytes to sign. */
  lemma SignedEntryInjective(t1: Bytes, h1: Bytes, tbs1: Bytes, e1: Bytes, t2: Bytes, h2: Bytes, tbs2: Bytes, e2: Bytes)
    requires EntryFields(t1, h1, tbs1, e1) && EntryFields(t2, h2, tbs2, e2)
    requires SignedEntry(t1, h1, tbs1, e1) == SignedEntry(t2, h2, tbs2, e2)
    ensures t1 == t2 && h1 == h2 && tbs1 == tbs2 && e1 == e2
  {
    var c1, c2 := tbs1 + (Be16(|e1|) + e1), tbs2 + (Be16(|e2|) + e2);
    var b1, b2 := h1 + (Be24(|tbs1|) + c1), h2 + (Be24(|tbs2|) + c2);
    Cut([0, 0], t1 + ([0, 1] + b1), [0, 0], t2 + ([0, 1] + b2));
    Cut(t1, [0, 1] + b1, t2, [0, 1] + b2);
    Cut([0, 1], b1, [0, 1], b2);
    Cut(h1, Be24(|tbs1|) + c1, h2, Be24(|tbs2|) + c2);
    Cut(Be24(|tbs1|), c1, Be24(|tbs2|), c2);
    Be24Injective(|tbs1|, |tbs2|);
    Cut(tbs1, Be16(|e1|) + e1, tbs2, Be16(|e2|) + e2);
    Cut(Be16(|e1|), e1, Be16(|e2|), e2);
  }

  // ----- the trusted logs -----

  const SHA2_256 := "SHA2_256"
  const P256_KEY := "PKIX_ECDSA_P256_SHA_256"

  /** The algorithm identifier and bit-string header before the point of a P-256 public key. */
  const P256_PREFIX: Bytes := [
    0x30, 0x59, 0x30, 0x13, 0x06, 0x07, 0x2a, 0x86, 0x48, 0xce, 0x3d, 0x02, 0x01, 0x06, 0x08, 0x2a,
    0x86, 0x48, 0xce, 0x3d, 0x03, 0x01, 0x07, 0x03, 0x42, 0x00]
  const POINT_LENGTH := 65
  const NANOS_PER_MILLI := 1_000_000

  /** The end of a validity window, in nanoseconds; `BadEnd` is one that is there and does not parse. */
  datatype End = NoEnd | BadEnd | EndAt(nanos: nat)

  datatype LogKey = LogKey(details: Option<string>, raw: Option<Bytes>, start: Option<nat>, end: End)

  datatype Log = Log(hashAlgorithm: Option<string>, key: Option<LogKey>, keyId: Option<Bytes>)

  /** The trusted logs, and the library's hash and its check of a signature by a point. */
  datatype Trust = Trust(logs: seq<Log>, sha256: Bytes -> Bytes, signed: (Bytes, Bytes, Bytes) -> bool)

  function Nanos(timestamp: Bytes): nat {
    BigEndian(256, timestamp) * NANOS_PER_MILLI
  }

  /** The key is a P-256 key whose digest is the identifier. */
  predicate IdentifiedKey(trust: Trust, raw: Bytes, id: Bytes) {
    trust.sha256(raw) == id && |raw| == |P256_PREFIX| + POINT_LENGTH && raw[..|P256_PREFIX|] == P256_PREFIX
  }

  predicate InWindow(key: LogKey, time: nat) {
    key.start.Some? && key.start.value <= time && !key.end.BadEnd? && (key.end.EndAt? ==> time <= key.end.nanos)
  }

  /** This log signed the entry, under the identifier and inside its window. */
  predicate LogSigned(trust: Trust, log: Log, s: Sct, entry: Bytes) {
    && log.hashAlgorithm == Some(SHA2_256) && log.key.Some? && log.key.value.details == Some(P256_KEY)
    && log.key.value.raw.Some? && log.keyId == Some(s.logId) && IdentifiedKey(trust, log.key.value.raw.value, s.logId)
    && InWindow(log.key.value, Nanos(s.timestamp))
    && trust.signed(log.key.value.raw.value[|P256_PREFIX|..], entry, s.signature)
  }

  predicate Trusted(trust: Trust, s: Sct, entry: Bytes) {
    exists i :: 0 <= i < |trust.logs| && LogSigned(trust, trust.logs[i], s, entry)
  }

  /** One turn of the loop over the logs, with the tests in their order. */
  method TryLog(trust: Trust, log: Log, s: Sct, entry: Bytes) returns (ok: bool)
    ensures ok <==> LogSigned(trust, log, s, entry)
  {
    if log.hashAlgorithm != Some(SHA2_256) {
      return false;
    }
    if log.key.None? {
      return false;
    }
    var key := log.key.value;
    if key.details != Some(P256_KEY) || key.raw.None? || log.keyId.None? {
      return false;
    }
    var raw := key.raw.value;
    if log.keyId.value != s.logId || trust.sha256(raw) != s.logId
       || |raw| != |P256_PREFIX| + POINT_LENGTH || raw[..|P256_PREFIX|] != P256_PREFIX {
      return false;
    }
    if key.start.None? {
      return false;
    }
    var time := Nanos(s.timestamp);
    if time < key.start.value {
      return false;
    }
    if key.end.BadEnd? || (key.end.EndAt? && time > key.end.nanos) {
      return false;
    }
    return trust.signed(raw[|P256_PREFIX|..], entry, s.signature);
  }

  method FindLog(trust: Trust, s: Sct, entry: Bytes) returns (ok: bool)
    ensures ok <==> Trusted(trust, s, entry)
  {
    for i := 0 to |trust.logs|
      invariant forall j :: 0 <= j < i ==> !LogSigned(trust, trust.logs[j], s, entry)
    {
      var signed := TryLog(trust, trust.logs[i], s, entry);
      if signed {
        return true;
      }
    }
    return false;
  }

  function Check(input: Bytes, tbs: Bytes, issuerHash: Bytes, trust: Trust): Result<(), SctError> {
    match Parse(input)
    case Err(e) => Err(e)
    case Ok(s) =>
      if |tbs| > 0xff_ffff then Err(TooLarge)
      else if Trusted(trust, s, SignedEntry(s.timestamp, issuerHash, tbs, s.extensions)) then Ok(())
      else Err(Untrusted)
  }

  function Verifies(tbs: Bytes, issuerHash: Bytes, trust: Trust): Bytes -> bool {
    input => Check(input, tbs, issuerHash, trust).Ok?
  }

  /** The buffer that the source fills step by step. */
  method BuildEntry(timestamp: Bytes, issuerHash: Bytes, tbs: Bytes, extensions: Bytes) returns (entry: Bytes)
    ensures entry == SignedEntry(timestamp, issuerHash, tbs, extensions)
  {
    entry := [0, 0];
    entry := entry + timestamp;
    entry := entry + [0, 1];
    entry := entry + issuerHash;
    entry := entry + Be24(|tbs|);
    entry := entry + tbs;
    entry := entry + Be16(|extensions|);
    entry := entry + extensions;
  }

  method VerifyOne(input: Bytes, tbs: Bytes, issuerHash: Bytes, trust: Trust) returns (r: Result<(), SctError>)
    ensures r == Check(input, tbs, issuerHash, trust)
  {
    var parsed := ReadSct(input);
    if parsed.Err? {
      return Err(parsed.error);
    }
    var s := parsed.value;
    if |tbs| > 0xff_ffff {
      return Err(TooLarge);
    }
    var entry := BuildEntry(s.timestamp, issuerHash, tbs, s.extensions);
    var found := FindLog(trust, s, entry);
    return if found then Ok(()) else Err(Untrusted);
  }

  method ReadSct(input: Bytes) returns (r: Result<Sct, SctError>)
    ensures r == Parse(input)
  {
    var cursor := new Cursor(input);
    var version := cursor.Next(1);
    if version.Err? {
      return Err(version.error);
    }
    if version.value != [0] {
      return Err(BadVersion);
    }
    var id := cursor.Next(32);
    if id.Err? {
      return Err(id.error);
    }
    var timestamp := cursor.Next(8);
    if timestamp.Err? {
      return Err(timestamp.error);
    }
    var extensions := cursor.NextVector16();
    if extensions.Err? {
      return Err(extensions.error);
    }
    var algorithm := cursor.Next(2);
    if algorithm.Err? {
      return Err(algorithm.error);
    }
    if algorithm.value != [4, 3] {
      return Err(BadAlgorithm);
    }
    var signature := cursor.NextVector16();
    if signature.Err? {
      return Err(signature.error);
    }
    if cursor.rest != [] {
      return Err(Trailing);
    }
    return Ok(Sct(id.value, timestamp.value, extensions.value, signature.value));
  }

  // ----- the list -----

  function WriteItems(items: seq<Bytes>): Bytes {
    if items == [] then [] else Vec16(items[0]) + WriteItems(items[1..])
  }

  predicate Short(items: seq<Bytes>) {
    forall i :: 0 <= i < |items| ==> |items[i]| < 65536
  }

  function Items(list: Bytes): Option<seq<Bytes>>
    decreases |list|
  {
    if list == [] then Some([])
    else
      match Vector16(list)
      case Err(_) => None
      case Ok(first) =>
        match Items(first.rest)
        case None => None
        case Some(items) => Some([first.value] + items)
  }

  /** Splitting a list inverts writing it. */
  lemma {:induction false} ItemsIff(list: Bytes, items: seq<Bytes>)
    ensures Items(list) == Some(items) <==> Short(items) && list == WriteItems(items)
    decreases |list|
  {
    if list == [] {
      assert items != [] ==> |WriteItems(items)| >= 2;
    } else if items == [] {
    } else {
      Vector16Iff(list, items[0], WriteItems(items[1..]));
      if Vector16(list).Ok? {
        var first := Vector16(list).value;
        ItemsIff(first.rest, items[1..]);
        Vector16Iff(list, first.value, first.rest);
        assert items == [items[0]] + items[1..];
        assert Items(first.rest).Some? ==> ([first.value] + Items(first.rest).value)[1..] == Items(first.rest).value;
        ShortParts(items);
      }
    }
  }

  lemma ShortParts(items: seq<Bytes>)
    requires items != []
    ensures Short(items) <==> |items[0]| < 65536 && Short(items[1..])
  {
    assert items == [items[0]] + items[1..];
  }

  /** The bytes are a nonempty list of these items. */
  predicate Written(input: Bytes, items: seq<Bytes>) {
    items != [] && Short(items) && |WriteItems(items)| < 65536 && input == Vec16(WriteItems(items))
  }

  /** The extension holds a nonempty list in which some item verifies. */
  ghost predicate ListVerifies(input: Bytes, tbs: Bytes, issuerHash: Bytes, trust: Trust) {
    exists items: seq<Bytes> :: Written(input, items) && Any(items, Verifies(tbs, issuerHash, trust))
  }

  ghost predicate Any(items: seq<Bytes>, accepts: Bytes -> bool) {
    exists i :: 0 <= i < |items| && accepts(items[i])
  }

  lemma AnyStep(items: seq<Bytes>, accepts: Bytes -> bool)
    requires items != []
    ensures Any(items, accepts) <==> accepts(items[0]) || Any(items[1..], accepts)
  {
    if Any(items, accepts) {
      var i :| 0 <= i < |items| && accepts(items[i]);
      assert i > 0 ==> items[1..][i - 1] == items[i];
    }
    if Any(items[1..], accepts) {
      var i :| 0 <= i < |items[1..]| && accepts(items[1..][i]);
      assert items[i + 1] == items[1..][i];
    }
  }

  /** The loop over the items: it fails on a truncated item even after one that verified. */
  method VerifyItems(input: Bytes, tbs: Bytes, issuerHash: Bytes, trust: Trust) returns (r: Result<(), SctError>)
    ensures r.Ok? <==> Items(input).Some? && Any(Items(input).value, Verifies(tbs, issuerHash, trust))
  {
    var verified := false;
    var list := new Cursor(input);
    while list.rest != []
      invariant Items(input).Some? <==> Items(list.rest).Some?
      invariant Items(input).Some? ==>
          (Any(Items(input).value, Verifies(tbs, issuerHash, trust)) <==>
           verified || Any(Items(list.rest).value, Verifies(tbs, issuerHash, trust)))
      decreases |list.rest|
    {
      ghost var before := list.rest;
      var sct := list.NextVector16();
      if sct.Err? {
        return Err(sct.error);
      }
      var outcome := VerifyOne(sct.value, tbs, issuerHash, trust);
      if outcome.Ok? {
        verified := true;
      }
      if Items(before).Some? {
        AnyStep(Items(before).value, Verifies(tbs, issuerHash, trust));
        assert Items(before).value[1..] == Items(list.rest).value;
      }
    }
    if verified {
      return Ok(());
    }
    return Err(Untrusted);
  }

  /** The list inside the extension: one vector, not empty, with nothing behind it. */
  method OpenList(input: Bytes) returns (r: Result<Bytes, SctError>)
    ensures r.Ok? <==> Vector16(input).Ok? && Vector16(input).value.rest == [] && Vector16(input).value.value != []
    ensures r.Ok? ==> r.value == Vector16(input).value.value
  {
    var outer := new Cursor(input);
    var list := outer.NextVector16();
    if list.Err? {
      return Err(list.error);
    }
    if outer.rest != [] || list.value == [] {
      return Err(BadList);
    }
    return Ok(list.value);
  }

  lemma ListIff(input: Bytes, accepts: Bytes -> bool)
    ensures (exists items: seq<Bytes> :: Written(input, items) && Any(items, accepts)) <==>
            match Vector16(input)
            case Err(_) => false
            case Ok(list) =>
              && list.rest == [] && list.value != []
              && Items(list.value).Some? && Any(Items(list.value).value, accepts)
  {
    if items: seq<Bytes> :| Written(input, items) && Any(items, accepts) {
      assert input == Vec16(WriteItems(items)) + [];
      Vector16Iff(input, WriteItems(items), []);
      ItemsIff(WriteItems(items), items);
    }
    if Vector16(input).Ok? {
      var list := Vector16(input).value;
      Vector16Iff(input, list.value, list.rest);
      if list.rest == [] && list.value != [] && Items(list.value).Some? {
        ItemsIff(list.value, Items(list.value).value);
        assert Vec16(list.value) + [] == Vec16(list.value);
        assert Written(input, Items(list.value).value);
      }
    }
  }
}
