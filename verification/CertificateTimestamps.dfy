/** The check of a certificate's embedded timestamps as a whole: the only timestamp extension is found
    and cut out of the body, and some timestamp of its list must be signed over what remains. */
module CertificateTimestamps {
  import opened Common
  import opened Der
  import opened Precert
  import opened Sct
  import opened SctLayout

  /** The parts of a parsed certificate; `None` is a body that cannot be written or no extensions at all. */
  datatype Certificate = Certificate(tbs: Option<Bytes>, extensions: Option<seq<Extension>>)

  datatype VerifyError =
    | BadCertificate
    | BadIssuer
    | NoExtensions
    | BadOctets
    | BadTimestamps(cause: SctError)
    | BadPrecert(reason: PrecertError)
    | NoLogs

  /** The body `before` and the extensions `parts`, the list `items` in extension `i`, and some item that
      a trusted log signed over the body without that extension. */
  ghost predicate Verified(w: nat, limit: int, cert: Certificate, issuerHash: Bytes, trust: Trust,
                           i: nat, before: Bytes, parts: seq<Bytes>, items: seq<Bytes>) {
    && cert.tbs.Some? && cert.extensions.Some?
    && OnlyTimestamps(cert.extensions.value, i) && cert.extensions.value[i].octets.Some?
    && Encodings(cert.extensions.value) == Some(parts)
    && Value(w, limit, cert.tbs.value, SEQUENCE) == Ok(before + Block(parts))
    && Written(cert.extensions.value[i].octets.value, items)
    && Any(items, Verifies(Wrap(SEQUENCE, before + Block(Without(parts, i))), issuerHash, trust))
  }

  ghost predicate Timestamped(w: nat, limit: int, cert: Certificate, issuerHash: Bytes, trust: Trust) {
    exists i: nat, before: Bytes, parts: seq<Bytes>, items: seq<Bytes> ::
      Verified(w, limit, cert, issuerHash, trust, i, before, parts, items)
  }

  lemma ListOpened(octets: Bytes, list: Bytes, accepts: Bytes -> bool)
    requires Vector16(octets) == Ok(Split(list, [])) && list != []
    ensures Items(list).Some? && Any(Items(list).value, accepts) <==>
            exists items: seq<Bytes> :: Written(octets, items) && Any(items, accepts)
  {
    ListIff(octets, accepts);
  }

  /** Everything up to the rebuilt body is fixed, so only the list is left to decide. */
  lemma TimestampedIff(w: nat, limit: int, cert: Certificate, issuerHash: Bytes, trust: Trust, i: nat, out: Bytes)
    requires cert.tbs.Some? && cert.extensions.Some? && OnlyTimestamps(cert.extensions.value, i)
    requires cert.extensions.value[i].octets.Some?
    requires Rebuild(w, limit, cert.tbs.value, cert.extensions.value, i) == Ok(out)
    ensures Timestamped(w, limit, cert, issuerHash, trust) <==>
            ListVerifies(cert.extensions.value[i].octets.value, out, issuerHash, trust)
  {
    var extensions := cert.extensions.value;
    var parts := Encodings(extensions).value;
    RebuildIff(w, limit, cert.tbs.value, extensions, parts, i, out);
    var before: Bytes :|
      && BodyOf(Value(w, limit, cert.tbs.value, SEQUENCE).value, before, parts)
      && out == Wrap(SEQUENCE, before + Block(Without(parts, i)));
    if j: nat, head: Bytes, other: seq<Bytes>, items: seq<Bytes> :|
      Verified(w, limit, cert, issuerHash, trust, j, head, other, items) {
      SameParts(head, before, Block(parts));
      assert j == i;
    }
    if items: seq<Bytes> :|
      Written(extensions[i].octets.value, items) && Any(items, Verifies(out, issuerHash, trust)) {
      assert Verified(w, limit, cert, issuerHash, trust, i, before, parts, items);
    }
  }

  lemma SameParts(a: Bytes, b: Bytes, block: Bytes)
    ensures a + block == b + block ==> a == b
  {
    if a + block == b + block {
      assert (a + block)[..|a|] == a && (b + block)[..|b|] == b;
    }
  }

  /** What the search for the extension, the octet string, the list or the body refuses is refused. */
  lemma RefusedEarly(w: nat, limit: int, cert: Certificate, issuerHash: Bytes, trust: Trust, i: nat)
    requires cert.tbs.Some? && cert.extensions.Some? && OnlyTimestamps(cert.extensions.value, i)
    requires || cert.extensions.value[i].octets.None?
             || Rebuild(w, limit, cert.tbs.value, cert.extensions.value, i).Err?
             || !Openable(cert.extensions.value[i].octets.value)
    ensures !Timestamped(w, limit, cert, issuerHash, trust)
  {
    if j: nat, before: Bytes, parts: seq<Bytes>, items: seq<Bytes> :|
      Verified(w, limit, cert, issuerHash, trust, j, before, parts, items) {
      var octets := cert.extensions.value[i].octets.value;
      RebuildIff(w, limit, cert.tbs.value, cert.extensions.value, parts, i,
                 Wrap(SEQUENCE, before + Block(Without(parts, i))));
      assert BodyOf(before + Block(parts), before, parts);
      ListIff(octets, Verifies(Wrap(SEQUENCE, before + Block(Without(parts, i))), issuerHash, trust));
      assert false;
    }
  }

  predicate Openable(octets: Bytes) {
    Vector16(octets).Ok? && Vector16(octets).value.rest == [] && Vector16(octets).value.value != []
  }

  /** The check in the order of the source. An absent certificate or issuer is one that does not parse,
      and absent logs are a trusted root without any. */
  method VerifySct(w: nat, limit: int, cert: Option<Certificate>, issuer: Option<Bytes>, logs: Option<seq<Log>>,
                   sha256: Bytes -> Bytes, signed: (Bytes, Bytes, Bytes) -> bool)
    returns (r: Result<(), VerifyError>)
    requires Word(w, limit)
    requires cert.Some? && cert.value.tbs.Some? && cert.value.extensions.Some? ==>
               Fits(limit, cert.value.tbs.value, cert.value.extensions.value)
    ensures r.Ok? <==>
            && cert.Some? && issuer.Some? && logs.Some?
            && Timestamped(w, limit, cert.value, sha256(issuer.value), Trust(logs.value, sha256, signed))
  {
    if cert.None? {
      return Err(BadCertificate);
    }
    if issuer.None? {
      return Err(BadIssuer);
    }
    var issuerHash := sha256(issuer.value);
    if cert.value.extensions.None? {
      return Err(NoExtensions);
    }
    var extensions := cert.value.extensions.value;
    var found := FindTimestamps(extensions);
    if found.Err? {
      return Err(BadPrecert(found.error));
    }
    var i := found.value;
    assert OnlyTimestamps(extensions, i);
    ghost var root := Trust(if logs.Some? then logs.value else [], sha256, signed);
    ghost var early := cert.value.tbs.Some?;
    if extensions[i].octets.None? {
      if early { RefusedEarly(w, limit, cert.value, issuerHash, root, i); }
      return Err(BadOctets);
    }
    var list := OpenList(extensions[i].octets.value);
    if list.Err? {
      if early { RefusedEarly(w, limit, cert.value, issuerHash, root, i); }
      return Err(BadTimestamps(list.error));
    }
    if cert.value.tbs.None? {
      return Err(BadCertificate);
    }
    var tbs := PrecertTbs(w, limit, cert.value.tbs.value, extensions, i);
    if tbs.Err? {
      RefusedEarly(w, limit, cert.value, issuerHash, root, i);
      return Err(BadPrecert(tbs.error));
    }
    if logs.None? {
      return Err(NoLogs);
    }
    var trust := Trust(logs.value, sha256, signed);
    TimestampedIff(w, limit, cert.value, issuerHash, trust, i, tbs.value);
    ListOpened(extensions[i].octets.value, list.value, Verifies(tbs.value, issuerHash, trust));
    var items := VerifyItems(list.value, tbs.value, issuerHash, trust);
    return if items.Ok? then Ok(()) else Err(BadTimestamps(items.error));
  }

  // ----- what success means -----

  /** The certificate is `before` and the block of extensions `parts`, of which only `i` is a timestamp extension,
      and this one is not critical and holds the list `items`. */
  ghost predicate Holds(w: nat, limit: int, cert: Certificate, i: nat, before: Bytes, parts: seq<Bytes>, items: seq<Bytes>) {
    && cert.tbs.Some? && cert.extensions.Some? && |parts| == |cert.extensions.value| && i < |parts|
    && cert.extensions.value[i].kind == Timestamps && !cert.extensions.value[i].critical
    && (forall j :: 0 <= j < |parts| && j != i ==> cert.extensions.value[j].kind == Other)
    && (forall j :: 0 <= j < |parts| ==> cert.extensions.value[j].encoded == Some(parts[j]))
    && Value(w, limit, cert.tbs.value, 0x30) == Ok(before + Wrap(0xa3, Wrap(0x30, Concat(parts))))
    && cert.extensions.value[i].octets.Some? && Written(cert.extensions.value[i].octets.value, items)
  }

  /** The certificate body without extension `i`. */
  function Shortened(before: Bytes, parts: seq<Bytes>, i: nat): Bytes
    requires i < |parts|
  {
    Wrap(0x30, before + Wrap(0xa3, Wrap(0x30, Concat(parts[..i] + parts[i + 1..]))))
  }

  /** Some trusted log signed an item of the list over the certificate without the timestamp extension. */
  ghost predicate LogAttested(w: nat, limit: int, cert: Certificate, issuerHash: Bytes, trust: Trust) {
    exists i: nat, before: Bytes, parts: seq<Bytes>, items: seq<Bytes>, k: nat ::
      && Holds(w, limit, cert, i, before, parts, items) && i < |parts| && k < |items|
      && Attested(items[k], Shortened(before, parts, i), issuerHash, trust)
  }

  lemma {:induction false} EncodingsAre(extensions: seq<Extension>, parts: seq<Bytes>)
    ensures Encodings(extensions) == Some(parts) <==>
            |parts| == |extensions| && forall j :: 0 <= j < |parts| ==> extensions[j].encoded == Some(parts[j])
  {
    if extensions != [] {
      var n := |extensions| - 1;
      if parts != [] {
        EncodingsAre(extensions[..n], parts[..|parts| - 1]);
        assert parts == parts[..|parts| - 1] + [parts[|parts| - 1]];
      }
      LastEncoding(extensions, parts, n);
    }
  }

  lemma LastEncoding(extensions: seq<Extension>, parts: seq<Bytes>, n: nat)
    requires extensions != [] && n == |extensions| - 1
    ensures Encodings(extensions) == Some(parts) <==>
            parts != [] && Encodings(extensions[..n]) == Some(parts[..|parts| - 1]) && extensions[n].encoded == Some(parts[|parts| - 1])
  {
    if parts != [] {
      assert parts == parts[..|parts| - 1] + [parts[|parts| - 1]];
    }
    if Encodings(extensions[..n]).Some? && extensions[n].encoded.Some? {
      var before, last := Encodings(extensions[..n]).value, extensions[n].encoded.value;
      assert (before + [last])[..|before|] == before;
    }
  }

  lemma HoldsIff(w: nat, limit: int, cert: Certificate, i: nat, before: Bytes, parts: seq<Bytes>, items: seq<Bytes>)
    ensures Holds(w, limit, cert, i, before, parts, items) <==>
            && cert.tbs.Some? && cert.extensions.Some?
            && OnlyTimestamps(cert.extensions.value, i) && cert.extensions.value[i].octets.Some?
            && Encodings(cert.extensions.value) == Some(parts)
            && Value(w, limit, cert.tbs.value, SEQUENCE) == Ok(before + Block(parts))
            && Written(cert.extensions.value[i].octets.value, items)
  {
    if cert.extensions.Some? {
      EncodingsAre(cert.extensions.value, parts);
    }
  }

  lemma ItemAttested(items: seq<Bytes>, tbs: Bytes, issuerHash: Bytes, trust: Trust)
    requires |issuerHash| == 32
    ensures Any(items, Verifies(tbs, issuerHash, trust)) <==> exists k: nat :: k < |items| && Attested(items[k], tbs, issuerHash, trust)
  {
    forall k: nat | k < |items| ensures Verifies(tbs, issuerHash, trust)(items[k]) <==> Attested(items[k], tbs, issuerHash, trust) {
      CheckIff(items[k], tbs, issuerHash, trust);
    }
  }

  lemma VerifiedAttested(w: nat, limit: int, cert: Certificate, issuerHash: Bytes, trust: Trust,
                         i: nat, before: Bytes, parts: seq<Bytes>, items: seq<Bytes>)
    requires |issuerHash| == 32 && Verified(w, limit, cert, issuerHash, trust, i, before, parts, items)
    ensures LogAttested(w, limit, cert, issuerHash, trust)
  {
    HoldsIff(w, limit, cert, i, before, parts, items);
    ItemAttested(items, Shortened(before, parts, i), issuerHash, trust);
    var k: nat :| k < |items| && Attested(items[k], Shortened(before, parts, i), issuerHash, trust);
  }

  lemma AttestedVerified(w: nat, limit: int, cert: Certificate, issuerHash: Bytes, trust: Trust,
                         i: nat, before: Bytes, parts: seq<Bytes>, items: seq<Bytes>, k: nat)
    requires |issuerHash| == 32 && Holds(w, limit, cert, i, before, parts, items) && i < |parts| && k < |items|
    requires Attested(items[k], Shortened(before, parts, i), issuerHash, trust)
    ensures Verified(w, limit, cert, issuerHash, trust, i, before, parts, items)
  {
    HoldsIff(w, limit, cert, i, before, parts, items);
    ItemAttested(items, Shortened(before, parts, i), issuerHash, trust);
  }

  /** The timestamps of a certificate verify exactly when some trusted log attested the certificate without
      its only timestamp extension, for every issuer hash of 32 bytes. */
  lemma TimestampedMeans(w: nat, limit: int, cert: Certificate, issuerHash: Bytes, trust: Trust)
    requires |issuerHash| == 32
    ensures Timestamped(w, limit, cert, issuerHash, trust) <==> LogAttested(w, limit, cert, issuerHash, trust)
  {
    if Timestamped(w, limit, cert, issuerHash, trust) {
      var i: nat, before: Bytes, parts: seq<Bytes>, items: seq<Bytes> :|
        Verified(w, limit, cert, issuerHash, trust, i, before, parts, items);
      VerifiedAttested(w, limit, cert, issuerHash, trust, i, before, parts, items);
    }
    if LogAttested(w, limit, cert, issuerHash, trust) {
      var i: nat, before: Bytes, parts: seq<Bytes>, items: seq<Bytes>, k: nat :|
        && Holds(w, limit, cert, i, before, parts, items) && i < |parts| && k < |items|
        && Attested(items[k], Shortened(before, parts, i), issuerHash, trust);
      AttestedVerified(w, limit, cert, issuerHash, trust, i, before, parts, items, k);
    }
  }

  // ----- issuing and checking -----

  lemma SignedItem(tbs: Bytes, issuerHash: Bytes, trust: Trust, items: seq<Bytes>, k: nat, s: Sct)
    requires k < |items| && WellFormed(s) && items[k] == Write(s) && |tbs| <= 0xff_ffff
    requires Trusted(trust, s, SignedEntry(s.timestamp, issuerHash, tbs, s.extensions))
    ensures Any(items, Verifies(tbs, issuerHash, trust))
  {
    ParseIff(items[k], s);
    assert Check(items[k], tbs, issuerHash, trust) == Ok(());
    assert Verifies(tbs, issuerHash, trust)(items[k]);
  }

  /** A certificate that was made from a precertificate, by adding the list with one timestamp that a
      trusted log signed over it, verifies: wherever the extension stands and whatever else the list holds. */
  lemma IssuedVerifies(w: nat, limit: int, before: Bytes, extensions: seq<Extension>, parts: seq<Bytes>, i: nat,
                       items: seq<Bytes>, k: nat, s: Sct, issuerHash: Bytes, trust: Trust)
    requires Word(w, limit) && OnlyTimestamps(extensions, i) && Encodings(extensions) == Some(parts)
    requires |before + Block(parts)| < limit
    requires k < |items| && WellFormed(s) && items[k] == Write(s) && Short(items) && |WriteItems(items)| < 65536
    requires extensions[i].octets == Some(Vec16(WriteItems(items)))
    requires var tbs := Wrap(SEQUENCE, before + Block(Without(parts, i)));
             |tbs| <= 0xff_ffff && Trusted(trust, s, SignedEntry(s.timestamp, issuerHash, tbs, s.extensions))
    ensures Timestamped(w, limit, Certificate(Some(Wrap(SEQUENCE, before + Block(parts))), Some(extensions)), issuerHash, trust)
  {
    var cert := Certificate(Some(Wrap(SEQUENCE, before + Block(parts))), Some(extensions));
    ValueOfWrap(w, limit, SEQUENCE, before + Block(parts), SEQUENCE);
    SignedItem(Wrap(SEQUENCE, before + Block(Without(parts, i))), issuerHash, trust, items, k, s);
    assert Verified(w, limit, cert, issuerHash, trust, i, before, parts, items);
  }

  /** The bytes that a log signs determine the issuer and the body without the timestamps: a signature
      for one certificate is never one for a certificate that differs in anything else. */
  lemma EntryBindsCertificate(w: nat, limit: int, s: Sct, issuerHash: Bytes, before: Bytes, parts: seq<Bytes>,
                              s': Sct, issuerHash': Bytes, before': Bytes, parts': seq<Bytes>)
    requires Word(w, limit) && WellFormed(s) && WellFormed(s') && |issuerHash| == |issuerHash'| == 32
    requires |before + Block(parts)| < limit && |before' + Block(parts')| < limit
    requires var tbs, tbs' := Wrap(SEQUENCE, before + Block(parts)), Wrap(SEQUENCE, before' + Block(parts'));
             && |tbs| <= 0xff_ffff && |tbs'| <= 0xff_ffff
             && SignedEntry(s.timestamp, issuerHash, tbs, s.extensions) == SignedEntry(s'.timestamp, issuerHash', tbs', s'.extensions)
    ensures issuerHash == issuerHash' && before + Block(parts) == before' + Block(parts') && s.timestamp == s'.timestamp
  {
    var tbs, tbs' := Wrap(SEQUENCE, before + Block(parts)), Wrap(SEQUENCE, before' + Block(parts'));
    SignedEntryInjective(s.timestamp, issuerHash, tbs, s.extensions, s'.timestamp, issuerHash', tbs', s'.extensions);
    WrapInjective(w, limit, SEQUENCE, before + Block(parts), SEQUENCE, before' + Block(parts'));
  }
}
