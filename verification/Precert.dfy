/** Rebuilding the precertificate: the timestamp extension is found and cut out of the certificate
    body, and every enclosing length is written again (section 3.2 of RFC 6962). */
module Precert {
  import opened Common
  import opened Der

  datatype PrecertError = Poison | BadExtension | Missing | Encoding | BadBody(cause: DerError) | BadExtensions

  datatype Kind = Timestamps | PoisonMark | Other

  /** `encoded` is the whole extension written again, and `octets` its value read as an octet string. */
  datatype Extension = Extension(kind: Kind, critical: bool, encoded: Option<Bytes>, octets: Option<Bytes>)

  const SEQUENCE: Byte := 0x30
  const EXTENSIONS: Byte := 0xa3

  // ----- finding the extension -----

  /** `i` is the only timestamp extension, it is not critical, and nothing is poisoned. */
  predicate OnlyTimestamps(extensions: seq<Extension>, i: nat) {
    && i < |extensions| && extensions[i].kind == Timestamps && !extensions[i].critical
    && forall j :: 0 <= j < |extensions| && j != i ==> extensions[j].kind == Other
  }

  method FindTimestamps(extensions: seq<Extension>) returns (r: Result<nat, PrecertError>)
    ensures forall i: nat :: r == Ok(i) <==> OnlyTimestamps(extensions, i)
  {
    var found: Option<nat> := None;
    for i := 0 to |extensions|
      invariant found == None ==> forall j :: 0 <= j < i ==> extensions[j].kind == Other
      invariant found.Some? ==> found.value < i && OnlyTimestamps(extensions[..i], found.value)
    {
      var extension := extensions[i];
      if extension.kind == PoisonMark {
        return Err(Poison);
      }
      if extension.kind == Timestamps {
        if found.Some? || extension.critical {
          return Err(BadExtension);
        }
        found := Some(i);
      }
    }
    assert extensions[..|extensions|] == extensions;
    if found == None {
      return Err(Missing);
    }
    return Ok(found.value);
  }

  // ----- the block of extensions -----

  function Without(parts: seq<Bytes>, i: nat): seq<Bytes> {
    if i < |parts| then parts[..i] + parts[i + 1..] else parts
  }

  /** The tagged block that ends a certificate body. */
  function Block(parts: seq<Bytes>): Bytes {
    Wrap(EXTENSIONS, Wrap(SEQUENCE, Concat(parts)))
  }

  predicate EndsWith(s: Bytes, suffix: Bytes) {
    |suffix| <= |s| && s[|s| - |suffix|..] == suffix
  }

  function Encodings(extensions: seq<Extension>): Option<seq<Bytes>> {
    if extensions == [] then Some([])
    else
      match (Encodings(extensions[..|extensions| - 1]), extensions[|extensions| - 1].encoded)
      case (Some(parts), Some(last)) => Some(parts + [last])
      case _ => None
  }

  function Rebuild(w: nat, limit: int, tbs: Bytes, extensions: seq<Extension>, index: nat): Result<Bytes, PrecertError> {
    match Value(w, limit, tbs, SEQUENCE)
    case Err(e) => Err(BadBody(e))
    case Ok(body) =>
      match Encodings(extensions)
      case None => Err(Encoding)
      case Some(parts) =>
        if EndsWith(body, Block(parts))
        then Ok(Wrap(SEQUENCE, body[..|body| - |Block(parts)|] + Block(Without(parts, index))))
        else Err(BadExtensions)
  }

  // ----- the loop -----

  lemma {:induction false} EncodingFails(extensions: seq<Extension>, i: nat)
    requires i <= |extensions| && Encodings(extensions[..i]) == None
    ensures Encodings(extensions) == None
    decreases |extensions| - i
  {
    if i < |extensions| {
      assert extensions[..i + 1][..i] == extensions[..i];
      EncodingFails(extensions, i + 1);
    } else {
      assert extensions[..i] == extensions;
    }
  }

  lemma ConcatStep(parts: seq<Bytes>, last: Bytes)
    ensures Concat(parts + [last]) == Concat(parts) + last
  {
    assert (parts + [last])[..|parts|] == parts;
  }

  lemma WithoutStep(parts: seq<Bytes>, last: Bytes, i: nat)
    ensures Without(parts + [last], i) == if i == |parts| then parts else Without(parts, i) + [last]
  {
  }

  lemma CollectStep(parts: seq<Bytes>, last: Bytes, index: nat, all: Bytes, remaining: Bytes)
    requires all == Concat(parts) && remaining == Concat(Without(parts, index))
    ensures all + last == Concat(parts + [last])
    ensures Concat(Without(parts + [last], index)) == if index == |parts| then remaining else remaining + last
  {
    ConcatStep(parts, last);
    WithoutStep(parts, last, index);
    ConcatStep(Without(parts, index), last);
  }

  /** All encodings in order, and all but the one at `index`. */
  method Collect(extensions: seq<Extension>, index: nat) returns (r: Result<(Bytes, Bytes), PrecertError>)
    ensures r == match Encodings(extensions)
                 case None => Err(Encoding)
                 case Some(parts) => Ok((Concat(parts), Concat(Without(parts, index))))
  {
    var all: Bytes, remaining: Bytes := [], [];
    ghost var parts: seq<Bytes> := [];
    for i := 0 to |extensions|
      invariant Encodings(extensions[..i]) == Some(parts) && |parts| == i
      invariant all == Concat(parts) && remaining == Concat(Without(parts, index))
    {
      assert extensions[..i + 1][..i] == extensions[..i];
      var encoded := extensions[i].encoded;
      if encoded == None {
        EncodingFails(extensions, i + 1);
        return Err(Encoding);
      }
      CollectStep(parts, encoded.value, index, all, remaining);
      all := all + encoded.value;
      if i != index {
        remaining := remaining + encoded.value;
      }
      parts := parts + [encoded.value];
    }
    assert extensions[..|extensions|] == extensions;
    return Ok((all, remaining));
  }

  lemma {:induction false} ConcatAppend(a: seq<Bytes>, b: seq<Bytes>)
    ensures Concat(a + b) == Concat(a) + Concat(b)
    decreases |b|
  {
    if b == [] {
      assert a + b == a;
    } else {
      var n := |b| - 1;
      ConcatAppend(a, b[..n]);
      assert a + b == (a + b[..n]) + [b[n]];
      ConcatStep(a + b[..n], b[n]);
    }
  }

  lemma ConcatSplit(parts: seq<Bytes>, before: seq<Bytes>, part: Bytes, after: seq<Bytes>)
    requires parts == before + [part] + after
    ensures Concat(parts) == Concat(before) + part + Concat(after)
  {
    ConcatAppend(before + [part], after);
    ConcatStep(before, part);
  }

  lemma WithoutIs(parts: seq<Bytes>, before: seq<Bytes>, part: Bytes, after: seq<Bytes>)
    requires parts == before + [part] + after
    ensures Without(parts, |before|) == before + after
  {
    assert parts[..|before|] == before && parts[|before| + 1..] == after;
  }

  /** Removing one part takes away exactly its bytes. */
  lemma WithoutBytes(parts: seq<Bytes>, before: seq<Bytes>, part: Bytes, after: seq<Bytes>)
    requires parts == before + [part] + after
    ensures Concat(parts) == Concat(before) + part + Concat(after)
    ensures Concat(Without(parts, |before|)) == Concat(before) + Concat(after)
  {
    ConcatSplit(parts, before, part, after);
    WithoutIs(parts, before, part, after);
    ConcatAppend(before, after);
  }

  lemma WithoutShorter(parts: seq<Bytes>, i: nat)
    ensures |Concat(Without(parts, i))| <= |Concat(parts)|
  {
    if i < |parts| {
      assert parts == parts[..i] + [parts[i]] + parts[i + 1..];
      WithoutBytes(parts, parts[..i], parts[i], parts[i + 1..]);
    }
  }

  lemma {:induction false} MinimalMonotone(m: nat, n: nat)
    requires m <= n
    ensures |Minimal(m)| <= |Minimal(n)|
    decreases n
  {
    if m >= 256 {
      MinimalMonotone(m / 256, n / 256);
    }
  }

  lemma WrapMonotone(tag: Byte, content: Bytes, other: Bytes)
    requires |content| <= |other|
    ensures |Wrap(tag, content)| <= |Wrap(tag, other)|
    ensures |content| < |Wrap(tag, content)|
  {
    MinimalMonotone(|content|, |other|);
  }

  lemma BlockShorter(parts: seq<Bytes>, i: nat)
    ensures |Block(Without(parts, i))| <= |Block(parts)|
    ensures |Concat(parts)| < |Wrap(SEQUENCE, Concat(parts))| < |Block(parts)|
    ensures |Concat(Without(parts, i))| < |Wrap(SEQUENCE, Concat(Without(parts, i)))| < |Block(Without(parts, i))|
  {
    WithoutShorter(parts, i);
    var short, long := Concat(Without(parts, i)), Concat(parts);
    WrapMonotone(SEQUENCE, short, long);
    WrapMonotone(SEQUENCE, long, long);
    WrapMonotone(EXTENSIONS, Wrap(SEQUENCE, short), Wrap(SEQUENCE, long));
    WrapMonotone(EXTENSIONS, Wrap(SEQUENCE, long), Wrap(SEQUENCE, long));
  }

  /** The buffers of the original fit in memory. */
  predicate Fits(limit: int, tbs: Bytes, extensions: seq<Extension>) {
    |tbs| < limit && (Encodings(extensions).Some? ==> |Block(Encodings(extensions).value)| < limit)
  }

  method PrecertTbs(w: nat, limit: int, tbs: Bytes, extensions: seq<Extension>, index: nat)
    returns (r: Result<Bytes, PrecertError>)
    requires Word(w, limit) && Fits(limit, tbs, extensions)
    ensures r == Rebuild(w, limit, tbs, extensions, index)
  {
    var body := DerValue(w, limit, tbs, SEQUENCE);
    if body.Err? {
      return Err(BadBody(body.error));
    }
    var collected := Collect(extensions, index);
    if collected.Err? {
      return Err(collected.error);
    }
    var (all, remaining) := collected.value;
    ghost var parts := Encodings(extensions).value;
    BlockShorter(parts, index);
    var sequence := DerWrap(w, SEQUENCE, all);
    var block := DerWrap(w, EXTENSIONS, sequence);
    if !EndsWith(body.value, block) {
      return Err(BadExtensions);
    }
    var rebuilt := body.value[..|body.value| - |block|];
    sequence := DerWrap(w, SEQUENCE, remaining);
    block := DerWrap(w, EXTENSIONS, sequence);
    rebuilt := rebuilt + block;
    var out := DerWrap(w, SEQUENCE, rebuilt);
    return Ok(out);
  }

  // ----- what the result is -----

  /** `body` is `before` followed by the block of these parts. */
  predicate BodyOf(body: Bytes, before: Bytes, parts: seq<Bytes>) {
    body == before + Block(parts)
  }

  lemma SuffixIff(body: Bytes, before: Bytes, block: Bytes)
    ensures body == before + block <==> EndsWith(body, block) && body[..|body| - |block|] == before
  {
    if EndsWith(body, block) {
      assert body == body[..|body| - |block|] + block;
    }
    if body == before + block {
      assert body[|before|..] == block && body[..|before|] == before;
    }
  }

  /** A result is the body with exactly the chosen extension removed, and every result is one. */
  lemma RebuildIff(w: nat, limit: int, tbs: Bytes, extensions: seq<Extension>, parts: seq<Bytes>, index: nat, out: Bytes)
    requires Encodings(extensions) == Some(parts)
    ensures Rebuild(w, limit, tbs, extensions, index) == Ok(out) <==>
            exists before: Bytes ::
              && Value(w, limit, tbs, SEQUENCE).Ok? && BodyOf(Value(w, limit, tbs, SEQUENCE).value, before, parts)
              && out == Wrap(SEQUENCE, before + Block(Without(parts, index)))
  {
    if Value(w, limit, tbs, SEQUENCE).Ok? {
      var body := Value(w, limit, tbs, SEQUENCE).value;
      forall before: Bytes
        ensures BodyOf(body, before, parts) <==>
                EndsWith(body, Block(parts)) && body[..|body| - |Block(parts)|] == before
      {
        SuffixIff(body, before, Block(parts));
      }
      if EndsWith(body, Block(parts)) {
        assert BodyOf(body, body[..|body| - |Block(parts)|], parts);
      }
    }
  }

  /** Every enclosing length of the result is right: reading the three layers gives back the parts
      that remain. */
  lemma LayersReadBack(w: nat, limit: int, before: Bytes, parts: seq<Bytes>)
    requires Word(w, limit) && |before + Block(parts)| < limit
    ensures Value(w, limit, Wrap(SEQUENCE, before + Block(parts)), SEQUENCE) == Ok(before + Block(parts))
    ensures Value(w, limit, Block(parts), EXTENSIONS) == Ok(Wrap(SEQUENCE, Concat(parts)))
    ensures Value(w, limit, Wrap(SEQUENCE, Concat(parts)), SEQUENCE) == Ok(Concat(parts))
  {
    BlockShorter(parts, |parts|);
    ValueOfWrap(w, limit, SEQUENCE, before + Block(parts), SEQUENCE);
    ValueOfWrap(w, limit, EXTENSIONS, Wrap(SEQUENCE, Concat(parts)), EXTENSIONS);
    ValueOfWrap(w, limit, SEQUENCE, Concat(parts), SEQUENCE);
  }

  /** Every certificate body written with these extensions is accepted and rebuilt. */
  lemma RebuildWritten(w: nat, limit: int, before: Bytes, extensions: seq<Extension>, parts: seq<Bytes>, index: nat)
    requires Word(w, limit) && Encodings(extensions) == Some(parts) && |before + Block(parts)| < limit
    ensures Rebuild(w, limit, Wrap(0x30, before + Wrap(0xa3, Wrap(0x30, Concat(parts)))), extensions, index)
            == Ok(Wrap(0x30, before + Wrap(0xa3, Wrap(0x30, Concat(if index < |parts| then parts[..index] + parts[index + 1..] else parts)))))
  {
    ValueOfWrap(w, limit, SEQUENCE, before + Block(parts), SEQUENCE);
    SuffixIff(before + Block(parts), before, Block(parts));
  }
}
