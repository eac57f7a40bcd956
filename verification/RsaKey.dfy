/** The RSA public key parser over the cursor reader: two integers inside a sequence. */
module RsaKey {
  import opened Common
  import opened Der

  datatype Key = Key(modulus: Bytes, exponent: Bytes)

  datatype KeyError = BadElement(cause: DerError) | Malformed

  const SEQUENCE: Byte := 0x30
  const INTEGER: Byte := 0x02

  function Unsigned(modulus: Bytes): Bytes
    requires modulus != []
  {
    if modulus[0] == 0 then modulus[1..] else modulus
  }

  function Parse(limit: int, der: Bytes): Result<Key, KeyError> {
    match Read(limit, der, 0, SEQUENCE)
    case Err(e) => Err(BadElement(e))
    case Ok(outer) => if outer.next != |der| then Err(Malformed) else ParseIntegers(limit, outer.value)
  }

  function ParseIntegers(limit: int, body: Bytes): Result<Key, KeyError> {
    match Read(limit, body, 0, INTEGER)
    case Err(e) => Err(BadElement(e))
    case Ok(modulus) =>
      match Read(limit, body, modulus.next, INTEGER)
      case Err(e) => Err(BadElement(e))
      case Ok(exponent) =>
        if exponent.next != |body| || modulus.value == [] || exponent.value == [] then Err(Malformed)
        else Ok(Key(Unsigned(modulus.value), exponent.value))
  }

  method ParseRsaPublicKey(limit: int, der: Bytes) returns (r: Result<Key, KeyError>)
    ensures r == Parse(limit, der)
  {
    var body, pos := ReadValue(limit, der, 0, SEQUENCE);
    if body.Err? {
      return Err(BadElement(body.error));
    }
    if pos != |der| {
      return Err(Malformed);
    }
    var modulus, inner := ReadValue(limit, body.value, 0, INTEGER);
    if modulus.Err? {
      return Err(BadElement(modulus.error));
    }
    var exponent, end := ReadValue(limit, body.value, inner, INTEGER);
    if exponent.Err? {
      return Err(BadElement(exponent.error));
    }
    if end != |body.value| || modulus.value == [] || exponent.value == [] {
      return Err(Malformed);
    }
    return Ok(Key(Unsigned(modulus.value), exponent.value));
  }

  // ----- what is read does not depend on what surrounds it -----

  lemma {:induction false} SameLength(limit: int, der: Bytes, pos: nat, element: Bytes, from: nat, count: nat)
    requires pos + |element| <= |der| && der[pos..pos + |element|] == element && from + count <= |element|
    ensures CheckedLength(limit, der, pos + from, count) == CheckedLength(limit, element, from, count)
    decreases count
  {
    if count > 0 {
      SameLength(limit, der, pos, element, from, count - 1);
      assert der[pos..pos + |element|][from + count - 1] == der[pos + (from + count - 1)];
    }
  }

  /** `element` is one whole element. */
  predicate Encodes(limit: int, tag: Byte, content: Bytes, element: Bytes) {
    Read(limit, element, 0, tag) == Ok(Element(content, |element|))
  }

  /** The length octets of an element, read in place. */
  lemma LengthInPlace(limit: int, der: Bytes, pos: nat, element: Bytes)
    requires pos + |element| <= |der| && der[pos..pos + |element|] == element && |element| >= 2
    requires element[1] <= 128 || |element| >= 2 + (element[1] - 128)
    ensures LengthAt(limit, CURSOR_COUNT, der, pos + 1) ==
            match LengthAt(limit, CURSOR_COUNT, element, 1)
            case None => None
            case Some(l) => Some(Length(l.value, pos + l.next))
  {
    assert der[pos + 1] == element[1];
    if element[1] > 128 {
      SameLength(limit, der, pos, element, 2, element[1] - 128);
      assert pos + 1 + 1 == pos + 2;
    }
  }

  lemma ReadInPlace(limit: int, der: Bytes, pos: nat, element: Bytes, tag: Byte, content: Bytes)
    requires pos + |element| <= |der| < limit && der[pos..pos + |element|] == element
    requires Encodes(limit, tag, content, element)
    ensures Read(limit, der, pos, tag) == Ok(Element(content, pos + |element|))
  {
    assert der[pos] == element[0];
    LengthInPlace(limit, der, pos, element);
    var l := LengthAt(limit, CURSOR_COUNT, element, 1).value;
    assert der[pos + l.next..pos + |element|] == der[pos..pos + |element|][l.next..];
    assert element[l.next..|element|] == element[l.next..];
  }

  lemma ReadIsElement(limit: int, der: Bytes, pos: nat, tag: Byte)
    requires Read(limit, der, pos, tag).Ok?
    ensures var e := Read(limit, der, pos, tag).value; Encodes(limit, tag, e.value, der[pos..e.next])
  {
    var e := Read(limit, der, pos, tag).value;
    var element := der[pos..e.next];
    var l := LengthAt(limit, CURSOR_COUNT, der, pos + 1).value;
    assert element[0] == der[pos] && element[1] == der[pos + 1];
    LengthInPlace(limit, der, pos, element);
    assert element[l.next - pos..e.next - pos] == der[l.next..e.next];
  }

  // ----- the key format -----

  /** The buffer is a sequence of exactly two nonempty integers. */
  ghost predicate Represents(limit: int, der: Bytes, key: Key) {
    exists modulus: Bytes, first: Bytes, second: Bytes ::
      && Encodes(limit, SEQUENCE, first + second, der)
      && Encodes(limit, INTEGER, modulus, first) && Encodes(limit, INTEGER, key.exponent, second)
      && modulus != [] && key.exponent != [] && key.modulus == Unsigned(modulus)
  }

  lemma IntegersOf(limit: int, body: Bytes, first: Bytes, second: Bytes, modulus: Bytes, exponent: Bytes)
    requires body == first + second && |body| < limit && modulus != [] && exponent != []
    requires Encodes(limit, INTEGER, modulus, first) && Encodes(limit, INTEGER, exponent, second)
    ensures ParseIntegers(limit, body) == Ok(Key(Unsigned(modulus), exponent))
  {
    ReadInPlace(limit, body, 0, first, INTEGER, modulus);
    ReadInPlace(limit, body, |first|, second, INTEGER, exponent);
  }

  lemma AcceptedRepresents(limit: int, der: Bytes, key: Key)
    requires Parse(limit, der) == Ok(key)
    ensures Represents(limit, der, key)
  {
    var body := Read(limit, der, 0, SEQUENCE).value.value;
    var modulus, first, second := IntegersIn(limit, body, key);
    assert Encodes(limit, SEQUENCE, first + second, der);
  }

  lemma IntegersIn(limit: int, body: Bytes, key: Key) returns (modulus: Bytes, first: Bytes, second: Bytes)
    requires ParseIntegers(limit, body) == Ok(key)
    ensures body == first + second && Encodes(limit, INTEGER, modulus, first) && Encodes(limit, INTEGER, key.exponent, second)
    ensures modulus != [] && key.exponent != [] && key.modulus == Unsigned(modulus)
  {
    var m := Read(limit, body, 0, INTEGER).value;
    ReadIsElement(limit, body, 0, INTEGER);
    ReadIsElement(limit, body, m.next, INTEGER);
    modulus, first, second := m.value, body[0..m.next], body[m.next..|body|];
  }

  lemma RepresentedAccepted(limit: int, der: Bytes, key: Key)
    requires |der| < limit && Represents(limit, der, key)
    ensures Parse(limit, der) == Ok(key)
  {
    var modulus: Bytes, first: Bytes, second: Bytes :|
      && Encodes(limit, SEQUENCE, first + second, der)
      && Encodes(limit, INTEGER, modulus, first) && Encodes(limit, INTEGER, key.exponent, second)
      && modulus != [] && key.exponent != [] && key.modulus == Unsigned(modulus);
    assert |first + second| <= |der|;
    IntegersOf(limit, first + second, first, second, modulus, key.exponent);
  }

  /** A key is accepted exactly when the buffer represents it. */
  lemma AcceptedIff(limit: int, der: Bytes, key: Key)
    requires |der| < limit
    ensures Parse(limit, der) == Ok(key) <==> Represents(limit, der, key)
  {
    if Parse(limit, der) == Ok(key) {
      AcceptedRepresents(limit, der, key);
    }
    if Represents(limit, der, key) {
      RepresentedAccepted(limit, der, key);
    }
  }

  lemma WrapEncodes(w: nat, limit: int, tag: Byte, content: Bytes)
    requires Word(w, limit) && |Wrap(tag, content)| < limit && |content| < CURSOR_LIMIT
    ensures Encodes(limit, tag, content, Wrap(tag, content))
  {
    var der := Wrap(tag, content);
    assert der == [] + der + [];
    ReadOfWrap(w, limit, der, [], tag, content, []);
  }

  /** Reading back a written key, whatever its size below 2^32 bytes. */
  lemma RoundTrip(w: nat, limit: int, modulus: Bytes, exponent: Bytes)
    requires Word(w, limit) && modulus != [] && exponent != []
    requires var body := Wrap(INTEGER, modulus) + Wrap(INTEGER, exponent);
             |Wrap(SEQUENCE, body)| < limit && |body| < CURSOR_LIMIT
    ensures Parse(limit, Wrap(SEQUENCE, Wrap(INTEGER, modulus) + Wrap(INTEGER, exponent)))
            == Ok(Key(Unsigned(modulus), exponent))
  {
    var first, second := Wrap(INTEGER, modulus), Wrap(INTEGER, exponent);
    WrapEncodes(w, limit, INTEGER, modulus);
    WrapEncodes(w, limit, INTEGER, exponent);
    WrapEncodes(w, limit, SEQUENCE, first + second);
    IntegersOf(limit, first + second, first, second, modulus, exponent);
  }

  /** The content of a positive DER integer with these magnitude bytes: a zero comes first when the top bit is set. */
  function PositiveInteger(magnitude: Bytes): Bytes
    requires magnitude != []
  {
    if magnitude[0] >= 128 then [0] + magnitude else magnitude
  }

  /** Every public key, written as section A.1.1 of RFC 8017 says, is read back as its magnitude and exponent. */
  lemma WrittenKey(w: nat, limit: int, magnitude: Bytes, exponent: Bytes)
    requires Word(w, limit) && magnitude != [] && magnitude[0] != 0 && exponent != []
    requires var body := Wrap(0x02, PositiveInteger(magnitude)) + Wrap(0x02, exponent);
             |Wrap(0x30, body)| < limit && |body| < 0x1_0000_0000
    ensures Parse(limit, Wrap(0x30, Wrap(0x02, PositiveInteger(magnitude)) + Wrap(0x02, exponent))) == Ok(Key(magnitude, exponent))
  {
    RoundTrip(w, limit, PositiveInteger(magnitude), exponent);
    assert ([0] + magnitude)[1..] == magnitude;
  }
}
