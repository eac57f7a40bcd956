/** The DER writer and the two DER readers: one that takes a whole buffer apart and one that
    advances a cursor. A machine word has `w` bytes and `limit` values. */
module Der {
  import opened Common
  import opened Arithmetic
  import opened Positional

  datatype DerError = InvalidTag | InvalidLength

  datatype Length = Length(value: nat, next: nat)

  datatype Element = Element(value: Bytes, next: nat)

  ghost predicate Word(w: nat, limit: int) {
    0 < w < 128 && limit == Pow(256, w)
  }

  // ----- lengths -----

  function CheckedStep(limit: int, n: nat, byte: Byte): Option<nat> {
    if n * 256 >= limit || n * 256 + byte >= limit then None else Some(n * 256 + byte)
  }

  /** Big-endian accumulation of the `count` bytes at `from`, with checked arithmetic. */
  function CheckedLength(limit: int, s: Bytes, from: nat, count: nat): Option<nat>
    requires from + count <= |s|
    decreases count
  {
    if count == 0 then Some(0)
    else
      match CheckedLength(limit, s, from, count - 1)
      case None => None
      case Some(n) => CheckedStep(limit, n, s[from + count - 1])
  }

  lemma {:induction false} OverflowStays(limit: int, s: Bytes, from: nat, i: nat, count: nat)
    requires i <= count && from + count <= |s| && CheckedLength(limit, s, from, i) == None
    ensures CheckedLength(limit, s, from, count) == None
    decreases count - i
  {
    if i < count {
      OverflowStays(limit, s, from, i + 1, count);
    }
  }

  method AccumulateLength(limit: int, s: Bytes, from: nat, count: nat) returns (r: Option<nat>)
    requires from + count <= |s|
    ensures r == CheckedLength(limit, s, from, count)
  {
    var length := 0;
    for i := 0 to count
      invariant CheckedLength(limit, s, from, i) == Some(length)
    {
      var byte := s[from + i];
      if length * 256 >= limit || length * 256 + byte >= limit {
        OverflowStays(limit, s, from, i + 1, count);
        return None;
      }
      length := length * 256 + byte;
    }
    return Some(length);
  }

  lemma DigitAdded(w: nat, t: Bytes, before: Bytes, last: Byte)
    requires t == before + [last] && |t| <= w
    ensures BigEndian(256, t) == BigEndian(256, before) * 256 + last < Pow(256, w)
  {
    assert t[..|t| - 1] == before;
    DigitsOfValue(256, t);
    PowMonotone(256, |t|, w);
  }

  /** No overflow can happen in a word that holds all the length bytes. */
  lemma {:induction false} NoOverflow(w: nat, s: Bytes, from: nat, count: nat)
    requires count <= w && from + count <= |s|
    ensures CheckedLength(Pow(256, w), s, from, count) == Some(BigEndian(256, s[from..from + count]))
    decreases count
  {
    if count > 0 {
      NoOverflow(w, s, from, count - 1);
      DigitAdded(w, s[from..from + count], s[from..from + count - 1], s[from + count - 1]);
    }
  }

  // ----- writing -----

  /** The base-256 digits of `n` without leading zeros. */
  function Minimal(n: nat): (s: Bytes)
    ensures s != [] && (n > 0 ==> s[0] != 0)
  {
    if n < 256 then [n] else Minimal(n / 256) + [n % 256]
  }

  /** The length octets of `n`. */
  function Header(n: nat): (h: Bytes)
    ensures h != []
  {
    if n < 128 then [n] else [(128 + |Minimal(n)|) % 256] + Minimal(n)
  }

  function Wrap(tag: Byte, content: Bytes): Bytes {
    [tag] + Header(|content|) + content
  }

  lemma {:induction false} MinimalValue(n: nat)
    ensures BigEndian(256, Minimal(n)) == n
  {
    if n >= 256 {
      MinimalValue(n / 256);
      var s := Minimal(n);
      assert s[..|s| - 1] == Minimal(n / 256);
    } else {
      assert Minimal(n)[..0] == [];
    }
  }

  lemma {:induction false} MinimalStep(q: nat, r: Byte)
    requires q > 0
    ensures Minimal(q * 256 + r) == Minimal(q) + [r]
  {
    assert (q * 256 + r) / 256 == q && (q * 256 + r) % 256 == r;
  }

  lemma {:induction false} MinimalUnique(s: Bytes)
    requires s != [] && s[0] != 0
    ensures BigEndian(256, s) > 0 && Minimal(BigEndian(256, s)) == s
  {
    var k := |s| - 1;
    if k == 0 {
      assert s[..0] == [];
    } else {
      MinimalUnique(s[..k]);
      MinimalStep(BigEndian(256, s[..k]), s[k]);
    }
  }

  /** How many digits a number needs. */
  lemma MinimalCount(n: nat, k: nat)
    requires n > 0
    ensures |Minimal(n)| <= k <==> n < Pow(256, k)
  {
    var s := Minimal(n);
    MinimalValue(n);
    DigitsOfValue(256, s);
    LeadingDigit(256, s);
    if |s| <= k {
      PowMonotone(256, |s|, k);
    } else {
      PowMonotone(256, k, |s| - 1);
    }
  }

  lemma StrippedIsMinimal(n: nat, s: Bytes, start: nat)
    requires start < |s| && BigEndian(256, s) == n && n > 0
    requires (forall j :: 0 <= j < start ==> s[j] == 0) && (s[start] != 0 || start == |s| - 1)
    ensures s[start..] == Minimal(n)
  {
    LeadingZeros(256, s, start);
    ZeroValue(256, s);
    assert s[start] != 0;
    MinimalUnique(s[start..]);
  }

  /** The bytes of a machine word from the first one that is not zero. */
  method SignificantBytes(w: nat, n: nat) returns (s: Bytes)
    requires 0 < n < Pow(256, w)
    ensures s == Minimal(n)
  {
    var len: Bytes := Digits(256, n, w);
    var start := 0;
    while start < |len| && len[start] == 0
      invariant start <= |len| && forall j :: 0 <= j < start ==> len[j] == 0
    {
      start := start + 1;
    }
    if start == |len| {
      start := |len| - 1;
    }
    ValueOfDigits(256, n, w);
    StrippedIsMinimal(n, len, start);
    s := len[start..];
  }

  method DerWrap(w: nat, tag: Byte, content: Bytes) returns (out: Bytes)
    requires 0 < w < 128 && |content| < Pow(256, w)
    ensures out == Wrap(tag, content)
  {
    out := [tag];
    if |content| < 128 {
      out := out + [|content|];
    } else {
      var len := SignificantBytes(w, |content|);
      DigitCount(w, |content|, len);
      LongForm(|content|, len);
      out := out + [128 + |len|];
      out := out + len;
      assert out == [tag] + ([128 + |len|] + len);
    }
    out := out + content;
  }

  // ----- reading -----

  function LengthAt(limit: int, maxCount: nat, der: Bytes, at: nat): (r: Option<Length>)
    requires at < |der|
    ensures r.Some? ==> at < r.value.next <= |der|
  {
    if der[at] < 128 then Some(Length(der[at], at + 1))
    else
      var count := der[at] - 128;
      if count == 0 || count > maxCount || |der| < at + 1 + count then None
      else
        match CheckedLength(limit, der, at + 1, count)
        case None => None
        case Some(n) => Some(Length(n, at + 1 + count))
  }

  /** The content of a buffer that is one element with this tag. */
  function Value(w: nat, limit: int, input: Bytes, tag: Byte): Result<Bytes, DerError> {
    if |input| < 2 || input[0] != tag then Err(InvalidTag)
    else
      match LengthAt(limit, w, input, 1)
      case None => Err(InvalidLength)
      case Some(l) => if |input| - l.next != l.value then Err(InvalidLength) else Ok(input[l.next..])
  }

  const CURSOR_COUNT := 4
  const CURSOR_LIMIT := 0x1_0000_0000

  /** The element with this tag at the cursor. */
  function Read(limit: int, der: Bytes, pos: nat, tag: Byte): (r: Result<Element, DerError>)
    ensures r.Ok? ==> pos < r.value.next <= |der|
  {
    if pos >= |der| || der[pos] != tag then Err(InvalidTag)
    else if pos + 1 >= |der| then Err(InvalidLength)
    else
      match LengthAt(limit, CURSOR_COUNT, der, pos + 1)
      case None => Err(InvalidLength)
      case Some(l) =>
        var end := l.next + l.value;
        if end >= limit || end > |der| then Err(InvalidLength) else Ok(Element(der[l.next..end], end))
  }

  method DerValue(w: nat, limit: int, input: Bytes, tag: Byte) returns (r: Result<Bytes, DerError>)
    ensures r == Value(w, limit, input, tag)
  {
    if |input| < 2 || input[0] != tag {
      return Err(InvalidTag);
    }
    var first := input[1];
    var len, header := first, 2;
    if first >= 128 {
      var count := first - 128;
      if count == 0 || count > w || |input| < 2 + count {
        return Err(InvalidLength);
      }
      var length := AccumulateLength(limit, input, 2, count);
      if length == None {
        return Err(InvalidLength);
      }
      len, header := length.value, 2 + count;
    }
    if |input| - header != len {
      return Err(InvalidLength);
    }
    return Ok(input[header..]);
  }

  method ReadValue(limit: int, der: Bytes, start: nat, tag: Byte) returns (r: Result<Bytes, DerError>, pos: nat)
    ensures r.Ok? <==> Read(limit, der, start, tag).Ok?
    ensures r.Ok? ==> Read(limit, der, start, tag) == Ok(Element(r.value, pos))
    ensures r.Err? ==> Read(limit, der, start, tag) == Err(r.error)
  {
    pos := start;
    if pos >= |der| || der[pos] != tag {
      r := Err(InvalidTag);
      return;
    }
    pos := pos + 1;
    if pos >= |der| {
      r := Err(InvalidLength);
      return;
    }
    var first := der[pos];
    pos := pos + 1;
    var length := first;
    if first >= 128 {
      var count := first - 128;
      if count == 0 || count > CURSOR_COUNT || |der| - pos < count {
        r := Err(InvalidLength);
        return;
      }
      var accumulated := AccumulateLength(limit, der, pos, count);
      if accumulated == None {
        r := Err(InvalidLength);
        return;
      }
      pos := pos + count;
      length := accumulated.value;
    }
    var end := pos + length;
    if end >= limit || end > |der| {
      r := Err(InvalidLength);
      return;
    }
    r := Ok(der[pos..end]);
    pos := end;
  }

  // ----- lengths, written and read -----

  /** The length octets are in the form that the writer gives them. */
  predicate MinimalLength(der: Bytes, at: nat, n: nat)
    requires at < |der|
  {
    der[at] < 128 || (n >= 128 && at + 1 < |der| && der[at + 1] != 0)
  }

  /** Reading back the long form of a length. */
  lemma LongLength(limit: int, maxCount: nat, der: Bytes, at: nat, n: nat, count: nat)
    requires 0 < count < 128 && at + 1 + count <= |der| && der[at] == 128 + count
    requires CheckedLength(limit, der, at + 1, count) == Some(n)
    ensures LengthAt(limit, maxCount, der, at) == if count <= maxCount then Some(Length(n, at + 1 + count)) else None
  {
  }

  lemma DigitCount(w: nat, n: nat, s: Bytes)
    requires 0 < n < Pow(256, w) && s == Minimal(n)
    ensures |s| <= w && BigEndian(256, s) == n
  {
    MinimalValue(n);
    MinimalCount(n, w);
  }

  lemma LongDigits(w: nat, der: Bytes, from: nat, n: nat, s: Bytes)
    requires BigEndian(256, s) == n && |s| <= w && from + |s| <= |der| && der[from..from + |s|] == s
    ensures CheckedLength(Pow(256, w), der, from, |s|) == Some(n)
  {
    NoOverflow(w, der, from, |s|);
  }

  lemma LongForm(n: nat, s: Bytes)
    requires n >= 128 && s == Minimal(n) && |s| < 128
    ensures Header(n) == [128 + |s|] + s
  {
  }

  lemma LengthOfHeader(w: nat, limit: int, maxCount: nat, der: Bytes, at: nat, n: nat, header: Bytes)
    requires Word(w, limit) && n < limit && header == Header(n)
    requires at + |header| <= |der| && der[at..at + |header|] == header
    ensures LengthAt(limit, maxCount, der, at) ==
            if n < 128 || n < Pow(256, maxCount) then Some(Length(n, at + |header|)) else None
  {
    assert der[at] == header[0];
    if n >= 128 {
      var s := Minimal(n);
      DigitCount(w, n, s);
      LongForm(n, s);
      LongFormLength(w, maxCount, der, at, n, s, header);
      MinimalCount(n, maxCount);
    }
  }

  lemma LongFormLength(w: nat, maxCount: nat, der: Bytes, at: nat, n: nat, s: Bytes, header: Bytes)
    requires 0 < |s| <= w < 128 && BigEndian(256, s) == n && header == [128 + |s|] + s
    requires at + |header| <= |der| && der[at..at + |header|] == header
    ensures LengthAt(Pow(256, w), maxCount, der, at) == if |s| <= maxCount then Some(Length(n, at + |header|)) else None
  {
    HeaderParts(der, at, header, 128 + |s|, s);
    LongDigits(w, der, at + 1, n, s);
    LongLength(Pow(256, w), maxCount, der, at, n, |s|);
  }

  lemma HeaderParts(der: Bytes, at: nat, header: Bytes, first: int, s: Bytes)
    requires 0 <= first < 256 && header == [first] + s && at + |header| <= |der| && der[at..at + |header|] == header
    ensures at + 1 + |s| == at + |header| && der[at] == first && der[at + 1..at + 1 + |s|] == s
  {
    assert der[at] == header[0];
    assert der[at..at + |header|][1..] == header[1..] == s;
  }

  lemma HeaderOf(n: nat, m: Bytes, s: Bytes)
    requires n >= 128 && m == Minimal(n) && 0 < |s| < 128
    ensures [128 + |s|] + s == Header(n) <==> s == m
  {
    var h := [128 + |s|] + s;
    assert h[1..] == s;
    assert Header(n)[1..] == m;
  }

  /** A long form is the writer's exactly when it is needed and has no leading zero. */
  lemma LongHeader(s: Bytes, n: nat)
    requires 0 < |s| < 128 && n == BigEndian(256, s)
    ensures [128 + |s|] + s == Header(n) <==> n >= 128 && s[0] != 0
  {
    if n >= 128 {
      HeaderOf(n, Minimal(n), s);
      if s[0] != 0 {
        MinimalUnique(s);
      }
    } else {
      assert |Header(n)| == 1;
    }
  }

  lemma HeaderOfLength(w: nat, limit: int, maxCount: nat, der: Bytes, at: nat, l: Length)
    requires Word(w, limit) && maxCount <= w && at < |der| && LengthAt(limit, maxCount, der, at) == Some(l)
    ensures der[at..l.next] == Header(l.value) <==> MinimalLength(der, at, l.value)
  {
    if der[at] >= 128 {
      var s := der[at + 1..l.next];
      NoOverflow(w, der, at + 1, |s|);
      assert der[at..l.next] == [128 + |s|] + s;
      LongHeader(s, l.value);
    } else {
      assert der[at..l.next] == [l.value];
    }
  }

  // ----- the whole-buffer reader -----

  /** The whole-buffer reader undoes the writer for every content, and only for its own tag. */
  lemma ValueOfWrap(w: nat, limit: int, tag: Byte, content: Bytes, asked: Byte)
    requires Word(w, limit) && |content| < limit
    ensures Value(w, limit, Wrap(tag, content), asked) == if asked == tag then Ok(content) else Err(InvalidTag)
  {
    var der := Wrap(tag, content);
    var h := Header(|content|);
    assert der[1..1 + |h|] == h;
    assert der[1 + |h|..] == content;
    LengthOfHeader(w, limit, w, der, 1, |content|, h);
  }

  lemma Prefix(input: Bytes, tag: Byte, next: nat, header: Bytes)
    requires 1 <= next <= |input| && input[0] == tag
    ensures input[1..next] == header ==> input == [tag] + header + input[next..]
    ensures input == [tag] + header + input[next..] ==> input[1..next] == header
  {
    assert input == [tag] + input[1..next] + input[next..];
    if input == [tag] + header + input[next..] {
      assert |header| == next - 1;
      assert ([tag] + header + input[next..])[1..next] == header;
    }
  }

  /** What the whole-buffer reader accepts is the writer's output exactly when its length is minimal. */
  lemma WrapOfValue(w: nat, limit: int, input: Bytes, tag: Byte)
    requires Word(w, limit) && Value(w, limit, input, tag).Ok?
    ensures var content := Value(w, limit, input, tag).value;
            input == Wrap(tag, content) <==> MinimalLength(input, 1, |content|)
  {
    var l := LengthAt(limit, w, input, 1).value;
    HeaderOfLength(w, limit, w, input, 1, l);
    Prefix(input, tag, l.next, Header(l.value));
  }

  /** An empty element with its length in one long-form octet is accepted, and the writer never makes it. */
  lemma NonMinimalAccepted(w: nat, limit: int, tag: Byte)
    requires Word(w, limit)
    ensures Value(w, limit, [tag, 0x81, 0], tag) == Ok([]) && [tag, 0x81, 0] != Wrap(tag, [])
  {
    var input := [tag, 0x81, 0];
    NoOverflow(w, input, 2, 1);
    assert input[2..3] == [0] && input[2..3][..0] == [];
    LongLength(limit, w, input, 1, 0, 1);
    assert input[3..] == [];
    assert |Wrap(tag, [])| == 2;
  }

  lemma WrapInjective(w: nat, limit: int, tag: Byte, content: Bytes, otherTag: Byte, other: Bytes)
    requires Word(w, limit) && |content| < limit && |other| < limit
    requires Wrap(tag, content) == Wrap(otherTag, other)
    ensures tag == otherTag && content == other
  {
    assert Wrap(tag, content)[0] == tag && Wrap(otherTag, other)[0] == otherTag;
    ValueOfWrap(w, limit, tag, content, tag);
    ValueOfWrap(w, limit, otherTag, other, tag);
  }

  // ----- the cursor reader -----

  lemma CursorLimit()
    ensures Pow(256, CURSOR_COUNT) == CURSOR_LIMIT
  {
  }

  lemma CursorLength(w: nat, limit: int, der: Bytes, at: nat, n: nat, header: Bytes)
    requires Word(w, limit) && n < limit && header == Header(n)
    requires at + |header| <= |der| && der[at..at + |header|] == header
    ensures LengthAt(limit, CURSOR_COUNT, der, at) == if n < CURSOR_LIMIT then Some(Length(n, at + |header|)) else None
  {
    LengthOfHeader(w, limit, CURSOR_COUNT, der, at, n, header);
    CursorLimit();
  }

  lemma ReadHere(limit: int, der: Bytes, pos: nat, tag: Byte, next: nat, content: Bytes)
    requires pos + 1 < next && next + |content| <= |der| < limit && der[pos] == tag
    requires der[next..next + |content|] == content
    requires LengthAt(limit, CURSOR_COUNT, der, pos + 1) ==
             if |content| < CURSOR_LIMIT then Some(Length(|content|, next)) else None
    ensures Read(limit, der, pos, tag) ==
            if |content| < CURSOR_LIMIT then Ok(Element(content, next + |content|)) else Err(InvalidLength)
  {
  }

  lemma CursorRead(w: nat, limit: int, der: Bytes, pos: nat, tag: Byte, header: Bytes, content: Bytes)
    requires Word(w, limit) && header == Header(|content|) && pos + 1 + |header| + |content| <= |der| < limit
    requires der[pos] == tag && der[pos + 1..pos + 1 + |header|] == header
    requires der[pos + 1 + |header|..pos + 1 + |header| + |content|] == content
    ensures Read(limit, der, pos, tag) ==
            if |content| < CURSOR_LIMIT then Ok(Element(content, pos + 1 + |header| + |content|)) else Err(InvalidLength)
  {
    CursorLength(w, limit, der, pos + 1, |content|, header);
    ReadHere(limit, der, pos, tag, pos + 1 + |header|, content);
  }

  lemma Middle(der: Bytes, before: Bytes, tag: Byte, header: Bytes, content: Bytes, after: Bytes)
    requires der == before + ([tag] + header + content) + after
    ensures var next := |before| + 1 + |header|;
            && |der| == next + |content| + |after| && der[|before|] == tag
            && der[|before| + 1..next] == header && der[next..next + |content|] == content
  {
  }

  /** The cursor reader undoes the writer anywhere in a buffer, exactly below 2^32 bytes. */
  lemma ReadOfWrap(w: nat, limit: int, der: Bytes, before: Bytes, tag: Byte, content: Bytes, after: Bytes)
    requires Word(w, limit) && der == before + Wrap(tag, content) + after && |der| < limit
    ensures Read(limit, der, |before|, tag) ==
            if |content| < CURSOR_LIMIT then Ok(Element(content, |before| + |Wrap(tag, content)|))
            else Err(InvalidLength)
  {
    WrapParts(tag, content, Header(|content|));
    ReadOfParts(w, limit, der, before, tag, Header(|content|), content, after);
  }

  lemma WrapParts(tag: Byte, content: Bytes, header: Bytes)
    requires header == Header(|content|)
    ensures Wrap(tag, content) == [tag] + header + content && |Wrap(tag, content)| == 1 + |header| + |content|
  {
  }

  lemma ReadOfParts(w: nat, limit: int, der: Bytes, before: Bytes, tag: Byte, header: Bytes, content: Bytes, after: Bytes)
    requires Word(w, limit) && header == Header(|content|) && |der| < limit
    requires der == before + ([tag] + header + content) + after
    ensures Read(limit, der, |before|, tag) ==
            if |content| < CURSOR_LIMIT then Ok(Element(content, |before| + (1 + |header| + |content|))) else Err(InvalidLength)
  {
    Middle(der, before, tag, header, content, after);
    CursorRead(w, limit, der, |before|, tag, header, content);
  }

  /** On a buffer that is one element, the two readers agree except that the cursor reader takes
      at most four length bytes. */
  lemma ReadersAgree(w: nat, limit: int, der: Bytes, tag: Byte, content: Bytes)
    requires CURSOR_COUNT <= w && Word(w, limit) && |der| < limit
    ensures Read(limit, der, 0, tag) == Ok(Element(content, |der|)) <==>
            Value(w, limit, der, tag) == Ok(content) && der[1] <= 128 + CURSOR_COUNT
  {
    if |der| >= 2 && der[0] == tag && der[1] <= 128 + CURSOR_COUNT {
      var l := LengthAt(limit, w, der, 1);
      assert l == LengthAt(limit, CURSOR_COUNT, der, 1);
      assert l.Some? && l.value.next + l.value.value == |der| ==> der[l.value.next..] == der[l.value.next..|der|];
    }
  }
}
