/** JSON strings as section 7 of RFC 8259 defines them: a reader for every spelling of a string, and the
    proof that the writers give each string its one shortest spelling with lower-case digits. */
module JsonStrings {
  import opened Common
  import opened JsonText

  // ----- reading any spelling -----

  /** One character of a string and the number of characters that spell it. */
  datatype Unit = Unit(value: char, length: nat)

  /** A hexadecimal digit in either letter case. */
  function Hex(c: char): (r: Option<nat>)
    ensures r.Some? ==> r.value < 16
  {
    if '0' <= c <= '9' then Some(c as int - '0' as int)
    else if 'a' <= c <= 'f' then Some(c as int - 'a' as int + 10)
    else if 'A' <= c <= 'F' then Some(c as int - 'A' as int + 10)
    else None
  }

  /** The four digits of `\uXXXX` at `t`. */
  function CodeUnit(t: string): (r: Option<nat>)
    ensures r.Some? ==> r.value < 0x10000
  {
    if |t| < 6 || t[0] != '\\' || t[1] != 'u' then None
    else
      match (Hex(t[2]), Hex(t[3]), Hex(t[4]), Hex(t[5]))
      case (Some(a), Some(b), Some(c), Some(d)) => Some(4096 * a + 256 * b + 16 * c + d)
      case _ => None
  }

  /** The two-character escapes. */
  function Named(c: char): Option<char> {
    match c
    case '"' => Some('"')
    case '\\' => Some('\\')
    case '/' => Some('/')
    case 'b' => Some(0x08 as char)
    case 'f' => Some(0x0c as char)
    case 'n' => Some(0x0a as char)
    case 'r' => Some(0x0d as char)
    case 't' => Some(0x09 as char)
    case _ => None
  }

  /** An escape with digits: a character of the Basic Multilingual Plane or a pair of surrogates. */
  function ReadDigits(t: string): Option<Unit> {
    match CodeUnit(t)
    case None => None
    case Some(n) =>
      if n < 0xD800 || 0xE000 <= n then Some(Unit(n as char, 6))
      else if n < 0xDC00 && CodeUnit(t[6..]).Some? && 0xDC00 <= CodeUnit(t[6..]).value < 0xE000
      then Some(Unit((0x10000 + (n - 0xD800) * 0x400 + (CodeUnit(t[6..]).value - 0xDC00)) as char, 12))
      else None
  }

  function ReadUnit(t: string): Option<Unit> {
    if t == "" || t[0] == '"' || t[0] as int < 0x20 then None
    else if t[0] != '\\' then Some(Unit(t[0], 1))
    else if |t| < 2 then None
    else if t[1] == 'u' then ReadDigits(t)
    else
      match Named(t[1])
      case None => None
      case Some(c) => Some(Unit(c, 2))
  }

  lemma UnitFits(t: string)
    ensures ReadUnit(t).Some? ==> 0 < ReadUnit(t).value.length <= |t|
  {
  }

  /** The string up to the closing quote, and what follows it. */
  function Read(t: string): Option<(string, string)>
    decreases |t|
  {
    if t == "" then None
    else if t[0] == '"' then Some(("", t[1..]))
    else
      UnitFits(t);
      match ReadUnit(t)
      case None => None
      case Some(u) => Prepend(u.value, Read(t[u.length..]))
  }

  /** The escapes of `t` have no upper-case digits. */
  predicate LowerCase(t: string)
    decreases |t|
  {
    if ReadUnit(t).None? then true
    else
      UnitFits(t);
      var n := ReadUnit(t).value.length;
      (n >= 6 ==> forall i :: 0 <= i < n ==> !('A' <= t[i] <= 'F')) && LowerCase(t[n..])
  }

  // ----- the writers' spelling of one character -----

  lemma HexOfDigit(n: nat)
    requires n < 16
    ensures Hex(HexDigit(n)) == Some(n) && !('A' <= HexDigit(n) <= 'F')
  {
  }

  lemma DigitOfHex(c: char)
    requires Hex(c).Some? && !('A' <= c <= 'F')
    ensures HexDigit(Hex(c).value) == c
  {
  }

  /** Every writer's spelling is read back, with nothing before it and whatever follows. */
  lemma ReadEscape(c: char, rest: string)
    ensures ReadUnit(Escape(c) + rest) == Some(Unit(c, |Escape(c)|))
  {
    var t := Escape(c) + rest;
    var n := c as int;
    if |Escape(c)| == 6 {
      HexOfDigit(0);
      HexOfDigit(n / 16);
      HexOfDigit(n % 16);
      assert t[0] == '\\' && t[1] == 'u' && t[2] == '0' && t[3] == '0';
      assert t[4] == HexDigit(n / 16) && t[5] == HexDigit(n % 16);
    } else {
      assert forall i :: 0 <= i < |Escape(c)| ==> t[i] == Escape(c)[i];
    }
  }

  lemma EscapeLower(c: char, rest: string)
    ensures |Escape(c)| >= 6 ==> forall i :: 0 <= i < |Escape(c)| ==> !('A' <= (Escape(c) + rest)[i] <= 'F')
  {
    if |Escape(c)| == 6 {
      HexOfDigit(c as int / 16);
      HexOfDigit(c as int % 16);
    }
  }

  /** No spelling of a character is shorter than the writers'. */
  lemma UnitShortest(t: string, u: Unit)
    requires ReadUnit(t) == Some(u)
    ensures |Escape(u.value)| <= u.length
  {
  }

  /** Another spelling that is as short differs only in the letter case of its digits. */
  lemma UnitUnique(t: string, u: Unit)
    requires ReadUnit(t) == Some(u) && u.length == |Escape(u.value)| <= |t|
    requires u.length >= 6 ==> forall i :: 0 <= i < u.length ==> !('A' <= t[i] <= 'F')
    ensures t[..u.length] == Escape(u.value)
  {
    if u.length == 6 {
      ControlDigits(t, u.value as int);
    }
  }

  lemma ControlDigits(t: string, n: nat)
    requires CodeUnit(t) == Some(n) && n < 32 && forall i :: 0 <= i < 6 ==> !('A' <= t[i] <= 'F')
    ensures t[..6] == ['\\', 'u', '0', '0', HexDigit(n / 16), HexDigit(n % 16)]
  {
    DigitOfHex(t[2]);
    DigitOfHex(t[3]);
    DigitOfHex(t[4]);
    DigitOfHex(t[5]);
  }

  // ----- strings -----

  lemma {:induction false} ReadCanonical(s: string, rest: string)
    ensures Read(Chars(s) + rest) == Some((s, rest)) && LowerCase(Chars(s))
  {
    if s == "" {
      assert (Chars(s) + rest)[1..] == rest;
    } else {
      ReadCanonical(s[1..], rest);
      CanonicalFirst(s[0], s[1..], Chars(s[1..]), rest);
      assert [s[0]] + s[1..] == s;
    }
  }

  lemma CanonicalFirst(c: char, s: string, tail: string, rest: string)
    requires Read(tail + rest) == Some((s, rest)) && LowerCase(tail)
    ensures Read((Escape(c) + tail) + rest) == Some(([c] + s, rest)) && LowerCase(Escape(c) + tail)
  {
    ReadFirst(c, tail + rest, s, rest);
    Grouped(Escape(c), tail, rest);
    LowerFirst(c, tail);
  }

  lemma Grouped(a: string, b: string, c: string)
    ensures (a + b) + c == a + (b + c)
  {
  }

  lemma ReadFirst(c: char, tail: string, s: string, rest: string)
    requires Read(tail) == Some((s, rest))
    ensures Read(Escape(c) + tail) == Some(([c] + s, rest))
  {
    var t := Escape(c) + tail;
    ReadEscape(c, tail);
    assert t[|Escape(c)|..] == tail;
    assert t[0] != '"';
  }

  lemma LowerFirst(c: char, tail: string)
    requires LowerCase(tail)
    ensures LowerCase(Escape(c) + tail)
  {
    ReadEscape(c, tail);
    EscapeLower(c, tail);
    assert (Escape(c) + tail)[|Escape(c)|..] == tail;
  }

  /** Every text that is read as a string is at least as long as the writers' text. */
  lemma {:induction false} Shortest(t: string, s: string, rest: string)
    requires Read(t) == Some((s, rest))
    ensures |Chars(s)| + |rest| <= |t|
    decreases |t|
  {
    if t[0] != '"' {
      var u := ReadStep(t, s, rest);
      UnitShortest(t, u);
      Shortest(t[u.length..], s[1..], rest);
    }
  }

  /** The first character of what is read, and what follows it. */
  lemma ReadStep(t: string, s: string, rest: string) returns (u: Unit)
    requires Read(t) == Some((s, rest)) && t[0] != '"'
    ensures ReadUnit(t) == Some(u) && 0 < u.length <= |t| && s != "" && s[0] == u.value
    ensures Read(t[u.length..]) == Some((s[1..], rest))
    ensures LowerCase(t) ==> LowerCase(t[u.length..]) && (u.length >= 6 ==> forall i :: 0 <= i < u.length ==> !('A' <= t[i] <= 'F'))
  {
    u := ReadUnit(t).value;
    UnitFits(t);
  }

  /** A text with lower-case digits that is as short is the writers' text. */
  lemma {:induction false} ShortestUnique(t: string, s: string, rest: string)
    requires Read(t) == Some((s, rest)) && LowerCase(t) && |t| == |Chars(s)| + |rest|
    ensures t == Chars(s) + rest
    decreases |t|
  {
    if t[0] == '"' {
      assert t == ['"'] + t[1..];
    } else {
      var u := ReadStep(t, s, rest);
      UnitShortest(t, u);
      Shortest(t[u.length..], s[1..], rest);
      ShortestUnique(t[u.length..], s[1..], rest);
      UnitUnique(t, u);
      Rejoined(t, u.length, Escape(u.value), Chars(s[1..]), rest);
    }
  }

  lemma Rejoined(t: string, k: nat, a: string, b: string, c: string)
    requires k <= |t| && t[..k] == a && t[k..] == b + c
    ensures t == (a + b) + c
  {
    assert t == t[..k] + t[k..];
  }

  /** Among all texts of a string the writers' is the shortest, and the only one that is as short and has
      lower-case digits. */
  lemma CanonicalIff(t: string, s: string)
    ensures t == Chars(s) <==>
            && Read(t) == Some((s, "")) && LowerCase(t)
            && forall other :: Read(other) == Some((s, "")) ==> |t| <= |other|
  {
    ReadCanonical(s, "");
    assert Chars(s) + "" == Chars(s);
    forall other | Read(other) == Some((s, "")) ensures |Chars(s)| <= |other| {
      Shortest(other, s, "");
    }
    if Read(t) == Some((s, "")) && LowerCase(t) && |t| <= |Chars(s)| {
      ShortestUnique(t, s, "");
    }
  }

  /** A string without control characters, quotes and backslashes is written as it is. */
  lemma {:induction false} PlainString(s: string)
    requires forall i :: 0 <= i < |s| ==> s[i] as int >= 0x20 && s[i] != '"' && s[i] != '\\'
    ensures Chars(s) == s + "\""
  {
    if s == "" {
      assert s + "\"" == "\"";
    } else {
      PlainString(s[1..]);
      assert Escape(s[0]) == [s[0]];
      assert [s[0]] + (s[1..] + "\"") == s + "\"";
    }
  }

  // ----- integers -----

  /** The text of a natural number is its only decimal spelling without a leading zero. */
  lemma {:induction false} NatTextIff(t: string, n: nat)
    ensures t == NatText(n) <==> t != "" && AllDigits(t) && (t[0] == '0' ==> |t| == 1) && NatValue(t) == n
  {
    NatTextValue(n);
    NatTextFirst(n);
    if t != "" && AllDigits(t) && (t[0] == '0' ==> |t| == 1) && NatValue(t) == n {
      NatTextUnique(t);
    }
  }

  lemma {:induction false} NatTextFirst(n: nat)
    ensures NatText(n) != "" && (NatText(n)[0] == '0' <==> n == 0) && (n == 0 ==> |NatText(n)| == 1)
  {
    if n >= 10 {
      NatTextFirst(n / 10);
    }
  }

  lemma {:induction false} NatTextUnique(t: string)
    requires t != "" && AllDigits(t) && (t[0] == '0' ==> |t| == 1)
    ensures NatText(NatValue(t)) == t && (t[0] != '0' ==> NatValue(t) > 0)
  {
    var k := |t| - 1;
    if k == 0 {
      assert t[..0] == "";
      assert NatValue(t) == t[0] as int - 48;
    } else {
      NatTextUnique(t[..k]);
      LastDigit(NatValue(t[..k]), t[k] as int - 48);
      assert IsDigit(t[k]);
    }
  }

  lemma LastDigit(n: nat, d: int)
    requires n > 0 && 0 <= d < 10
    ensures NatText(10 * n + d) == NatText(n) + [(d + 48) as char]
  {
    assert (10 * n + d) / 10 == n && (10 * n + d) % 10 == d;
  }
}
