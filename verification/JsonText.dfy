/** JSON documents with their members in a fixed order, the text the writers give them
    (sections 3.2.2.1 and 3.2.2.2 of RFC 8785) and a parser that reads the text back. */
module JsonText {
  import opened Common

  datatype Doc =
    | DNull
    | DBool(b: bool)
    | DInt(i: int)
    | DStr(s: string)
    | DArr(items: seq<Doc>)
    | DObj(entries: seq<Entry>)

  datatype Entry = Entry(key: string, value: Doc)

  // ----- numbers -----

  predicate IsDigit(c: char) {
    '0' <= c <= '9'
  }

  function NatText(n: nat): string {
    if n < 10 then [(n + 48) as char] else NatText(n / 10) + [(n % 10 + 48) as char]
  }

  function IntText(i: int): string {
    if i < 0 then "-" + NatText(-i) else NatText(i)
  }

  function NatValue(s: string): nat
    requires forall k :: 0 <= k < |s| ==> IsDigit(s[k])
  {
    if s == [] then 0
    else
      assert IsDigit(s[|s| - 1]);
      10 * NatValue(s[..|s| - 1]) + (s[|s| - 1] as int - 48)
  }

  function DigitCount(s: string): (n: nat)
    ensures n <= |s| && forall k :: 0 <= k < n ==> IsDigit(s[k])
  {
    if s != [] && IsDigit(s[0]) then 1 + DigitCount(s[1..]) else 0
  }

  // ----- strings -----

  function HexDigit(n: nat): char
    requires n < 16
  {
    if n < 10 then (n + 48) as char else (n + 87) as char
  }

  function HexValue(c: char): Option<nat> {
    if '0' <= c <= '9' then Some(c as int - 48) else if 'a' <= c <= 'f' then Some(c as int - 87) else None
  }

  /** The letter after the backslash of a two-character escape. */
  function ShortEscape(c: char): Option<char> {
    var n := c as int;
    if c == '"' || c == '\\' then Some(c)
    else if n == 8 then Some('b')
    else if n == 9 then Some('t')
    else if n == 10 then Some('n')
    else if n == 12 then Some('f')
    else if n == 13 then Some('r')
    else None
  }

  function ShortUnescape(c: char): Option<char> {
    if c == '"' || c == '\\' then Some(c)
    else if c == 'b' then Some(8 as char)
    else if c == 't' then Some(9 as char)
    else if c == 'n' then Some(10 as char)
    else if c == 'f' then Some(12 as char)
    else if c == 'r' then Some(13 as char)
    else None
  }

  function Escape(c: char): string {
    if ShortEscape(c).Some? then ['\\', ShortEscape(c).value]
    else if c as int < 32 then ['\\', 'u', '0', '0', HexDigit(c as int / 16), HexDigit(c as int % 16)]
    else [c]
  }

  /** The escaped characters and the closing quote. */
  function Chars(s: string): string {
    if s == [] then "\"" else Escape(s[0]) + Chars(s[1..])
  }

  function Quote(s: string): string {
    "\"" + Chars(s)
  }

  // ----- documents -----

  function Print(d: Doc): string
    decreases d, 0
  {
    match d
    case DNull => "null"
    case DBool(b) => if b then "true" else "false"
    case DInt(i) => IntText(i)
    case DStr(s) => Quote(s)
    case DArr(items) => "[" + if items == [] then "]" else Print(items[0]) + PrintItems(items[1..])
    case DObj(entries) => "{" + if entries == [] then "}" else PrintEntry(entries[0]) + PrintEntries(entries[1..])
  }

  function PrintEntry(e: Entry): string
    decreases e, 0
  {
    Quote(e.key) + ":" + Print(e.value)
  }

  function PrintItems(items: seq<Doc>): string
    decreases items, 1
  {
    if items == [] then "]" else "," + Print(items[0]) + PrintItems(items[1..])
  }

  function PrintEntries(entries: seq<Entry>): string
    decreases entries, 1
  {
    if entries == [] then "}" else "," + PrintEntry(entries[0]) + PrintEntries(entries[1..])
  }

  // ----- the parser -----

  function ParseChars(s: string): (r: Option<(string, string)>)
    ensures r.Some? ==> |r.value.1| < |s|
    decreases |s|
  {
    if s == [] then None
    else if s[0] == '"' then Some(([], s[1..]))
    else if s[0] != '\\' then Prepend(s[0], ParseChars(s[1..]))
    else if |s| >= 2 && ShortUnescape(s[1]).Some? then Prepend(ShortUnescape(s[1]).value, ParseChars(s[2..]))
    else if |s| >= 6 && s[1..4] == "u00" && HexValue(s[4]).Some? && HexValue(s[5]).Some? then
      Prepend((16 * HexValue(s[4]).value + HexValue(s[5]).value) as char, ParseChars(s[6..]))
    else None
  }

  function Prepend(c: char, r: Option<(string, string)>): (p: Option<(string, string)>)
    ensures p.Some? <==> r.Some?
    ensures p.Some? ==> p.value.1 == r.value.1
  {
    if r.Some? then Some(([c] + r.value.0, r.value.1)) else None
  }

  function Parse(s: string): (r: Option<(Doc, string)>)
    ensures r.Some? ==> |r.value.1| < |s|
    decreases |s|, 1
  {
    if s == [] then None
    else if s[0] == 'n' && |s| >= 4 && s[..4] == "null" then Some((DNull, s[4..]))
    else if s[0] == 't' && |s| >= 4 && s[..4] == "true" then Some((DBool(true), s[4..]))
    else if s[0] == 'f' && |s| >= 5 && s[..5] == "false" then Some((DBool(false), s[5..]))
    else if s[0] == '"' then
      var r := ParseChars(s[1..]);
      if r.Some? then Some((DStr(r.value.0), r.value.1)) else None
    else if s[0] == '[' then
      if |s| >= 2 && s[1] == ']' then Some((DArr([]), s[2..])) else ParseFirstItem(s[1..])
    else if s[0] == '{' then
      if |s| >= 2 && s[1] == '}' then Some((DObj([]), s[2..])) else ParseFirstEntry(s[1..])
    else ParseNumber(s)
  }

  function ParseNumber(s: string): (r: Option<(Doc, string)>)
    ensures r.Some? ==> |r.value.1| < |s|
  {
    var negative := s != [] && s[0] == '-';
    var t := if negative then s[1..] else s;
    var n := DigitCount(t);
    if n == 0 then None
    else
      var value := NatValue(t[..n]);
      Some((DInt(if negative then 0 - value else value), t[n..]))
  }

  function ParseFirstItem(s: string): (r: Option<(Doc, string)>)
    ensures r.Some? ==> |r.value.1| < |s|
    decreases |s|, 2
  {
    var first := Parse(s);
    if first.None? then None
    else
      var rest := ParseItems(first.value.1);
      if rest.None? then None else Some((DArr([first.value.0] + rest.value.0), rest.value.1))
  }

  function ParseItems(s: string): (r: Option<(seq<Doc>, string)>)
    ensures r.Some? ==> |r.value.1| < |s|
    decreases |s|, 0
  {
    if s == [] then None
    else if s[0] == ']' then Some(([], s[1..]))
    else if s[0] != ',' then None
    else
      var first := Parse(s[1..]);
      if first.None? then None
      else
        var rest := ParseItems(first.value.1);
        if rest.None? then None else Some(([first.value.0] + rest.value.0, rest.value.1))
  }

  function ParseKey(s: string): (r: Option<(string, string)>)
    ensures r.Some? ==> |r.value.1| < |s|
  {
    if s == [] || s[0] != '"' then None
    else
      var key := ParseChars(s[1..]);
      if key.None? || key.value.1 == [] || key.value.1[0] != ':' then None
      else Some((key.value.0, key.value.1[1..]))
  }

  function ParseEntry(s: string): (r: Option<(Entry, string)>)
    ensures r.Some? ==> |r.value.1| < |s|
    decreases |s|, 2
  {
    var key := ParseKey(s);
    if key.None? then None
    else
      var value := Parse(key.value.1);
      if value.None? then None else Some((Entry(key.value.0, value.value.0), value.value.1))
  }

  function ParseFirstEntry(s: string): (r: Option<(Doc, string)>)
    ensures r.Some? ==> |r.value.1| < |s|
    decreases |s|, 3
  {
    var first := ParseEntry(s);
    if first.None? then None
    else
      var rest := ParseEntries(first.value.1);
      if rest.None? then None else Some((DObj([first.value.0] + rest.value.0), rest.value.1))
  }

  function ParseEntries(s: string): (r: Option<(seq<Entry>, string)>)
    ensures r.Some? ==> |r.value.1| < |s|
    decreases |s|, 0
  {
    if s == [] then None
    else if s[0] == '}' then Some(([], s[1..]))
    else if s[0] != ',' then None
    else
      var first := ParseEntry(s[1..]);
      if first.None? then None
      else
        var rest := ParseEntries(first.value.1);
        if rest.None? then None else Some(([first.value.0] + rest.value.0, rest.value.1))
  }

  // ----- reading back what was written -----

  predicate AllDigits(s: string) {
    forall k :: 0 <= k < |s| ==> IsDigit(s[k])
  }

  lemma {:induction false} NatTextValue(n: nat)
    ensures NatText(n) != [] && AllDigits(NatText(n)) && NatValue(NatText(n)) == n
  {
    if n >= 10 {
      NatTextValue(n / 10);
      var s := NatText(n);
      assert s[..|s| - 1] == NatText(n / 10);
    } else {
      var s := NatText(n);
      assert s[..0] == [] && NatValue(s[..0]) == 0;
    }
  }

  /** A text that cannot continue a number. */
  predicate Ends(rest: string) {
    rest == [] || !IsDigit(rest[0])
  }

  lemma {:induction false} DigitCountExact(s: string, rest: string)
    requires AllDigits(s) && Ends(rest)
    ensures DigitCount(s + rest) == |s|
  {
    if s == [] {
      assert s + rest == rest;
    } else {
      DigitCountExact(s[1..], rest);
      assert (s + rest)[1..] == s[1..] + rest;
    }
  }

  lemma HexRoundTrip(n: nat)
    requires n < 16
    ensures HexValue(HexDigit(n)) == Some(n)
  {
  }

  lemma {:induction false} ParseEscape(c: char, rest: string)
    ensures ParseChars(Escape(c) + rest) == Prepend(c, ParseChars(rest))
  {
    var s := Escape(c) + rest;
    if ShortEscape(c).Some? {
      assert s[0] == '\\' && s[1] == ShortEscape(c).value && s[2..] == rest;
      assert ShortUnescape(s[1]) == Some(c);
    } else if c as int < 32 {
      HexRoundTrip(c as int / 16);
      HexRoundTrip(c as int % 16);
      assert s[1..4] == "u00" && s[6..] == rest;
      assert ShortUnescape('u').None?;
    } else {
      assert s[0] == c && s[1..] == rest;
    }
  }

  lemma {:induction false} ParseQuoted(s: string, rest: string)
    ensures ParseChars(Chars(s) + rest) == Some((s, rest))
  {
    if s == [] {
      assert (Chars(s) + rest)[1..] == rest;
    } else {
      ParseQuoted(s[1..], rest);
      assert Chars(s) + rest == Escape(s[0]) + (Chars(s[1..]) + rest);
      ParseEscape(s[0], Chars(s[1..]) + rest);
      assert [s[0]] + s[1..] == s;
    }
  }

  lemma {:induction false} ParseDigits(digits: string, rest: string)
    requires digits != [] && AllDigits(digits) && Ends(rest)
    ensures ParseNumber(digits + rest) == Some((DInt(NatValue(digits)), rest))
    ensures ParseNumber("-" + (digits + rest)) == Some((DInt(0 - NatValue(digits)), rest))
  {
    DigitCountExact(digits, rest);
    var s := digits + rest;
    assert s[..|digits|] == digits && s[|digits|..] == rest;
    assert IsDigit(digits[0]) && s[0] == digits[0];
    assert ("-" + s)[1..] == s;
  }

  /** The text starts like a number and is read as this integer. */
  ghost predicate ReadsInt(s: string, i: int, rest: string) {
    s != [] && (s[0] == '-' || IsDigit(s[0])) && ParseNumber(s) == Some((DInt(i), rest))
  }

  lemma {:induction false} ParseInt(i: int, rest: string)
    requires Ends(rest)
    ensures ReadsInt(IntText(i) + rest, i, rest)
  {
    var n := if i < 0 then -i else i;
    NatTextValue(n);
    if i < 0 {
      ParseMinus(NatText(n), rest, i);
    } else {
      ParsePlus(NatText(n), rest, i);
    }
  }

  lemma ParseIntText(i: int, rest: string)
    requires Ends(rest)
    ensures Parse(IntText(i) + rest) == Some((DInt(i), rest))
  {
    ParseInt(i, rest);
    NumberFirst(IntText(i) + rest, i, rest);
  }

  lemma NumberFirst(s: string, i: int, rest: string)
    requires ReadsInt(s, i, rest)
    ensures Parse(s) == Some((DInt(i), rest))
  {
  }

  lemma ParsePlus(digits: string, rest: string, i: int)
    requires digits != [] && AllDigits(digits) && Ends(rest) && i == NatValue(digits)
    ensures ReadsInt(digits + rest, i, rest)
  {
    ParseDigits(digits, rest);
    assert (digits + rest)[0] == digits[0] && IsDigit(digits[0]);
  }

  lemma ParseMinus(digits: string, rest: string, i: int)
    requires digits != [] && AllDigits(digits) && Ends(rest) && i == 0 - NatValue(digits)
    ensures ReadsInt(("-" + digits) + rest, i, rest)
  {
    ParseDigits(digits, rest);
    MinusFirst(digits, rest);
  }

  lemma MinusFirst(digits: string, rest: string)
    ensures ("-" + digits) + rest == "-" + (digits + rest)
  {
  }

  lemma {:induction false} ParseLiterals(rest: string)
    ensures Parse("null" + rest) == Some((DNull, rest))
    ensures Parse("true" + rest) == Some((DBool(true), rest))
    ensures Parse("false" + rest) == Some((DBool(false), rest))
  {
    assert ("null" + rest)[..4] == "null" && ("null" + rest)[4..] == rest;
    assert ("true" + rest)[..4] == "true" && ("true" + rest)[4..] == rest;
    assert ("false" + rest)[..5] == "false" && ("false" + rest)[5..] == rest;
  }

  /** No document starts with the bracket that closes an empty container. */
  lemma {:induction false} PrintStart(d: Doc)
    ensures Print(d) != [] && Print(d)[0] != ']' && Print(d)[0] != '}' && Print(d)[0] != ','
  {
    if d.DInt? {
      NatTextValue(if d.i < 0 then -d.i else d.i);
    }
  }

  /** The parser recovers every printed document and leaves what follows it. */
  lemma {:induction false} ParsePrint(d: Doc, rest: string)
    requires Ends(rest)
    ensures Parse(Print(d) + rest) == Some((d, rest))
    decreases d, 0
  {
    match d
    case DNull => ParseLiterals(rest);
    case DBool(b) => ParseLiterals(rest);
    case DInt(i) => ParseIntText(i, rest);
    case DStr(t) => ParseText(t, rest);
    case DArr(items) => ParseArray(items, rest);
    case DObj(entries) => ParseObject(entries, rest);
  }

  lemma {:induction false} ParseText(t: string, rest: string)
    ensures Parse(Quote(t) + rest) == Some((DStr(t), rest))
  {
    assert (Quote(t) + rest)[1..] == Chars(t) + rest;
    ParseQuoted(t, rest);
  }

  lemma {:induction false} ParseArray(items: seq<Doc>, rest: string)
    ensures Parse(Print(DArr(items)) + rest) == Some((DArr(items), rest))
    decreases items, 2
  {
    var s := Print(DArr(items)) + rest;
    if items == [] {
      assert s[1] == ']' && s[2..] == rest;
    } else {
      var tail := PrintItems(items[1..]) + rest;
      assert s[1..] == Print(items[0]) + tail;
      PrintStart(items[0]);
      ParsePrint(items[0], tail);
      ParsePrintItems(items[1..], rest);
      assert [items[0]] + items[1..] == items;
    }
  }

  lemma {:induction false} ParsePrintItems(items: seq<Doc>, rest: string)
    ensures ParseItems(PrintItems(items) + rest) == Some((items, rest))
    decreases items, 1
  {
    var s := PrintItems(items) + rest;
    if items == [] {
      assert s[1..] == rest;
    } else {
      var tail := PrintItems(items[1..]) + rest;
      assert s[1..] == Print(items[0]) + tail;
      ParsePrint(items[0], tail);
      ParsePrintItems(items[1..], rest);
      assert [items[0]] + items[1..] == items;
    }
  }

  lemma {:induction false} ParsePrintKey(key: string, rest: string)
    ensures ParseKey(Quote(key) + ":" + rest) == Some((key, rest))
  {
    var s := Quote(key) + ":" + rest;
    assert s[1..] == Chars(key) + (":" + rest);
    ParseQuoted(key, ":" + rest);
    assert (":" + rest)[1..] == rest;
  }

  lemma {:induction false} ParsePrintEntry(e: Entry, rest: string)
    requires Ends(rest)
    ensures ParseEntry(PrintEntry(e) + rest) == Some((e, rest))
    decreases e, 0
  {
    assert PrintEntry(e) + rest == Quote(e.key) + ":" + (Print(e.value) + rest);
    ParsePrintKey(e.key, Print(e.value) + rest);
    ParsePrint(e.value, rest);
  }

  lemma {:induction false} ParseObject(entries: seq<Entry>, rest: string)
    ensures Parse(Print(DObj(entries)) + rest) == Some((DObj(entries), rest))
    decreases entries, 2
  {
    var s := Print(DObj(entries)) + rest;
    if entries == [] {
      assert s[1] == '}' && s[2..] == rest;
    } else {
      var tail := PrintEntries(entries[1..]) + rest;
      ParsePrintEntry(entries[0], tail);
      ParsePrintEntries(entries[1..], rest);
      ParseMembers(PrintEntry(entries[0]), PrintEntries(entries[1..]), rest, entries[0], entries[1..]);
      assert [entries[0]] + entries[1..] == entries;
    }
  }

  lemma ParseMembers(first: string, others: string, rest: string, e: Entry, es: seq<Entry>)
    requires first != [] && first[0] != '}'
    requires ParseEntry(first + (others + rest)) == Some((e, others + rest)) && ParseEntries(others + rest) == Some((es, rest))
    ensures Parse(("{" + (first + others)) + rest) == Some((DObj([e] + es), rest))
  {
    Nested(first, others, rest);
    ParseBrace(("{" + (first + others)) + rest, first + (others + rest));
    FirstMember(first + (others + rest), others + rest, rest, e, es);
  }

  lemma Nested(first: string, others: string, rest: string)
    ensures ("{" + (first + others)) + rest == "{" + (first + (others + rest))
    ensures first != [] ==> (first + (others + rest))[0] == first[0]
  {
  }

  lemma FirstMember(inner: string, tail: string, rest: string, e: Entry, es: seq<Entry>)
    requires ParseEntry(inner) == Some((e, tail)) && ParseEntries(tail) == Some((es, rest))
    ensures ParseFirstEntry(inner) == Some((DObj([e] + es), rest))
  {
  }

  lemma ParseBrace(s: string, inner: string)
    requires s == "{" + inner && inner != [] && inner[0] != '}'
    ensures Parse(s) == ParseFirstEntry(inner)
  {
    assert s[0] == '{' && s[1] == inner[0] && s[1..] == inner;
  }

  lemma {:induction false} ParsePrintEntries(entries: seq<Entry>, rest: string)
    ensures ParseEntries(PrintEntries(entries) + rest) == Some((entries, rest))
    decreases entries, 1
  {
    var s := PrintEntries(entries) + rest;
    if entries == [] {
      assert s[1..] == rest;
    } else {
      var tail := PrintEntries(entries[1..]) + rest;
      assert s[1..] == PrintEntry(entries[0]) + tail;
      ParsePrintEntry(entries[0], tail);
      ParsePrintEntries(entries[1..], rest);
      assert [entries[0]] + entries[1..] == entries;
    }
  }

  /** Different documents have different texts. */
  lemma PrintInjective(d: Doc, e: Doc)
    requires Print(d) == Print(e)
    ensures d == e
  {
    ParsePrint(d, []);
    ParsePrint(e, []);
    assert Print(d) + [] == Print(d) && Print(e) + [] == Print(e);
  }
}
