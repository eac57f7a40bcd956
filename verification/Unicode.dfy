/** The two encodings that the orders of keys compare, read back unit by unit: UTF-8 as section 3 of
    RFC 3629 has it and UTF-16 as section 2 of RFC 2781 has it. */
module Unicode {
  import opened Common
  import KeyOrders
  import opened EventLogBinding

  // ----- UTF-8 -----

  /** The scalar value of the sequence at the start. */
  function Utf8Value(s: Bytes): int
    requires Utf8Length(s) > 0
  {
    match Utf8Length(s)
    case 1 => s[0]
    case 2 => (s[0] as int - 0xC0) * 0x40 + (s[1] as int - 0x80)
    case 3 => (s[0] as int - 0xE0) * 0x1000 + (s[1] as int - 0x80) * 0x40 + (s[2] as int - 0x80)
    case _ => (s[0] as int - 0xF0) * 0x40000 + (s[1] as int - 0x80) * 0x1000 + (s[2] as int - 0x80) * 0x40 + (s[3] as int - 0x80)
  }

  /** The bytes are well-formed sequences with the scalar values of the characters. */
  predicate Spells8(s: Bytes, t: string)
    decreases |s|
  {
    if s == [] then t == ""
    else Utf8Length(s) > 0 && t != "" && t[0] as int == Utf8Value(s) && Spells8(s[Utf8Length(s)..], t[1..])
  }

  lemma TwoBytes(n: int)
    requires 0x80 <= n < 0x800
    ensures 0xC2 <= 0xC0 + n / 64 <= 0xDF && 0x80 <= 0x80 + n % 64 < 0xC0
    ensures (0xC0 + n / 64 - 0xC0) * 0x40 + (0x80 + n % 64 - 0x80) == n
  {
  }

  lemma ThreeBytes(n: int)
    requires 0x800 <= n < 0x10000
    ensures 0xE0 <= 0xE0 + n / 4096 <= 0xEF && 0x80 <= 0x80 + n / 64 % 64 < 0xC0 && 0x80 <= 0x80 + n % 64 < 0xC0
    ensures n / 4096 * 0x1000 + n / 64 % 64 * 0x40 + n % 64 == n
    ensures n / 4096 == 0 ==> n / 64 % 64 >= 0x20
    ensures n / 4096 == 13 && n / 64 % 64 >= 0x20 <==> 0xD800 <= n < 0xE000
  {
    assert n / 64 == n / 4096 * 64 + n / 64 % 64;
  }

  lemma FourBytes(n: int)
    requires 0x10000 <= n < 0x110000
    ensures 0xF0 <= 0xF0 + n / 262144 <= 0xF4 && 0x80 <= 0x80 + n / 4096 % 64 < 0xC0
    ensures 0x80 <= 0x80 + n / 64 % 64 < 0xC0 && 0x80 <= 0x80 + n % 64 < 0xC0
    ensures n / 262144 * 0x40000 + n / 4096 % 64 * 0x1000 + n / 64 % 64 * 0x40 + n % 64 == n
    ensures (n / 262144 == 0 ==> n / 4096 % 64 >= 0x10) && (n / 262144 == 4 ==> n / 4096 % 64 < 0x10)
  {
    assert n / 64 == n / 4096 * 64 + n / 64 % 64;
    assert n / 4096 == n / 262144 * 64 + n / 4096 % 64;
  }

  /** The sequence of a character reads back as that character, whatever follows. */
  lemma CharacterRead(c: char, s: Bytes)
    requires KeyOrders.Utf8Unit(c) <= s
    ensures Utf8Length(s) == |KeyOrders.Utf8Unit(c)| && Utf8Value(s) == c as int
  {
    var u, n := KeyOrders.Utf8Unit(c), c as int;
    assert forall i :: 0 <= i < |u| ==> u[i] == s[i];
    if n < 0x80 {
    } else if n < 0x800 {
      TwoBytes(n);
    } else if n < 0x10000 {
      ThreeBytes(n);
    } else {
      FourBytes(n);
    }
  }

  lemma TwoDigits(a: int, b: int)
    requires 0 <= b < 64
    ensures (a * 64 + b) / 64 == a && (a * 64 + b) % 64 == b
  {
  }

  lemma ThreeDigits(n: int, a: int, b: int, c: int)
    requires 0 <= b < 64 && 0 <= c < 64 && n == a * 0x1000 + b * 0x40 + c
    ensures n / 4096 == a && n / 64 % 64 == b && n % 64 == c
  {
    TwoDigits(a * 64 + b, c);
    TwoDigits(a, b);
    assert n / 4096 == n / 64 / 64;
  }

  lemma FourDigits(n: int, a: int, b: int, c: int, d: int)
    requires 0 <= b < 64 && 0 <= c < 64 && 0 <= d < 64 && n == a * 0x40000 + b * 0x1000 + c * 0x40 + d
    ensures n / 262144 == a && n / 4096 % 64 == b && n / 64 % 64 == c && n % 64 == d
  {
    TwoDigits(a * 4096 + b * 64 + c, d);
    ThreeDigits(a * 4096 + b * 64 + c, a, b, c);
    assert n / 262144 == n / 64 / 4096 && n / 4096 == n / 64 / 64;
  }

  /** Every well-formed sequence is that of its scalar value. */
  lemma CharacterWritten(c: char, s: Bytes)
    requires Utf8Length(s) > 0 && c as int == Utf8Value(s)
    ensures KeyOrders.Utf8Unit(c) == s[..Utf8Length(s)]
  {
    var n, k := c as int, Utf8Length(s);
    if k == 1 {
      assert s[..1] == [s[0]];
    } else if k == 2 {
      TwoDigits(s[0] as int - 0xC0, s[1] as int - 0x80);
      assert s[..2] == [s[0], s[1]];
    } else if k == 3 {
      ThreeDigits(n, s[0] as int - 0xE0, s[1] as int - 0x80, s[2] as int - 0x80);
      assert s[..3] == [s[0], s[1], s[2]];
    } else {
      FourDigits(n, s[0] as int - 0xF0, s[1] as int - 0x80, s[2] as int - 0x80, s[3] as int - 0x80);
      assert s[..4] == [s[0], s[1], s[2], s[3]];
    }
  }

  lemma FirstScalar(s: Bytes)
    requires Utf8Length(s) > 0
    ensures 0 <= Utf8Value(s) < 0xD800 || 0xE000 <= Utf8Value(s) < 0x110000
  {
  }

  /** A byte string is the encoding of a string exactly when it spells its characters. */
  lemma {:induction false} Utf8Iff(s: Bytes, t: string)
    ensures s == KeyOrders.Encode(KeyOrders.Utf8Unit, t) <==> Spells8(s, t)
    decreases |s|
  {
    if s != [] && t != "" {
      var u, k := KeyOrders.Utf8Unit(t[0]), Utf8Length(s);
      var rest := KeyOrders.Encode(KeyOrders.Utf8Unit, t[1..]);
      assert KeyOrders.Encode(KeyOrders.Utf8Unit, t) == u + rest;
      if s == u + rest {
        CharacterRead(t[0], s);
        assert s[k..] == rest;
        Utf8Iff(s[k..], t[1..]);
      }
      if Spells8(s, t) {
        CharacterWritten(t[0], s);
        Utf8Iff(s[k..], t[1..]);
        assert s == s[..k] + s[k..];
      }
    }
  }

  lemma {:induction false} SpelledIsUtf8(s: Bytes, t: string)
    requires Spells8(s, t)
    ensures Utf8(s)
    decreases |s|
  {
    if s != [] {
      SpelledIsUtf8(s[Utf8Length(s)..], t[1..]);
    }
  }

  lemma {:induction false} Utf8IsSpelled(s: Bytes) returns (t: string)
    requires Utf8(s)
    ensures Spells8(s, t)
    decreases |s|
  {
    if s == [] {
      return "";
    }
    FirstScalar(s);
    var rest := Utf8IsSpelled(s[Utf8Length(s)..]);
    t := [Utf8Value(s) as char] + rest;
    assert t[1..] == rest;
  }

  /** The well-formed byte strings are the encodings of strings. */
  lemma Utf8Text(s: Bytes)
    ensures Utf8(s) <==> exists t: string :: s == KeyOrders.Encode(KeyOrders.Utf8Unit, t)
  {
    if Utf8(s) {
      var t := Utf8IsSpelled(s);
      Utf8Iff(s, t);
    }
    if t: string :| s == KeyOrders.Encode(KeyOrders.Utf8Unit, t) {
      Utf8Iff(s, t);
      SpelledIsUtf8(s, t);
    }
  }

  // ----- UTF-16 -----

  /** Units outside the surrogates stand for themselves, and a high and a low surrogate for ten bits each
      above U+10000. */
  predicate Spells16(u: seq<int>, t: string)
    decreases |u|
  {
    if u == [] || t == "" then u == [] && t == ""
    else if 0xD800 <= u[0] <= 0xDBFF then
      && |u| >= 2 && 0xDC00 <= u[1] <= 0xDFFF
      && t[0] as int == 0x10000 + (u[0] - 0xD800) * 0x400 + (u[1] - 0xDC00) && Spells16(u[2..], t[1..])
    else t[0] as int == u[0] && u[0] <= 0xFFFF && Spells16(u[1..], t[1..])
  }

  lemma TenBits(h: int, l: int)
    requires 0 <= l < 1024
    ensures (h * 1024 + l) / 1024 == h && (h * 1024 + l) % 1024 == l
  {
  }

  /** The units of a string are exactly those that spell its characters. */
  lemma {:induction false} Utf16Iff(u: seq<int>, t: string)
    ensures u == KeyOrders.Encode(KeyOrders.Utf16Unit, t) <==> Spells16(u, t)
    decreases |u|
  {
    if u != [] && t != "" {
      var v, rest := KeyOrders.Utf16Unit(t[0]), KeyOrders.Encode(KeyOrders.Utf16Unit, t[1..]);
      assert KeyOrders.Encode(KeyOrders.Utf16Unit, t) == v + rest;
      if u == v + rest {
        assert u[0] == v[0] && (|v| == 2 ==> u[1] == v[1]) && u[|v|..] == rest;
        Utf16Iff(u[|v|..], t[1..]);
      }
      if Spells16(u, t) {
        if 0xD800 <= u[0] <= 0xDBFF {
          TenBits(u[0] - 0xD800, u[1] - 0xDC00);
          Utf16Iff(u[2..], t[1..]);
          assert v == [u[0], u[1]] && u == [u[0], u[1]] + u[2..];
        } else {
          Utf16Iff(u[1..], t[1..]);
          assert v == [u[0]] && u == [u[0]] + u[1..];
        }
      }
    }
  }
}
