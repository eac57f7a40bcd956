/** Letter case in certificate names, said on the letters themselves: base32 text and tags are read in any
    mixture of cases, and nothing else is folded. */
module LetterCase {
  import opened Common
  import opened Base32
  import opened SanChunks
  import opened SanNames

  /** The base32 alphabet (section 6 of RFC 4648). */
  const ALPHABET := "ABCDEFGHIJKLMNOPQRSTUVWXYZ234567"

  /** One is a capital letter and the other its small one. */
  predicate CapitalAndSmall(a: Byte, b: Byte) {
    65 <= a <= 90 && b as int == a as int + 32
  }

  predicate SameLetter(a: Byte, b: Byte) {
    a == b || CapitalAndSmall(a, b) || CapitalAndSmall(b, a)
  }

  predicate SameLetters(a: Bytes, b: Bytes) {
    |a| == |b| && forall i :: 0 <= i < |a| ==> SameLetter(a[i], b[i])
  }

  function Lowered(s: Bytes): (r: Bytes)
    ensures |r| == |s|
  {
    seq(|s|, i requires 0 <= i < |s| => if 65 <= s[i] <= 90 then s[i] + 32 else s[i])
  }

  lemma UpperIff(a: Byte, b: Byte)
    ensures Upper(a) == Upper(b) <==> SameLetter(a, b)
  {
  }

  /** Comparing without case compares letter by letter. */
  lemma IgnoringCaseIff(a: Bytes, b: Bytes)
    ensures SameIgnoringCase(a, b) <==> SameLetters(a, b)
  {
    if |a| == |b| {
      forall i | 0 <= i < |a| ensures Upper(a[i]) == Upper(b[i]) <==> SameLetter(a[i], b[i]) {
        UpperIff(a[i], b[i]);
      }
    }
  }

  lemma LoweredSame(s: Bytes)
    ensures SameLetters(Lowered(s), s)
  {
  }

  lemma AlphabetIs(v: nat)
    requires v < 32
    ensures |ALPHABET| == 32 && Character(v) as int == ALPHABET[v] as int
  {
  }

  /** The text is spelled with the base32 alphabet, in any letter case. */
  predicate Spelled(text: Bytes, digits: seq<nat>)
    requires forall i :: 0 <= i < |digits| ==> digits[i] < 32
  {
    && |text| == |digits|
    && forall i :: 0 <= i < |text| ==> |ALPHABET| == 32 && SameLetterAs(text[i], ALPHABET[digits[i]])
  }

  predicate SameLetterAs(b: Byte, c: char) {
    b as int == c as int || ('A' <= c <= 'Z' && b as int == c as int + 32)
  }

  lemma SpelledLetter(b: Byte, v: nat)
    requires v < 32
    ensures |ALPHABET| == 32 && (SameLetter(b, Character(v)) <==> SameLetterAs(b, ALPHABET[v]))
  {
    AlphabetIs(v);
  }

  /** A text decodes to a byte string exactly when it spells the string's base32 digits with the alphabet. */
  lemma DecodesIffSpelled(text: Bytes, bytes: Bytes)
    ensures Decodes(text, bytes) <==> Spelled(text, Encode(bytes))
  {
    var digits := Encode(bytes);
    DecodesIffText(text, bytes);
    IgnoringCaseIff(text, Text(bytes));
    if |text| == |digits| {
      forall i | 0 <= i < |text|
        ensures |ALPHABET| == 32 && (SameLetter(text[i], Text(bytes)[i]) <==> SameLetterAs(text[i], ALPHABET[digits[i]]))
      {
        SpelledLetter(text[i], digits[i]);
      }
    }
  }

  /** Small letters decode like capitals. */
  lemma LoweredDecodes(bytes: Bytes)
    ensures Decodes(Lowered(Text(bytes)), bytes)
  {
    DecodesIffText(Lowered(Text(bytes)), bytes);
    LoweredSame(Text(bytes));
    IgnoringCaseIff(Lowered(Text(bytes)), Text(bytes));
  }

  /** A name has the tag exactly when its second label is the tag letter by letter. */
  lemma TaggedIff(name: Bytes, tag: Bytes)
    ensures Tagged(name, tag) <==> SecondLabel(name).Some? && SameLetters(SecondLabel(name).value, tag)
  {
    if SecondLabel(name).Some? {
      IgnoringCaseIff(SecondLabel(name).value, tag);
    }
  }

  /** A name with everything in small letters decodes like its capitals. */
  lemma LoweredName(bytes: Bytes, tag: Bytes, rest: Bytes)
    requires 0x2e !in tag && Labels(rest) && bytes != []
    ensures Carries([Write(0, Lowered(Text(bytes)), Lowered(tag), rest)], tag, bytes)
  {
    var data, small := Lowered(Text(bytes)), Lowered(tag);
    var names, datas := [Write(0, data, small, rest)], [data];
    LoweredSame(Text(bytes));
    LoweredSame(tag);
    IgnoringCaseIff(data, Text(bytes));
    IgnoringCaseIff(small, tag);
    assert datas[..0] == [] && Concat(datas) == data;
    TextNonempty(bytes);
    NoNewDot(tag);
    assert names + [] == names;
    WrittenCarried(bytes, datas, tag, [small], [rest], names, [], names);
  }

  lemma NoNewDot(tag: Bytes)
    requires 0x2e !in tag
    ensures 0x2e !in Lowered(tag)
  {
    forall i | 0 <= i < |tag| ensures Lowered(tag)[i] != 0x2e {
      assert tag[i] in tag;
    }
  }

  lemma TextNonempty(bytes: Bytes)
    requires bytes != []
    ensures Text(bytes) != []
  {
    DecodesIffText([], bytes);
    assert Values([]) == [];
    if Text(bytes) == [] {
      assert SameIgnoringCase([], Text(bytes));
    }
  }
}
