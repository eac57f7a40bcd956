/** What the two lexers compute, said on the tokens of a text: code characters, comments, strings and
    character literals. Every text is the rendering of such tokens, the last of which may be cut off by
    the end of the text. */
module RustTokens {
  import opened Common
  import opened Lexers

  // ----- tokens -----

  /** The inside of a string or character literal up to its closing quote, or to the end of the text. */
  datatype Literal =
    | EndQuote
    | Missing
    | LoneBackslash
    | Raw(c: char, rest: Literal)
    | Pair(escaped: char, rest: Literal)

  /** The inside of a block comment up to its end mark, or to the end of the text. */
  datatype Block =
    | EndMark
    | NoMark
    | Inside(c: char, rest: Block)
    | Nested(inner: Block, rest: Block)

  datatype Source =
    | Empty
    | Character(c: char, rest: Source)
    | Line(text: string, after: Option<Source>)
    | Comment(block: Block, rest: Source)
    | Quoted(quote: char, literal: Literal, rest: Source)

  function RenderLiteral(quote: char, l: Literal): string {
    match l
    case EndQuote => [quote]
    case Missing => ""
    case LoneBackslash => "\\"
    case Raw(c, rest) => [c] + RenderLiteral(quote, rest)
    case Pair(c, rest) => ['\\', c] + RenderLiteral(quote, rest)
  }

  function RenderBlock(b: Block): string {
    match b
    case EndMark => "*/"
    case NoMark => ""
    case Inside(c, rest) => [c] + RenderBlock(rest)
    case Nested(inner, rest) => "/*" + RenderBlock(inner) + RenderBlock(rest)
  }

  function Render(x: Source): string {
    match x
    case Empty => ""
    case Character(c, rest) => [c] + Render(rest)
    case Line(text, None) => "//" + text
    case Line(text, Some(rest)) => "//" + text + "\n" + Render(rest)
    case Comment(block, rest) => "/*" + RenderBlock(block) + Render(rest)
    case Quoted(quote, literal, rest) => [quote] + RenderLiteral(quote, literal) + Render(rest)
  }

  // ----- neighbours that do not merge -----

  predicate CutLiteral(l: Literal) {
    match l
    case EndQuote => false
    case Missing => true
    case LoneBackslash => true
    case Raw(_, rest) => CutLiteral(rest)
    case Pair(_, rest) => CutLiteral(rest)
  }

  predicate CutBlock(b: Block) {
    match b
    case EndMark => false
    case NoMark => true
    case Inside(_, rest) => CutBlock(rest)
    case Nested(_, rest) => CutBlock(rest)
  }

  predicate GoodLiteral(quote: char, l: Literal) {
    match l
    case Raw(c, rest) => c != quote && c != '\\' && GoodLiteral(quote, rest)
    case Pair(_, rest) => GoodLiteral(quote, rest)
    case _ => true
  }

  predicate Starts(s: string, c: char) {
    s != "" && s[0] == c
  }

  predicate GoodBlock(b: Block) {
    match b
    case EndMark => true
    case NoMark => true
    case Inside(c, rest) =>
      && GoodBlock(rest)
      && !(c == '/' && Starts(RenderBlock(rest), '*')) && !(c == '*' && Starts(RenderBlock(rest), '/'))
    case Nested(inner, rest) => GoodBlock(inner) && GoodBlock(rest) && (CutBlock(inner) ==> rest == NoMark)
  }

  predicate Good(x: Source) {
    match x
    case Empty => true
    case Character(c, rest) =>
      && Good(rest) && c != '"' && c != '\''
      && !(c == '/' && (Starts(Render(rest), '/') || Starts(Render(rest), '*')))
    case Line(text, rest) => '\n' !in text && (rest.Some? ==> Good(rest.value))
    case Comment(block, rest) => GoodBlock(block) && Good(rest) && (CutBlock(block) ==> rest == Empty)
    case Quoted(quote, literal, rest) =>
      && (quote == '"' || quote == '\'') && GoodLiteral(quote, literal) && Good(rest)
      && (CutLiteral(literal) ==> rest == Empty)
  }

  // ----- what is expected of the lexers -----

  /** Everything but newlines becomes a blank. */
  function Blanks(s: string): (r: string)
    ensures |r| == |s|
  {
    seq(|s|, i requires 0 <= i < |s| => if s[i] == '\n' then '\n' else ' ')
  }

  /** A backslash and what it escapes become two blanks, also at the end of the text. */
  function BlankLiteral(l: Literal): string {
    match l
    case EndQuote => " "
    case Missing => ""
    case LoneBackslash => "  "
    case Raw(c, rest) => Blanks([c]) + BlankLiteral(rest)
    case Pair(_, rest) => "  " + BlankLiteral(rest)
  }

  /** The code characters in their places and everything else blanked. */
  function CodeOnly(x: Source): string {
    match x
    case Empty => ""
    case Character(c, rest) => [c] + CodeOnly(rest)
    case Line(text, None) => "  " + Blanks(text)
    case Line(text, Some(rest)) => "  " + Blanks(text) + "\n" + CodeOnly(rest)
    case Comment(block, rest) => "  " + Blanks(RenderBlock(block)) + CodeOnly(rest)
    case Quoted(_, literal, rest) => " " + BlankLiteral(literal) + CodeOnly(rest)
  }

  function Later(n: nat, r: Option<nat>): Option<nat> {
    match r
    case None => None
    case Some(k) => Some(n + k)
  }

  /** The place of the first code brace that brings the depth back to zero. */
  function Closing(x: Source, depth: int): (r: Option<nat>)
    ensures r.Some? ==> r.value < |Render(x)|
  {
    match x
    case Empty => None
    case Character(c, rest) =>
      if c == '}' && depth == 1 then Some(0)
      else Later(1, Closing(rest, if c == '{' then depth + 1 else if c == '}' then depth - 1 else depth))
    case Line(text, None) => None
    case Line(text, Some(rest)) => Later(|text| + 3, Closing(rest, depth))
    case Comment(block, rest) => Later(2 + |RenderBlock(block)|, Closing(rest, depth))
    case Quoted(quote, literal, rest) => Later(1 + |RenderLiteral(quote, literal)|, Closing(rest, depth))
  }

  // ----- the lexers on suffixes -----

  function Drop(t: string, n: nat): string {
    if n <= |t| then t[n..] else ""
  }

  function Stripped(step: Lexer, t: string, mode: Mode): string
    decreases |t|
  {
    if t == "" then ""
    else
      var m := step(t[0], Peek(t, 0), mode);
      Output(step, t[0], Peek(t, 0), mode) + Stripped(step, Drop(t, m.Length()), m.mode)
  }

  function Scanned(step: Lexer, t: string, mode: Mode, depth: int): Option<nat>
    decreases |t|
  {
    if t == "" then None
    else
      var m, delta := step(t[0], Peek(t, 0), mode), Delta(step, t[0], Peek(t, 0), mode);
      if delta == -1 && depth == 1 then Some(0) else Later(m.Length(), Scanned(step, Drop(t, m.Length()), m.mode, depth + delta))
  }

  lemma DropTwice(text: string, i: nat, n: nat)
    requires i < |text|
    ensures Drop(Drop(text, i), n) == Drop(text, i + n)
    ensures Drop(text, i) != "" && Drop(text, i)[0] == text[i] && Peek(Drop(text, i), 0) == Peek(text, i)
  {
  }

  lemma StrippedUnfold(step: Lexer, t: string, mode: Mode, m: Move, piece: string)
    requires t != "" && m == step(t[0], Peek(t, 0), mode) && piece == Output(step, t[0], Peek(t, 0), mode)
    ensures Stripped(step, t, mode) == piece + Stripped(step, Drop(t, m.Length()), m.mode)
  {
  }

  ghost predicate SameStrip(step: Lexer, text: string, i: nat, mode: Mode, t: string) {
    Strip(step, text, i, mode) == Stripped(step, t, mode)
  }

  lemma StripStep(step: Lexer, text: string, i: nat, mode: Mode, t: string, m: Move, n: nat, u: string)
    requires i < |text| && t != "" && t[0] == text[i] && Peek(t, 0) == Peek(text, i)
    requires m == step(text[i], Peek(text, i), mode) && n == m.Length() && Drop(t, n) == u
    requires SameStrip(step, text, i + n, m.mode, u)
    ensures SameStrip(step, text, i, mode, t)
  {
    var piece := Output(step, text[i], Peek(text, i), mode);
    StripUnfold(step, text, i, mode, piece, m);
    StrippedUnfold(step, t, mode, m, piece);
  }

  lemma StripAtEnd(step: Lexer, text: string, i: nat, mode: Mode)
    requires i >= |text|
    ensures SameStrip(step, text, i, mode, Drop(text, i))
  {
  }

  lemma {:induction false} StripOnSuffix(step: Lexer, text: string, i: nat, mode: Mode, t: string)
    requires t == Drop(text, i)
    ensures SameStrip(step, text, i, mode, t)
    decreases |text| - i
  {
    if i >= |text| {
      StripAtEnd(step, text, i, mode);
    } else {
      var m := step(text[i], Peek(text, i), mode);
      var n := m.Length();
      var u := Drop(text, i + n);
      DropTwice(text, i, n);
      StripOnSuffix(step, text, i + n, m.mode, u);
      StripStep(step, text, i, mode, t, m, n, u);
    }
  }

  lemma LaterTwice(i: nat, n: nat, r: Option<nat>)
    ensures Later(i, Later(n, r)) == Later(i + n, r)
  {
  }

  lemma ScannedUnfold(step: Lexer, t: string, mode: Mode, depth: int, m: Move, delta: int)
    requires t != "" && m == step(t[0], Peek(t, 0), mode) && delta == Delta(step, t[0], Peek(t, 0), mode)
    ensures Scanned(step, t, mode, depth) ==
            if delta == -1 && depth == 1 then Some(0) else Later(m.Length(), Scanned(step, Drop(t, m.Length()), m.mode, depth + delta))
  {
  }

  lemma ScanStepOnSuffix(step: Lexer, text: string, i: nat, mode: Mode, depth: int, t: string, m: Move, delta: int,
                         n: nat, u: string)
    requires i < |text| && t != "" && t[0] == text[i] && Peek(t, 0) == Peek(text, i)
    requires m == step(text[i], Peek(text, i), mode) && delta == Delta(step, text[i], Peek(text, i), mode)
    requires n == m.Length() && Drop(t, n) == u
    requires Scan(step, text, i + n, m.mode, depth + delta) == Later(i + n, Scanned(step, u, m.mode, depth + delta))
    ensures Scan(step, text, i, mode, depth) == Later(i, Scanned(step, t, mode, depth))
  {
    ScanUnfold(step, text, i, mode, depth, m, delta);
    ScannedUnfold(step, t, mode, depth, m, delta);
    LaterTwice(i, n, Scanned(step, u, m.mode, depth + delta));
  }

  lemma ScanAtEnd(step: Lexer, text: string, i: nat, mode: Mode, depth: int)
    requires i >= |text|
    ensures Scan(step, text, i, mode, depth) == None && Later(i, Scanned(step, Drop(text, i), mode, depth)) == None
  {
  }

  lemma {:induction false} ScanOnSuffix(step: Lexer, text: string, i: nat, mode: Mode, depth: int, t: string)
    requires t == Drop(text, i)
    ensures Scan(step, text, i, mode, depth) == Later(i, Scanned(step, t, mode, depth))
    decreases |text| - i
  {
    if i >= |text| {
      ScanAtEnd(step, text, i, mode, depth);
    } else {
      var m, delta := step(text[i], Peek(text, i), mode), Delta(step, text[i], Peek(text, i), mode);
      var n := m.Length();
      var u := Drop(text, i + n);
      DropTwice(text, i, n);
      ScanOnSuffix(step, text, i + n, m.mode, depth + delta, u);
      ScanStepOnSuffix(step, text, i, mode, depth, t, m, delta, n, u);
    }
  }

  // ----- passing over text that is not code -----

  /** From `mode` the lexers pass over `s`, write `out` and go on at `tail` in `next`. */
  ghost predicate Passes(step: Lexer, s: string, tail: string, mode: Mode, next: Mode, out: string) {
    && Stripped(step, s + tail, mode) == out + Stripped(step, tail, next)
    && forall depth :: Scanned(step, s + tail, mode, depth) == Later(|s|, Scanned(step, tail, next, depth))
  }

  lemma PassNothing(step: Lexer, tail: string, mode: Mode)
    ensures Passes(step, "", tail, mode, mode, "")
  {
    assert "" + tail == tail;
  }

  /** At the end of the text every mode is as good as another. */
  lemma PassEnd(step: Lexer, s: string, mode: Mode, next: Mode, other: Mode, out: string)
    requires Passes(step, s, "", mode, next, out)
    ensures Passes(step, s, "", mode, other, out)
  {
    assert Stripped(step, "", next) == Stripped(step, "", other) == "";
    assert forall depth :: Scanned(step, "", next, depth) == Scanned(step, "", other, depth);
  }

  /** One step over one or two characters that are not code. */
  lemma PassStep(step: Lexer, s: string, tail: string, mode: Mode, m: Move, out: string)
    requires s != "" && |s| == m.Length() && step(s[0], Peek(s + tail, 0), mode) == m
    requires !IsCode(step, s[0], Peek(s + tail, 0), mode) && out == (if m.two then "  " else [Blank(s[0])])
    ensures Passes(step, s, tail, mode, m.mode, out)
  {
    var t := s + tail;
    assert t[0] == s[0] && Drop(t, m.Length()) == tail;
  }

  lemma PassTwo(step: Lexer, a: string, b: string, tail: string, first: Mode, mid: Mode, last: Mode, x: string, y: string)
    requires Passes(step, a, b + tail, first, mid, x) && Passes(step, b, tail, mid, last, y)
    ensures Passes(step, a + b, tail, first, last, x + y)
  {
    Regroup(a, b, tail);
    Regroup(x, y, Stripped(step, tail, last));
    forall depth
      ensures Scanned(step, (a + b) + tail, first, depth) == Later(|a + b|, Scanned(step, tail, last, depth))
    {
      assert Scanned(step, a + (b + tail), first, depth) == Later(|a|, Scanned(step, b + tail, mid, depth));
      assert Scanned(step, b + tail, mid, depth) == Later(|b|, Scanned(step, tail, last, depth));
    }
  }

  // ----- literals -----

  function Inner(quote: char): Mode {
    if quote == '"' then StringLiteral else CharLiteral
  }

  predicate IsQuote(c: char) {
    c == '"' || c == '\''
  }

  lemma LiteralSteps(quote: char, c: char, next: Option<char>)
    requires IsQuote(quote)
    ensures RustStep(quote, next, Inner(quote)) == Move(Code, false)
    ensures RustStep('\\', next, Inner(quote)) == Move(Inner(quote), true)
    ensures c != quote && c != '\\' ==> RustStep(c, next, Inner(quote)) == Move(Inner(quote), false)
  {
  }

  lemma PassLoneBackslash(quote: char)
    requires IsQuote(quote)
    ensures Passes(RustStep, "\\", "", Inner(quote), Code, "  ")
  {
    var t := "\\";
    LiteralSteps(quote, 'x', None);
    assert t + "" == t && Peek(t, 0) == None && Drop(t, 2) == "";
    assert Stripped(RustStep, t, Inner(quote)) == "  ";
    forall depth ensures Scanned(RustStep, t, Inner(quote), depth) == None {
      ScannedUnfold(RustStep, t, Inner(quote), depth, Move(Inner(quote), true), 0);
    }
  }

  lemma {:induction false} LiteralPasses(quote: char, l: Literal, tail: string)
    requires IsQuote(quote) && GoodLiteral(quote, l) && (CutLiteral(l) ==> tail == "")
    ensures Passes(RustStep, RenderLiteral(quote, l), tail, Inner(quote), Code, BlankLiteral(l))
    decreases l
  {
    var mode := Inner(quote);
    match l {
      case EndQuote =>
        LiteralSteps(quote, 'x', Peek([quote] + tail, 0));
        PassStep(RustStep, [quote], tail, mode, Move(Code, false), " ");
      case Missing =>
        PassNothing(RustStep, tail, mode);
        PassEnd(RustStep, "", mode, mode, Code, "");
      case LoneBackslash =>
        PassLoneBackslash(quote);
      case Raw(c, rest) =>
        LiteralPasses(quote, rest, tail);
        PassFirst(quote, [c], RenderLiteral(quote, rest), tail, Blanks([c]), BlankLiteral(rest));
      case Pair(c, rest) =>
        LiteralPasses(quote, rest, tail);
        PassFirst(quote, ['\\', c], RenderLiteral(quote, rest), tail, "  ", BlankLiteral(rest));
    }
  }

  lemma PassFirst(quote: char, first: string, rest: string, tail: string, x: string, y: string)
    requires IsQuote(quote) && Passes(RustStep, rest, tail, Inner(quote), Code, y)
    requires || (|first| == 1 && first[0] != quote && first[0] != '\\' && x == Blanks(first))
             || (|first| == 2 && first[0] == '\\' && x == "  ")
    ensures Passes(RustStep, first + rest, tail, Inner(quote), Code, x + y)
  {
    var mode := Inner(quote);
    LiteralSteps(quote, first[0], Peek(first + (rest + tail), 0));
    PassStep(RustStep, first, rest + tail, mode, Move(mode, |first| == 2), x);
    PassTwo(RustStep, first, rest, tail, mode, mode, Code, x, y);
  }

  // ----- block comments -----

  function Outside(depth: nat): Mode {
    if depth <= 1 then Code else BlockComment(depth - 1)
  }

  predicate Merges(c: char, next: Option<char>) {
    (c == '/' && next == Some('*')) || (c == '*' && next == Some('/'))
  }

  lemma BlockSteps(c: char, next: Option<char>, depth: nat)
    ensures RustStep('*', Some('/'), BlockComment(depth)) == Move(Outside(depth), true)
    ensures RustStep('/', Some('*'), BlockComment(depth)) == Move(BlockComment(depth + 1), true)
    ensures !Merges(c, next) ==> RustStep(c, next, BlockComment(depth)) == Move(BlockComment(depth), false)
  {
  }

  lemma BlanksAppend(a: string, b: string)
    ensures Blanks(a + b) == Blanks(a) + Blanks(b)
  {
  }

  lemma PassMark(s: string, tail: string, depth: nat)
    requires s == "*/" || s == "/*"
    ensures Passes(RustStep, s, tail, BlockComment(depth), if s == "*/" then Outside(depth) else BlockComment(depth + 1), "  ")
  {
    BlockSteps('x', None, depth);
    assert (s + tail)[1] == s[1];
    PassStep(RustStep, s, tail, BlockComment(depth), RustStep(s[0], Some(s[1]), BlockComment(depth)), "  ");
  }

  lemma PassInside(c: char, rest: string, tail: string, depth: nat, y: string)
    requires !Merges(c, Peek([c] + (rest + tail), 0)) && Passes(RustStep, rest, tail, BlockComment(depth), Outside(depth), y)
    ensures Passes(RustStep, [c] + rest, tail, BlockComment(depth), Outside(depth), Blanks([c]) + y)
  {
    var mode := BlockComment(depth);
    BlockSteps(c, Peek([c] + (rest + tail), 0), depth);
    PassStep(RustStep, [c], rest + tail, mode, Move(mode, false), Blanks([c]));
    PassTwo(RustStep, [c], rest, tail, mode, mode, Outside(depth), Blanks([c]), y);
  }

  lemma PassNested(inner: string, rest: string, tail: string, depth: nat, x: string, y: string)
    requires depth > 0
    requires Passes(RustStep, inner, rest + tail, BlockComment(depth + 1), BlockComment(depth), x)
    requires Passes(RustStep, rest, tail, BlockComment(depth), Outside(depth), y)
    ensures Passes(RustStep, "/*" + inner + rest, tail, BlockComment(depth), Outside(depth), "  " + x + y)
  {
    PassMark("/*", inner + (rest + tail), depth);
    PassTwo(RustStep, "/*", inner, rest + tail, BlockComment(depth), BlockComment(depth + 1), BlockComment(depth), "  ", x);
    PassTwo(RustStep, "/*" + inner, rest, tail, BlockComment(depth), BlockComment(depth), Outside(depth), "  " + x, y);
  }

  lemma FirstOf(b: Block, tail: string, c: char)
    requires GoodBlock(Inside(c, b)) && (CutBlock(b) ==> tail == "")
    ensures !Merges(c, Peek([c] + (RenderBlock(b) + tail), 0))
  {
    var s := RenderBlock(b) + tail;
    assert s != "" ==> Peek([c] + s, 0) == Some(s[0]);
    assert RenderBlock(b) == "" ==> b == NoMark;
  }

  lemma {:induction false} BlockPasses(b: Block, depth: nat, tail: string)
    requires depth > 0 && GoodBlock(b) && (CutBlock(b) ==> tail == "")
    ensures Passes(RustStep, RenderBlock(b), tail, BlockComment(depth), Outside(depth), Blanks(RenderBlock(b)))
    decreases b
  {
    match b {
      case EndMark =>
        PassMark("*/", tail, depth);
        assert Blanks("*/") == "  ";
      case NoMark =>
        PassNothing(RustStep, tail, BlockComment(depth));
        PassEnd(RustStep, "", BlockComment(depth), BlockComment(depth), Outside(depth), "");
        assert Blanks("") == "";
      case Inside(c, rest) =>
        BlockPasses(rest, depth, tail);
        FirstOf(rest, tail, c);
        PassInside(c, RenderBlock(rest), tail, depth, Blanks(RenderBlock(rest)));
        BlanksAppend([c], RenderBlock(rest));
      case Nested(inner, rest) =>
        BlockPasses(inner, depth + 1, RenderBlock(rest) + tail);
        BlockPasses(rest, depth, tail);
        PassNested(RenderBlock(inner), RenderBlock(rest), tail, depth, Blanks(RenderBlock(inner)), Blanks(RenderBlock(rest)));
        NestedBlanks(RenderBlock(inner), RenderBlock(rest));
    }
  }

  lemma NestedBlanks(inner: string, rest: string)
    ensures Blanks("/*" + inner + rest) == "  " + Blanks(inner) + Blanks(rest)
  {
    BlanksAppend("/*" + inner, rest);
    BlanksAppend("/*", inner);
    assert Blanks("/*") == "  ";
  }

  // ----- line comments -----

  lemma LineSteps(c: char, next: Option<char>)
    ensures RustStep(c, next, LineComment) == Move(if c == '\n' then Code else LineComment, false)
  {
  }

  lemma {:induction false} LinePasses(text: string, tail: string)
    requires '\n' !in text
    ensures Passes(RustStep, text, tail, LineComment, LineComment, Blanks(text))
  {
    if text == "" {
      PassNothing(RustStep, tail, LineComment);
      assert Blanks(text) == "";
    } else {
      var c, rest := text[0], text[1..];
      LinePasses(rest, tail);
      LineSteps(c, Peek([c] + (rest + tail), 0));
      PassStep(RustStep, [c], rest + tail, LineComment, Move(LineComment, false), Blanks([c]));
      PassTwo(RustStep, [c], rest, tail, LineComment, LineComment, LineComment, Blanks([c]), Blanks(rest));
      BlanksAppend([c], rest);
      assert text == [c] + rest;
    }
  }

  // ----- sources -----

  lemma CodeSteps(c: char, next: Option<char>)
    ensures RustStep('/', Some('/'), Code) == Move(LineComment, true)
    ensures RustStep('/', Some('*'), Code) == Move(BlockComment(1), true)
    ensures IsQuote(c) ==> RustStep(c, next, Code) == Move(Inner(c), false)
    ensures !IsQuote(c) && !(c == '/' && (next == Some('/') || next == Some('*'))) ==> RustStep(c, next, Code) == Move(Code, false)
  {
  }

  /** The lexers agree with the tokens from here on. */
  ghost predicate Lexed(x: Source) {
    && Stripped(RustStep, Render(x), Code) == CodeOnly(x)
    && forall depth :: Scanned(RustStep, Render(x), Code, depth) == Closing(x, depth)
  }

  /** A token that is passed over in front of lexed ones. */
  lemma PassToken(token: string, rest: Source, out: string)
    requires Lexed(rest) && Passes(RustStep, token, Render(rest), Code, Code, out)
    ensures Stripped(RustStep, token + Render(rest), Code) == out + CodeOnly(rest)
    ensures forall depth :: Scanned(RustStep, token + Render(rest), Code, depth) == Later(|token|, Closing(rest, depth))
  {
  }

  lemma CharacterLexed(c: char, rest: Source)
    requires Good(Character(c, rest)) && Lexed(rest)
    ensures Lexed(Character(c, rest))
  {
    var t := [c] + Render(rest);
    CodeSteps(c, Peek(t, 0));
    assert Drop(t, 1) == Render(rest);
    assert Peek(t, 0) == if Render(rest) == "" then None else Some(Render(rest)[0]);
    forall depth ensures Scanned(RustStep, t, Code, depth) == Closing(Character(c, rest), depth) {
      ScannedUnfold(RustStep, t, Code, depth, Move(Code, false), BraceValue(c));
    }
  }

  lemma PassOpening(mark: string, s: string, tail: string, next: Mode, last: Mode, out: string)
    requires || (mark == "//" && next == LineComment)
             || (mark == "/*" && next == BlockComment(1))
    requires Passes(RustStep, s, tail, next, last, out)
    ensures Passes(RustStep, mark + s, tail, Code, last, "  " + out)
  {
    CodeSteps('x', None);
    assert (mark + (s + tail))[1] == mark[1];
    PassStep(RustStep, mark, s + tail, Code, Move(next, true), "  ");
    PassTwo(RustStep, mark, s, tail, Code, next, last, "  ", out);
  }

  lemma PassQuoted(quote: char, s: string, tail: string, out: string)
    requires IsQuote(quote) && Passes(RustStep, s, tail, Inner(quote), Code, out)
    ensures Passes(RustStep, [quote] + s, tail, Code, Code, " " + out)
  {
    CodeSteps(quote, Peek([quote] + (s + tail), 0));
    PassStep(RustStep, [quote], s + tail, Code, Move(Inner(quote), false), " ");
    PassTwo(RustStep, [quote], s, tail, Code, Inner(quote), Code, " ", out);
  }

  lemma PassLine(text: string, tail: string)
    requires '\n' !in text
    ensures Passes(RustStep, "//" + text + "\n", tail, Code, Code, "  " + Blanks(text) + "\n")
    ensures Passes(RustStep, "//" + text, "", Code, Code, "  " + Blanks(text))
  {
    LinePasses(text, "\n" + tail);
    LineSteps('\n', Peek("\n" + tail, 0));
    PassOpening("//", text, "\n" + tail, LineComment, LineComment, Blanks(text));
    PassStep(RustStep, "\n", tail, LineComment, Move(Code, false), "\n");
    PassTwo(RustStep, "//" + text, "\n", tail, Code, LineComment, Code, "  " + Blanks(text), "\n");
    LinePasses(text, "");
    PassOpening("//", text, "", LineComment, LineComment, Blanks(text));
    PassEnd(RustStep, "//" + text, Code, LineComment, Code, "  " + Blanks(text));
  }

  lemma LineLexed(text: string, after: Option<Source>)
    requires '\n' !in text && (after.Some? ==> Lexed(after.value))
    ensures Lexed(Line(text, after))
  {
    match after {
      case None =>
        PassLine(text, "");
        assert Lexed(Empty);
        PassToken("//" + text, Empty, "  " + Blanks(text));
        assert ("//" + text) + "" == "//" + text && ("  " + Blanks(text)) + "" == "  " + Blanks(text);
      case Some(rest) =>
        PassLine(text, Render(rest));
        PassToken("//" + text + "\n", rest, "  " + Blanks(text) + "\n");
    }
  }

  lemma {:induction false} AllLexed(x: Source)
    requires Good(x)
    ensures Lexed(x)
    decreases x
  {
    match x {
      case Empty =>
      case Character(c, rest) =>
        AllLexed(rest);
        CharacterLexed(c, rest);
      case Line(text, after) =>
        if after.Some? {
          AllLexed(after.value);
        }
        LineLexed(text, after);
      case Comment(block, rest) =>
        AllLexed(rest);
        BlockPasses(block, 1, Render(rest));
        PassOpening("/*", RenderBlock(block), Render(rest), BlockComment(1), Code, Blanks(RenderBlock(block)));
        PassToken("/*" + RenderBlock(block), rest, "  " + Blanks(RenderBlock(block)));
      case Quoted(quote, literal, rest) =>
        AllLexed(rest);
        LiteralPasses(quote, literal, Render(rest));
        PassQuoted(quote, RenderLiteral(quote, literal), Render(rest), BlankLiteral(literal));
        PassToken([quote] + RenderLiteral(quote, literal), rest, " " + BlankLiteral(literal));
    }
  }

  /** Blanking keeps exactly the code characters, in their places. */
  lemma StripTokens(x: Source)
    requires Good(x)
    ensures Strip(RustStep, Render(x), 0, Code) == CodeOnly(x)
  {
    AllLexed(x);
    StripOnSuffix(RustStep, Render(x), 0, Code, Render(x));
  }

  /** `open` is the first brace at or after `start`. */
  ghost predicate FirstBrace(text: string, start: nat, open: nat) {
    start <= open < |text| && text[open] == '{' && forall i :: start <= i < open ==> text[i] != '{'
  }

  lemma {:induction false} FindIff(text: string, start: nat, open: nat)
    ensures Find(text, start) == Some(open) <==> FirstBrace(text, start, open)
    decreases |text| - start
  {
    if start < |text| && text[start] != '{' {
      FindIff(text, start + 1, open);
    }
  }

  /** The tokens are good and render to the text. */
  predicate Tokenised(t: string, x: Source) {
    Good(x) && Render(x) == t
  }

  /** What is found in a text whose first brace is at `open` and whose tokens from there on are `x`. */
  ghost predicate ClosedBody(text: string, start: nat, open: nat, x: Source)
    requires open <= |text| && Tokenised(text[open..], x)
  {
    Body(RustStep, text, start) ==
    match Closing(x, 0)
    case None => Err(Unmatched)
    case Some(k) => Ok(text[open..open + k + 1])
  }

  /** The body runs from the first brace to the first code brace that balances, whatever the tokens
      between them hold; without a brace or without such a closing one the search fails. */
  lemma BodyTokens(text: string, start: nat, open: nat, x: Source)
    requires FirstBrace(text, start, open) && Tokenised(text[open..], x)
    ensures ClosedBody(text, start, open, x)
  {
    FindIff(text, start, open);
    ScanTokens(text, open, x);
    BodyAt(RustStep, text, start, open, Closing(x, 0));
  }

  lemma ScanTokens(text: string, open: nat, x: Source)
    requires open <= |text| && Good(x) && Render(x) == text[open..]
    ensures Scan(RustStep, text, open, Code, 0) == Later(open, Closing(x, 0))
  {
    AllLexed(x);
    ScanOnSuffix(RustStep, text, open, Code, 0, Render(x));
  }

  lemma BodyAt(step: Lexer, text: string, start: nat, open: nat, r: Option<nat>)
    requires Find(text, start) == Some(open) && Scan(step, text, open, Code, 0) == Later(open, r)
    requires r.Some? ==> open + r.value < |text|
    ensures Body(step, text, start) ==
            match r
            case None => Err(Unmatched)
            case Some(k) => Ok(text[open..open + k + 1])
  {
  }

  lemma BodyMissing(text: string, start: nat)
    ensures Body(RustStep, text, start) == Err(NoBrace) <==> forall i :: start <= i < |text| ==> text[i] != '{'
  {
    if Find(text, start).Some? {
      FindIff(text, start, Find(text, start).value);
    }
    if i :| start <= i < |text| && text[i] == '{' {
      FoundAt(text, start, i);
    }
  }

  lemma {:induction false} FoundAt(text: string, start: nat, i: nat)
    requires start <= i < |text| && text[i] == '{'
    ensures Find(text, start).Some?
    decreases i - start
  {
    if text[start] != '{' {
      FoundAt(text, start + 1, i);
    }
  }

  // ----- every text has tokens -----

  function LiteralOf(quote: char, t: string): (r: (Literal, string))
    ensures |r.1| <= |t|
    decreases |t|
  {
    if t == "" then (Missing, "")
    else if t[0] == quote then (EndQuote, t[1..])
    else if t[0] == '\\' then
      if |t| == 1 then (LoneBackslash, "")
      else var (l, rest) := LiteralOf(quote, t[2..]); (Pair(t[1], l), rest)
    else var (l, rest) := LiteralOf(quote, t[1..]); (Raw(t[0], l), rest)
  }

  function BlockOf(t: string): (r: (Block, string))
    ensures |r.1| <= |t|
    decreases |t|
  {
    if t == "" then (NoMark, "")
    else if |t| >= 2 && t[0] == '*' && t[1] == '/' then (EndMark, t[2..])
    else if |t| >= 2 && t[0] == '/' && t[1] == '*' then
      var (inner, after) := BlockOf(t[2..]);
      var (rest, last) := BlockOf(after);
      (Nested(inner, rest), last)
    else var (rest, last) := BlockOf(t[1..]); (Inside(t[0], rest), last)
  }

  function LineEnd(t: string): (n: nat)
    ensures n <= |t| && '\n' !in t[..n] && (n < |t| ==> t[n] == '\n')
  {
    if t == "" || t[0] == '\n' then 0
    else
      var n := 1 + LineEnd(t[1..]);
      assert t[..n] == [t[0]] + t[1..][..n - 1];
      n
  }

  function Tokens(t: string): Source
    decreases |t|
  {
    if t == "" then Empty
    else if |t| >= 2 && t[0] == '/' && t[1] == '/' then
      var n := LineEnd(t[2..]);
      Line(t[2..][..n], if n < |t[2..]| then Some(Tokens(t[2..][n + 1..])) else None)
    else if |t| >= 2 && t[0] == '/' && t[1] == '*' then
      var (block, rest) := BlockOf(t[2..]);
      Comment(block, Tokens(rest))
    else if IsQuote(t[0]) then
      var (literal, rest) := LiteralOf(t[0], t[1..]);
      Quoted(t[0], literal, Tokens(rest))
    else Character(t[0], Tokens(t[1..]))
  }

  lemma {:induction false} LiteralOfGood(quote: char, t: string)
    requires IsQuote(quote)
    ensures var (l, rest) := LiteralOf(quote, t);
            GoodLiteral(quote, l) && RenderLiteral(quote, l) + rest == t && (CutLiteral(l) ==> rest == "")
    decreases |t|
  {
    if t == "" {
    } else if t[0] == quote {
      assert t == [quote] + t[1..];
    } else if t[0] != '\\' {
      var (l, rest) := LiteralOf(quote, t[1..]);
      LiteralOfGood(quote, t[1..]);
      JoinedAfter([t[0]], RenderLiteral(quote, l), rest, t);
    } else if |t| > 1 {
      var (l, rest) := LiteralOf(quote, t[2..]);
      LiteralOfGood(quote, t[2..]);
      JoinedAfter(['\\', t[1]], RenderLiteral(quote, l), rest, t);
    } else {
      assert t == "\\";
    }
  }

  lemma JoinedAfter(first: string, s: string, rest: string, t: string)
    requires 1 <= |first| <= |t| && t[..|first|] == first && s + rest == t[|first|..]
    ensures (first + s) + rest == t
  {
    assert t == t[..|first|] + t[|first|..];
  }

  lemma {:induction false} BlockOfGood(t: string)
    ensures var (b, rest) := BlockOf(t); GoodBlock(b) && RenderBlock(b) + rest == t && (CutBlock(b) ==> rest == "")
    decreases |t|
  {
    if t == "" {
    } else if |t| >= 2 && t[0] == '*' && t[1] == '/' {
      assert t == "*/" + t[2..];
    } else if |t| >= 2 && t[0] == '/' && t[1] == '*' {
      var (inner, after) := BlockOf(t[2..]);
      BlockOfGood(t[2..]);
      BlockOfGood(after);
      var (rest, last) := BlockOf(after);
      NestedGood(t, inner, rest, after, last);
    } else {
      BlockOfGood(t[1..]);
      var (rest, last) := BlockOf(t[1..]);
      InsideGood(t, rest, last);
    }
  }

  lemma NestedGood(t: string, inner: Block, rest: Block, after: string, last: string)
    requires |t| >= 2 && t[..2] == "/*" && RenderBlock(inner) + after == t[2..] && RenderBlock(rest) + last == after
    requires GoodBlock(inner) && GoodBlock(rest) && (CutBlock(inner) ==> after == "") && (CutBlock(rest) ==> last == "")
    requires after == "" ==> rest == NoMark
    ensures GoodBlock(Nested(inner, rest)) && RenderBlock(Nested(inner, rest)) + last == t
    ensures CutBlock(Nested(inner, rest)) ==> last == ""
  {
    NestedJoined(RenderBlock(inner), RenderBlock(rest), last);
    assert t == t[..2] + t[2..];
  }

  lemma NestedJoined(a: string, b: string, last: string)
    ensures ("/*" + a + b) + last == "/*" + (a + (b + last))
  {
  }

  lemma InsideGood(t: string, rest: Block, last: string)
    requires t != "" && GoodBlock(rest) && RenderBlock(rest) + last == t[1..] && (CutBlock(rest) ==> last == "")
    requires !(|t| >= 2 && Merges(t[0], Some(t[1])))
    ensures GoodBlock(Inside(t[0], rest)) && RenderBlock(Inside(t[0], rest)) + last == t
  {
    var s := RenderBlock(rest);
    assert s != "" ==> s[0] == (s + last)[0] == t[1];
    assert ([t[0]] + s) + last == [t[0]] + (s + last);
    assert t == [t[0]] + t[1..];
  }

  lemma CommentTokenised(t: string, block: Block, rest: string, x: Source)
    requires |t| >= 2 && t[..2] == "/*" && GoodBlock(block) && RenderBlock(block) + rest == t[2..]
    requires (CutBlock(block) ==> rest == "") && Tokenised(rest, x) && (rest == "" ==> x == Empty)
    ensures Tokenised(t, Comment(block, x))
  {
    JoinedAfter("/*", RenderBlock(block), rest, t);
  }

  lemma QuotedTokenised(t: string, literal: Literal, rest: string, x: Source)
    requires t != "" && IsQuote(t[0]) && GoodLiteral(t[0], literal) && RenderLiteral(t[0], literal) + rest == t[1..]
    requires (CutLiteral(literal) ==> rest == "") && Tokenised(rest, x) && (rest == "" ==> x == Empty)
    ensures Tokenised(t, Quoted(t[0], literal, x))
  {
    JoinedAfter([t[0]], RenderLiteral(t[0], literal), rest, t);
  }

  lemma CharacterTokenised(t: string, x: Source)
    requires t != "" && !IsQuote(t[0]) && !(|t| >= 2 && t[0] == '/' && (t[1] == '/' || t[1] == '*')) && Tokenised(t[1..], x)
    ensures Tokenised(t, Character(t[0], x))
  {
    assert t == [t[0]] + t[1..];
    assert |t| >= 2 ==> t[1..][0] == t[1];
  }

  lemma LineTokenised(t: string, u: string, n: nat, x: Source)
    requires |t| >= 2 && t[..2] == "//" && u == t[2..] && n == LineEnd(u) && (n < |u| ==> Tokenised(u[n + 1..], x))
    ensures Tokenised(t, Line(u[..n], if n < |u| then Some(x) else None))
  {
    assert t == "//" + u;
    if n < |u| {
      LineJoined(u, n);
    } else {
      assert u[..n] == u;
    }
  }

  lemma TokensOfEmpty()
    ensures Tokens("") == Empty
  {
  }

  ghost predicate HasTokens(t: string) {
    Tokenised(t, Tokens(t))
  }

  lemma LineCase(t: string, u: string, n: nat)
    requires |t| >= 2 && t[0] == '/' && t[1] == '/' && u == t[2..] && n == LineEnd(u) && (n < |u| ==> HasTokens(u[n + 1..]))
    ensures HasTokens(t)
  {
    LineTokenised(t, u, n, if n < |u| then Tokens(u[n + 1..]) else Empty);
  }

  lemma CommentCase(t: string, block: Block, rest: string)
    requires |t| >= 2 && t[0] == '/' && t[1] == '*' && BlockOf(t[2..]) == (block, rest) && HasTokens(rest)
    ensures HasTokens(t)
  {
    BlockOfGood(t[2..]);
    TokensOfEmpty();
    CommentTokenised(t, block, rest, Tokens(rest));
  }

  lemma QuotedCase(t: string, literal: Literal, rest: string)
    requires t != "" && IsQuote(t[0]) && LiteralOf(t[0], t[1..]) == (literal, rest) && HasTokens(rest)
    ensures HasTokens(t)
  {
    LiteralOfGood(t[0], t[1..]);
    TokensOfEmpty();
    QuotedTokenised(t, literal, rest, Tokens(rest));
  }

  lemma CharacterCase(t: string)
    requires t != "" && !IsQuote(t[0]) && !(|t| >= 2 && t[0] == '/' && (t[1] == '/' || t[1] == '*')) && HasTokens(t[1..])
    ensures HasTokens(t)
  {
    CharacterTokenised(t, Tokens(t[1..]));
  }

  /** Every text is the rendering of its tokens. */
  lemma {:induction false} TokensGood(t: string)
    ensures HasTokens(t)
    decreases |t|
  {
    if t == "" {
      TokensOfEmpty();
    } else if |t| >= 2 && t[0] == '/' && t[1] == '/' {
      var u := t[2..];
      var n := LineEnd(u);
      if n < |u| {
        TokensGood(u[n + 1..]);
      }
      LineCase(t, u, n);
    } else if |t| >= 2 && t[0] == '/' && t[1] == '*' {
      var (block, rest) := BlockOf(t[2..]);
      TokensGood(rest);
      CommentCase(t, block, rest);
    } else if IsQuote(t[0]) {
      var (literal, rest) := LiteralOf(t[0], t[1..]);
      TokensGood(rest);
      QuotedCase(t, literal, rest);
    } else {
      TokensGood(t[1..]);
      CharacterCase(t);
    }
  }

  lemma LineJoined(u: string, n: nat)
    requires n < |u| && u[n] == '\n'
    ensures "//" + u[..n] + "\n" + u[n + 1..] == "//" + u
  {
    assert u == u[..n] + [u[n]] + u[n + 1..];
  }

  /** The blanked text of every input. */
  lemma StripEveryText(text: string)
    ensures Strip(RustStep, text, 0, Code) == CodeOnly(Tokens(text))
  {
    TokensGood(text);
    StripTokens(Tokens(text));
  }

  /** The body found in every input that has a brace. */
  lemma BodyOfEveryText(text: string, start: nat, open: nat)
    requires FirstBrace(text, start, open)
    ensures Tokenised(text[open..], Tokens(text[open..])) && ClosedBody(text, start, open, Tokens(text[open..]))
  {
    TokensGood(text[open..]);
    BodyTokens(text, start, open, Tokens(text[open..]));
  }
}
