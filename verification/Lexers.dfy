/** The two Rust lexers of the export checker: one finds the body of a function by its braces, the
    other blanks out comments, strings and character literals. */
module Lexers {
  import opened Common

  datatype Mode = Code | LineComment | BlockComment(depth: nat) | StringLiteral | CharLiteral

  /** The mode after one or two characters. */
  datatype Move = Move(mode: Mode, two: bool) {
    function Length(): nat {
      if two then 2 else 1
    }
  }

  /** How a lexer moves on a character, given the next one. */
  type Lexer = (char, Option<char>, Mode) -> Move

  datatype BodyError = NoBrace | Unmatched

  // ----- one step of a lexer -----

  function Peek(text: string, i: nat): Option<char> {
    if i + 1 < |text| then Some(text[i + 1]) else None
  }

  function RustStep(c: char, next: Option<char>, mode: Mode): Move {
    match mode
    case LineComment => Move(if c == '\n' then Code else LineComment, false)
    case BlockComment(depth) =>
      if c == '/' && next == Some('*') then Move(BlockComment(depth + 1), true)
      else if c == '*' && next == Some('/') then Move(if depth <= 1 then Code else BlockComment(depth - 1), true)
      else Move(mode, false)
    case StringLiteral =>
      if c == '\\' then Move(StringLiteral, true) else Move(if c == '"' then Code else StringLiteral, false)
    case CharLiteral =>
      if c == '\\' then Move(CharLiteral, true) else Move(if c == '\'' then Code else CharLiteral, false)
    case Code =>
      if c == '/' && next == Some('/') then Move(LineComment, true)
      else if c == '/' && next == Some('*') then Move(BlockComment(1), true)
      else if c == '"' then Move(StringLiteral, false)
      else if c == '\'' then Move(CharLiteral, false)
      else Move(Code, false)
  }

  /** The character is code. */
  predicate IsCode(step: Lexer, c: char, next: Option<char>, mode: Mode) {
    mode == Code && step(c, next, mode) == Move(Code, false)
  }

  // ----- finding a body -----

  /** How a character changes the depth of braces. */
  function Delta(step: Lexer, c: char, next: Option<char>, mode: Mode): int {
    if !IsCode(step, c, next, mode) then 0 else if c == '{' then 1 else if c == '}' then -1 else 0
  }

  /** The index of the brace that brings the depth back to zero. */
  function Scan(step: Lexer, text: string, i: nat, mode: Mode, depth: int): (r: Option<nat>)
    ensures r.Some? ==> i <= r.value < |text|
    decreases |text| - i
  {
    if i >= |text| then None
    else
      var m, delta := step(text[i], Peek(text, i), mode), Delta(step, text[i], Peek(text, i), mode);
      if delta == -1 && depth == 1 then Some(i) else Scan(step, text, i + m.Length(), m.mode, depth + delta)
  }

  function Find(text: string, start: nat): (r: Option<nat>)
    ensures r.Some? ==> start <= r.value < |text| && text[r.value] == '{'
    decreases |text| - start
  {
    if start >= |text| then None else if text[start] == '{' then Some(start) else Find(text, start + 1)
  }

  function Body(step: Lexer, text: string, start: nat): Result<string, BodyError> {
    match Find(text, start)
    case None => Err(NoBrace)
    case Some(open) =>
      match Scan(step, text, open, Code, 0)
      case None => Err(Unmatched)
      case Some(close) => Ok(text[open..close + 1])
  }

  /** A step that moves to `m` and changes the depth by `delta`. */
  lemma ScanUnfold(step: Lexer, text: string, i: nat, mode: Mode, depth: int, m: Move, delta: int)
    requires i < |text| && m == step(text[i], Peek(text, i), mode) && delta == Delta(step, text[i], Peek(text, i), mode)
    ensures Scan(step, text, i, mode, depth) ==
            if delta == -1 && depth == 1 then Some(i) else Scan(step, text, i + m.Length(), m.mode, depth + delta)
  {
  }

  /** One turn of the first loop: how the state moves and the depth changes. */
  method FindTurn(c: char, next: Option<char>, mode: Mode) returns (m: Move, delta: int)
    ensures m == RustStep(c, next, mode) && delta == Delta(RustStep, c, next, mode)
  {
    delta := 0;
    m := Move(mode, false);
    match mode {
      case LineComment =>
        if c == '\n' {
          m := Move(Code, false);
        }
      case BlockComment(depth) =>
        if c == '/' && next == Some('*') {
          m := Move(BlockComment(depth + 1), true);
        } else if c == '*' && next == Some('/') {
          m := Move(if depth <= 1 then Code else BlockComment(depth - 1), true);
        }
      case StringLiteral =>
        if c == '\\' {
          m := Move(mode, true);
        } else if c == '"' {
          m := Move(Code, false);
        }
      case CharLiteral =>
        if c == '\\' {
          m := Move(mode, true);
        } else if c == '\'' {
          m := Move(Code, false);
        }
      case Code =>
        if c == '/' && next == Some('/') {
          m := Move(LineComment, true);
        } else if c == '/' && next == Some('*') {
          m := Move(BlockComment(1), true);
        } else if c == '"' {
          m := Move(StringLiteral, false);
        } else if c == '\'' {
          m := Move(CharLiteral, false);
        } else if c == '{' {
          delta := 1;
        } else if c == '}' {
          delta := -1;
        }
    }
  }

  /** The search for the first brace. */
  method FindBrace(text: string, start: nat) returns (open: nat)
    ensures Find(text, start) == if open < |text| then Some(open) else None
  {
    open := start;
    while open < |text| && text[open] != '{'
      invariant Find(text, start) == Find(text, open)
    {
      open := open + 1;
    }
  }

  method FindMatchingBody(text: string, start: nat) returns (r: Result<string, BodyError>)
    ensures r == Body(RustStep, text, start)
  {
    var open := FindBrace(text, start);
    if open >= |text| {
      return Err(NoBrace);
    }
    var depth, index, mode := 0, open, Code;
    while index < |text|
      invariant open <= index && Scan(RustStep, text, open, Code, 0) == Scan(RustStep, text, index, mode, depth)
      decreases |text| - index
    {
      var m, delta := FindTurn(text[index], Peek(text, index), mode);
      ScanUnfold(RustStep, text, index, mode, depth, m, delta);
      depth := depth + delta;
      if delta == -1 && depth == 0 {
        return Ok(text[open..index + 1]);
      }
      index, mode := index + m.Length(), m.mode;
    }
    return Err(Unmatched);
  }

  // ----- blanking -----

  function Blank(c: char): char {
    if c == '\n' then '\n' else ' '
  }

  /** What the second lexer writes for one step. */
  function Output(step: Lexer, c: char, next: Option<char>, mode: Mode): string {
    if IsCode(step, c, next, mode) then [c] else if step(c, next, mode).two then "  " else [Blank(c)]
  }

  function Strip(step: Lexer, text: string, i: nat, mode: Mode): string
    decreases |text| - i
  {
    if i >= |text| then ""
    else
      var m := step(text[i], Peek(text, i), mode);
      Output(step, text[i], Peek(text, i), mode) + Strip(step, text, i + m.Length(), m.mode)
  }

  /** One turn of the second loop: how the state moves and what is written. */
  method StripTurn(c: char, next: Option<char>, mode: Mode) returns (m: Move, piece: string)
    ensures m == RustStep(c, next, mode) && piece == Output(RustStep, c, next, mode)
  {
    m, piece := Move(mode, false), [Blank(c)];
    match mode {
      case LineComment =>
        if c == '\n' {
          m, piece := Move(Code, false), [c];
        }
      case BlockComment(depth) =>
        if c == '/' && next == Some('*') {
          m, piece := Move(BlockComment(depth + 1), true), "  ";
        } else if c == '*' && next == Some('/') {
          m, piece := Move(if depth <= 1 then Code else BlockComment(depth - 1), true), "  ";
        }
      case StringLiteral =>
        if c == '\\' {
          m, piece := Move(mode, true), "  ";
        } else if c == '"' {
          m := Move(Code, false);
        }
      case CharLiteral =>
        if c == '\\' {
          m, piece := Move(mode, true), "  ";
        } else if c == '\'' {
          m := Move(Code, false);
        }
      case Code =>
        if c == '/' && next == Some('/') {
          m, piece := Move(LineComment, true), "  ";
        } else if c == '/' && next == Some('*') {
          m, piece := Move(BlockComment(1), true), "  ";
        } else if c == '"' {
          m, piece := Move(StringLiteral, false), " ";
        } else if c == '\'' {
          m, piece := Move(CharLiteral, false), " ";
        } else {
          piece := [c];
        }
    }
  }

  lemma Regroup(a: string, b: string, c: string)
    ensures a + (b + c) == (a + b) + c
  {
  }

  lemma StripUnfold(step: Lexer, text: string, i: nat, mode: Mode, piece: string, m: Move)
    requires i < |text| && piece == Output(step, text[i], Peek(text, i), mode) && m == step(text[i], Peek(text, i), mode)
    ensures Strip(step, text, i, mode) == piece + Strip(step, text, i + m.Length(), m.mode)
  {
  }

  method CodeWithoutCommentsAndStrings(text: string) returns (output: string)
    ensures output == Strip(RustStep, text, 0, Code)
  {
    output := "";
    var index, mode := 0, Code;
    while index < |text|
      invariant Strip(RustStep, text, 0, Code) == output + Strip(RustStep, text, index, mode)
      decreases |text| - index
    {
      var m, piece := StripTurn(text[index], Peek(text, index), mode);
      StripUnfold(RustStep, text, index, mode, piece, m);
      Regroup(output, piece, Strip(RustStep, text, index + m.Length(), m.mode));
      output := output + piece;
      index, mode := index + m.Length(), m.mode;
    }
  }

  // ----- the two lexers track each other -----

  /** Before its last character, the body reads as the text does. */
  lemma SameText(text: string, body: string, open: nat, i: nat)
    requires open <= i && open + |body| <= |text| && body == text[open..open + |body|] && i + 1 < open + |body|
    ensures text[i] == body[i - open] && Peek(text, i) == Peek(body, i - open)
  {
  }

  function BraceValue(c: char): int {
    if c == '{' then 1 else if c == '}' then -1 else 0
  }

  /** Starting at `depth`, the braces stay open until the last character and close there. */
  predicate Closes(s: string, depth: int) {
    if s == "" then false
    else if |s| == 1 then depth + BraceValue(s[0]) == 0
    else depth + BraceValue(s[0]) > 0 && Closes(s[1..], depth + BraceValue(s[0]))
  }

  lemma ClosesPrepend(c: char, rest: string, depth: int)
    requires rest != "" && Closes(rest, depth + BraceValue(c)) && depth + BraceValue(c) > 0
    ensures Closes([c] + rest, depth)
  {
    assert ([c] + rest)[1..] == rest;
  }

  /** A piece that changes the depth by `delta`: one character or two blanks. */
  predicate PieceValue(piece: string, delta: int) {
    (|piece| == 1 && BraceValue(piece[0]) == delta) || (piece == "  " && delta == 0)
  }

  lemma PiecePrepend(piece: string, rest: string, depth: int, delta: int)
    requires rest != "" && Closes(rest, depth + delta) && depth + delta > 0 && PieceValue(piece, delta)
    ensures Closes(piece + rest, depth)
  {
    if |piece| == 1 {
      ClosesPrepend(piece[0], rest, depth);
      assert piece + rest == [piece[0]] + rest;
    } else {
      ClosesPrepend(' ', rest, depth);
      ClosesPrepend(' ', [' '] + rest, depth);
      assert piece + rest == [' '] + ([' '] + rest);
    }
  }

  function Depth(s: string): int {
    if s == "" then 0 else BraceValue(s[0]) + Depth(s[1..])
  }

  /** The depth of the text is zero, and it is positive after every shorter part of it. */
  lemma {:induction false} ClosesMeaning(s: string, depth: int)
    requires Closes(s, depth)
    ensures depth + Depth(s) == 0 && forall k :: 0 < k < |s| ==> depth + Depth(s[..k]) > 0
  {
    if |s| > 1 {
      var d := depth + BraceValue(s[0]);
      ClosesMeaning(s[1..], d);
      forall k | 0 < k < |s| ensures depth + Depth(s[..k]) > 0 {
        assert s[..k][1..] == s[1..][..k - 1];
        assert k == 1 ==> s[1..][..0] == "";
      }
    } else {
      assert s[1..] == "";
    }
  }

  /** `s` is the text from `i` on, with some characters blanked. */
  predicate Blanked(s: string, text: string, i: nat) {
    i + |s| <= |text| && forall k :: 0 <= k < |s| ==> s[k] == text[i + k] || s[k] == ' '
  }

  lemma BlankedPrepend(piece: string, rest: string, text: string, i: nat)
    requires i + |piece| <= |text| && Blanked(piece, text, i) && Blanked(rest, text, i + |piece|)
    ensures Blanked(piece + rest, text, i)
  {
  }

  predicate Tracked(s: string, text: string, i: nat, close: nat, depth: int) {
    |s| == close + 1 - i && Blanked(s, text, i) && Closes(s, depth)
  }

  lemma TrackedPrepend(s: string, piece: string, rest: string, text: string, i: nat, j: nat, close: nat, depth: int,
                       delta: int)
    requires s == piece + rest && Blanked(piece, text, i) && j == i + |piece| <= close && Tracked(rest, text, j, close, depth + delta)
    requires depth + delta > 0 && PieceValue(piece, delta)
    ensures Tracked(s, text, i, close, depth)
  {
    BlankedPrepend(piece, rest, text, i);
    PiecePrepend(piece, rest, depth, delta);
  }

  /** Braces in code are code whatever follows. */
  ghost predicate BracesAreCode(step: Lexer) {
    forall next :: step('{', next, Code) == Move(Code, false) && step('}', next, Code) == Move(Code, false)
  }

  lemma LastBrace(step: Lexer, body: string)
    requires BracesAreCode(step) && body != "" && body[|body| - 1] == '}'
    ensures Strip(step, body, |body| - 1, Code) == "}"
  {
    StripUnfold(step, body, |body| - 1, Code, "}", Move(Code, false));
  }

  lemma Piece(step: Lexer, c: char, next: Option<char>, mode: Mode)
    ensures var piece, delta := Output(step, c, next, mode), Delta(step, c, next, mode);
            && |piece| == step(c, next, mode).Length() && (|piece| == 1 ==> piece[0] == c || piece[0] == ' ')
            && PieceValue(piece, delta)
  {
  }

  lemma ScanStep(step: Lexer, text: string, i: nat, mode: Mode, depth: int, close: nat, m: Move, delta: int)
    requires Scan(step, text, i, mode, depth) == Some(close) && depth > 0
    requires m == step(text[i], Peek(text, i), mode) && delta == Delta(step, text[i], Peek(text, i), mode)
    ensures || (i == close && mode == Code && text[i] == '}' && depth == 1)
            || (depth + delta > 0 && i + m.Length() <= close && Scan(step, text, i + m.Length(), m.mode, depth + delta) == Some(close))
  {
  }

  lemma TracksLast(step: Lexer, text: string, body: string, open: nat, close: nat, s: string)
    requires BracesAreCode(step) && open <= close < |text| && body == text[open..close + 1] && text[close] == '}'
    requires s == Strip(step, body, close - open, Code)
    ensures Tracked(s, text, close, close, 1)
  {
    LastBrace(step, body);
  }

  lemma PieceBlanked(step: Lexer, text: string, i: nat, mode: Mode, piece: string)
    requires i < |text| && piece == Output(step, text[i], Peek(text, i), mode) && i + |piece| <= |text|
    ensures Blanked(piece, text, i)
  {
    Piece(step, text[i], Peek(text, i), mode);
  }

  lemma StripSame(step: Lexer, text: string, body: string, open: nat, i: nat, mode: Mode, piece: string, m: Move)
    requires open <= i && open + |body| <= |text| && body == text[open..open + |body|] && i + 1 < open + |body|
    requires piece == Output(step, text[i], Peek(text, i), mode) && m == step(text[i], Peek(text, i), mode)
    ensures Strip(step, body, i - open, mode) == piece + Strip(step, body, i + m.Length() - open, m.mode)
  {
    SameText(text, body, open, i);
    StripUnfold(step, body, i - open, mode, piece, m);
  }

  /** One step of both lexers before the last character of the body. */
  lemma BothStep(step: Lexer, text: string, body: string, open: nat, i: nat, mode: Mode, depth: int, close: nat, s: string)
    returns (j: nat, next: Mode, piece: string, rest: string, delta: int)
    requires open <= close < |text| && body == text[open..close + 1] && open <= i
    requires Scan(step, text, i, mode, depth) == Some(close) && depth > 0 && s == Strip(step, body, i - open, mode)
    requires !(i == close && mode == Code && text[i] == '}' && depth == 1)
    ensures depth + delta > 0 && i < j == i + |piece| <= close && Blanked(piece, text, i) && PieceValue(piece, delta)
    ensures Scan(step, text, j, next, depth + delta) == Some(close)
    ensures s == piece + rest && rest == Strip(step, body, j - open, next)
  {
    var m := step(text[i], Peek(text, i), mode);
    piece, delta := Output(step, text[i], Peek(text, i), mode), Delta(step, text[i], Peek(text, i), mode);
    j, next := i + m.Length(), m.mode;
    rest := Strip(step, body, j - open, next);
    Piece(step, text[i], Peek(text, i), mode);
    ScanStep(step, text, i, mode, depth, close, m, delta);
    PieceBlanked(step, text, i, mode, piece);
    StripSame(step, text, body, open, i, mode, piece, m);
  }

  /** From every position that the first lexer visits, the second one blanks the rest of the body
      without changing its length or its braces. */
  lemma {:induction false} Tracks(step: Lexer, text: string, body: string, open: nat, i: nat, mode: Mode, depth: int,
                                  close: nat, s: string)
    requires BracesAreCode(step) && open <= close < |text| && body == text[open..close + 1] && open <= i
    requires Scan(step, text, i, mode, depth) == Some(close) && depth > 0 && s == Strip(step, body, i - open, mode)
    ensures Tracked(s, text, i, close, depth)
    decreases |text| - i
  {
    if i == close && mode == Code && text[i] == '}' && depth == 1 {
      TracksLast(step, text, body, open, close, s);
    } else {
      var j, next, piece, rest, delta := BothStep(step, text, body, open, i, mode, depth, close, s);
      Tracks(step, text, body, open, j, next, depth + delta, close, rest);
      TrackedPrepend(s, piece, rest, text, i, j, close, depth, delta);
    }
  }

  lemma FoundTracked(step: Lexer, text: string, start: nat, open: nat, close: nat, body: string, s: string)
    requires BracesAreCode(step) && Find(text, start) == Some(open) && Scan(step, text, open, Code, 0) == Some(close)
    requires body == text[open..close + 1] && s == Strip(step, body, 0, Code)
    ensures Tracked(s, text, open, close, 0)
  {
    ScanUnfold(step, text, open, Code, 0, Move(Code, false), 1);
    var rest := Strip(step, body, 1, Code);
    Tracks(step, text, body, open, open + 1, Code, 1, close, rest);
    StripUnfold(step, body, 0, Code, "{", Move(Code, false));
    TrackedPrepend(s, "{", rest, text, open, open + 1, close, 0, 1);
  }

  /** Every body that is found is blanked in place: same length, every character kept or blanked, and
      its braces balanced with the depth first zero at the last character. */
  lemma BodyTracked(text: string, start: nat)
    requires Body(RustStep, text, start).Ok?
    ensures var body := Body(RustStep, text, start).value; var s := Strip(RustStep, body, 0, Code);
            && |s| == |body| && Blanked(s, body, 0)
            && Depth(s) == 0 && forall k :: 0 < k < |s| ==> Depth(s[..k]) > 0
  {
    var open := Find(text, start).value;
    var close := Scan(RustStep, text, open, Code, 0).value;
    var body := text[open..close + 1];
    var s := Strip(RustStep, body, 0, Code);
    FoundTracked(RustStep, text, start, open, close, body, s);
    ClosesMeaning(s, 0);
    forall k | 0 <= k < |s| ensures s[k] == body[0 + k] || s[k] == ' ' {
      assert body[k] == text[open + k];
    }
  }

  // ----- blanked text is plain code -----

  /** The character starts neither a literal nor a comment. */
  predicate Plain(c: char, next: Option<char>) {
    c != '"' && c != '\'' && !(c == '/' && (next == Some('/') || next == Some('*')))
  }

  ghost predicate CodeIsPlain(step: Lexer) {
    forall c, next :: step(c, next, Code) == Move(Code, false) <==> Plain(c, next)
  }

  predicate PlainText(s: string) {
    forall i :: 0 <= i < |s| ==> Plain(s[i], Peek(s, i))
  }

  lemma {:induction false} StripPlain(step: Lexer, s: string, i: nat)
    requires CodeIsPlain(step) && PlainText(s) && i <= |s|
    ensures Strip(step, s, i, Code) == s[i..]
    decreases |s| - i
  {
    if i < |s| {
      StripPlain(step, s, i + 1);
      assert Plain(s[i], Peek(s, i));
      StripUnfold(step, s, i, Code, [s[i]], Move(Code, false));
    }
  }

  lemma FirstOutput(step: Lexer, text: string, i: nat, mode: Mode)
    ensures var s := Strip(step, text, i, mode); s != "" ==> i < |text| && (s[0] == text[i] || s[0] == ' ')
  {
    if i < |text| {
      var m, piece := step(text[i], Peek(text, i), mode), Output(step, text[i], Peek(text, i), mode);
      Piece(step, text[i], Peek(text, i), mode);
      StripUnfold(step, text, i, mode, piece, m);
    }
  }

  lemma PlainPrepend(piece: string, rest: string)
    requires PlainText(rest) && 1 <= |piece| <= 2
    requires Plain(piece[0], if |piece| == 2 then Some(piece[1]) else Peek([piece[0]] + rest, 0))
    requires |piece| == 2 ==> piece[1] == ' '
    ensures PlainText(piece + rest)
  {
    var s := piece + rest;
    forall i | 0 <= i < |s| ensures Plain(s[i], Peek(s, i)) {
      if i >= |piece| {
        assert s[i] == rest[i - |piece|] && Peek(s, i) == Peek(rest, i - |piece|);
      }
    }
  }

  lemma PlainPiece(step: Lexer, text: string, i: nat, mode: Mode, piece: string, rest: string)
    requires CodeIsPlain(step) && i < |text| && piece == Output(step, text[i], Peek(text, i), mode)
    requires rest != "" && |piece| == 1 ==> i + 1 < |text| && (rest[0] == text[i + 1] || rest[0] == ' ')
    ensures Plain(piece[0], if |piece| == 2 then Some(piece[1]) else Peek([piece[0]] + rest, 0))
    ensures |piece| == 2 ==> piece[1] == ' '
  {
    if IsCode(step, text[i], Peek(text, i), mode) {
      assert Plain(text[i], Peek(text, i));
    }
  }

  lemma {:induction false} StripIsPlain(step: Lexer, text: string, i: nat, mode: Mode, s: string)
    requires CodeIsPlain(step) && s == Strip(step, text, i, mode)
    ensures PlainText(s)
    decreases |text| - i
  {
    if i < |text| {
      var m, piece := step(text[i], Peek(text, i), mode), Output(step, text[i], Peek(text, i), mode);
      var rest := Strip(step, text, i + m.Length(), m.mode);
      StripIsPlain(step, text, i + m.Length(), m.mode, rest);
      StripUnfold(step, text, i, mode, piece, m);
      FirstOutput(step, text, i + m.Length(), m.mode);
      Piece(step, text[i], Peek(text, i), mode);
      PlainPiece(step, text, i, mode, piece, rest);
      PlainPrepend(piece, rest);
    }
  }

  /** Blanking leaves only plain code, so doing it twice changes nothing. */
  lemma StripIdempotent(text: string)
    ensures var s := Strip(RustStep, text, 0, Code); Strip(RustStep, s, 0, Code) == s
  {
    var s := Strip(RustStep, text, 0, Code);
    StripIsPlain(RustStep, text, 0, Code, s);
    StripPlain(RustStep, s, 0);
    assert s[0..] == s;
  }
}
