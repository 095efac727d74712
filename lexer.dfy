/** The tokenizer of lib/parser.ts: pure scanning functions that say which
    token starts at a position, and the `Lexer` class whose loops are proved
    to follow them. */
module Lexing {
  import opened Wrappers
  import opened Text
  import opened Address

  datatype TokenType =
    | Number | Str | Boolean | CellRef | Range | Function
    | Operator | LParen | RParen | Comma | Colon | Eof

  /** The type's name as error messages print it. */
  function TypeName(t: TokenType): string
  {
    match t
    case Number => "NUMBER"
    case Str => "STRING"
    case Boolean => "BOOLEAN"
    case CellRef => "CELL_REF"
    case Range => "RANGE"
    case Function => "FUNCTION"
    case Operator => "OPERATOR"
    case LParen => "LPAREN"
    case RParen => "RPAREN"
    case Comma => "COMMA"
    case Colon => "COLON"
    case Eof => "EOF"
  }

  datatype Token = Token(kind: TokenType, value: string, pos: nat)

  /** What every token the lexer hands out satisfies, and the parser relies
      on: number text has the decimal shape, a cell reference parses as an
      address, and no RANGE token is ever produced. */
  predicate WellFormed(t: Token)
  {
    && (t.kind == Number ==> IsDecimalText(t.value))
    && (t.kind == CellRef ==> ParseAddress(t.value).Ok?)
    && t.kind != Range
  }

  // ---------------------------------------------------------------------------
  // Scanning

  /** The first position at or after i that is not whitespace. */
  function SkipWs(s: string, i: nat): (j: nat)
    requires i <= |s|
    ensures i <= j <= |s|
    ensures forall k :: i <= k < j ==> IsWhitespace(s[k])
    ensures j < |s| ==> !IsWhitespace(s[j])
    decreases |s| - i
  {
    if i < |s| && IsWhitespace(s[i]) then SkipWs(s, i + 1) else i
  }

  /** The body of a string literal from i (just after the opening quote),
      appended to acc, and the position after the closing quote. `\"` stands
      for a quote; an unterminated literal runs to the end of the input. */
  function ScanString(s: string, i: nat, acc: string): (r: (string, nat))
    requires i <= |s|
    ensures i <= r.1 <= |s|
    decreases |s| - i
  {
    if i == |s| then (acc, i)
    else if s[i] == '"' then (acc, i + 1)
    else if s[i] == '\\' && i + 1 < |s| && s[i + 1] == '"' then ScanString(s, i + 2, acc + ['"'])
    else ScanString(s, i + 1, acc + [s[i]])
  }

  /** A character that continues a number: a digit, or the first '.'. */
  predicate NumberChar(c: char, dotSeen: bool) { IsDigit(c) || (c == '.' && !dotSeen) }

  /** The longest run of number characters from i, appended to acc. */
  function ScanNumber(s: string, i: nat, dotSeen: bool, acc: string): (r: (string, nat))
    requires i <= |s|
    ensures i <= r.1 <= |s|
    ensures r.0 == acc + s[i..r.1]
    ensures i < |s| && NumberChar(s[i], dotSeen) ==> i < r.1
    decreases |s| - i
  {
    if i < |s| && NumberChar(s[i], dotSeen) then
      var r := ScanNumber(s, i + 1, dotSeen || s[i] == '.', acc + [s[i]]);
      assert acc + s[i..r.1] == acc + [s[i]] + s[i + 1..r.1];
      r
    else (acc, i)
  }

  /** A number token has at most one '.', and the scan stops only where no
      further digit or first dot follows. */
  lemma {:induction false} ScanNumberShape(s: string, i: nat, dotSeen: bool, acc: string)
    requires i <= |s|
    requires IsDecimalText(acc) && (dotSeen <==> '.' in acc)
    ensures IsDecimalText(ScanNumber(s, i, dotSeen, acc).0)
    ensures var r := ScanNumber(s, i, dotSeen, acc);
            r.1 < |s| ==> !NumberChar(s[r.1], '.' in r.0)
    decreases |s| - i
  {
    if i < |s| && NumberChar(s[i], dotSeen) {
      var acc' := acc + [s[i]];
      assert '.' in acc' <==> dotSeen || s[i] == '.' by {
        assert forall k :: 0 <= k < |acc| ==> acc'[k] == acc[k];
      }
      assert IsDecimalText(acc') by {
        forall a, b | 0 <= a < b < |acc'| && acc'[a] == '.'
          ensures acc'[b] != '.'
        {
          if b == |acc| {
            assert acc[a] == '.';
          }
        }
      }
      ScanNumberShape(s, i + 1, dotSeen || s[i] == '.', acc');
    }
  }

  /** A character of an identifier after its first: `[A-Za-z0-9_$]`. */
  predicate IdentChar(c: char) { IsLetter(c) || IsDigit(c) || c == '_' || c == '$' }

  /** The longest run of identifier characters from i, appended to acc. */
  function ScanIdent(s: string, i: nat, acc: string): (r: (string, nat))
    requires i <= |s|
    ensures i <= r.1 <= |s|
    ensures r.0 == acc + s[i..r.1]
    ensures i < |s| && IdentChar(s[i]) ==> i < r.1
    ensures r.1 < |s| ==> !IdentChar(s[r.1])
    decreases |s| - i
  {
    if i < |s| && IdentChar(s[i]) then
      var r := ScanIdent(s, i + 1, acc + [s[i]]);
      assert acc + s[i..r.1] == acc + [s[i]] + s[i + 1..r.1];
      r
    else (acc, i)
  }

  predicate IsTwoCharOp(t: string) { t == "<=" || t == ">=" || t == "<>" }

  /** An identifier becomes an upper-cased cell reference when it has the
      address shape, else an upper-cased boolean or function name. */
  function Classify(ident: string, start: nat): (t: Token)
    ensures WellFormed(t)
  {
    var upper := ToUpper(ident);
    if ParseAddress(upper).Ok? then Token(CellRef, upper, start)
    else if upper == "TRUE" || upper == "FALSE" then Token(Boolean, upper, start)
    else Token(Function, upper, start)
  }

  /** The token that starts at i, where s[i] is not whitespace, and the
      position after it: first the one-character punctuation. */
  function LexToken(s: string, i: nat): (r: Result<(Token, nat)>)
    requires i < |s|
    ensures r.Ok? ==> i < r.value.1 <= |s|
    ensures r.Ok? ==> r.value.0.pos == i && r.value.0.kind != Eof && WellFormed(r.value.0)
  {
    var c := s[i];
    if c == '(' then Ok((Token(LParen, "(", i), i + 1))
    else if c == ')' then Ok((Token(RParen, ")", i), i + 1))
    else if c == ',' then Ok((Token(Comma, ",", i), i + 1))
    else if c == ':' then Ok((Token(Colon, ":", i), i + 1))
    else LexLiteral(s, i)
  }

  /** Then string and number literals. */
  function LexLiteral(s: string, i: nat): (r: Result<(Token, nat)>)
    requires i < |s|
    ensures r.Ok? ==> i < r.value.1 <= |s|
    ensures r.Ok? ==> r.value.0.pos == i && r.value.0.kind != Eof && WellFormed(r.value.0)
  {
    var c := s[i];
    if c == '"' then
      var (v, j) := ScanString(s, i + 1, "");
      Ok((Token(Str, v, i), j))
    else if IsDigit(c) || (c == '.' && i + 1 < |s| && IsDigit(s[i + 1])) then
      var (v, j) := ScanNumber(s, i, false, "");
      ScanNumberShape(s, i, false, "");
      Ok((Token(Number, v, i), j))
    else LexWord(s, i)
  }

  /** Then operators, two-character ones first, and identifiers; anything
      else is refused. */
  function LexWord(s: string, i: nat): (r: Result<(Token, nat)>)
    requires i < |s|
    ensures r.Ok? ==> i < r.value.1 <= |s|
    ensures r.Ok? ==> r.value.0.pos == i && r.value.0.kind != Eof && WellFormed(r.value.0)
  {
    var c := s[i];
    if i + 2 <= |s| && IsTwoCharOp(s[i..i + 2]) then Ok((Token(Operator, s[i..i + 2], i), i + 2))
    else if c in "+-*/^<>=" then Ok((Token(Operator, [c], i), i + 1))
    else if c == '$' || IsLetter(c) || c == '_' then
      var (ident, j) := ScanIdent(s, i, "");
      Ok((Classify(ident, i), j))
    else Err("Unexpected character '" + [c] + "' at " + NatToString(i))
  }

  /** The token nextToken (lib/parser.ts:40-148) reads from pos, when nothing
      is cached, and the position after it. */
  function LexAt(s: string, pos: nat): (r: Result<(Token, nat)>)
    requires pos <= |s|
    ensures r.Ok? ==> SkipWs(s, pos) <= r.value.1 <= |s|
    ensures r.Ok? ==> r.value.0.pos == SkipWs(s, pos) && WellFormed(r.value.0)
    ensures r.Ok? ==> (r.value.0.kind == Eof <==> SkipWs(s, pos) == |s|)
    ensures r.Ok? && r.value.0.kind == Eof ==> r.value.1 == |s|
    ensures r.Ok? && r.value.0.kind != Eof ==> SkipWs(s, pos) < r.value.1
  {
    var i := SkipWs(s, pos);
    if i == |s| then Ok((Token(Eof, "", i), i)) else LexToken(s, i)
  }

  // ---------------------------------------------------------------------------
  // Lexer state: the read position and the one-token lookahead.

  datatype LexState = LexState(pos: nat, cached: Option<Token>)

  /** nextToken (lib/parser.ts:34-149): a cached token is handed out and
      forgotten; otherwise the next token is scanned. A failed scan leaves the
      position after the skipped whitespace. */
  function NextSpec(s: string, st: LexState): (Result<Token>, LexState)
    requires st.pos <= |s|
  {
    if st.cached.Some? then (Ok(st.cached.value), LexState(st.pos, None))
    else match LexAt(s, st.pos)
      case Ok((t, j)) => (Ok(t), LexState(j, None))
      case Err(m) => (Err(m), LexState(SkipWs(s, st.pos), None))
  }

  /** peek (lib/parser.ts:151-154): scans into the cache when it is empty. */
  function PeekSpec(s: string, st: LexState): (Result<Token>, LexState)
    requires st.pos <= |s|
  {
    if st.cached.Some? then (Ok(st.cached.value), st)
    else
      var (r, st1) := NextSpec(s, st);
      if r.Ok? then (r, LexState(st1.pos, Some(r.value))) else (r, st1)
  }

  // ---------------------------------------------------------------------------
  // Properties of the scanner

  /** Whitespace before a token is skipped: the lexer answers EOF exactly when
      only whitespace is left, and it then stands at the end of the input,
      where it answers the same EOF again. */
  lemma EofAtEnd(s: string, pos: nat)
    requires pos <= |s|
    ensures (forall k :: pos <= k < |s| ==> IsWhitespace(s[k]))
            <==> LexAt(s, pos).Ok? && LexAt(s, pos).value.0.kind == Eof
    ensures LexAt(s, pos).Ok? && LexAt(s, pos).value.0.kind == Eof
            ==> LexAt(s, pos).value.1 == |s| && LexAt(s, |s|) == LexAt(s, pos)
  {
  }

  /** Once nextToken has answered EOF, every later call answers the same. */
  lemma EofRepeats(s: string, st: LexState)
    requires st.pos <= |s| && st.cached.None?
    requires NextSpec(s, st).0.Ok? && NextSpec(s, st).0.value.kind == Eof
    ensures NextSpec(s, st).1.pos <= |s|
    ensures NextSpec(s, NextSpec(s, st).1) == NextSpec(s, st)
  {
  }

  /** `<=`, `>=` and `<>` are read as one operator, before the
      one-character operators are tried. */
  lemma TwoCharOperator(s: string, pos: nat)
    requires pos <= |s|
    requires SkipWs(s, pos) + 2 <= |s| && IsTwoCharOp(s[SkipWs(s, pos)..SkipWs(s, pos) + 2])
    ensures var i := SkipWs(s, pos);
            LexAt(s, pos) == Ok((Token(Operator, s[i..i + 2], i), i + 2))
  {
  }

  /** A number token is exactly the text it consumed: digits with at most
      one '.', stopping only where no digit and no first '.' follows. */
  lemma NumberToken(s: string, pos: nat)
    requires pos <= |s|
    requires LexAt(s, pos).Ok? && LexAt(s, pos).value.0.kind == Number
    ensures var (t, j) := LexAt(s, pos).value;
            && t.value == s[t.pos..j]
            && IsDecimalText(t.value)
            && (j < |s| ==> !NumberChar(s[j], '.' in t.value))
  {
    var i := SkipWs(s, pos);
    NumberLexed(s, i);
    ScanNumberShape(s, i, false, "");
  }

  /** The only number tokens are the scanned number literals. */
  lemma NumberLexed(s: string, i: nat)
    requires i < |s|
    requires LexToken(s, i).Ok? && LexToken(s, i).value.0.kind == Number
    ensures LexToken(s, i) == Ok((Token(Number, ScanNumber(s, i, false, "").0, i), ScanNumber(s, i, false, "").1))
  {
    assert LexToken(s, i) == LexLiteral(s, i);
  }

  /** The characters a token can start with. */
  predicate StartsToken(s: string, i: nat)
    requires i < |s|
  {
    var c := s[i];
    || c in "(),:\"+-*/^<>=$_"
    || IsLetter(c) || IsDigit(c)
    || (c == '.' && i + 1 < |s| && IsDigit(s[i + 1]))
  }

  /** The lexer fails exactly at a character no token starts with, and says
      which character and where. */
  lemma UnexpectedCharacter(s: string, pos: nat)
    requires pos <= |s|
    ensures var i := SkipWs(s, pos);
            LexAt(s, pos).Err? <==> i < |s| && !StartsToken(s, i)
    ensures var i := SkipWs(s, pos);
            LexAt(s, pos).Err? ==> LexAt(s, pos).msg == "Unexpected character '" + [s[i]] + "' at " + NatToString(i)
  {
  }

  /** The text of a string literal whose body is v: each quote written `\"`. */
  function Escape(v: string): (e: string)
    ensures |e| >= |v|
  {
    if v == [] then [] else (if v[0] == '"' then ['\\', '"'] else [v[0]]) + Escape(v[1..])
  }

  /** Scanning an escaped body and its closing quote gives the body back. */
  lemma {:induction false} ScanEscaped(s: string, p: nat, v: string, acc: string)
    requires v == [] || v[|v| - 1] != '\\'
    requires p + |Escape(v)| + 1 <= |s|
    requires s[p..p + |Escape(v)| + 1] == Escape(v) + ['"']
    ensures ScanString(s, p, acc) == (acc + v, p + |Escape(v)| + 1)
    decreases |v|
  {
    var w := s[p..p + |Escape(v)| + 1];
    assert s[p] == w[0];
    if v == [] {
      assert acc + v == acc;
    } else {
      var e0: string := if v[0] == '"' then ['\\', '"'] else [v[0]];
      var rest := Escape(v[1..]);
      var q := p + |e0|;
      assert w == e0 + (rest + ['"']);
      assert s[q..q + |rest| + 1] == w[|e0|..];
      if v[0] == '"' {
        assert s[p + 1] == w[1];
        assert ScanString(s, p, acc) == ScanString(s, q, acc + [v[0]]);
      } else if v[0] == '\\' {
        assert rest[0] == (if v[1] == '"' then '\\' else v[1]);
        assert s[p + 1] == w[1];
        assert ScanString(s, p, acc) == ScanString(s, q, acc + [v[0]]);
      } else {
        assert ScanString(s, p, acc) == ScanString(s, q, acc + [v[0]]);
      }
      ScanEscaped(s, q, v[1..], acc + [v[0]]);
      assert acc + [v[0]] + v[1..] == acc + v;
    }
  }

  /** A string literal round-trips: quoting a body that does not end in a
      backslash, escaping its quotes, and lexing the result gives the body
      back and consumes the literal. */
  lemma StringLiteral(v: string, rest: string)
    requires v == [] || v[|v| - 1] != '\\'
    ensures var s := ['"'] + Escape(v) + ['"'] + rest;
            LexAt(s, 0) == Ok((Token(Str, v, 0), |Escape(v)| + 2))
  {
    var e := Escape(v);
    var s := ['"'] + e + ['"'] + rest;
    assert s[0] == '"';
    LexQuote(s);
    MiddleSlice(['"'], e + ['"'], rest);
    assert s == ['"'] + (e + ['"']) + rest;
    ScanEscaped(s, 1, v, "");
    assert "" + v == v;
  }

  lemma MiddleSlice(a: string, m: string, b: string)
    ensures (a + m + b)[|a|..|a| + |m|] == m
  {
  }

  /** Input that opens with a quote lexes as a string literal. */
  lemma LexQuote(s: string)
    requires |s| > 0 && s[0] == '"'
    ensures LexAt(s, 0) == Ok((Token(Str, ScanString(s, 1, "").0, 0), ScanString(s, 1, "").1))
  {
    assert SkipWs(s, 0) == 0;
    assert LexAt(s, 0) == LexLiteral(s, 0);
  }

  /** An identifier of the shape `$?letters$?digits`, letters in either case. */
  ghost predicate MatchesRefPattern(ident: string)
  {
    exists ac: bool, letters: string, ar: bool, digits: string
      :: IsLetterWord(letters) && IsDigitString(digits) && ident == Compose(ac, letters, ar, digits)
  }

  predicate IsLetterWord(s: string) { |s| > 0 && forall k :: 0 <= k < |s| ==> IsLetter(s[k]) }

  /** Upper-casing keeps `$` and digits and turns letters into A-Z. */
  lemma UpperCompose(ac: bool, letters: string, ar: bool, digits: string)
    requires IsLetterWord(letters) && IsDigitString(digits)
    ensures ToUpper(Compose(ac, letters, ar, digits)) == Compose(ac, ToUpper(letters), ar, digits)
    ensures IsColumnLetters(ToUpper(letters))
  {
    var a: string := if ac then "$" else "";
    var b: string := if ar then "$" else "";
    var s := Compose(ac, letters, ar, digits);
    var t := Compose(ac, ToUpper(letters), ar, digits);
    assert s == a + letters + b + digits;
    assert t == a + ToUpper(letters) + b + digits;
    forall k | 0 <= k < |s|
      ensures ToUpper(s)[k] == t[k]
    {
      if k < |a| {
      } else if k < |a| + |letters| {
        assert s[k] == letters[k - |a|];
      } else if k < |a| + |letters| + |b| {
      } else {
        assert s[k] == digits[k - |a| - |letters| - |b|];
      }
    }
  }

  /** What upper-casing a character cannot produce from anything else. */
  lemma UpperCharBack(c: char)
    ensures UpperChar(c) == '$' ==> c == '$'
    ensures IsDigit(UpperChar(c)) ==> c == UpperChar(c)
    ensures IsUpper(UpperChar(c)) ==> IsLetter(c)
  {
  }

  /** Upper-case letters come from letters. */
  lemma UpperLettersBack(ident: string, i: nat, j: nat)
    requires i <= j <= |ident|
    requires AllUpper(ToUpper(ident)[i..j])
    ensures IsLetterWord(ident[i..j]) || i == j
  {
    forall m | i <= m < j ensures IsLetter(ident[m]) {
      assert IsUpper(ToUpper(ident)[i..j][m - i]);
      UpperCharBack(ident[m]);
    }
  }

  /** Digits come from themselves. */
  lemma UpperDigitsBack(ident: string, k: nat)
    requires k <= |ident|
    requires AllDigits(ToUpper(ident)[k..])
    ensures ident[k..] == ToUpper(ident)[k..]
  {
    forall m | k <= m < |ident| ensures ident[m] == ToUpper(ident)[m] {
      assert IsDigit(ToUpper(ident)[k..][m - k]);
      UpperCharBack(ident[m]);
    }
  }

  /** An identifier whose upper-cased form has the address shape has the
      shape itself, with the same `$` markers and digits. */
  lemma UpperPatternBack(ident: string, ac: bool, letters: string, ar: bool, digits: string)
    requires IsColumnLetters(letters) && IsDigitString(digits)
    requires ToUpper(ident) == Compose(ac, letters, ar, digits)
    ensures MatchesRefPattern(ident)
  {
    var letters', digits' := UpperSplit(ident, ac, letters, ar, digits);
    assert IsLetterWord(letters') && IsDigitString(digits') && ident == Compose(ac, letters', ar, digits');
  }

  /** The letters and digits of an identifier whose upper-cased form is
      `Compose(ac, letters, ar, digits)`. */
  lemma UpperSplit(ident: string, ac: bool, letters: string, ar: bool, digits: string)
    returns (letters': string, digits': string)
    requires IsColumnLetters(letters) && IsDigitString(digits)
    requires ToUpper(ident) == Compose(ac, letters, ar, digits)
    ensures IsLetterWord(letters') && IsDigitString(digits') && ident == Compose(ac, letters', ar, digits')
  {
    var u := ToUpper(ident);
    ComposedBounds(ac, letters, ar, digits);
    var i := if ac then 1 else 0;
    var j := i + |letters|;
    var k := j + (if ar then 1 else 0);
    assert ac ==> u[0] == '$';
    DollarBack(ident, 0, ac);
    DollarBack(ident, j, ar);
    UpperLettersBack(ident, i, j);
    UpperDigitsBack(ident, k);
    letters', digits' := ident[i..j], ident[k..];
    FourPieces(ident, i, j, k);
  }

  /** A `$` of the upper-cased text was a `$` before. */
  lemma DollarBack(ident: string, p: nat, present: bool)
    requires p <= |ident|
    requires present ==> p < |ident| && ToUpper(ident)[p] == '$'
    ensures ident[p..p + (if present then 1 else 0)] == (if present then "$" else "")
  {
    if present {
      UpperCharBack(ident[p]);
    }
  }

  lemma FourPieces(s: string, i: nat, j: nat, k: nat)
    requires i <= j <= k <= |s|
    ensures s == s[..i] + s[i..j] + s[j..k] + s[k..]
  {
    assert s[..j] == s[..i] + s[i..j];
    assert s[..k] == s[..j] + s[j..k];
  }

  /** An upper-cased identifier has the address shape exactly when the
      identifier has it with letters of either case. */
  lemma UpperPattern(ident: string)
    ensures MatchesAddressPattern(ToUpper(ident)) <==> MatchesRefPattern(ident)
  {
    if MatchesRefPattern(ident) {
      var ac: bool, letters: string, ar: bool, digits: string
        :| IsLetterWord(letters) && IsDigitString(digits) && ident == Compose(ac, letters, ar, digits);
      UpperCompose(ac, letters, ar, digits);
    }
    if MatchesAddressPattern(ToUpper(ident)) {
      var ac: bool, letters: string, ar: bool, digits: string
        :| IsColumnLetters(letters) && IsDigitString(digits) && ToUpper(ident) == Compose(ac, letters, ar, digits);
      UpperPatternBack(ident, ac, letters, ar, digits);
    }
  }

  /** Identifier classification: an identifier is a cell reference exactly
      when it has the shape `$?letters$?digits` (letters of either case),
      otherwise a boolean exactly when it spells TRUE or FALSE in any case,
      otherwise a function name; the value is always upper-cased. */
  lemma ClassifyIdentifier(ident: string, start: nat)
    ensures Classify(ident, start).value == ToUpper(ident)
    ensures Classify(ident, start).kind == CellRef <==> MatchesRefPattern(ident)
    ensures Classify(ident, start).kind == Boolean
            <==> !MatchesRefPattern(ident) && (ToUpper(ident) == "TRUE" || ToUpper(ident) == "FALSE")
    ensures Classify(ident, start).kind in {CellRef, Boolean, Function}
  {
    ParseAddressMatches(ToUpper(ident));
    UpperPattern(ident);
  }

  /** Looking ahead does not consume: peek answers what nextToken would, and
      a nextToken after it answers the same and leaves the lexer where a
      single nextToken would. A second peek changes nothing. */
  lemma PeekThenNext(s: string, st: LexState)
    requires st.pos <= |s|
    ensures PeekSpec(s, st).0 == NextSpec(s, st).0
    ensures PeekSpec(s, st).1.pos <= |s|
    ensures PeekSpec(s, st).0.Ok? ==> NextSpec(s, PeekSpec(s, st).1) == NextSpec(s, st)
    ensures PeekSpec(s, st).0.Ok? ==> PeekSpec(s, PeekSpec(s, st).1) == PeekSpec(s, st)
  {
  }

  class Lexer {
    const input: string
    var pos: nat
    var cached: Option<Token>

    predicate Valid()
      reads this
    {
      pos <= |input|
    }

    function State(): LexState
      reads this
    {
      LexState(pos, cached)
    }

    constructor(input: string)
      ensures this.input == input && pos == 0 && cached == None
      ensures Valid()
    {
      this.input := input;
      pos := 0;
      cached := None;
    }

    method NextToken() returns (r: Result<Token>)
      requires Valid()
      modifies this
      ensures Valid()
      ensures (r, State()) == NextSpec(input, old(State()))
    {
      if cached.Some? {
        r := Ok(cached.value);
        cached := None;
        return;
      }
      var s := input;
      while pos < |s| && IsWhitespace(s[pos])
        invariant pos <= |s| && cached == None
        invariant SkipWs(s, pos) == SkipWs(s, old(pos))
        decreases |s| - pos
      {
        pos := pos + 1;
      }
      if pos >= |s| {
        r := Ok(Token(Eof, "", pos));
        return;
      }
      r := ReadToken();
    }

    /** The scan of one token at a non-whitespace character
        (lib/parser.ts:45-148). */
    method ReadToken() returns (r: Result<Token>)
      requires Valid() && pos < |input|
      modifies this
      ensures Valid() && cached == old(cached)
      ensures LexToken(input, old(pos)).Ok? ==> r == Ok(LexToken(input, old(pos)).value.0)
      ensures LexToken(input, old(pos)).Ok? ==> pos == LexToken(input, old(pos)).value.1
      ensures LexToken(input, old(pos)).Err? ==> r == Err(LexToken(input, old(pos)).msg) && pos == old(pos)
    {
      var s := input;
      var start := pos;
      var c := s[pos];
      if c == '(' {
        pos := pos + 1;
        r := Ok(Token(LParen, "(", start));
      } else if c == ')' {
        pos := pos + 1;
        r := Ok(Token(RParen, ")", start));
      } else if c == ',' {
        pos := pos + 1;
        r := Ok(Token(Comma, ",", start));
      } else if c == ':' {
        pos := pos + 1;
        r := Ok(Token(Colon, ":", start));
      } else if c == '"' {
        var value := ReadString();
        r := Ok(Token(Str, value, start));
      } else if IsDigit(c) || (c == '.' && pos + 1 < |s| && IsDigit(s[pos + 1])) {
        var num := ReadNumber();
        r := Ok(Token(Number, num, start));
      } else if pos + 2 <= |s| && IsTwoCharOp(s[pos..pos + 2]) {
        var two := s[pos..pos + 2];
        pos := pos + 2;
        r := Ok(Token(Operator, two, start));
      } else if c in "+-*/^<>=" {
        // The source also lists ' ' here, which cannot occur after whitespace is skipped.
        pos := pos + 1;
        r := Ok(Token(Operator, [c], start));
      } else if c == '$' || IsLetter(c) || c == '_' {
        var ident := ReadIdent();
        r := Ok(Classify(ident, start));
      } else {
        r := Err("Unexpected character '" + [c] + "' at " + NatToString(pos));
      }
    }

    /** The string-literal loop of nextToken (lib/parser.ts:67-86). */
    method ReadString() returns (value: string)
      requires Valid() && pos < |input| && input[pos] == '"'
      modifies this
      ensures Valid() && cached == old(cached)
      ensures (value, pos) == ScanString(input, old(pos) + 1, "")
    {
      var s := input;
      pos := pos + 1;
      value := "";
      while pos < |s| && s[pos] != '"'
        invariant pos <= |s| && cached == old(cached)
        invariant ScanString(s, pos, value) == ScanString(s, old(pos) + 1, "")
        decreases |s| - pos
      {
        var c := s[pos];
        if c == '\\' && pos + 1 < |s| && s[pos + 1] == '"' {
          value := value + ['"'];
          pos := pos + 2;
        } else {
          value := value + [c];
          pos := pos + 1;
        }
      }
      if pos < |s| {
        pos := pos + 1;
      }
    }

    /** The number loop of nextToken (lib/parser.ts:89-110). */
    method ReadNumber() returns (num: string)
      requires Valid()
      modifies this
      ensures Valid() && cached == old(cached)
      ensures (num, pos) == ScanNumber(input, old(pos), false, "")
    {
      var s := input;
      num := "";
      var dotSeen := false;
      while pos < |s| && NumberChar(s[pos], dotSeen)
        invariant pos <= |s| && cached == old(cached)
        invariant ScanNumber(s, pos, dotSeen, num) == ScanNumber(s, old(pos), false, "")
        decreases |s| - pos
      {
        var c := s[pos];
        if c == '.' {
          dotSeen := true;
        }
        num := num + [c];
        pos := pos + 1;
      }
    }

    /** The identifier loop of nextToken (lib/parser.ts:125-135). */
    method ReadIdent() returns (ident: string)
      requires Valid()
      modifies this
      ensures Valid() && cached == old(cached)
      ensures (ident, pos) == ScanIdent(input, old(pos), "")
    {
      var s := input;
      ident := "";
      while pos < |s| && IdentChar(s[pos])
        invariant pos <= |s| && cached == old(cached)
        invariant ScanIdent(s, pos, ident) == ScanIdent(s, old(pos), "")
        decreases |s| - pos
      {
        ident := ident + [s[pos]];
        pos := pos + 1;
      }
    }

    method Peek() returns (r: Result<Token>)
      requires Valid()
      modifies this
      ensures Valid()
      ensures (r, State()) == PeekSpec(input, old(State()))
    {
      if cached.None? {
        var t := NextToken();
        if t.Err? {
          return t;
        }
        cached := Some(t.value);
      }
      r := Ok(cached.value);
    }
  }
}
