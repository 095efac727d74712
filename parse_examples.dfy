/** Worked inputs for the parser of lib/parser.ts: whole formulas lexed and
    parsed through the spec functions, showing how operators group. */
module ParseExamples {
  import opened Wrappers
  import opened Text
  import opened Lexing
  import opened Parsing

  /** A lone digit lexes as a one-character number. */
  lemma LexDigit(s: string, i: nat)
    requires i < |s| && IsDigit(s[i])
    requires i + 1 < |s| ==> !IsDigit(s[i + 1]) && s[i + 1] != '.'
    ensures LexAt(s, i) == Ok((Token(Number, [s[i]], i), i + 1))
  {
    assert SkipWs(s, i) == i;
    assert ScanNumber(s, i + 1, false, [s[i]]) == ([s[i]], i + 1);
    assert ScanNumber(s, i, false, "") == ([s[i]], i + 1) by {
      assert "" + [s[i]] == [s[i]];
    }
    assert LexToken(s, i) == LexLiteral(s, i);
  }

  /** An arithmetic operator character lexes as a one-character operator. */
  lemma LexSingleOp(s: string, i: nat)
    requires i < |s| && s[i] in "+-*/^"
    ensures LexAt(s, i) == Ok((Token(Operator, [s[i]], i), i + 1))
  {
    assert SkipWs(s, i) == i;
    assert LexToken(s, i) == LexLiteral(s, i);
    assert LexLiteral(s, i) == LexWord(s, i);
    if i + 2 <= |s| {
      assert s[i..i + 2][0] == s[i];
    }
  }

  /** A one-digit number token has the digit's value. */
  lemma DigitValue(d: char)
    requires IsDigit(d)
    ensures IsDecimalText([d]) && DecimalValue([d]) == (d as int - '0' as int) as real
  {
    assert IndexOf([d], '.') == 1;
    assert [d][..1] == [d];
    assert DigitsValue([d]) == DigitsValue([]) * 10 + (d as int - '0' as int);
  }

  /** A number token is a primary on its own. */
  lemma PrimaryNumber(s: string, st: PState)
    requires Fits(s, st) && st.cur.kind == Number && Advanced(s, st).Ok?
    ensures Primary(s, st) == Ok((NumberLit(DecimalValue(st.cur.value)), Advanced(s, st).value))
  {
  }

  /** A primary followed by no operator is the whole expression. */
  lemma Atom(s: string, st: PState, minPrec: int, a: Ast, st1: PState)
    requires Fits(s, st) && Primary(s, st) == Ok((a, st1))
    requires st1.cur.kind != Operator
    ensures Expression(s, st, minPrec) == Ok((a, st1))
  {
  }

  /** One round of the operator loop: the operator and its right operand
      extend the tree on the left. */
  lemma OperatorRound(s: string, left: Ast, st: PState, minPrec: int, op: BinOp, st1: PState, b: Ast, st2: PState)
    requires Fits(s, st) && st.cur.kind == Operator && OpOf(st.cur.value) == Some(op) && Precedence(op) >= minPrec
    requires Advanced(s, st) == Ok(st1)
    requires Expression(s, st1, RightMin(op)) == Ok((b, st2))
    ensures Continue(s, left, st, minPrec) == Continue(s, Binary(op, left, b), st2, minPrec)
  {
    ContinueStep(s, left, st, minPrec, op);
  }

  /** A first token and an expression that reaches the end make the parse. */
  lemma Whole(s: string, tok: Token, j: nat, t: Ast, st: PState)
    requires LexAt(s, 0) == Ok((tok, j)) && tok.kind != Eof
    requires Expression(s, PState(j, tok), 0) == Ok((t, st)) && st.cur.kind == Eof
    ensures ParseText(s) == Ok(t)
  {
  }

  /** The tokens of three digits joined by two operators, such as "2-3-4". */
  lemma DigitOpTokens(s: string, a: char, o1: char, b: char, o2: char, c: char)
    requires s == [a, o1, b, o2, c]
    requires IsDigit(a) && IsDigit(b) && IsDigit(c) && o1 in "+-*/^" && o2 in "+-*/^"
    ensures LexAt(s, 0) == Ok((Token(Number, [a], 0), 1))
    ensures LexAt(s, 1) == Ok((Token(Operator, [o1], 1), 2))
    ensures LexAt(s, 2) == Ok((Token(Number, [b], 2), 3))
    ensures LexAt(s, 3) == Ok((Token(Operator, [o2], 3), 4))
    ensures LexAt(s, 4) == Ok((Token(Number, [c], 4), 5))
    ensures LexAt(s, 5) == Ok((Token(Eof, "", 5), 5))
  {
    LexDigit(s, 0); LexSingleOp(s, 1); LexDigit(s, 2); LexSingleOp(s, 3); LexDigit(s, 4);
    EofAtEnd(s, 5);
  }


  /** An expression is its primary followed by the operator loop. */
  lemma ExpressionStart(s: string, st: PState, minPrec: int, a: Ast, st1: PState)
    requires Fits(s, st) && Primary(s, st) == Ok((a, st1))
    ensures Expression(s, st, minPrec) == Continue(s, a, st1, minPrec)
  {
  }

  /** Three one-digit numbers joined by o1 then o2, where o2 binds no
      tighter than o1 (and is not a second `^`): the first pair groups
      first, a o1 b o2 c being (a o1 b) o2 c. */
  lemma FirstPairGroups(s: string, a: char, o1: char, b: char, o2: char, c: char, op1: BinOp, op2: BinOp)
    requires s == [a, o1, b, o2, c]
    requires IsDigit(a) && IsDigit(b) && IsDigit(c) && o1 in "+-*/^" && o2 in "+-*/^"
    requires OpOf([o1]) == Some(op1) && OpOf([o2]) == Some(op2) && Precedence(op2) < RightMin(op1)
    ensures ParseText(s) == Ok(Binary(op2, Binary(op1, NumberLit(DecimalValue([a])), NumberLit(DecimalValue([b]))),
                                      NumberLit(DecimalValue([c]))))
  {
    DigitOpTokens(s, a, o1, b, o2, c);
    DigitValue(a); DigitValue(b); DigitValue(c);
    var s0 := PState(1, Token(Number, [a], 0));
    var s1 := PState(2, Token(Operator, [o1], 1));
    var s2 := PState(3, Token(Number, [b], 2));
    var s3 := PState(4, Token(Operator, [o2], 3));
    var s4 := PState(5, Token(Number, [c], 4));
    var s5 := PState(5, Token(Eof, "", 5));
    var x, y, z := NumberLit(DecimalValue([a])), NumberLit(DecimalValue([b])), NumberLit(DecimalValue([c]));
    PrimaryNumber(s, s0);
    PrimaryNumber(s, s2);
    PrimaryNumber(s, s4);
    GroupsLeft(s, s0, s1, s2, s3, x, y, op1, op2, 0);
    Atom(s, s4, RightMin(op2), z, s5);
    var t := Binary(op2, Binary(op1, x, y), z);
    OperatorRound(s, Binary(op1, x, y), s3, 0, op2, s4, z, s5);
    ContinueStops(s, t, s5, 0);
    Whole(s, s0.cur, 1, t, s5);
  }

  /** Three one-digit numbers joined by o1 then o2, where o2 binds tighter
      than o1 (or both are `^`): the second pair groups first, a o1 b o2 c
      being a o1 (b o2 c). */
  lemma SecondPairGroups(s: string, a: char, o1: char, b: char, o2: char, c: char, op1: BinOp, op2: BinOp)
    requires s == [a, o1, b, o2, c]
    requires IsDigit(a) && IsDigit(b) && IsDigit(c) && o1 in "+-*/^" && o2 in "+-*/^"
    requires OpOf([o1]) == Some(op1) && OpOf([o2]) == Some(op2) && Precedence(op2) >= RightMin(op1)
    ensures ParseText(s) == Ok(Binary(op1, NumberLit(DecimalValue([a])),
                                      Binary(op2, NumberLit(DecimalValue([b])), NumberLit(DecimalValue([c])))))
  {
    DigitOpTokens(s, a, o1, b, o2, c);
    DigitValue(a); DigitValue(b); DigitValue(c);
    var s0 := PState(1, Token(Number, [a], 0));
    var s1 := PState(2, Token(Operator, [o1], 1));
    var s2 := PState(3, Token(Number, [b], 2));
    var s3 := PState(4, Token(Operator, [o2], 3));
    var s4 := PState(5, Token(Number, [c], 4));
    var s5 := PState(5, Token(Eof, "", 5));
    var x, y, z := NumberLit(DecimalValue([a])), NumberLit(DecimalValue([b])), NumberLit(DecimalValue([c]));
    PrimaryNumber(s, s0);
    PrimaryNumber(s, s2);
    PrimaryNumber(s, s4);
    var inner := Binary(op2, y, z);
    var t := Binary(op1, x, inner);
    Atom(s, s4, RightMin(op2), z, s5);
    OperatorRound(s, y, s3, RightMin(op1), op2, s4, z, s5);
    ContinueStops(s, inner, s5, RightMin(op1));
    ExpressionStart(s, s2, RightMin(op1), y, s3);
    assert Expression(s, s2, RightMin(op1)) == Ok((inner, s5));
    OperatorRound(s, x, s1, 0, op1, s2, inner, s5);
    ContinueStops(s, t, s5, 0);
    ExpressionStart(s, s0, 0, x, s1);
    Whole(s, s0.cur, 1, t, s5);
  }

  /** Subtraction groups to the left: 2-3-4 is (2-3)-4. */
  lemma LeftAssociativeSubtraction(s: string)
    requires s == "2-3-4"
    ensures ParseText(s) == Ok(Binary(Sub, Binary(Sub, NumberLit(2.0), NumberLit(3.0)), NumberLit(4.0)))
  {
    FirstPairGroups(s, '2', '-', '3', '-', '4', Sub, Sub);
    DigitValue('2'); DigitValue('3'); DigitValue('4');
  }

  /** Exponentiation groups to the right: 2^3^2 is 2^(3^2). */
  lemma RightAssociativePower(s: string)
    requires s == "2^3^2"
    ensures ParseText(s) == Ok(Binary(Pow, NumberLit(2.0), Binary(Pow, NumberLit(3.0), NumberLit(2.0))))
  {
    SecondPairGroups(s, '2', '^', '3', '^', '2', Pow, Pow);
    DigitValue('2'); DigitValue('3');
  }

  /** Multiplication binds tighter than addition: 2+3*4 is 2+(3*4). */
  lemma ProductBeforeSum(s: string)
    requires s == "2+3*4"
    ensures ParseText(s) == Ok(Binary(Add, NumberLit(2.0), Binary(Mul, NumberLit(3.0), NumberLit(4.0))))
  {
    SecondPairGroups(s, '2', '+', '3', '*', '4', Add, Mul);
    DigitValue('2'); DigitValue('3'); DigitValue('4');
  }

  /** The tokens of an operator, a digit, an operator and a digit, such
      as "-2^2". */
  lemma OpDigitTokens(s: string, o1: char, a: char, o2: char, b: char)
    requires s == [o1, a, o2, b]
    requires IsDigit(a) && IsDigit(b) && o1 in "+-*/^" && o2 in "+-*/^"
    ensures LexAt(s, 0) == Ok((Token(Operator, [o1], 0), 1))
    ensures LexAt(s, 1) == Ok((Token(Number, [a], 1), 2))
    ensures LexAt(s, 2) == Ok((Token(Operator, [o2], 2), 3))
    ensures LexAt(s, 3) == Ok((Token(Number, [b], 3), 4))
    ensures LexAt(s, 4) == Ok((Token(Eof, "", 4), 4))
  {
    LexSingleOp(s, 0); LexDigit(s, 1); LexSingleOp(s, 2); LexDigit(s, 3);
    EofAtEnd(s, 4);
  }

  /** Unary minus binds tighter than `^`: -2^2 is (-2)^2. */
  lemma NegatedBase(s: string)
    requires s == "-2^2"
    ensures ParseText(s) == Ok(Binary(Pow, Negate(NumberLit(2.0)), NumberLit(2.0)))
  {
    OpDigitTokens(s, '-', '2', '^', '2');
    DigitValue('2');
    var s0 := PState(1, Token(Operator, "-", 0));
    var s1 := PState(2, Token(Number, "2", 1));
    var s2 := PState(3, Token(Operator, "^", 2));
    var s3 := PState(4, Token(Number, "2", 3));
    var s4 := PState(4, Token(Eof, "", 4));
    PrimaryNumber(s, s1);
    PrimaryNumber(s, s3);
    var t := Binary(Pow, Negate(NumberLit(2.0)), NumberLit(2.0));
    assert Advanced(s, s0) == Ok(s1);
    MinusBindsTightest(s, s0, 0);
    assert Expression(s, s0, 0) == Continue(s, Negate(NumberLit(2.0)), s2, 0);
    Atom(s, s3, RightMin(Pow), NumberLit(2.0), s4);
    OperatorRound(s, Negate(NumberLit(2.0)), s2, 0, Pow, s3, NumberLit(2.0), s4);
    ContinueStops(s, t, s4, 0);
    Whole(s, s0.cur, 1, t, s4);
  }

  /** A formula cannot start with `+`: only `-` is a prefix operator. */
  lemma LeadingPlus(s: string)
    requires s == "+1"
    ensures ParseText(s) == Err("Unexpected operator +")
  {
    LexSingleOp(s, 0);
    LexDigit(s, 1);
    var s0 := PState(1, Token(Operator, "+", 0));
    assert Advanced(s, s0).Ok?;
    assert Primary(s, s0) == Err("Unexpected operator +");
  }
}
