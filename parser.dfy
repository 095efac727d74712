/** The precedence-climbing parser of lib/parser.ts. The pure functions
    below say what each parsing routine returns from a state (the lexer's
    position and the current token); the `Parser` class runs the same
    routines over a `Lexer` and is proved to agree with them. */
module Parsing {
  import opened Wrappers
  import opened Text
  import opened Address
  import opened Lexing

  datatype BinOp = Add | Sub | Mul | Div | Pow | Lt | Le | Gt | Ge | Eq | Ne

  /** The operator an operator token spells, if it is in the table. */
  function OpOf(v: string): (op: Option<BinOp>)
    ensures op.Some? ==> OpText(op.value) == v
  {
    if v == "+" then Some(Add) else if v == "-" then Some(Sub)
    else if v == "*" then Some(Mul) else if v == "/" then Some(Div)
    else if v == "^" then Some(Pow)
    else if v == "<" then Some(Lt) else if v == "<=" then Some(Le)
    else if v == ">" then Some(Gt) else if v == ">=" then Some(Ge)
    else if v == "=" then Some(Eq) else if v == "<>" then Some(Ne)
    else None
  }

  function OpText(op: BinOp): string
  {
    match op
    case Add => "+" case Sub => "-" case Mul => "*" case Div => "/" case Pow => "^"
    case Lt => "<" case Le => "<=" case Gt => ">" case Ge => ">=" case Eq => "=" case Ne => "<>"
  }

  /** PRECEDENCE (lib/parser.ts:291-303). */
  function Precedence(op: BinOp): nat
  {
    match op
    case Eq | Ne => 1
    case Lt | Le | Gt | Ge => 2
    case Add | Sub => 3
    case Mul | Div => 4
    case Pow => 5
  }

  /** The least precedence the right operand of op may continue with: one
      above op's own, or op's own for `^`. */
  function RightMin(op: BinOp): nat
  {
    if op == Pow then Precedence(op) else Precedence(op) + 1
  }

  /** Every operator token the lexer produces is in the precedence table,
      so the parser's operator loop never stops at an unknown operator. */
  lemma OperatorsHavePrecedence(s: string, pos: nat)
    requires pos <= |s|
    requires LexAt(s, pos).Ok? && LexAt(s, pos).value.0.kind == Operator
    ensures OpOf(LexAt(s, pos).value.0.value).Some?
  {
  }

  /** FormulaAst: the tree the parser builds. */
  datatype Ast =
    | NumberLit(n: real)
    | StringLit(s: string)
    | BooleanLit(b: bool)
    | Ref(address: string, absoluteCol: bool, absoluteRow: bool)
    | RangeRef(start: string, end: string)
    | Call(name: string, args: seq<Ast>)
    | Binary(op: BinOp, left: Ast, right: Ast)
    | Negate(operand: Ast)

  // ---------------------------------------------------------------------------
  // Parser state

  /** The lexer's position and the parser's current token. */
  datatype PState = PState(pos: nat, cur: Token)

  /** A state the parser can be in: within the input, holding a token the
      lexer produced, and at the end of the input once that token is EOF. */
  predicate Fits(s: string, st: PState)
  {
    st.pos <= |s| && WellFormed(st.cur) && (st.cur.kind == Eof ==> st.pos == |s|)
  }

  /** What is left to read: the unread text, and the current token unless
      it is EOF. Every advance past a non-EOF token lowers it. */
  function Measure(s: string, st: PState): nat
    requires st.pos <= |s|
  {
    |s| - st.pos + (if st.cur.kind == Eof then 0 else 1)
  }

  /** advance (lib/parser.ts:278-280). */
  function Advanced(s: string, st: PState): (r: Result<PState>)
    requires Fits(s, st)
    ensures r.Ok? ==> Fits(s, r.value)
    ensures r.Ok? && st.cur.kind != Eof ==> Measure(s, r.value) < Measure(s, st)
  {
    var next :- LexAt(s, st.pos);
    Ok(PState(next.1, next.0))
  }

  /** expect (lib/parser.ts:282-287). */
  function Expected(s: string, st: PState, kind: TokenType): (r: Result<PState>)
    requires Fits(s, st)
    ensures r.Ok? ==> st.cur.kind == kind && r == Advanced(s, st)
    ensures st.cur.kind != kind ==> r == Err("Expected " + TypeName(kind) + " but got " + TypeName(st.cur.kind))
  {
    if st.cur.kind != kind then Err("Expected " + TypeName(kind) + " but got " + TypeName(st.cur.kind))
    else Advanced(s, st)
  }

  /** parseExpression (lib/parser.ts:180-193): a primary, then the operators
      of at least the given precedence. */
  function Expression(s: string, st: PState, minPrec: int): (r: Result<(Ast, PState)>)
    requires Fits(s, st)
    ensures r.Ok? ==> Fits(s, r.value.1) && Measure(s, r.value.1) < Measure(s, st)
    decreases Measure(s, st), 2
  {
    var first :- Primary(s, st);
    Continue(s, first.0, first.1, minPrec)
  }

  /** The operator loop of parseExpression, with the tree built so far. An
      operator binds its right operand at one above its own precedence, or
      at its own for `^`, so `^` groups to the right and the others to the
      left. */
  function Continue(s: string, left: Ast, st: PState, minPrec: int): (r: Result<(Ast, PState)>)
    requires Fits(s, st)
    ensures r.Ok? ==> Fits(s, r.value.1) && Measure(s, r.value.1) <= Measure(s, st)
    decreases Measure(s, st), 0
  {
    if st.cur.kind != Operator then Ok((left, st))
    else match OpOf(st.cur.value)
      case None => Ok((left, st))
      case Some(op) =>
        if Precedence(op) < minPrec then Ok((left, st))
        else
          var st1 :- Advanced(s, st);
          var right :- Expression(s, st1, RightMin(op));
          Continue(s, Binary(op, left, right.0), right.1, minPrec)
  }

  /** parsePrimary (lib/parser.ts:195-259). */
  function Primary(s: string, st: PState): (r: Result<(Ast, PState)>)
    requires Fits(s, st)
    ensures r.Ok? ==> Fits(s, r.value.1) && Measure(s, r.value.1) < Measure(s, st)
    decreases Measure(s, st), 1
  {
    var tok := st.cur;
    match tok.kind
    case Number =>
      var st1 :- Advanced(s, st);
      Ok((NumberLit(DecimalValue(tok.value)), st1))
    case Str =>
      var st1 :- Advanced(s, st);
      Ok((StringLit(tok.value), st1))
    case Function =>
      var st1 :- Advanced(s, st);
      if st1.cur.kind == LParen then FunctionCall(s, tok.value, st1)
      else Err("Unexpected identifier " + tok.value)
    case Boolean =>
      var st1 :- Advanced(s, st);
      Ok((BooleanLit(ToUpper(tok.value) == "TRUE"), st1))
    case CellRef =>
      var st1 :- Advanced(s, st);
      if st1.cur.kind == Colon then
        var st2 :- Advanced(s, st1);
        if st2.cur.kind != CellRef then Err("Range end must be cell reference")
        else
          var st3 :- Advanced(s, st2);
          Ok((RangeRef(tok.value, st2.cur.value), st3))
      else
        var p := ParseAddress(tok.value).value;
        Ok((Ref(tok.value, p.absoluteCol, p.absoluteRow), st1))
    case LParen =>
      var st1 :- Advanced(s, st);
      var inner :- Expression(s, st1, 0);
      if inner.1.cur.kind != RParen then Err("Missing )")
      else
        var st3 :- Advanced(s, inner.1);
        Ok((inner.0, st3))
    case Operator =>
      if tok.value == "-" then
        var st1 :- Advanced(s, st);
        var operand :- Primary(s, st1);
        Ok((Negate(operand.0), operand.1))
      else Err("Unexpected operator " + tok.value)
    case _ => Err("Unexpected token " + TypeName(tok.kind))
  }

  /** parseFunction (lib/parser.ts:261-276), from the `(` after the name. */
  function FunctionCall(s: string, name: string, st: PState): (r: Result<(Ast, PState)>)
    requires Fits(s, st)
    ensures r.Ok? ==> Fits(s, r.value.1) && Measure(s, r.value.1) < Measure(s, st)
    ensures r.Ok? ==> r.value.0.Call? && r.value.0.name == name
    decreases Measure(s, st), 0
  {
    var st1 :- Expected(s, st, LParen);
    if st1.cur.kind != RParen then
      var args :- Arguments(s, st1, []);
      var st2 :- Expected(s, args.1, RParen);
      Ok((Call(name, args.0), st2))
    else
      var st2 :- Expected(s, st1, RParen);
      Ok((Call(name, []), st2))
  }

  /** The argument loop of parseFunction: expressions separated by commas,
      appended to those read so far. */
  function Arguments(s: string, st: PState, acc: seq<Ast>): (r: Result<(seq<Ast>, PState)>)
    requires Fits(s, st)
    ensures r.Ok? ==> Fits(s, r.value.1) && Measure(s, r.value.1) < Measure(s, st)
    decreases Measure(s, st), 3
  {
    var arg :- Expression(s, st, 0);
    if arg.1.cur.kind == Comma then
      var st2 :- Advanced(s, arg.1);
      Arguments(s, st2, acc + [arg.0])
    else Ok((acc + [arg.0], arg.1))
  }

  /** parse (lib/parser.ts:167-178): an empty formula is the number 0, and a
      complete expression must end the input. */
  function Formula(s: string, st: PState): Result<Ast>
    requires Fits(s, st)
  {
    if st.cur.kind == Eof then Ok(NumberLit(0.0))
    else
      var e :- Expression(s, st, 0);
      if e.1.cur.kind != Eof then Err("Unexpected trailing input") else Ok(e.0)
  }

  /** parseFormula (lib/parser.ts:306-309), the constructor's first
      nextToken included. */
  function ParseText(s: string): Result<Ast>
  {
    var first :- LexAt(s, 0);
    Formula(s, PState(first.1, first.0))
  }

  // ---------------------------------------------------------------------------
  // Properties of the grammar

  /** Left association and precedence: after `a o1 b`, an operator o2 that
      binds no tighter than o1 (and is not a second `^` after a `^`) finds
      `a o1 b` as its left operand. */
  lemma GroupsLeft(s: string, s0: PState, s1: PState, s2: PState, s3: PState,
                   a: Ast, b: Ast, o1: BinOp, o2: BinOp, minPrec: int)
    requires Fits(s, s0)
    requires Primary(s, s0) == Ok((a, s1))
    requires s1.cur.kind == Operator && OpOf(s1.cur.value) == Some(o1) && Precedence(o1) >= minPrec
    requires Advanced(s, s1) == Ok(s2)
    requires Primary(s, s2) == Ok((b, s3))
    requires s3.cur.kind == Operator && OpOf(s3.cur.value) == Some(o2) && Precedence(o2) < RightMin(o1)
    ensures Expression(s, s0, minPrec) == Continue(s, Binary(o1, a, b), s3, minPrec)
  {
    assert Expression(s, s2, RightMin(o1)) == Ok((b, s3));
  }

  /** sub lies on the left spine of t: t is sub with operators and right
      operands wrapped around it. */
  predicate OnLeftSpine(t: Ast, sub: Ast)
  {
    t == sub || (t.Binary? && OnLeftSpine(t.left, sub))
  }

  lemma {:induction false} SpineStep(t: Ast, op: BinOp, l: Ast, y: Ast)
    requires OnLeftSpine(t, Binary(op, l, y))
    ensures OnLeftSpine(t, l)
  {
    if t != Binary(op, l, y) {
      SpineStep(t.left, op, l, y);
    }
  }

  /** The operator loop only wraps the tree it starts from. */
  lemma {:induction false} ContinueExtends(s: string, left: Ast, st: PState, minPrec: int)
    requires Fits(s, st)
    requires Continue(s, left, st, minPrec).Ok?
    ensures OnLeftSpine(Continue(s, left, st, minPrec).value.0, left)
    decreases Measure(s, st)
  {
    if st.cur.kind == Operator && OpOf(st.cur.value).Some? && Precedence(OpOf(st.cur.value).value) >= minPrec {
      var op := OpOf(st.cur.value).value;
      var st1 := Advanced(s, st).value;
      var right := Expression(s, st1, RightMin(op)).value;
      assert Continue(s, left, st, minPrec) == Continue(s, Binary(op, left, right.0), right.1, minPrec);
      ContinueExtends(s, Binary(op, left, right.0), right.1, minPrec);
      SpineStep(Continue(s, left, st, minPrec).value.0, op, left, right.0);
    }
  }

  /** Precedence and right association: after `a o1 b`, an operator o2 that
      binds tighter than o1, or a `^` after a `^`, belongs to the right
      operand of o1: that operand is parsed from b onwards and holds
      `b o2 d` on its left spine. */
  lemma GroupsRight(s: string, s0: PState, s1: PState, s2: PState, s3: PState,
                    a: Ast, b: Ast, o1: BinOp, o2: BinOp, minPrec: int)
    requires Fits(s, s0)
    requires Primary(s, s0) == Ok((a, s1))
    requires s1.cur.kind == Operator && OpOf(s1.cur.value) == Some(o1) && Precedence(o1) >= minPrec
    requires Advanced(s, s1) == Ok(s2)
    requires Primary(s, s2) == Ok((b, s3))
    requires s3.cur.kind == Operator && OpOf(s3.cur.value) == Some(o2) && Precedence(o2) >= RightMin(o1)
    requires Continue(s, b, s3, RightMin(o1)).Ok?
    ensures var c := Continue(s, b, s3, RightMin(o1)).value;
            Expression(s, s0, minPrec) == Continue(s, Binary(o1, a, c.0), c.1, minPrec)
    ensures exists d :: OnLeftSpine(Continue(s, b, s3, RightMin(o1)).value.0, Binary(o2, b, d))
  {
    var c := Continue(s, b, s3, RightMin(o1));
    assert Expression(s, s2, RightMin(o1)) == c;
    assert Continue(s, a, s1, minPrec) == Continue(s, Binary(o1, a, c.value.0), c.value.1, minPrec);
    var s5 := Advanced(s, s3).value;
    var d := Expression(s, s5, RightMin(o2)).value;
    assert c == Continue(s, Binary(o2, b, d.0), d.1, RightMin(o1));
    ContinueExtends(s, Binary(o2, b, d.0), d.1, RightMin(o1));
  }

  /** Unary minus takes only the primary after it: the operator loop then
      sees the negation as its left operand, so `-a ^ b` is `(-a) ^ b`. */
  lemma MinusBindsTightest(s: string, s0: PState, minPrec: int)
    requires Fits(s, s0)
    requires s0.cur.kind == Operator && s0.cur.value == "-"
    requires Advanced(s, s0).Ok?
    requires Primary(s, Advanced(s, s0).value).Ok?
    ensures var (operand, s2) := Primary(s, Advanced(s, s0).value).value;
            Expression(s, s0, minPrec) == Continue(s, Negate(operand), s2, minPrec)
  {
  }

  /** A reference records the `$` markers the address codec reads from its
      text. */
  lemma RefFlags(s: string, st: PState)
    requires Fits(s, st) && st.cur.kind == CellRef
    requires Advanced(s, st).Ok? && Advanced(s, st).value.cur.kind != Colon
    ensures Primary(s, st).Ok?
    ensures var r := Primary(s, st).value.0;
            && r.Ref? && r.address == st.cur.value
            && ParseAddress(r.address).Ok?
            && ParseAddress(r.address).value.absoluteCol == r.absoluteCol
            && ParseAddress(r.address).value.absoluteRow == r.absoluteRow
  {
  }

  /** A function name must be followed by `(`: otherwise the name is
      reported as an unexpected identifier. */
  lemma BareFunctionFails(s: string, st: PState)
    requires Fits(s, st) && st.cur.kind == Function
    requires Advanced(s, st).Ok? && Advanced(s, st).value.cur.kind != LParen
    ensures Primary(s, st) == Err("Unexpected identifier " + st.cur.value)
  {
  }

  /** After `A1:` only a cell reference may follow. */
  lemma RangeEndMustBeRef(s: string, st: PState)
    requires Fits(s, st) && st.cur.kind == CellRef
    requires Advanced(s, st).Ok? && Advanced(s, st).value.cur.kind == Colon
    requires Advanced(s, Advanced(s, st).value).Ok?
    requires Advanced(s, Advanced(s, st).value).value.cur.kind != CellRef
    ensures Primary(s, st) == Err("Range end must be cell reference")
  {
  }

  /** `-` is the only prefix operator: any other operator where a primary
      is expected fails and names the operator. */
  lemma OnlyMinusPrefix(s: string, st: PState)
    requires Fits(s, st) && st.cur.kind == Operator && st.cur.value != "-"
    ensures Primary(s, st) == Err("Unexpected operator " + st.cur.value)
  {
  }

  /** A parenthesised expression must be closed by `)`. */
  lemma MissingParen(s: string, st: PState)
    requires Fits(s, st) && st.cur.kind == LParen
    requires Advanced(s, st).Ok? && Expression(s, Advanced(s, st).value, 0).Ok?
    requires Expression(s, Advanced(s, st).value, 0).value.1.cur.kind != RParen
    ensures Primary(s, st) == Err("Missing )")
  {
  }

  /** An input of only whitespace parses to the number 0. */
  lemma BlankFormula(s: string)
    requires forall k :: 0 <= k < |s| ==> IsWhitespace(s[k])
    ensures ParseText(s) == Ok(NumberLit(0.0))
  {
    EofAtEnd(s, 0);
  }

  /** A successful parse reads the whole input. */
  lemma ParseReadsAll(s: string, st: PState)
    requires Fits(s, st) && st.cur.kind != Eof
    requires Formula(s, st).Ok?
    ensures Expression(s, st, 0).Ok? && Expression(s, st, 0).value.1.cur.kind == Eof
    ensures Expression(s, st, 0).value.1.pos == |s|
    ensures Formula(s, st) == Ok(Expression(s, st, 0).value.0)
  {
  }

  /** The operator loop stops at anything but an operator of at least the
      given precedence. */
  lemma ContinueStops(s: string, left: Ast, st: PState, minPrec: int)
    requires Fits(s, st)
    requires st.cur.kind != Operator || OpOf(st.cur.value).None? || Precedence(OpOf(st.cur.value).value) < minPrec
    ensures Continue(s, left, st, minPrec) == Ok((left, st))
  {
  }

  /** One round of the operator loop: advance past the operator, parse the
      right operand, and go on with the combined tree. */
  lemma ContinueStep(s: string, left: Ast, st: PState, minPrec: int, op: BinOp)
    requires Fits(s, st) && st.cur.kind == Operator && OpOf(st.cur.value) == Some(op) && Precedence(op) >= minPrec
    ensures Advanced(s, st).Err? ==> Continue(s, left, st, minPrec) == Err(Advanced(s, st).msg)
    ensures Advanced(s, st).Ok? ==>
      var right := Expression(s, Advanced(s, st).value, RightMin(op));
      Continue(s, left, st, minPrec) ==
        if right.Err? then Err(right.msg) else Continue(s, Binary(op, left, right.value.0), right.value.1, minPrec)
  {
  }

  /** A parser method's result agrees with a grammar function's result,
      and the state it leaves with the function's state when it succeeds. */
  predicate Agrees<T(==)>(r: Result<T>, spec: Result<(T, PState)>, st: PState)
  {
    && (r.Ok? <==> spec.Ok?)
    && (r.Ok? ==> r.value == spec.value.0 && st == spec.value.1)
    && (r.Err? ==> r.msg == spec.msg)
  }

  // ---------------------------------------------------------------------------
  // The parser object

  /** The Parser of lib/parser.ts:158-304: a lexer and its current token,
      each method proved to agree with the functions above. */
  class Parser {
    const lexer: Lexer
    var current: Token

    predicate Valid()
      reads this, lexer
    {
      lexer.Valid() && lexer.cached.None? && Fits(lexer.input, PState(lexer.pos, current))
    }

    function State(): PState
      reads this, lexer
    {
      PState(lexer.pos, current)
    }

    /** The source's constructor also reads the first token; here the
        caller does, so that a lexing failure can be returned. */
    constructor(lexer: Lexer, first: Token)
      requires lexer.Valid() && lexer.cached.None? && Fits(lexer.input, PState(lexer.pos, first))
      ensures this.lexer == lexer && current == first
      ensures Valid()
    {
      this.lexer := lexer;
      current := first;
    }

    method Advance() returns (r: Result<()>)
      requires Valid()
      modifies this, lexer
      ensures r.Ok? <==> Advanced(lexer.input, old(State())).Ok?
      ensures r.Ok? ==> State() == Advanced(lexer.input, old(State())).value && Valid()
      ensures r.Err? ==> r.msg == Advanced(lexer.input, old(State())).msg
    {
      var t := lexer.NextToken();
      if t.Err? {
        return Err(t.msg);
      }
      current := t.value;
      r := Ok(());
    }

    method Expect(kind: TokenType) returns (r: Result<()>)
      requires Valid()
      modifies this, lexer
      ensures r.Ok? <==> Expected(lexer.input, old(State()), kind).Ok?
      ensures r.Ok? ==> State() == Expected(lexer.input, old(State()), kind).value && Valid()
      ensures r.Err? ==> r.msg == Expected(lexer.input, old(State()), kind).msg
    {
      if current.kind != kind {
        return Err("Expected " + TypeName(kind) + " but got " + TypeName(current.kind));
      }
      r := Advance();
    }

    method ParseExpression(minPrec: int) returns (r: Result<Ast>)
      requires Valid()
      modifies this, lexer
      ensures Agrees(r, Expression(lexer.input, old(State()), minPrec), State())
      ensures r.Ok? ==> Valid()
      decreases Measure(lexer.input, State()), 2
    {
      ghost var s := lexer.input;
      ghost var st0 := State();
      var left :- ParsePrimary();
      while current.kind == Operator
        invariant Valid()
        invariant Measure(s, State()) < Measure(s, st0)
        invariant Continue(s, left, State(), minPrec) == Expression(s, st0, minPrec)
        decreases Measure(s, State())
      {
        ghost var st := State();
        var op := OpOf(current.value);
        if op.None? || Precedence(op.value) < minPrec {
          ContinueStops(s, left, st, minPrec);
          break;
        }
        ContinueStep(s, left, st, minPrec, op.value);
        var adv := Advance();
        if adv.Err? {
          return Err(adv.msg);
        }
        var nextMin := if op.value == Pow then Precedence(op.value) else Precedence(op.value) + 1;
        var right :- ParseExpression(nextMin);
        left := Binary(op.value, left, right);
      }
      ContinueStops(s, left, State(), minPrec);
      r := Ok(left);
    }

    method ParsePrimary() returns (r: Result<Ast>)
      requires Valid()
      modifies this, lexer
      ensures Agrees(r, Primary(lexer.input, old(State())), State())
      ensures r.Ok? ==> Valid()
      decreases Measure(lexer.input, State()), 1
    {
      var tok := current;
      match tok.kind {
        case Number =>
          var _ :- Advance();
          r := Ok(NumberLit(DecimalValue(tok.value)));
        case Str =>
          var _ :- Advance();
          r := Ok(StringLit(tok.value));
        case Function =>
          var _ :- Advance();
          if current.kind == LParen {
            r := ParseFunction(tok.value);
          } else {
            r := Err("Unexpected identifier " + tok.value);
          }
        case Boolean =>
          var _ :- Advance();
          r := Ok(BooleanLit(ToUpper(tok.value) == "TRUE"));
        case CellRef =>
          var _ :- Advance();
          if current.kind == Colon {
            var _ :- Advance();
            var afterColon := current;
            if afterColon.kind != CellRef {
              return Err("Range end must be cell reference");
            }
            var _ :- Advance();
            r := Ok(RangeRef(tok.value, afterColon.value));
          } else {
            var p := ParseAddress(tok.value).value;
            r := Ok(Ref(tok.value, p.absoluteCol, p.absoluteRow));
          }
        case LParen =>
          var _ :- Advance();
          var inner :- ParseExpression(0);
          if current.kind != RParen {
            return Err("Missing )");
          }
          var _ :- Advance();
          r := Ok(inner);
        case Operator =>
          if tok.value == "-" {
            var _ :- Advance();
            var operand :- ParsePrimary();
            r := Ok(Negate(operand));
          } else {
            r := Err("Unexpected operator " + tok.value);
          }
        case _ =>
          r := Err("Unexpected token " + TypeName(tok.kind));
      }
    }

    method ParseFunction(name: string) returns (r: Result<Ast>)
      requires Valid()
      modifies this, lexer
      ensures Agrees(r, FunctionCall(lexer.input, name, old(State())), State())
      ensures r.Ok? ==> Valid()
      decreases Measure(lexer.input, State()), 0
    {
      ghost var s := lexer.input;
      var _ :- Expect(LParen);
      ghost var st1 := State();
      var args: seq<Ast> := [];
      if current.kind != RParen {
        while true
          invariant Valid()
          invariant Measure(s, State()) <= Measure(s, st1) < Measure(s, old(State()))
          invariant Arguments(s, State(), args) == Arguments(s, st1, [])
          decreases Measure(s, State())
        {
          ghost var top, argsTop := State(), args;
          var arg :- ParseExpression(0);
          args := args + [arg];
          if current.kind == Comma {
            var _ :- Advance();
            continue;
          }
          assert Arguments(s, top, argsTop) == Ok((args, State()));
          break;
        }
      }
      var _ :- Expect(RParen);
      r := Ok(Call(name, args));
    }

    method Parse() returns (r: Result<Ast>)
      requires Valid()
      modifies this, lexer
      ensures r == Formula(lexer.input, old(State()))
    {
      if current.kind == Eof {
        return Ok(NumberLit(0.0));
      }
      var expr :- ParseExpression(0);
      if current.kind != Eof {
        return Err("Unexpected trailing input");
      }
      r := Ok(expr);
    }
  }

  /** parseFormula (lib/parser.ts:306-309). */
  method ParseFormula(input: string) returns (r: Result<Ast>)
    ensures r == ParseText(input)
  {
    var lexer := new Lexer(input);
    var first := lexer.NextToken();
    if first.Err? {
      return Err(first.msg);
    }
    var parser := new Parser(lexer, first.value);
    r := parser.Parse();
  }
}
