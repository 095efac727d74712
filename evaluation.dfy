/** What lib/engine.ts computes for a cell, as pure functions of the sheet's
    cells and the set of formula cells being evaluated (the shared
    `visited` set): evaluateCell, evaluateAst, evaluateCellRef,
    evaluateRange and the function call with its argument evaluation
    (evaluateFunction and rangeValues of the function registry). Thrown
    markers are `Fault`s; evaluateCell turns them into error codes.

    A formula cell's tree is the cached `ast` or, when there is none, the
    parse of its source; the engine caches the parse, which does not change
    that tree, so these functions read the sheet through `ViewOf`, which
    only sees the effective tree. */
module Evaluation {
  import opened Wrappers
  import opened Address
  import opened Parsing
  import opened Coercion
  import opened FunctionRegistry

  /** Cell: a literal value, a formula with its source and cached tree, or
      an error cell with a code and a message. */
  datatype Cell =
    | LiteralCell(value: Value)
    | FormulaCell(src: string, ast: Option<Ast>)
    | ErrorCell(code: string, message: string)

  type Cells = map<CellAddress, Cell>

  datatype CellError = CellError(code: string, message: string)

  /** EvalResult: a value and, when evaluation failed, an error. */
  datatype EvalResult = EvalResult(value: Value, error: Option<CellError>)

  /** The formula text parsed: the source without a leading '='. */
  function FormulaText(src: string): string
  {
    if |src| > 0 && src[0] == '=' then src[1..] else src
  }

  /** What the engine evaluates for a cell: its value, its error, or its
      formula's effective tree (or the parse error). */
  datatype Entry = ELit(value: Value) | EErr(code: string, message: string) | EFormula(ast: Result<Ast>)

  type View = map<CellAddress, Entry>

  function EntryOf(c: Cell): Entry
  {
    match c
    case LiteralCell(v) => ELit(v)
    case ErrorCell(code, m) => EErr(code, m)
    case FormulaCell(src, ast) => EFormula(if ast.Some? then Ok(ast.value) else ParseText(FormulaText(src)))
  }

  function ViewOf(cells: Cells): (v: View)
    ensures v.Keys == cells.Keys
  {
    map a | a in cells :: EntryOf(cells[a])
  }

  /** A cell with its formula's parse cached (lib/engine.ts:94-100,
      348-351): a formula cell without a tree whose text parses gets that
      tree; a formula that does not parse, and any other cell, stays as it
      is. What the engine evaluates for the cell does not change. */
  function CacheParse(c: Cell): (d: Cell)
    ensures EntryOf(d) == EntryOf(c)
    ensures d.FormulaCell? <==> c.FormulaCell?
    ensures c.FormulaCell? ==>
      d.src == c.src && (d.ast.Some? <==> c.ast.Some? || ParseText(FormulaText(c.src)).Ok?)
  {
    if c.FormulaCell? && c.ast.None? && ParseText(FormulaText(c.src)).Ok? then
      FormulaCell(c.src, Some(ParseText(FormulaText(c.src)).value))
    else c
  }

  /** after is before with the parses of some formula cells cached: the
      same addresses, and every cell as it was or with its parse cached. */
  predicate CachesOnly(before: Cells, after: Cells)
  {
    && before.Keys == after.Keys
    && forall a :: a in before ==> after[a] == before[a] || after[a] == CacheParse(before[a])
  }

  /** Caching parses leaves the view, and so every evaluation, unchanged. */
  lemma CachingKeepsView(before: Cells, after: Cells)
    requires CachesOnly(before, after)
    ensures ViewOf(after) == ViewOf(before)
  {
    forall a | a in before
      ensures EntryOf(after[a]) == EntryOf(before[a])
    {
      if after[a] != before[a] {
        assert EntryOf(CacheParse(before[a])) == EntryOf(before[a]);
      }
    }
  }

  /** Caching the parse of one cell caches parses only. */
  lemma CacheOne(cells: Cells, a: CellAddress)
    requires a in cells
    ensures CachesOnly(cells, cells[a := CacheParse(cells[a])])
  {
  }

  /** Two rounds of caching are one: a cached cell caches to itself. */
  lemma {:induction false} CachesTrans(c0: Cells, c1: Cells, c2: Cells)
    requires CachesOnly(c0, c1) && CachesOnly(c1, c2)
    ensures CachesOnly(c0, c2)
  {
    forall a | a in c0
      ensures c2[a] == c0[a] || c2[a] == CacheParse(c0[a])
    {
      if c1[a] != c0[a] {
        assert c1[a].ast.Some?;
      }
    }
  }

  // ---------------------------------------------------------------------------
  // Error codes

  /** The result evaluateCell gives for a caught fault (lib/engine.ts:124-147):
      one of the four codes, always with a message. */
  function FaultError(f: Fault): (e: CellError)
    ensures e.code in {"CYCLE", "REF", "DIV0", "PARSE"} && e.message != ""
  {
    match f
    case Cycle => CellError("CYCLE", "Circular reference")
    case BadRef => CellError("REF", "Bad reference")
    case Div0 => CellError("DIV0", "Division by zero")
    case Other(m) => CellError("PARSE", if m == "" then "Error" else m)
  }

  /** The fault evaluateCellRef raises for a referenced error (an error cell,
      lib/engine.ts:196-201, or a failed formula, lib/engine.ts:205-211).
      Reported again by evaluateCell, REF, CYCLE and DIV0 keep their code,
      and any other code becomes PARSE with the same message. */
  function CodeFault(code: string, message: string): (f: Fault)
    ensures code in {"REF", "CYCLE", "DIV0"} ==> FaultError(f).code == code
    ensures code !in {"REF", "CYCLE", "DIV0"} ==>
              FaultError(f) == CellError("PARSE", if message == "" then "Error" else message)
  {
    if code == "CYCLE" then Cycle
    else if code == "REF" then BadRef
    else if code == "DIV0" then Div0
    else Other(message)
  }

  /** Re-raising an evaluation error through a reference keeps it: the
      fault it came from comes back (except a message-less one, which was
      reported as "Error"). */
  lemma ReraiseKeepsFault(f: Fault)
    requires f != Other("")
    ensures CodeFault(FaultError(f).code, FaultError(f).message) == f
  {
  }

  // ---------------------------------------------------------------------------
  // Termination measure

  function Size(ast: Ast): (n: nat)
    ensures n >= 1
  {
    match ast
    case Call(_, args) => 2 + ArgsSize(args)
    case Binary(_, l, r) => 3 + Size(l) + Size(r)
    case Negate(e) => 1 + Size(e)
    case _ => 1
  }

  function ArgsSize(args: seq<Ast>): nat
  {
    if args == [] then 0 else 2 + Size(args[0]) + ArgsSize(args[1..])
  }

  lemma {:induction false} ArgSizeBound(args: seq<Ast>, k: nat)
    requires k < |args|
    ensures Size(args[k]) < ArgsSize(args)
  {
    if k > 0 {
      ArgSizeBound(args[1..], k - 1);
    }
  }

  /** Marking a cell of the view as visited leaves fewer to visit. */
  lemma VisitShrinks(U: set<CellAddress>, visited: set<CellAddress>, a: CellAddress)
    requires a in U && a !in visited
    ensures |U - (visited + {a})| < |U - visited|
  {
    assert U - visited == (U - (visited + {a})) + {a};
  }

  // ---------------------------------------------------------------------------
  // The evaluator

  /** evaluateCell (lib/engine.ts:80-149): null for no cell, a literal's
      value, an error cell's error, PARSE for a formula that does not parse,
      CYCLE for a formula being evaluated, and otherwise the formula's
      value or the error its fault maps to. */
  function EvalCell(V: View, visited: set<CellAddress>, a: CellAddress): (r: EvalResult)
    ensures r.error.Some? ==> r.value == Null
    ensures r.error.Some? && !(a in V && V[a].EErr?) ==> r.error.value.code in {"PARSE", "REF", "CYCLE", "DIV0"}
    decreases |V.Keys - visited|, 0, 0
  {
    if a !in V then EvalResult(Null, None)
    else match V[a]
      case ELit(v) => EvalResult(v, None)
      case EErr(code, m) => EvalResult(Null, Some(CellError(code, m)))
      case EFormula(Err(m)) => EvalResult(Null, Some(CellError("PARSE", m)))
      case EFormula(Ok(ast)) =>
        if a in visited then EvalResult(Null, Some(FaultError(Cycle)))
        else
          VisitShrinks(V.Keys, visited, a);
          match EvalAst(V, visited + {a}, ast)
          case Val(v) => EvalResult(v, None)
          case Fail(f) => EvalResult(Null, Some(FaultError(f)))
  }

  /** evaluateAst (lib/engine.ts:151-180). */
  function EvalAst(V: View, visited: set<CellAddress>, ast: Ast): (r: Outcome<Value>)
    ensures ast.NumberLit? || ast.StringLit? || ast.BooleanLit? ==> r.Val?
    ensures ast.Negate? && r.Val? ==> r.value.Num?
    ensures ast.Binary? && (ast.op.Sub? || ast.op.Mul? || ast.op.Div? || ast.op.Pow?) && r.Val? ==> r.value.Num?
    ensures ast.Binary? && !(ast.op.Add? || ast.op.Sub? || ast.op.Mul? || ast.op.Div? || ast.op.Pow?) && r.Val? ==>
              r.value.Bool?
    decreases |V.Keys - visited|, 4, Size(ast)
  {
    match ast
    case NumberLit(n) => Val(Num(n))
    case StringLit(s) => Val(Str(s))
    case BooleanLit(b) => Val(Bool(b))
    case Ref(address, _, _) => EvalRef(V, visited, address)
    case RangeRef(start, end) =>
      var vs :- EvalRange(V, visited, start, end);
      Val(if |vs| > 0 then vs[0] else Null)
    case Call(name, args) => EvalCall(V, visited, name, args)
    case Binary(op, left, right) =>
      var l :- EvalAst(V, visited, left);
      var r :- EvalAst(V, visited, right);
      BinaryOp(op, l, r)
    case Negate(operand) =>
      var v :- EvalAst(V, visited, operand);
      Val(UnaryMinus(v))
  }

  /** evaluateCellRef (lib/engine.ts:182-227): CYCLE for a cell being
      evaluated, REF for no cell, a literal's value, and a referenced error
      cell's or formula's error raised again by its code. */
  function EvalRef(V: View, visited: set<CellAddress>, address: CellAddress): (r: Outcome<Value>)
    ensures address !in visited && address in V ==> (r.Val? <==> EvalCell(V, visited, address).error.None?)
    ensures r.Val? ==> r.value == EvalCell(V, visited, address).value
    decreases |V.Keys - visited|, 1, 0
  {
    if address in visited then Fail(Cycle)
    else if address !in V then Fail(BadRef)
    else match V[address]
      case ELit(v) => Val(v)
      case EErr(code, m) => Fail(CodeFault(code, m))
      case EFormula(_) =>
        var nested := EvalCell(V, visited, address);
        if nested.error.Some? then Fail(CodeFault(nested.error.value.code, nested.error.value.message))
        else Val(nested.value)
  }

  /** evaluateRange (lib/engine.ts:229-254), which is also what rangeValues
      yields (lib/dependency-graph/function-registry.ts:83-101): the values
      of the range's cells in column-major order, cells whose evaluation
      fails left out; a range whose corners do not form one fails. */
  function EvalRange(V: View, visited: set<CellAddress>, start: CellAddress, end: CellAddress): (r: Outcome<seq<Value>>)
    ensures RangeAddresses(start, end, ColMajor).Ok? ==>
              r.Val? && |r.value| <= |RangeAddresses(start, end, ColMajor).value|
    ensures RangeAddresses(start, end, ColMajor).Err? ==> r == Fail(Other(RangeAddresses(start, end, ColMajor).msg))
    decreases |V.Keys - visited|, 3, 0
  {
    match RangeAddresses(start, end, ColMajor)
    case Err(m) => Fail(Other(m))
    case Ok(addrs) => Val(Collect(V, visited, addrs))
  }

  /** The values of the cells that evaluate, in order. */
  function Collect(V: View, visited: set<CellAddress>, addrs: seq<CellAddress>): (vs: seq<Value>)
    ensures |vs| <= |addrs|
    decreases |V.Keys - visited|, 2, |addrs|
  {
    if addrs == [] then []
    else
      (match EvalRef(V, visited, addrs[0]) case Val(v) => [v] case Fail(_) => [])
      + Collect(V, visited, addrs[1..])
  }

  /** evaluateFunction (lib/dependency-graph/function-registry.ts:103-116)
      with the handlers' argument evaluation: an unknown name fails before
      any argument is evaluated; IF evaluates its condition and the chosen
      branch only; the aggregates evaluate every argument, a range
      argument to its cells' values. */
  function EvalCall(V: View, visited: set<CellAddress>, name: string, args: seq<Ast>): (r: Outcome<Value>)
    ensures LookupHandler(name).None? ==> r == Fail(Other("Unknown function: " + name))
    ensures LookupHandler(name) == Some(IfH) && |args| < 2 ==> r == Val(Null)
    ensures LookupHandler(name).Some? && LookupHandler(name) != Some(IfH) && r.Val? ==> r.value.Num?
    decreases |V.Keys - visited|, 4, ArgsSize(args) + 1
  {
    match LookupHandler(name)
    case None => Fail(Other("Unknown function: " + name))
    case Some(h) =>
      if h == IfH then
        if |args| < 2 then Val(Null)
        else
          ArgSizeBound(args, 0);
          ArgSizeBound(args, 1);
          var c :- EvalAst(V, visited, args[0]);
          if Truthy(c) then EvalAst(V, visited, args[1])
          else if |args| > 2 then ArgSizeBound(args, 2); EvalAst(V, visited, args[2])
          else Val(Null)
      else
        var parts :- EvalArgs(V, visited, args);
        Val(Aggregate(h, Flattened(parts)))
  }

  /** `args.map(...)` in the aggregate handlers: each argument evaluated in
      turn, a range to its cells' values; the first failure stops it. */
  function EvalArgs(V: View, visited: set<CellAddress>, args: seq<Ast>): (r: Outcome<seq<Arg>>)
    ensures r.Val? ==> |r.value| == |args|
    decreases |V.Keys - visited|, 4, ArgsSize(args)
  {
    if args == [] then Val([])
    else
      var first :- EvalArg(V, visited, args[0]);
      var rest :- EvalArgs(V, visited, args[1..]);
      Val([first] + rest)
  }

  function EvalArg(V: View, visited: set<CellAddress>, arg: Ast): (r: Outcome<Arg>)
    ensures r.Val? ==> (r.value.Many? <==> arg.RangeRef?)
    ensures !arg.RangeRef? ==> (r.Val? <==> EvalAst(V, visited, arg).Val?)
    decreases |V.Keys - visited|, 4, Size(arg) + 1
  {
    if arg.RangeRef? then
      var vs :- EvalRange(V, visited, arg.start, arg.end);
      Val(Many(vs))
    else
      var v :- EvalAst(V, visited, arg);
      Val(One(v))
  }

  // ---------------------------------------------------------------------------
  // Properties

  /** A formula that refers to its own cell is a circular reference. */
  lemma SelfReferenceIsCycle(V: View, visited: set<CellAddress>, a: CellAddress, absCol: bool, absRow: bool)
    requires a in V && V[a] == EFormula(Ok(Ref(a, absCol, absRow))) && a !in visited
    ensures EvalCell(V, visited, a) == EvalResult(Null, Some(CellError("CYCLE", "Circular reference")))
  {
    assert EvalRef(V, visited + {a}, a) == Fail(Cycle);
  }

  /** Two formula cells that refer to each other are both circular. */
  lemma MutualReferenceIsCycle(V: View, a: CellAddress, b: CellAddress, ra: Ast, rb: Ast)
    requires a != b && a in V && b in V
    requires ra.Ref? && ra.address == b && rb.Ref? && rb.address == a
    requires V[a] == EFormula(Ok(ra)) && V[b] == EFormula(Ok(rb))
    ensures EvalCell(V, {}, a).error == Some(CellError("CYCLE", "Circular reference"))
  {
    assert {} + {a} == {a} && {a} + {b} == {a, b};
    assert EvalAst(V, {a, b}, rb) == Fail(Cycle);
    assert EvalCell(V, {a}, b).error == Some(CellError("CYCLE", "Circular reference"));
    assert EvalAst(V, {a}, ra) == Fail(Cycle);
  }

  /** IF is lazy: with a truthy condition the else branch is never
      evaluated, so it may fail without effect; with a falsy one the same
      holds for the then branch. */
  lemma IfIsLazy(V: View, visited: set<CellAddress>, name: string, c: Ast, t: Ast, e: Ast, e': Ast)
    requires LookupHandler(name) == Some(IfH)
    requires EvalAst(V, visited, c).Val?
    ensures Truthy(EvalAst(V, visited, c).value) ==>
              EvalCall(V, visited, name, [c, t, e]) == EvalCall(V, visited, name, [c, t, e']) == EvalAst(V, visited, t)
    ensures !Truthy(EvalAst(V, visited, c).value) ==>
              EvalCall(V, visited, name, [c, e, t]) == EvalCall(V, visited, name, [c, e', t]) == EvalAst(V, visited, t)
  {
  }

  /** The first value collected is that of the first cell that evaluates. */
  lemma {:induction false} CollectFirst(V: View, visited: set<CellAddress>, addrs: seq<CellAddress>, i: nat)
    requires i < |addrs| && EvalRef(V, visited, addrs[i]).Val?
    requires forall k :: 0 <= k < i ==> EvalRef(V, visited, addrs[k]).Fail?
    ensures |Collect(V, visited, addrs)| > 0
    ensures Collect(V, visited, addrs)[0] == EvalRef(V, visited, addrs[i]).value
    decreases i
  {
    if i > 0 {
      assert forall k :: 0 <= k < i - 1 ==> addrs[1..][k] == addrs[k + 1];
      CollectFirst(V, visited, addrs[1..], i - 1);
    }
  }

  /** Nothing is collected when no cell evaluates. */
  lemma {:induction false} CollectNone(V: View, visited: set<CellAddress>, addrs: seq<CellAddress>)
    requires forall k :: 0 <= k < |addrs| ==> EvalRef(V, visited, addrs[k]).Fail?
    ensures Collect(V, visited, addrs) == []
    decreases |addrs|
  {
    if addrs != [] {
      assert forall k :: 0 <= k < |addrs| - 1 ==> addrs[1..][k] == addrs[k + 1];
      CollectNone(V, visited, addrs[1..]);
    }
  }

  /** A range met outside a function call stands for the value of its
      first cell, in column-major order, that evaluates. */
  lemma RangeFirstValue(V: View, visited: set<CellAddress>, a: CellAddress, b: CellAddress,
                        addrs: seq<CellAddress>, i: nat)
    requires RangeAddresses(a, b, ColMajor) == Ok(addrs)
    requires i < |addrs| && EvalRef(V, visited, addrs[i]).Val?
    requires forall k :: 0 <= k < i ==> EvalRef(V, visited, addrs[k]).Fail?
    ensures EvalAst(V, visited, RangeRef(a, b)) == EvalRef(V, visited, addrs[i])
  {
    CollectFirst(V, visited, addrs, i);
  }

  /** A range none of whose cells evaluates stands for null. */
  lemma RangeNoValue(V: View, visited: set<CellAddress>, a: CellAddress, b: CellAddress, addrs: seq<CellAddress>)
    requires RangeAddresses(a, b, ColMajor) == Ok(addrs)
    requires forall k :: 0 <= k < |addrs| ==> EvalRef(V, visited, addrs[k]).Fail?
    ensures EvalAst(V, visited, RangeRef(a, b)) == Val(Null)
  {
    CollectNone(V, visited, addrs);
  }

  /** A failing cell inside a range is skipped, not reported. */
  lemma {:induction false} CollectSkipsFaults(V: View, visited: set<CellAddress>, addrs: seq<CellAddress>)
    ensures |Collect(V, visited, addrs)| == |addrs| <==> forall k :: 0 <= k < |addrs| ==> EvalRef(V, visited, addrs[k]).Val?
    decreases |addrs|
  {
    if addrs != [] {
      CollectSkipsFaults(V, visited, addrs[1..]);
      assert forall k :: 1 <= k < |addrs| ==> addrs[k] == addrs[1..][k - 1];
    }
  }
}
