/** The FormulaEngine of lib/engine.ts: evaluation of a sheet's cells
    through a shared visited set, the dependency graph the engine builds
    from the formulas' trees, evaluateSheet and updateCell. Every
    evaluation method is proved to compute the matching function of the
    Evaluation module, and to leave the sheet's effective contents alone:
    the only write it makes is caching a formula's parse. */
module Engine {
  import opened Wrappers
  import opened Address
  import opened Parsing
  import opened Coercion
  import opened FunctionRegistry
  import opened Evaluation
  import opened Graphs
  import opened DepGraph

  // ---------------------------------------------------------------------------
  // The cells a formula links to

  /** The cells the dependency walk of lib/engine.ts:31-69 links a formula
      to: every referenced cell and both corners of every range, at any
      depth of the tree. */
  function Deps(ast: Ast): set<CellAddress>
    decreases Size(ast)
  {
    match ast
    case Ref(address, _, _) => {address}
    case RangeRef(start, end) => {start, end}
    case Call(_, args) => DepsAll(args)
    case Binary(_, l, r) => Deps(l) + Deps(r)
    case Negate(e) => Deps(e)
    case _ => {}
  }

  /** The cells the trees of a stack link to. */
  function DepsAll(stack: seq<Ast>): set<CellAddress>
    decreases ArgsSize(stack)
  {
    if stack == [] then {} else Deps(stack[0]) + DepsAll(stack[1..])
  }

  lemma {:induction false} DepsAllAppend(s: seq<Ast>, t: seq<Ast>)
    ensures DepsAll(s + t) == DepsAll(s) + DepsAll(t)
  {
    if s != [] {
      assert (s + t)[1..] == s[1..] + t;
      DepsAllAppend(s[1..], t);
    } else {
      assert s + t == t;
    }
  }

  /** The cells a stack links to include those of each of its trees. */
  lemma {:induction false} DepsAllMember(stack: seq<Ast>, k: nat)
    requires k < |stack|
    ensures Deps(stack[k]) <= DepsAll(stack)
    decreases k
  {
    if k > 0 {
      assert stack[1..][k - 1] == stack[k];
      DepsAllMember(stack[1..], k - 1);
    }
  }

  /** A tree that links to no cell has one value whatever the sheet holds
      and whatever is being evaluated: no edge is missing for it. */
  lemma {:induction false} ClosedTreeIgnoresSheet(V1: View, vis1: set<CellAddress>, V2: View, vis2: set<CellAddress>, ast: Ast)
    requires Deps(ast) == {}
    ensures EvalAst(V1, vis1, ast) == EvalAst(V2, vis2, ast)
    decreases Size(ast)
  {
    match ast
    case Call(name, args) =>
      ClosedCallIgnoresSheet(V1, vis1, V2, vis2, name, args);
    case Binary(_, l, r) =>
      ClosedTreeIgnoresSheet(V1, vis1, V2, vis2, l);
      ClosedTreeIgnoresSheet(V1, vis1, V2, vis2, r);
    case Negate(e) =>
      ClosedTreeIgnoresSheet(V1, vis1, V2, vis2, e);
    case _ =>
  }

  /** A call whose arguments link to no cell has one value in every sheet. */
  lemma {:induction false} ClosedCallIgnoresSheet(V1: View, vis1: set<CellAddress>, V2: View, vis2: set<CellAddress>, name: string, args: seq<Ast>)
    requires DepsAll(args) == {}
    ensures EvalCall(V1, vis1, name, args) == EvalCall(V2, vis2, name, args)
    decreases ArgsSize(args) + 1
  {
    if LookupHandler(name) == Some(IfH) {
      if |args| >= 2 {
        ClosedArgIgnoresSheet(V1, vis1, V2, vis2, args, 0);
        ClosedArgIgnoresSheet(V1, vis1, V2, vis2, args, 1);
        if |args| > 2 {
          ClosedArgIgnoresSheet(V1, vis1, V2, vis2, args, 2);
        }
        SameBranchesSameIf(V1, vis1, V2, vis2, name, args);
      }
    } else {
      ClosedArgsIgnoreSheet(V1, vis1, V2, vis2, args);
      SameArgsSameAggregate(V1, vis1, V2, vis2, name, args);
    }
  }

  /** An aggregate gives one value wherever its arguments do. */
  lemma SameArgsSameAggregate(V1: View, vis1: set<CellAddress>, V2: View, vis2: set<CellAddress>, name: string, args: seq<Ast>)
    requires LookupHandler(name) != Some(IfH)
    requires EvalArgs(V1, vis1, args) == EvalArgs(V2, vis2, args)
    ensures EvalCall(V1, vis1, name, args) == EvalCall(V2, vis2, name, args)
  {
  }

  /** One argument of a call that links to no cell. */
  lemma {:induction false} ClosedArgIgnoresSheet(V1: View, vis1: set<CellAddress>, V2: View, vis2: set<CellAddress>, args: seq<Ast>, k: nat)
    requires DepsAll(args) == {} && k < |args|
    ensures EvalAst(V1, vis1, args[k]) == EvalAst(V2, vis2, args[k])
    decreases ArgsSize(args)
  {
    ArgSizeBound(args, k);
    DepsAllMember(args, k);
    ClosedTreeIgnoresSheet(V1, vis1, V2, vis2, args[k]);
  }

  /** IF gives one value wherever its condition and branches do. */
  lemma SameBranchesSameIf(V1: View, vis1: set<CellAddress>, V2: View, vis2: set<CellAddress>, name: string, args: seq<Ast>)
    requires LookupHandler(name) == Some(IfH)
    requires forall j :: 0 <= j < |args| && j < 3 ==> EvalAst(V1, vis1, args[j]) == EvalAst(V2, vis2, args[j])
    ensures EvalCall(V1, vis1, name, args) == EvalCall(V2, vis2, name, args)
  {
  }

  /** The arguments of a call that link to no cell evaluate alike in every
      sheet. */
  lemma {:induction false} ClosedArgsIgnoreSheet(V1: View, vis1: set<CellAddress>, V2: View, vis2: set<CellAddress>, args: seq<Ast>)
    requires DepsAll(args) == {}
    ensures EvalArgs(V1, vis1, args) == EvalArgs(V2, vis2, args)
    decreases ArgsSize(args)
  {
    if args != [] {
      ArgSizeBound(args, 0);
      ClosedTreeIgnoresSheet(V1, vis1, V2, vis2, args[0]);
      ClosedArgsIgnoreSheet(V1, vis1, V2, vis2, args[1..]);
    }
  }

  lemma {:induction false} ArgsSizeAppend(s: seq<Ast>, t: seq<Ast>)
    ensures ArgsSize(s + t) == ArgsSize(s) + ArgsSize(t)
  {
    if s != [] {
      assert (s + t)[1..] == s[1..] + t;
      ArgsSizeAppend(s[1..], t);
    } else {
      assert s + t == t;
    }
  }

  /** Taking the last tree off a stack removes its links and its size. */
  lemma PopStack(stack: seq<Ast>)
    requires |stack| > 0
    ensures DepsAll(stack) == DepsAll(stack[..|stack| - 1]) + Deps(stack[|stack| - 1])
    ensures ArgsSize(stack) == ArgsSize(stack[..|stack| - 1]) + 2 + Size(stack[|stack| - 1])
  {
    var node := stack[|stack| - 1];
    assert stack == stack[..|stack| - 1] + [node];
    DepsAllAppend(stack[..|stack| - 1], [node]);
    ArgsSizeAppend(stack[..|stack| - 1], [node]);
    assert [node][1..] == [];
  }

  /** A node's operands, pushed as the walk pushes them, link to the same
      cells as the node and are smaller. */
  lemma Operands(node: Ast)
    ensures node.Call? ==> DepsAll(node.args) == Deps(node) && ArgsSize(node.args) < Size(node)
    ensures node.Binary? ==>
      DepsAll([node.left, node.right]) == Deps(node) && ArgsSize([node.left, node.right]) == Size(node) + 1
    ensures node.Negate? ==> DepsAll([node.operand]) == Deps(node) && ArgsSize([node.operand]) == Size(node) + 1
  {
    if node.Binary? {
      var r := node.right;
      assert [r][1..] == [];
      assert DepsAll([r]) == Deps(r) && ArgsSize([r]) == 2 + Size(r);
      assert [node.left, r][1..] == [r];
    } else if node.Negate? {
      assert [node.operand][1..] == [];
    }
  }

  /** Pushing trees onto a stack adds their links and their size. */
  lemma PushStack(stack: seq<Ast>, more: seq<Ast>)
    ensures DepsAll(stack + more) == DepsAll(stack) + DepsAll(more)
    ensures ArgsSize(stack + more) == ArgsSize(stack) + ArgsSize(more)
  {
    DepsAllAppend(stack, more);
    ArgsSizeAppend(stack, more);
  }

  // ---------------------------------------------------------------------------
  // Facts about graphs that grow

  /** The state of the dependency walk for cell a: of the cells all the
      tree links to, seen ones are done and pending ones are on the stack;
      compared with g0, only a's edges have changed, each added one leads
      to a seen cell, and each seen cell is linked from a or reaches a. */
  ghost predicate LinkState(g0: Graph, g: Graph, a: CellAddress, all: set<CellAddress>,
                            pending: set<CellAddress>, seen: set<CellAddress>)
  {
    && (forall x :: x != a ==> Succ(g, x) == Succ(g0, x))
    && Succ(g0, a) <= Succ(g, a) <= Succ(g0, a) + seen
    && seen <= all && pending <= all && all <= seen + pending
    && (forall b :: b in seen ==> b in Succ(g, a) || Reachable(g, b, a))
  }

  /** The graph evaluateSheet has built once the cells of done are linked:
      only they have edges, each towards a cell of its tree, and each cell
      of its tree is linked or reaches it. */
  ghost predicate SheetLinked(g: Graph, cells: Cells, done: set<CellAddress>)
  {
    && done <= CachedFormulas(cells)
    && (forall x :: x !in done ==> Succ(g, x) == {})
    && (forall x :: x in done ==> Succ(g, x) <= Deps(cells[x].ast.value))
    && (forall x, b :: x in done && b in Deps(cells[x].ast.value) ==> b in Succ(g, x) || Reachable(g, b, x))
  }

  /** Linking one more formula cell, as LinkCell does, keeps SheetLinked. */
  lemma SheetLinkedStep(g0: Graph, g: Graph, cells: Cells, done: set<CellAddress>, a: CellAddress)
    requires SheetLinked(g0, cells, done) && a in CachedFormulas(cells) && a !in done
    requires forall x :: x != a ==> Succ(g, x) == Succ(g0, x)
    requires Succ(g0, a) <= Succ(g, a) <= Succ(g0, a) + Deps(cells[a].ast.value)
    requires forall b :: b in Deps(cells[a].ast.value) ==> b in Succ(g, a) || Reachable(g, b, a)
    ensures SheetLinked(g, cells, done + {a})
  {
    forall x, b | x in done && b in Deps(cells[x].ast.value) && b !in Succ(g, x)
      ensures Reachable(g, b, x)
    {
      GrowsKeepsReach(g0, g, b, x);
    }
  }

  /** Every edge of g is an edge of h. */
  ghost predicate Grows(g: Graph, h: Graph)
  {
    forall x :: Succ(g, x) <= Succ(h, x)
  }

  /** Adding edges keeps every cell reachable that was. */
  lemma GrowsKeepsReach(g: Graph, h: Graph, x: CellAddress, y: CellAddress)
    requires Grows(g, h) && Reachable(g, x, y)
    ensures Reachable(h, x, y)
  {
    var p :| IsPath(g, p) && |p| > 0 && p[0] == x && p[|p| - 1] == y;
    SubgraphPath(g, h, p);
  }

  /** In two graphs that are each other's inverse, y is reachable from x in
      one exactly when x is reachable from y in the other. */
  lemma InverseReach(fwd: Graph, rev: Graph, x: CellAddress, y: CellAddress)
    requires Inverse(fwd, rev)
    ensures Reachable(rev, x, y) <==> Reachable(fwd, y, x)
  {
    if Reachable(rev, x, y) {
      var p :| IsPath(rev, p) && |p| > 0 && p[0] == x && p[|p| - 1] == y;
      ReversedPath(rev, fwd, p);
    }
    if Reachable(fwd, y, x) {
      var p :| IsPath(fwd, p) && |p| > 0 && p[0] == y && p[|p| - 1] == x;
      ReversedPath(fwd, rev, p);
    }
  }

  /** A path read backwards is a path of the inverse graph. */
  lemma ReversedPath(g: Graph, h: Graph, p: seq<CellAddress>)
    requires forall a, b :: b in Succ(g, a) ==> a in Succ(h, b)
    requires IsPath(g, p) && |p| > 0
    ensures Reachable(h, p[|p| - 1], p[0])
  {
    var q := seq(|p|, k requires 0 <= k < |p| => p[|p| - 1 - k]);
    assert IsPath(h, q) by {
      forall k | 0 <= k < |q| - 1
        ensures q[k + 1] in Succ(h, q[k])
      {
        assert p[|p| - 1 - k] in Succ(g, p[|p| - 2 - k]);
      }
    }
    assert q[0] == p[|p| - 1] && q[|q| - 1] == p[0];
  }

  /** One more element of a sequence adds it to the set of its elements. */
  lemma ElemsSnoc(s: seq<CellAddress>, i: nat)
    requires i < |s|
    ensures Elems(s[..i + 1]) == Elems(s[..i]) + {s[i]}
  {
    assert s[..i + 1] == s[..i] + [s[i]];
  }

  /** A cell is a formula exactly when its entry in the view is. */
  lemma FormulaEntry(cells: Cells, a: CellAddress)
    ensures (a in cells && cells[a].FormulaCell?) <==> (a in ViewOf(cells) && ViewOf(cells)[a].EFormula?)
  {
  }

  /** Removing the outgoing entries of the rest leaves fewer of U outside s. */
  lemma FewerLeft(U: set<CellAddress>, s: set<CellAddress>, t: set<CellAddress>, x: CellAddress)
    requires s <= t && x in U && x in t && x !in s
    ensures |U - t| < |U - s|
  {
    var X, Y := U - t, (t - s) * U;
    assert U - s == X + Y;
    assert X * Y == {};
    assert x in Y;
  }

  // ---------------------------------------------------------------------------
  // The sheet and the engine

  /** The part of a Sheet (types/index.ts) the engine reads and writes: its
      cells, keyed by address. */
  class Sheet {
    var cells: Cells

    constructor(cells: Cells)
      ensures this.cells == cells
    {
      this.cells := cells;
    }
  }

  /** The `visited` set of an evaluation context, shared by the nested
      evaluations of one top-level evaluateCell. */
  class VisitedSet {
    var items: set<CellAddress>

    constructor()
      ensures items == {}
    {
      items := {};
    }
  }

  /** cells with the cell written at a, or the entry at a deleted. */
  function Written(cells: Cells, a: CellAddress, cell: Option<Cell>): (r: Cells)
    ensures cell.Some? ==> a in r && r[a] == cell.value
    ensures cell.None? ==> a !in r
    ensures forall x :: x != a ==> (x in r <==> x in cells) && (x in r ==> r[x] == cells[x])
  {
    if cell.Some? then cells[a := cell.value] else cells - {a}
  }

  /** The formula cells of cells that carry a parsed tree. */
  function CachedFormulas(cells: Cells): (r: set<CellAddress>)
    ensures forall a :: a in r <==> a in cells && cells[a].FormulaCell? && cells[a].ast.Some?
  {
    set a | a in cells && cells[a].FormulaCell? && cells[a].ast.Some?
  }

  /** The cells updateCell links a written cell to: those of its formula's
      tree, when it is a formula whose tree is cached or parses. */
  function LinkTargets(cell: Option<Cell>): (t: set<CellAddress>)
    ensures t != {} ==> cell.Some? && cell.value.FormulaCell? && EntryOf(cell.value).ast.Ok?
  {
    if cell.Some? && cell.value.FormulaCell? then
      match EntryOf(cell.value).ast
      case Ok(ast) => Deps(ast)
      case Err(_) => {}
    else {}
  }

  /** How evaluateAst takes a binary node apart: left operand, right
      operand, operator, the first failure stopping it. */
  lemma FormulaStep(V: View, vis: set<CellAddress>, a: CellAddress, ast: Ast)
    requires a in V && V[a] == EFormula(Ok(ast)) && a !in vis
    ensures EvalCell(V, vis, a) ==
      match EvalAst(V, vis + {a}, ast)
      case Val(v) => EvalResult(v, None)
      case Fail(f) => EvalResult(Null, Some(FaultError(f)))
  {
  }

  lemma BinaryStep(V: View, vis: set<CellAddress>, op: BinOp, left: Ast, right: Ast)
    ensures EvalAst(V, vis, Binary(op, left, right)) ==
      match EvalAst(V, vis, left)
      case Fail(f) => Fail(f)
      case Val(l) =>
        match EvalAst(V, vis, right)
        case Fail(f) => Fail(f)
        case Val(r) => BinaryOp(op, l, r)
  {
  }

  lemma CollectDone(V: View, vis: set<CellAddress>, addrs: seq<CellAddress>, collect: seq<Value>)
    requires collect + Collect(V, vis, addrs[|addrs|..]) == Collect(V, vis, addrs)
    ensures collect == Collect(V, vis, addrs)
  {
    assert addrs[|addrs|..] == [];
    assert collect + [] == collect;
  }

  /** A range evaluates to its cells' values, or fails with the range
      error. */
  lemma RangeStep(V: View, vis: set<CellAddress>, start: CellAddress, end: CellAddress)
    ensures var addrs := RangeAddresses(start, end, ColMajor);
      EvalRange(V, vis, start, end) == if addrs.Err? then Fail(Other(addrs.msg)) else Val(Collect(V, vis, addrs.value))
  {
  }

  /** How evaluateRange walks the range: the values collected before cell
      i, the outcome of cell i, then the rest. */
  lemma CollectStep(V: View, vis: set<CellAddress>, addrs: seq<CellAddress>, i: nat,
                    collect: seq<Value>, v: Outcome<Value>)
    requires i < |addrs| && v == EvalRef(V, vis, addrs[i])
    requires collect + Collect(V, vis, addrs[i..]) == Collect(V, vis, addrs)
    ensures (if v.Val? then collect + [v.value] else collect) + Collect(V, vis, addrs[i + 1..])
      == Collect(V, vis, addrs)
  {
    assert addrs[i..][1..] == addrs[i + 1..];
    if v.Val? {
      assert collect + [v.value] + Collect(V, vis, addrs[i + 1..]) == collect + ([v.value] + Collect(V, vis, addrs[i + 1..]));
    }
  }

  /** How the aggregates' argument evaluation walks the arguments: one
      argument, then the rest, the first failure stopping it. */
  lemma ArgsStep(V: View, vis: set<CellAddress>, args: seq<Ast>, i: nat)
    requires i < |args|
    ensures EvalArgs(V, vis, args[i..]) ==
      match EvalArg(V, vis, args[i])
      case Fail(f) => Fail(f)
      case Val(first) =>
        match EvalArgs(V, vis, args[i + 1..])
        case Fail(f) => Fail(f)
        case Val(rest) => Val([first] + rest)
  {
    assert args[i..][0] == args[i] && args[i..][1..] == args[i + 1..];
  }

  /** One argument: a range to its cells' values, anything else to its
      value. */
  lemma ArgStep(V: View, vis: set<CellAddress>, arg: Ast)
    ensures EvalArg(V, vis, arg) ==
      if arg.RangeRef? then
        match EvalRange(V, vis, arg.start, arg.end)
        case Fail(f) => Fail(f)
        case Val(vs) => Val(Many(vs))
      else
        match EvalAst(V, vis, arg)
        case Fail(f) => Fail(f)
        case Val(v) => Val(One(v))
  {
  }

  /** How a call is evaluated: by its handler, IF lazily, the aggregates
      over all their arguments. */
  lemma CallStep(V: View, vis: set<CellAddress>, name: string, args: seq<Ast>)
    ensures EvalCall(V, vis, name, args) ==
      match LookupHandler(name)
      case None => Fail(Other("Unknown function: " + name))
      case Some(h) =>
        if h == IfH then
          if |args| < 2 then Val(Null)
          else
            match EvalAst(V, vis, args[0])
            case Fail(f) => Fail(f)
            case Val(c) =>
              if Truthy(c) then EvalAst(V, vis, args[1])
              else if |args| > 2 then EvalAst(V, vis, args[2])
              else Val(Null)
        else
          match EvalArgs(V, vis, args)
          case Fail(f) => Fail(f)
          case Val(parts) => Val(Aggregate(h, Flattened(parts)))
  {
  }

  lemma PrependedNothing(o: Outcome<seq<Arg>>)
    ensures Prepended([], o) == o
  {
    if o.Val? {
      assert [] + o.value == o.value;
    }
  }

  lemma PrependedStep(parts: seq<Arg>, first: Arg, o: Outcome<seq<Arg>>)
    ensures Prepended(parts + [first], o) ==
      Prepended(parts, match o case Fail(f) => Fail(f) case Val(rest) => Val([first] + rest))
  {
    if o.Val? {
      assert (parts + [first]) + o.value == parts + ([first] + o.value);
    }
  }

  /** The state of the breadth-first gathering: toEval lists distinct cells,
      starting with address, all reachable from it; the first head of them
      have been expanded, their successors listed, and the rest are the
      queue. */
  ghost predicate Bfs(D: Graph, address: CellAddress, U: set<CellAddress>,
                      toEval: seq<CellAddress>, queue: seq<CellAddress>, head: int)
  {
    && 0 <= head <= |toEval| && queue == toEval[head..]
    && Distinct(toEval) && |toEval| > 0 && toEval[0] == address
    && U == Nodes(D) + {address} && Elems(toEval) <= U
    && (forall x :: x in Elems(toEval) ==> Reachable(D, address, x))
    && (forall k :: 0 <= k < head ==> Succ(D, toEval[k]) <= Elems(toEval))
  }

  lemma BfsStart(D: Graph, address: CellAddress)
    ensures Bfs(D, address, Nodes(D) + {address}, [address], [address], 0)
  {
    ReachSelf(D, address);
  }

  /** Expanding the head of the queue keeps the state, and either lists a
      new cell or shortens the queue. */
  lemma BfsAdvance(D: Graph, address: CellAddress, U: set<CellAddress>,
                   toEval: seq<CellAddress>, queue: seq<CellAddress>, head: int,
                   toEval': seq<CellAddress>, queue': seq<CellAddress>)
    requires Bfs(D, address, U, toEval, queue, head) && |queue| > 0
    requires Distinct(toEval') && Elems(toEval') == Elems(toEval) + Succ(D, queue[0])
    requires |toEval| <= |toEval'| && toEval'[..|toEval|] == toEval
    requires queue' == queue[1..] + toEval'[|toEval|..]
    ensures Bfs(D, address, U, toEval', queue', head + 1)
    ensures |U - Elems(toEval')| < |U - Elems(toEval)|
      || (|U - Elems(toEval')| == |U - Elems(toEval)| && |queue'| < |queue|)
  {
    var cur := queue[0];
    assert cur == toEval[head];
    assert cur in Elems(toEval);
    var added := toEval'[|toEval|..];
    assert toEval' == toEval + added;
    assert toEval'[head + 1..] == toEval[head + 1..] + added;
    forall x | x in Elems(toEval')
      ensures Reachable(D, address, x)
    {
      if x !in Elems(toEval) {
        ReachStep(D, address, cur, x);
      }
    }
    forall k | 0 <= k < head + 1
      ensures Succ(D, toEval'[k]) <= Elems(toEval')
    {
      assert toEval'[k] == toEval[k];
    }
    if Elems(toEval') != Elems(toEval) {
      var x :| x in Elems(toEval') && x !in Elems(toEval);
      FewerLeft(U, Elems(toEval), Elems(toEval'), x);
    } else {
      NothingNew(toEval, added);
    }
  }

  /** Appending cells already listed breaks distinctness. */
  lemma NothingNew(s: seq<CellAddress>, added: seq<CellAddress>)
    requires Distinct(s) && Distinct(s + added) && Elems(s + added) == Elems(s)
    ensures added == []
  {
    DistinctCard(s);
    DistinctCard(s + added);
  }

  /** Once the queue is empty, toEval holds exactly what address reaches. */
  lemma BfsDone(D: Graph, address: CellAddress, U: set<CellAddress>,
                toEval: seq<CellAddress>, head: int, x: CellAddress)
    requires Bfs(D, address, U, toEval, [], head)
    ensures x in Elems(toEval) <==> Reachable(D, address, x)
  {
    assert head == |toEval|;
    forall y | y in Elems(toEval)
      ensures Succ(D, y) <= Elems(toEval)
    {
      var k :| 0 <= k < |toEval| && toEval[k] == y;
    }
    if Reachable(D, address, x) {
      ClosedHoldsReachable(D, Elems(toEval), address, x);
    }
  }

  /** Appends the cells of ds not listed in toEval yet, to both toEval and
      the queue (the inner loop of lib/engine.ts:399-403). */
  method Enqueue(toEval: seq<CellAddress>, queue: seq<CellAddress>, ds: set<CellAddress>)
    returns (toEval': seq<CellAddress>, queue': seq<CellAddress>)
    requires Distinct(toEval)
    ensures Distinct(toEval') && Elems(toEval') == Elems(toEval) + ds
    ensures |toEval| <= |toEval'| && toEval'[..|toEval|] == toEval
    ensures queue' == queue + toEval'[|toEval|..]
  {
    toEval', queue' := toEval, queue;
    var rest := ds;
    while rest != {}
      invariant rest <= ds
      invariant Distinct(toEval') && Elems(toEval') == Elems(toEval) + (ds - rest)
      invariant |toEval| <= |toEval'| && toEval'[..|toEval|] == toEval
      invariant queue' == queue + toEval'[|toEval|..]
      decreases rest
    {
      var d :| d in rest;
      if d !in toEval' {
        assert (toEval' + [d])[|toEval|..] == toEval'[|toEval|..] + [d];
        assert Elems(toEval' + [d]) == Elems(toEval') + {d};
        toEval', queue' := toEval' + [d], queue' + [d];
      }
      rest := rest - {d};
    }
  }

  /** The operands of evaluateArgs gathered so far, ahead of the rest. */
  function Prepended(parts: seq<Arg>, rest: Outcome<seq<Arg>>): Outcome<seq<Arg>>
  {
    match rest
    case Val(vs) => Val(parts + vs)
    case Fail(f) => Fail(f)
  }

  class FormulaEngine {
    var depGraph: DependencyGraph

    /** The graph keeps its two maps inverse, and the hasCycle guard on
        every insertion keeps it acyclic. */
    ghost predicate Valid()
      reads this, depGraph
    {
      depGraph.Valid() && Acyclic(depGraph.dependencies)
    }

    constructor()
      ensures Valid() && fresh(depGraph) && depGraph.dependencies == map[]
    {
      depGraph := new DependencyGraph();
    }

    // -------------------------------------------------------------------------
    // Evaluation

    /** evaluateCell without a shared set (lib/engine.ts:80-149): the cell's
        value or error, with a fresh visited set. */
    method EvaluateCell(sheet: Sheet, address: CellAddress) returns (r: EvalResult)
      modifies sheet
      ensures CachesOnly(old(sheet.cells), sheet.cells)
      ensures ViewOf(sheet.cells) == old(ViewOf(sheet.cells))
      ensures r == EvalCell(ViewOf(sheet.cells), {}, address)
    {
      var visited := new VisitedSet();
      r := EvaluateCellShared(sheet, address, visited);
    }

    /** The tree of a formula cell (lib/engine.ts:92-102): the cached one, or
        the parse of its text, which is then cached in the cell when it
        succeeds; no other cell changes, and the view is unchanged. */
    method EnsureAst(sheet: Sheet, address: CellAddress) returns (ast: Result<Ast>)
      requires address in sheet.cells && sheet.cells[address].FormulaCell?
      modifies sheet
      ensures sheet.cells == old(sheet.cells)[address := CacheParse(old(sheet.cells)[address])]
      ensures CachesOnly(old(sheet.cells), sheet.cells)
      ensures ViewOf(sheet.cells) == old(ViewOf(sheet.cells))
      ensures address in ViewOf(sheet.cells) && ViewOf(sheet.cells)[address] == EFormula(ast)
    {
      var cell := sheet.cells[address];
      CacheOne(sheet.cells, address);
      CachingKeepsView(sheet.cells, sheet.cells[address := CacheParse(cell)]);
      if cell.ast.Some? {
        assert sheet.cells[address := CacheParse(cell)] == sheet.cells;
        return Ok(cell.ast.value);
      }
      ast := ParseFormula(FormulaText(cell.src));
      if ast.Ok? {
        sheet.cells := sheet.cells[address := FormulaCell(cell.src, Some(ast.value))];
      } else {
        assert sheet.cells[address := CacheParse(cell)] == sheet.cells;
      }
    }

    /** evaluateCell with a shared visited set (lib/engine.ts:80-149). The
        set is restored on every return, and a formula's parse is cached in
        its cell. */
    method EvaluateCellShared(sheet: Sheet, address: CellAddress, visited: VisitedSet) returns (r: EvalResult)
      modifies sheet, visited
      ensures CachesOnly(old(sheet.cells), sheet.cells)
      ensures ViewOf(sheet.cells) == old(ViewOf(sheet.cells)) && visited.items == old(visited.items)
      ensures r == EvalCell(ViewOf(sheet.cells), visited.items, address)
      decreases |sheet.cells.Keys - visited.items|, 0, 1
    {
      if address !in sheet.cells {
        return EvalResult(Null, None);
      }
      match sheet.cells[address]
      case LiteralCell(v) =>
        r := EvalResult(v, None);
      case ErrorCell(code, m) =>
        r := EvalResult(Null, Some(CellError(code, m)));
      case FormulaCell(_, _) =>
        var parsed := EnsureAst(sheet, address);
        if parsed.Err? {
          return EvalResult(Null, Some(CellError("PARSE", parsed.msg)));
        }
        if address in visited.items {
          return EvalResult(Null, Some(FaultError(Cycle)));
        }
        ghost var S1 := sheet.cells;
        r := EvaluateFormula(sheet, address, parsed.value, visited);
        CachesTrans(old(sheet.cells), S1, sheet.cells);
    }

    /** The try block of evaluateCell (lib/engine.ts:103-148) for a formula
        cell whose tree parsed and which is not being evaluated already: the
        cell is marked visited, its tree evaluated, and the mark removed. */
    method EvaluateFormula(sheet: Sheet, address: CellAddress, ast: Ast, visited: VisitedSet) returns (r: EvalResult)
      requires address in ViewOf(sheet.cells) && ViewOf(sheet.cells)[address] == EFormula(Ok(ast))
      requires address !in visited.items
      modifies sheet, visited
      ensures CachesOnly(old(sheet.cells), sheet.cells)
      ensures ViewOf(sheet.cells) == old(ViewOf(sheet.cells)) && visited.items == old(visited.items)
      ensures r == EvalCell(ViewOf(sheet.cells), visited.items, address)
      decreases |sheet.cells.Keys - visited.items|, 0, 0
    {
      ghost var V, vis := ViewOf(sheet.cells), visited.items;
      FormulaStep(V, vis, address, ast);
      VisitShrinks(sheet.cells.Keys, visited.items, address);
      visited.items := visited.items + {address};
      var v := EvaluateAst(sheet, ast, visited);
      visited.items := visited.items - {address};
      match v
      case Val(x) => r := EvalResult(x, None);
      case Fail(f) => r := EvalResult(Null, Some(FaultError(f)));
    }

    /** evaluateAst (lib/engine.ts:151-180). */
    method EvaluateAst(sheet: Sheet, ast: Ast, visited: VisitedSet) returns (r: Outcome<Value>)
      modifies sheet, visited
      ensures CachesOnly(old(sheet.cells), sheet.cells)
      ensures ViewOf(sheet.cells) == old(ViewOf(sheet.cells)) && visited.items == old(visited.items)
      ensures r == EvalAst(ViewOf(sheet.cells), visited.items, ast)
      decreases |sheet.cells.Keys - visited.items|, 4, Size(ast)
    {
      match ast
      case NumberLit(n) =>
        r := Val(Num(n));
      case StringLit(s) =>
        r := Val(Str(s));
      case BooleanLit(b) =>
        r := Val(Bool(b));
      case Ref(address, _, _) =>
        r := EvaluateCellRef(sheet, address, visited);
      case RangeRef(start, end) =>
        var vs := EvaluateRange(sheet, start, end, visited);
        if vs.Fail? {
          return Fail(vs.fault);
        }
        r := Val(if |vs.value| > 0 then vs.value[0] else Null);
      case Call(name, args) =>
        r := EvaluateFunction(sheet, name, args, visited);
      case Binary(op, left, right) =>
        r := EvaluateBinaryOp(sheet, op, left, right, visited);
      case Negate(operand) =>
        var v := EvaluateAst(sheet, operand, visited);
        if v.Fail? {
          return Fail(v.fault);
        }
        r := Val(UnaryMinus(v.value));
    }

    /** evaluateBinaryOp (lib/engine.ts:266-335): the left operand, then the
        right, then the operator. */
    method EvaluateBinaryOp(sheet: Sheet, op: BinOp, left: Ast, right: Ast, visited: VisitedSet) returns (r: Outcome<Value>)
      modifies sheet, visited
      ensures CachesOnly(old(sheet.cells), sheet.cells)
      ensures ViewOf(sheet.cells) == old(ViewOf(sheet.cells)) && visited.items == old(visited.items)
      ensures r == EvalAst(ViewOf(sheet.cells), visited.items, Binary(op, left, right))
      decreases |sheet.cells.Keys - visited.items|, 4, Size(left) + Size(right) + 2
    {
      ghost var V, vis := ViewOf(sheet.cells), visited.items;
      BinaryStep(V, vis, op, left, right);
      var l := EvaluateAst(sheet, left, visited);
      if l.Fail? {
        return Fail(l.fault);
      }
      ghost var S1 := sheet.cells;
      var rv := EvaluateAst(sheet, right, visited);
      CachesTrans(old(sheet.cells), S1, sheet.cells);
      if rv.Fail? {
        return Fail(rv.fault);
      }
      r := BinaryOp(op, l.value, rv.value);
    }

    /** evaluateCellRef (lib/engine.ts:182-227). */
    method EvaluateCellRef(sheet: Sheet, address: CellAddress, visited: VisitedSet) returns (r: Outcome<Value>)
      modifies sheet, visited
      ensures CachesOnly(old(sheet.cells), sheet.cells)
      ensures ViewOf(sheet.cells) == old(ViewOf(sheet.cells)) && visited.items == old(visited.items)
      ensures r == EvalRef(ViewOf(sheet.cells), visited.items, address)
      decreases |sheet.cells.Keys - visited.items|, 1, 0
    {
      if address in visited.items {
        return Fail(Cycle);
      }
      if address !in sheet.cells {
        return Fail(BadRef);
      }
      match sheet.cells[address]
      case LiteralCell(v) =>
        r := Val(v);
      case ErrorCell(code, m) =>
        r := Fail(CodeFault(code, m));
      case FormulaCell(_, _) =>
        var nested := EvaluateCellShared(sheet, address, visited);
        if nested.error.Some? {
          r := Fail(CodeFault(nested.error.value.code, nested.error.value.message));
        } else {
          r := Val(nested.value);
        }
    }

    /** evaluateRange (lib/engine.ts:229-254): each cell of the range in
        column-major order, the ones whose evaluation fails skipped. */
    method EvaluateRange(sheet: Sheet, start: CellAddress, end: CellAddress, visited: VisitedSet)
      returns (r: Outcome<seq<Value>>)
      modifies sheet, visited
      ensures CachesOnly(old(sheet.cells), sheet.cells)
      ensures ViewOf(sheet.cells) == old(ViewOf(sheet.cells)) && visited.items == old(visited.items)
      ensures r == EvalRange(ViewOf(sheet.cells), visited.items, start, end)
      decreases |sheet.cells.Keys - visited.items|, 3, 0
    {
      ghost var V, vis := ViewOf(sheet.cells), visited.items;
      RangeStep(V, vis, start, end);
      var addrs := IterateRange(start, end, ColMajor);
      if addrs.Err? {
        return Fail(Other(addrs.msg));
      }
      var all := addrs.value;
      var collect := [];
      for i := 0 to |all|
        invariant CachesOnly(old(sheet.cells), sheet.cells)
        invariant ViewOf(sheet.cells) == V && visited.items == vis
        invariant collect + Collect(V, vis, all[i..]) == Collect(V, vis, all)
      {
        ghost var S1 := sheet.cells;
        var v := EvaluateCellRef(sheet, all[i], visited);
        CachesTrans(old(sheet.cells), S1, sheet.cells);
        CollectStep(V, vis, all, i, collect, v);
        if v.Val? {
          collect := collect + [v.value];
        }
      }
      CollectDone(V, vis, all, collect);
      r := Val(collect);
    }

    /** evaluateFunction (lib/dependency-graph/function-registry.ts:103-116)
        with the handlers it dispatches to (function-registry.ts:11-80): an
        unknown name fails, IF evaluates its condition and one branch, an
        aggregate evaluates all its arguments and folds their values. */
    method EvaluateFunction(sheet: Sheet, name: string, args: seq<Ast>, visited: VisitedSet)
      returns (r: Outcome<Value>)
      modifies sheet, visited
      ensures CachesOnly(old(sheet.cells), sheet.cells)
      ensures ViewOf(sheet.cells) == old(ViewOf(sheet.cells)) && visited.items == old(visited.items)
      ensures r == EvalCall(ViewOf(sheet.cells), visited.items, name, args)
      decreases |sheet.cells.Keys - visited.items|, 4, ArgsSize(args) + 1
    {
      CallStep(ViewOf(sheet.cells), visited.items, name, args);
      var h := LookupHandler(name);
      if h.None? {
        return Fail(Other("Unknown function: " + name));
      }
      if h.value == IfH {
        if |args| < 2 {
          return Val(Null);
        }
        ArgSizeBound(args, 0);
        ArgSizeBound(args, 1);
        var c := EvaluateAst(sheet, args[0], visited);
        if c.Fail? {
          return Fail(c.fault);
        }
        ghost var S1 := sheet.cells;
        if Truthy(c.value) {
          r := EvaluateAst(sheet, args[1], visited);
        } else if |args| > 2 {
          ArgSizeBound(args, 2);
          r := EvaluateAst(sheet, args[2], visited);
        } else {
          r := Val(Null);
        }
        CachesTrans(old(sheet.cells), S1, sheet.cells);
        return;
      }
      var parts := EvaluateArgs(sheet, args, visited);
      if parts.Fail? {
        return Fail(parts.fault);
      }
      var vals := Flatten(parts.value);
      var result := Apply(h.value, vals);
      r := Val(result);
    }

    /** The `args.map` of the aggregate handlers
        (function-registry.ts:11-80): each argument in turn, a range to
        its cells' values, stopping at the first failure. */
    method EvaluateArgs(sheet: Sheet, args: seq<Ast>, visited: VisitedSet) returns (r: Outcome<seq<Arg>>)
      modifies sheet, visited
      ensures CachesOnly(old(sheet.cells), sheet.cells)
      ensures ViewOf(sheet.cells) == old(ViewOf(sheet.cells)) && visited.items == old(visited.items)
      ensures r == EvalArgs(ViewOf(sheet.cells), visited.items, args)
      decreases |sheet.cells.Keys - visited.items|, 4, ArgsSize(args)
    {
      ghost var V, vis := ViewOf(sheet.cells), visited.items;
      var parts := [];
      PrependedNothing(EvalArgs(V, vis, args));
      for i := 0 to |args|
        invariant CachesOnly(old(sheet.cells), sheet.cells)
        invariant ViewOf(sheet.cells) == V && visited.items == vis
        invariant Prepended(parts, EvalArgs(V, vis, args[i..])) == EvalArgs(V, vis, args)
      {
        ArgSizeBound(args, i);
        ArgsStep(V, vis, args, i);
        ArgStep(V, vis, args[i]);
        ghost var S1 := sheet.cells;
        var a: Outcome<Arg>;
        if args[i].RangeRef? {
          var vs := EvaluateRange(sheet, args[i].start, args[i].end, visited);
          a := if vs.Fail? then Fail(vs.fault) else Val(Many(vs.value));
        } else {
          var v := EvaluateAst(sheet, args[i], visited);
          a := if v.Fail? then Fail(v.fault) else Val(One(v.value));
        }
        CachesTrans(old(sheet.cells), S1, sheet.cells);
        if a.Fail? {
          return Fail(a.fault);
        }
        PrependedStep(parts, a.value, EvalArgs(V, vis, args[i + 1..]));
        parts := parts + [a.value];
      }
      assert args[|args|..] == [] && parts + [] == parts;
      r := Val(parts);
    }

    // -------------------------------------------------------------------------
    // Linking a formula into the graph

    /** One guarded insertion of lib/engine.ts:37-42: the edge a -> b is
        added unless b already reaches a. */
    method LinkOne(a: CellAddress, b: CellAddress)
      requires Valid()
      modifies depGraph
      ensures Valid()
      ensures depGraph.dependencies == old(depGraph.dependencies)
        || depGraph.dependencies == AddEdge(old(depGraph.dependencies), a, b)
      ensures b in Succ(depGraph.dependencies, a) || Reachable(depGraph.dependencies, b, a)
    {
      var cycle := depGraph.HasCycle(a, b);
      if !cycle {
        AddEdgeKeepsAcyclic(depGraph.dependencies, a, b);
        depGraph.AddDependency(a, b);
      }
    }

    /** The dependency walk over a formula's tree (lib/engine.ts:31-69,
        repeated at lib/engine.ts:352-388): every cell the tree links to
        becomes an edge from a, or already reaches a, in which case the
        edge is left out and the graph stays acyclic. Only a's edges
        change, and only towards cells of the tree. */
    method LinkCell(a: CellAddress, ast: Ast)
      requires Valid()
      modifies depGraph
      ensures Valid()
      ensures forall x :: x != a ==> Succ(depGraph.dependencies, x) == Succ(old(depGraph.dependencies), x)
      ensures Succ(old(depGraph.dependencies), a) <= Succ(depGraph.dependencies, a)
      ensures Succ(depGraph.dependencies, a) <= Succ(old(depGraph.dependencies), a) + Deps(ast)
      ensures forall b :: b in Deps(ast) ==> b in Succ(depGraph.dependencies, a) || Reachable(depGraph.dependencies, b, a)
    {
      ghost var g0 := depGraph.dependencies;
      var stack := [ast];
      var seen: set<CellAddress> := {};
      assert DepsAll(stack) == Deps(ast) by {
        assert stack[1..] == [];
      }
      while |stack| > 0
        invariant Valid() && LinkState(g0, depGraph.dependencies, a, Deps(ast), DepsAll(stack), seen)
        decreases ArgsSize(stack)
      {
        stack, seen := LinkStep(a, g0, Deps(ast), stack, seen);
      }
    }

    /** One node off the walk's stack: a reference links its cell, a range
        both corners, and a call, an operator or a negation pushes its
        operands. */
    method LinkStep(a: CellAddress, ghost g0: Graph, ghost all: set<CellAddress>,
                    stack: seq<Ast>, seen: set<CellAddress>)
      returns (stack': seq<Ast>, seen': set<CellAddress>)
      requires Valid() && |stack| > 0 && LinkState(g0, depGraph.dependencies, a, all, DepsAll(stack), seen)
      modifies depGraph
      ensures Valid() && LinkState(g0, depGraph.dependencies, a, all, DepsAll(stack'), seen')
      ensures ArgsSize(stack') < ArgsSize(stack)
    {
      PopStack(stack);
      var node := stack[|stack| - 1];
      var rest := stack[..|stack| - 1];
      ghost var pending := DepsAll(stack);
      Operands(node);
      seen' := seen;
      match node
      case Ref(address, _, _) =>
        seen' := Visit(a, address, g0, all, pending, seen');
        stack' := rest;
      case RangeRef(start, end) =>
        seen' := Visit(a, start, g0, all, pending, seen');
        seen' := Visit(a, end, g0, all, pending, seen');
        stack' := rest;
      case Call(_, args) =>
        PushStack(rest, args);
        stack' := rest + args;
      case Binary(_, l, r) =>
        PushStack(rest, [l, r]);
        stack' := rest + [l, r];
      case Negate(e) =>
        PushStack(rest, [e]);
        stack' := rest + [e];
      case _ =>
        stack' := rest;
    }

    /** The `seen` check around one guarded insertion: a cell already
        linked for this formula is not tried again. */
    method Visit(a: CellAddress, b: CellAddress, ghost g0: Graph, ghost all: set<CellAddress>,
                 ghost pending: set<CellAddress>, seen: set<CellAddress>)
      returns (seen': set<CellAddress>)
      requires Valid() && LinkState(g0, depGraph.dependencies, a, all, pending, seen) && b in all
      modifies depGraph
      ensures Valid() && LinkState(g0, depGraph.dependencies, a, all, pending, seen')
      ensures seen' == seen + {b}
    {
      ghost var g := depGraph.dependencies;
      if b !in seen {
        LinkOne(a, b);
      }
      seen' := seen + {b};
      forall c | c in seen' && c !in Succ(depGraph.dependencies, a)
        ensures Reachable(depGraph.dependencies, c, a)
      {
        if c != b {
          GrowsKeepsReach(g, depGraph.dependencies, c, a);
        }
      }
    }

    // -------------------------------------------------------------------------
    // Whole-sheet evaluation and single-cell updates

    /** evaluateSheet (lib/engine.ts:21-78): a fresh graph holding, for each
        formula cell with a cached tree, an edge to each cell of its tree
        unless that cell already reaches it; then every such cell
        evaluated, each from an empty visited set, in getEvaluationOrder's
        order. That order is returned beside the results: it is the order
        in which the results Map holds its entries. */
    method EvaluateSheet(sheet: Sheet) returns (results: map<CellAddress, EvalResult>, order: seq<CellAddress>)
      modifies this, sheet
      ensures Valid() && fresh(depGraph)
      ensures CachesOnly(old(sheet.cells), sheet.cells)
      ensures ViewOf(sheet.cells) == old(ViewOf(sheet.cells))
      ensures results.Keys == CachedFormulas(old(sheet.cells))
      ensures Distinct(order) && Elems(order) == results.Keys
      ensures forall i, j :: 0 <= i < |order| && 0 <= j < |order| && order[j] in Succ(depGraph.dependencies, order[i]) ==> i < j
      ensures forall a :: a in results ==> results[a] == EvalCell(ViewOf(sheet.cells), {}, a)
      ensures forall a :: a !in CachedFormulas(old(sheet.cells)) ==> Succ(depGraph.dependencies, a) == {}
      ensures forall a :: a in CachedFormulas(old(sheet.cells)) ==>
        Succ(depGraph.dependencies, a) <= Deps(old(sheet.cells)[a].ast.value)
      ensures forall a, b :: a in CachedFormulas(old(sheet.cells)) && b in Deps(old(sheet.cells)[a].ast.value) ==>
        b in Succ(depGraph.dependencies, a) || Reachable(depGraph.dependencies, b, a)
    {
      depGraph := new DependencyGraph();
      var formulaCells := LinkSheet(sheet.cells);
      RestrictAcyclic(depGraph.dependencies, Elems(formulaCells));
      order := depGraph.GetEvaluationOrder(formulaCells);
      results := EvaluateAll(sheet, order);
    }

    /** The graph-building loop of evaluateSheet (lib/engine.ts:25-71): each
        formula cell with a cached tree is listed and linked. */
    method LinkSheet(cells: Cells) returns (formulaCells: seq<CellAddress>)
      requires Valid() && depGraph.dependencies == map[]
      modifies depGraph
      ensures Valid() && Elems(formulaCells) == CachedFormulas(cells)
      ensures SheetLinked(depGraph.dependencies, cells, CachedFormulas(cells))
    {
      formulaCells := [];
      var remaining := cells.Keys;
      while remaining != {}
        invariant Valid() && remaining <= cells.Keys
        invariant Elems(formulaCells) == CachedFormulas(cells) - remaining
        invariant SheetLinked(depGraph.dependencies, cells, Elems(formulaCells))
        decreases remaining
      {
        var a :| a in remaining;
        var cell := cells[a];
        if cell.FormulaCell? && cell.ast.Some? {
          ghost var g0 := depGraph.dependencies;
          LinkCell(a, cell.ast.value);
          SheetLinkedStep(g0, depGraph.dependencies, cells, Elems(formulaCells), a);
          assert Elems(formulaCells + [a]) == Elems(formulaCells) + {a};
          formulaCells := formulaCells + [a];
        }
        remaining := remaining - {a};
      }
    }

    /** The evaluation loop of evaluateSheet (lib/engine.ts:72-77). */
    method EvaluateAll(sheet: Sheet, order: seq<CellAddress>) returns (results: map<CellAddress, EvalResult>)
      modifies sheet
      ensures CachesOnly(old(sheet.cells), sheet.cells)
      ensures ViewOf(sheet.cells) == old(ViewOf(sheet.cells))
      ensures results.Keys == Elems(order)
      ensures forall a :: a in results ==> results[a] == EvalCell(ViewOf(sheet.cells), {}, a)
    {
      ghost var V := ViewOf(sheet.cells);
      results := map[];
      for i := 0 to |order|
        invariant CachesOnly(old(sheet.cells), sheet.cells)
        invariant ViewOf(sheet.cells) == V
        invariant results.Keys == Elems(order[..i])
        invariant forall x :: x in results ==> results[x] == EvalCell(V, {}, x)
      {
        ghost var S1 := sheet.cells;
        var r := EvaluateCell(sheet, order[i]);
        CachesTrans(old(sheet.cells), S1, sheet.cells);
        assert Elems(order[..i + 1]) == Elems(order[..i]) + {order[i]} by {
          assert order[..i + 1] == order[..i] + [order[i]];
        }
        results := results[order[i] := r];
      }
      assert order[..|order|] == order;
    }

    /** updateCell (lib/engine.ts:337-413): the cell is written or deleted,
        its edges are rebuilt from its formula (a formula that does not
        parse gets none), the cells depending on it are gathered
        breadth-first, and every formula cell among them is evaluated.
        `affected` is what the gathering reaches, `evaluated` the formula
        cells evaluated. */
    method UpdateCell(sheet: Sheet, address: CellAddress, cell: Option<Cell>)
      returns (s: Sheet, ghost affected: set<CellAddress>, ghost evaluated: set<CellAddress>)
      requires Valid()
      modifies sheet, depGraph
      ensures s == sheet && Valid()
      ensures CachesOnly(Written(old(sheet.cells), address, cell), sheet.cells)
      ensures cell.Some? ==> address in sheet.cells && sheet.cells[address] == CacheParse(cell.value)
      ensures ViewOf(sheet.cells) == ViewOf(Written(old(sheet.cells), address, cell))
      ensures forall x :: x != address ==> Succ(depGraph.dependencies, x) == Succ(old(depGraph.dependencies), x)
      ensures Succ(depGraph.dependencies, address) <= LinkTargets(cell)
      ensures forall b :: b in LinkTargets(cell) ==>
        b in Succ(depGraph.dependencies, address) || Reachable(depGraph.dependencies, b, address)
      ensures forall x :: x in affected <==> Reachable(depGraph.dependencies, x, address)
      ensures forall x :: x in evaluated <==>
        x in affected && x in ViewOf(sheet.cells) && ViewOf(sheet.cells)[x].EFormula?
    {
      Relink(sheet, address, cell);
      ghost var W := Written(old(sheet.cells), address, cell);
      var toEval := CollectAffected(address);
      affected := Elems(toEval);
      ghost var S2 := sheet.cells;
      evaluated := EvaluateAffected(sheet, toEval);
      CachesTrans(W, S2, sheet.cells);
      CachingKeepsView(W, sheet.cells);
      s := sheet;
    }

    /** The first half of updateCell (lib/engine.ts:342-389): the cell is
        written or deleted, its parse cached when it is a formula that
        parses, and its edges rebuilt from that formula's tree. */
    method Relink(sheet: Sheet, address: CellAddress, cell: Option<Cell>)
      requires Valid()
      modifies sheet, depGraph
      ensures Valid()
      ensures CachesOnly(Written(old(sheet.cells), address, cell), sheet.cells)
      ensures cell.Some? ==> address in sheet.cells && sheet.cells[address] == CacheParse(cell.value)
      ensures forall x :: x != address ==> Succ(depGraph.dependencies, x) == Succ(old(depGraph.dependencies), x)
      ensures Succ(depGraph.dependencies, address) <= LinkTargets(cell)
      ensures forall b :: b in LinkTargets(cell) ==>
        b in Succ(depGraph.dependencies, address) || Reachable(depGraph.dependencies, b, address)
    {
      sheet.cells := Written(sheet.cells, address, cell);
      ghost var g1 := depGraph.dependencies;
      depGraph.RemoveDependencies(address);
      SubgraphAcyclic(depGraph.dependencies, g1);
      if cell.Some? && cell.value.FormulaCell? {
        var parsed := EnsureAst(sheet, address);
        if parsed.Ok? {
          LinkCell(address, parsed.value);
        }
      }
    }

    /** The breadth-first gathering of lib/engine.ts:393-404: address, then
        every cell that reads, directly or through other cells, a cell
        gathered already, each once. */
    method CollectAffected(address: CellAddress) returns (toEval: seq<CellAddress>)
      requires Valid()
      ensures Distinct(toEval) && |toEval| > 0 && toEval[0] == address
      ensures forall x :: x in Elems(toEval) <==> Reachable(depGraph.dependencies, x, address)
    {
      ghost var D := depGraph.dependents;
      ghost var U := Nodes(D) + {address};
      ghost var head := 0;
      toEval := [address];
      var queue := [address];
      BfsStart(D, address);
      while |queue| > 0
        invariant Bfs(D, address, U, toEval, queue, head)
        decreases |U - Elems(toEval)|, |queue|
      {
        var cur := queue[0];
        var dependents := depGraph.GetDependents(cur);
        assert dependents == Succ(D, cur);
        var toEval', queue' := Enqueue(toEval, queue[1..], dependents);
        BfsAdvance(D, address, U, toEval, queue, head, toEval', queue');
        toEval, queue, head := toEval', queue', head + 1;
      }
      forall x
        ensures x in Elems(toEval) <==> Reachable(depGraph.dependencies, x, address)
      {
        BfsDone(D, address, U, toEval, head, x);
        InverseReach(depGraph.dependencies, D, address, x);
      }
    }

    /** The evaluation pass of lib/engine.ts:405-410: the gathered cells in
        the graph's evaluation order, each formula cell among them
        evaluated from an empty visited set. */
    method EvaluateAffected(sheet: Sheet, toEval: seq<CellAddress>) returns (ghost evaluated: set<CellAddress>)
      modifies sheet
      ensures CachesOnly(old(sheet.cells), sheet.cells)
      ensures ViewOf(sheet.cells) == old(ViewOf(sheet.cells))
      ensures forall x :: x in evaluated <==>
        x in Elems(toEval) && x in ViewOf(sheet.cells) && ViewOf(sheet.cells)[x].EFormula?
    {
      var order := depGraph.GetEvaluationOrder(toEval);
      ghost var V := ViewOf(sheet.cells);
      evaluated := {};
      for i := 0 to |order|
        invariant CachesOnly(old(sheet.cells), sheet.cells)
        invariant ViewOf(sheet.cells) == V
        invariant forall x :: x in evaluated <==> x in Elems(order[..i]) && x in V && V[x].EFormula?
      {
        var addr := order[i];
        ElemsSnoc(order, i);
        FormulaEntry(sheet.cells, addr);
        if addr in sheet.cells && sheet.cells[addr].FormulaCell? {
          ghost var S1 := sheet.cells;
          var ignored := EvaluateCell(sheet, addr);
          CachesTrans(old(sheet.cells), S1, sheet.cells);
          evaluated := evaluated + {addr};
        }
      }
      assert order[..|order|] == order;
    }
  }
}
