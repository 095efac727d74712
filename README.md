# Formula engine model

A Dafny model of the formula engine behind a small spreadsheet: cell
addresses such as `B7` and `$C$12`, the lexer and precedence-climbing
parser that turn formula text into a tree, the dependency graph between
cells (forward and reverse maps, a cycle pre-check before every edge,
Kahn's ordering), the built-in functions `SUM`, `AVG`, `MIN`, `MAX`,
`COUNT` and `IF`, the JavaScript-style value coercions of the binary
operators, and the `FormulaEngine` class, which evaluates a whole sheet or
re-evaluates only what one edited cell affects.

The modules follow the source files:

| module | file | source |
|---|---|---|
| `Wrappers`, `Text` | wrappers.dfy, text.dfy | `Result`/`Option`, decimal digits, ASCII upper-casing, JavaScript's `\s` |
| `Address` | address.dfy | lib/address.ts |
| `Utils` | utils.dfy | lib/utils.ts |
| `Grid` | grid.dfy | lib/grid.ts |
| `Lexing`, `Parsing`, `ParseExamples` | lexer.dfy, parser.dfy, parse_examples.dfy | lib/parser.ts |
| `Graphs`, `DepGraph` | graphs.dfy, dependency_graph.dfy | lib/dependency-graph/index.ts |
| `FunctionRegistry` | function_registry.dfy | lib/dependency-graph/function-registry.ts |
| `Coercion`, `Evaluation`, `Engine` | coercion.dfy, evaluation.dfy, engine.dfy | lib/engine.ts |

Pure code becomes functions. Loops and state become methods and classes
proved against those functions:

- The lexer and the parser are classes (`Lexing.Lexer`, `Parsing.Parser`).
  Their methods are proved equal to the pure functions `NextSpec`,
  `Expression`, `Primary` and `Formula`.
- `DepGraph.DependencyGraph` keeps the two maps of the source and the
  invariant that they are each other's inverse.
- `Engine.FormulaEngine` owns a `DependencyGraph` and works on a `Sheet`
  object whose cell map it updates. Its evaluation methods are proved
  equal to the reference evaluator in `Evaluation`.

Choices in how the source is modelled:

- A thrown `Error` becomes the `Err` case of `Result`, carrying the same
  message.
- The errors the evaluator throws and catches (circular reference, bad
  reference, division by zero, and any other error) become the `Fault`
  datatype; `evaluateCell` maps them to the codes CYCLE, REF, DIV0 and
  PARSE.
- JavaScript numbers are `real`.
- The reference evaluator reads a view of the sheet in which each formula
  cell is its parsed tree or its parse error. The engine caches a parsed
  tree in its cell (lib/engine.ts:92-100 and 348-351). The methods state
  that caching exactly: `Evaluation.CachesOnly(before, after)` says every
  cell is as it was or has its parse cached (`Evaluation.CacheParse`).
  Caching does not change the view (`Evaluation.CachingKeepsView`), so
  every evaluation method can also promise a value in terms of the sheet
  before the call.
- The iteration order of a JavaScript `Set`, and of the `for...in` over
  the sheet's cells in evaluateSheet (lib/engine.ts:25), is left open: a
  cell is chosen from the set with `:|`. Every property proved holds for
  every such order.

Two behaviours of the code differ from what their names suggest:

- `getEvaluationOrder` counts in-degrees on the dependency side
  (lib/dependency-graph/index.ts:52-59). A cell therefore comes out
  BEFORE the cells it reads, not after them as a topological order of
  dependencies would put it. `DepGraph.DependencyGraph.GetEvaluationOrder`
  proves the order the code produces. The results are unaffected, since
  every cell is evaluated recursively from its references
  (`Engine.FormulaEngine.EvaluateAll` gives each cell `EvalCell(V, {}, a)`
  whatever the order).
- References keep their `$` markers in the address a cell is looked up by
  (lib/parser.ts:234-238, looked up at lib/engine.ts:188). So `$A$1`
  reads the entry keyed `$A$1`, not `A1`.

## Model

| member | source | states |
|---|---|---|
| Address.Letter | lib/address.ts:9 | the letter for digit d is A-Z with char code 65 + d |
| Address.LettersShape | lib/address.ts:4-13 | the letters of a column are over A-Z, and non-empty exactly for a non-negative column |
| Address.LettersValue | lib/address.ts:4-21 | reading a column's letters back gives the column: letterToCol inverts colToLetter |
| Address.ValueLetters | lib/address.ts:4-21 | writing the value of any A-Z word gives that word back: colToLetter inverts letterToCol |
| Address.ColToLetter | lib/address.ts:4-13 | a negative column fails with "Negative column"; otherwise the result is the column's letters |
| Address.LetterToCol | lib/address.ts:16-21 | text that is not a non-empty A-Z word fails with "Invalid letters"; otherwise the result is a non-negative column whose letters are the text |
| Address.UpperRun | lib/address.ts:30 | the scan of the letters stops at the first non-letter, and everything before it is A-Z |
| Address.ParseAddress | lib/address.ts:24-36 | a failed parse carries "Invalid address: " and the text |
| Address.ParseComposed | lib/address.ts:24-36 | every text of the shape `$?LETTERS$?DIGITS` parses to its letters' column, its digits' row minus one, and its two `$` flags |
| Address.ParseColumn | lib/address.ts:33 | a parsed column is never negative |
| Address.ParseSound | lib/address.ts:24-36 | only texts matching `^(\$)?([A-Z]+)(\$)?(\d+)$` parse |
| Address.ParseAddressMatches | lib/address.ts:24-36 | parseAddress succeeds exactly on the texts matching the address pattern |
| Address.FormatAddress | lib/address.ts:38-49 | formatAddress fails exactly when an index is negative, with "Negative indices" |
| Address.FormatParseRoundTrip | lib/address.ts:24-49 | the address formatAddress writes parses back to exactly its column, row and `$` flags |
| Address.PlainAddressParses | lib/address.ts:73-83 | an address written without `$` markers parses back to its column and row |
| Address.PlainAddressInjective | lib/address.ts:38-49 | two different cells never get the same address |
| Address.ParseRange | lib/address.ts:51-58 | a range text parses exactly when it holds exactly one ':'; the parts it gives rejoin to the text; otherwise it fails with "Invalid range" |
| Address.LineFacts | lib/address.ts:73-76 | the inner loop visits each inner coordinate once, in ascending order |
| Address.BlockLength | lib/address.ts:72-84 | the nested loops visit (outer span) x (inner span) cells |
| Address.BlockFacts | lib/address.ts:72-84 | the nested loops visit exactly the rectangle, in ascending (outer, inner) order |
| Address.RangeCoordsFacts | lib/address.ts:61-85 | the walk covers exactly the rectangle between the two corners, in the order's ascending key order |
| Address.RangeCoordsLength | lib/address.ts:61-85 | the walk has width x height steps |
| Address.WalkLine | lib/address.ts:73-76 | the inner loop yields the addresses of one column (or row) in order |
| Address.WalkColumns | lib/address.ts:72-77 | the column-major loops yield the rectangle column by column, each column top to bottom |
| Address.WalkRows | lib/address.ts:78-84 | the row-major loops yield the rectangle row by row, each row left to right |
| Address.IterateRange | lib/address.ts:61-85 | iterateRange yields the rectangle's addresses in the order's walk, or fails when a corner does not parse or names row 0 (row index -1) |
| Address.GetCellsInRange | lib/address.ts:87-92 | getCellsInRange is the column-major walk, collected |
| Address.RangeSymmetric | lib/address.ts:66-69 | which corner is given first does not change the walk |
| Address.RangeAddressAt | lib/address.ts:61-85 | the k-th address yielded is the k-th cell of the walk, without `$` markers |
| Address.RangeCount | lib/address.ts:61-85 | a range yields one address per cell of its rectangle |
| Address.RangeDistinct | lib/address.ts:61-85 | no address is yielded twice |
| Address.RangeCovers | lib/address.ts:61-85 | every cell of the rectangle is yielded |
| Address.RangeOrdered | lib/address.ts:72-84 | column-major order ascends by column then row; row-major order by row then column |
| Utils.JsRem26 | lib/utils.ts:6 | `n % 26` truncates: between -25 and 25, the Euclidean remainder for n >= 0, never positive for n < 0 |
| Utils.ColLetter | lib/utils.ts:1-10 | colLetter is never empty; for a non-negative index it gives that column's letters; for a negative one, the one character with code 65 + (idx rem 26), between '(' and 'A' ('A' itself for a multiple of 26) |
| Utils.ColLetterAgrees | lib/utils.ts:1-10 | for every non-negative index colLetter spells a non-empty A-Z word that letterToCol reads back as the index |
| Utils.ColLetterExamples | lib/utils.ts:1-10 | columns 0, 25, 26, 701 and 702 are A, Z, AA, ZZ and AAA |
| Grid.IsValidAddress | lib/grid.ts:44-55 | an address is valid exactly when it matches the address pattern and its row and column lie inside the sheet |
| Grid.FormattedIsValid | lib/grid.ts:44-55 | every address formatAddress writes for an in-sheet cell, with or without `$`, is valid |
| Grid.GetNeighbor | lib/grid.ts:58-83 | an unparseable address fails; otherwise the neighbour is absent exactly when the step leaves the sheet, and when present it parses to the stepped cell and is valid |
| Grid.NeighborIsAdjacent | lib/grid.ts:58-83 | a neighbour differs in exactly one coordinate, by one, in the direction's sense, and has no `$` markers |
| Lexing.SkipWs | lib/parser.ts:43 | the whitespace skip stops at the first non-whitespace character |
| Lexing.ScanString | lib/parser.ts:67-86 | the string scan ends inside the input |
| Lexing.ScanNumber | lib/parser.ts:89-110 | the number scan consumes the text it returns, and at least one character when one can start a number |
| Lexing.ScanNumberShape | lib/parser.ts:89-110 | a number token is digits with at most one '.', and the scan stops only where no digit or first '.' follows |
| Lexing.ScanIdent | lib/parser.ts:125-135 | the identifier scan consumes the longest run of `[A-Za-z0-9_$]` and returns it |
| Lexing.Classify | lib/parser.ts:136-145 | every classified identifier is a well-formed token |
| Lexing.LexToken | lib/parser.ts:49-148 | a token read at a non-space position starts there, is not EOF, is well formed and consumes at least one character |
| Lexing.LexLiteral | lib/parser.ts:67-110 | a string or number literal starts at the position, consumes text and is well formed |
| Lexing.LexWord | lib/parser.ts:113-148 | an operator or identifier starts at the position, consumes text and is well formed |
| Lexing.LexAt | lib/parser.ts:34-149 | the token starts after the skipped whitespace; it is EOF exactly at the end of the input; it is well formed |
| Lexing.EofAtEnd | lib/parser.ts:43-44 | the lexer answers EOF exactly when only whitespace is left, and it then stands at the end and answers EOF again |
| Lexing.EofRepeats | lib/parser.ts:43-44 | once nextToken has answered EOF it answers EOF forever |
| Lexing.TwoCharOperator | lib/parser.ts:113-117 | `<=`, `>=` and `<>` are read as one operator token |
| Lexing.NumberToken | lib/parser.ts:89-110 | a number token's text is exactly the input it consumed, has the decimal shape, and the scan was maximal |
| Lexing.NumberLexed | lib/parser.ts:89-110 | the only number tokens are the scanned number literals |
| Lexing.UnexpectedCharacter | lib/parser.ts:148 | the lexer fails exactly at a character no token starts with, saying which character and where |
| Lexing.Escape | lib/parser.ts:67-86 | escaping a string body never shortens it |
| Lexing.ScanEscaped | lib/parser.ts:67-86 | scanning an escaped body and its closing quote gives the body back |
| Lexing.StringLiteral | lib/parser.ts:67-86 | a quoted, escaped body lexes back to the body and consumes the whole literal |
| Lexing.LexQuote | lib/parser.ts:67-86 | input that starts with a quote lexes as a string literal |
| Lexing.UpperCompose | lib/parser.ts:137-140 | upper-casing an address-shaped identifier keeps its `$` markers and digits and upper-cases its letters |
| Lexing.UpperPatternBack | lib/parser.ts:137-140 | an identifier whose upper-cased form has the address shape has the shape itself |
| Lexing.UpperPattern | lib/parser.ts:137-140 | an upper-cased identifier has the address shape exactly when the identifier has it with letters of either case |
| Lexing.ClassifyIdentifier | lib/parser.ts:125-146 | an identifier is a reference exactly when it has the address shape, a boolean exactly when it otherwise spells TRUE or FALSE in any case, and a function name otherwise; its value is upper-cased |
| Lexing.PeekThenNext | lib/parser.ts:151-154 | peek answers what nextToken would, and does not consume: nextToken after it answers the same; a second peek changes nothing |
| Lexing.Lexer.constructor | lib/parser.ts:30-32 | a new lexer stands at the start of its input with nothing cached |
| Lexing.Lexer.NextToken | lib/parser.ts:34-149 | nextToken returns the specified token and moves the lexer to the specified state |
| Lexing.Lexer.ReadToken | lib/parser.ts:45-148 | the scan of one token at a non-space character: the specified token and position, or its error with the position unmoved |
| Lexing.Lexer.ReadString | lib/parser.ts:67-86 | the string-literal loop returns the literal's body and stops after the closing quote |
| Lexing.Lexer.ReadNumber | lib/parser.ts:89-110 | the number loop returns the number text and stops after it |
| Lexing.Lexer.ReadIdent | lib/parser.ts:125-135 | the identifier loop returns the identifier and stops after it |
| Lexing.Lexer.Peek | lib/parser.ts:151-154 | peek returns the specified token and caches it |
| Parsing.OpOf | lib/parser.ts:291-303 | an operator token's text maps to the operator spelled by that text |
| Parsing.OperatorsHavePrecedence | lib/parser.ts:112-122 | every operator token the lexer produces has a precedence, so the operator loop never stops at an unknown operator |
| Parsing.Advanced | lib/parser.ts:278-280 | advance keeps the parser on a lexer-produced token and consumes input unless at EOF |
| Parsing.Expected | lib/parser.ts:282-287 | expect advances exactly when the current token has the kind, and otherwise fails with "Expected X but got Y" |
| Parsing.Expression | lib/parser.ts:180-193 | a parsed expression consumes input and leaves the parser on a lexer-produced token |
| Parsing.Continue | lib/parser.ts:182-191 | the operator loop never moves the parser backwards |
| Parsing.Primary | lib/parser.ts:195-259 | a parsed primary consumes input |
| Parsing.BareFunctionFails | lib/parser.ts:207-211 | a function name not followed by `(` fails with "Unexpected identifier " and the name |
| Parsing.RangeEndMustBeRef | lib/parser.ts:218-226 | `A1:` followed by anything but a cell reference fails with "Range end must be cell reference" |
| Parsing.OnlyMinusPrefix | lib/parser.ts:247-254 | an operator other than `-` where a primary is expected fails with "Unexpected operator " and the operator |
| Parsing.MissingParen | lib/parser.ts:240-243 | a parenthesised expression not closed by `)` fails with "Missing )" |
| Parsing.FunctionCall | lib/parser.ts:261-276 | a parsed call is a call node with the given name, and consumes input |
| Parsing.Arguments | lib/parser.ts:264-274 | a parsed argument list consumes input |
| Parsing.GroupsLeft | lib/parser.ts:180-193 | after `a o1 b`, an operator that binds no tighter than o1 (and is not `^` after `^`) takes `a o1 b` as its left operand |
| Parsing.ContinueExtends | lib/parser.ts:182-191 | the operator loop only wraps operators and right operands around the tree it starts with |
| Parsing.GroupsRight | lib/parser.ts:180-193 | after `a o1 b`, a tighter operator, or `^` after `^`, belongs to o1's right operand |
| Parsing.MinusBindsTightest | lib/parser.ts:247-253 | unary minus takes only the primary after it, so `-a ^ b` is `(-a) ^ b` |
| Parsing.RefFlags | lib/parser.ts:218-238 | a reference keeps the address text and records the `$` markers the address codec reads from it |
| Parsing.BlankFormula | lib/parser.ts:167-178 | an empty or blank formula parses to the number 0 |
| Parsing.ParseReadsAll | lib/parser.ts:167-178 | a successful parse is one expression that reaches the end of the input |
| Parsing.ContinueStops | lib/parser.ts:182-185 | the operator loop stops at anything but an operator of at least the given precedence |
| Parsing.ContinueStep | lib/parser.ts:182-191 | one round of the operator loop: advance, parse the right operand, combine, go on |
| Parsing.Parser.constructor | lib/parser.ts:162-165 | a new parser holds the lexer and its first token |
| Parsing.Parser.Advance | lib/parser.ts:278-280 | advance succeeds exactly when the specified step does, and moves to its state |
| Parsing.Parser.Expect | lib/parser.ts:282-287 | expect succeeds exactly when the specified check does, with its state or its message |
| Parsing.Parser.ParseExpression | lib/parser.ts:180-193 | the loop returns the specified tree and state, or the specified error |
| Parsing.Parser.ParsePrimary | lib/parser.ts:195-259 | parsePrimary returns the specified tree and state, or the specified error |
| Parsing.Parser.ParseFunction | lib/parser.ts:261-276 | parseFunction returns the specified call and state, or the specified error |
| Parsing.Parser.Parse | lib/parser.ts:167-178 | parse returns the specified tree or error |
| Parsing.ParseFormula | lib/parser.ts:306-309 | parseFormula returns the specified tree or error for the text |
| ParseExamples.LexDigit | lib/parser.ts:89-110 | a lone digit lexes as a one-character number |
| ParseExamples.LexSingleOp | lib/parser.ts:118-122 | an arithmetic operator character lexes as a one-character operator |
| ParseExamples.DigitValue | lib/parser.ts:198-201 | a one-digit number token has the digit's value |
| ParseExamples.PrimaryNumber | lib/parser.ts:198-201 | a number token is a primary on its own |
| ParseExamples.Atom | lib/parser.ts:180-193 | a primary followed by no operator is the whole expression |
| ParseExamples.OperatorRound | lib/parser.ts:182-191 | an operator and its right operand extend the tree on the left |
| ParseExamples.Whole | lib/parser.ts:167-178 | a first token and an expression reaching the end make the parse |
| ParseExamples.DigitOpTokens | lib/parser.ts:34-149 | three digits joined by two one-character operators, such as `2-3-4`, lex to five one-character tokens and EOF |
| ParseExamples.FirstPairGroups | lib/parser.ts:180-193 | in `a o1 b o2 c` with o2 binding no tighter than o1 (and not `^` after `^`), the first pair groups first: `(a o1 b) o2 c` |
| ParseExamples.SecondPairGroups | lib/parser.ts:180-193 | in `a o1 b o2 c` with o2 binding tighter than o1 (or `^` after `^`), the second pair groups first: `a o1 (b o2 c)` |
| ParseExamples.LeftAssociativeSubtraction | lib/parser.ts:180-193 | `2-3-4` parses as `(2-3)-4` |
| ParseExamples.ExpressionStart | lib/parser.ts:180-184 | an expression is its primary followed by the operator loop |
| ParseExamples.RightAssociativePower | lib/parser.ts:180-193 | `2^3^2` parses as `2^(3^2)` |
| ParseExamples.ProductBeforeSum | lib/parser.ts:180-193 | `2+3*4` parses as `2+(3*4)` |
| ParseExamples.OpDigitTokens | lib/parser.ts:34-149 | an operator, a digit, an operator and a digit, such as `-2^2`, lex to four one-character tokens and EOF |
| ParseExamples.NegatedBase | lib/parser.ts:180-253 | `-2^2` parses as `(-2)^2`: unary minus takes only the number after it |
| ParseExamples.LeadingPlus | lib/parser.ts:247-254 | `+1` fails with "Unexpected operator +": only `-` is a prefix |
| Graphs.AddEdge | lib/dependency-graph/index.ts:7-12 | adding an edge adds exactly that successor |
| Graphs.Restrict | lib/dependency-graph/index.ts:52-59 | the subgraph of a cell subset keeps exactly the edges with both ends inside |
| Graphs.PredsIn | lib/dependency-graph/index.ts:52-59 | a cell's in-degree counts exactly the subset cells with an edge into it |
| Graphs.ReachTrans | lib/dependency-graph/index.ts:35-48 | reachability is transitive |
| Graphs.ClosedHoldsReachable | lib/dependency-graph/index.ts:35-48 | a set closed under the edges holds everything reachable from it |
| Graphs.PathWithNewEdge | lib/dependency-graph/index.ts:7-12 | a path after adding an edge is an old path or runs through the new edge |
| Graphs.AddEdgeKeepsAcyclic | lib/engine.ts:37-42 | the guarded insertion (add from -> to only when to does not reach from) keeps the graph acyclic |
| Graphs.SubgraphAcyclic | lib/dependency-graph/index.ts:50-78 | removing edges keeps a graph acyclic |
| Graphs.Pigeonhole | lib/dependency-graph/index.ts:63-77 | a walk longer than its set of cells repeats a cell |
| Graphs.NoSourceMeansCycle | lib/dependency-graph/index.ts:63-77 | a non-empty set of cells each with a predecessor inside it holds a cycle |
| Graphs.RestrictAcyclic | lib/dependency-graph/index.ts:50-78 | an acyclic graph stays acyclic on any subset |
| DepGraph.AddKeepsInverse | lib/dependency-graph/index.ts:7-12 | adding the edge to both maps in opposite directions keeps them inverse, with no empty sets |
| DepGraph.AddExistingEdge | lib/dependency-graph/index.ts:7-12 | adding an edge that is there changes nothing |
| DepGraph.RemoveKeepsInverse | lib/dependency-graph/index.ts:14-25 | dropping a cell's outgoing edges from both maps keeps them inverse, with no empty sets |
| DepGraph.UnlinkStep | lib/dependency-graph/index.ts:17-23 | one round of the loop removes the cell from one target's reverse set, deleting a set left empty |
| DepGraph.DependencyGraph.constructor | lib/dependency-graph/index.ts:4-5 | a new graph has no edges |
| DepGraph.DependencyGraph.AddDependency | lib/dependency-graph/index.ts:7-12 | the edge is added to the forward map and its reverse to the reverse map, keeping them inverse |
| DepGraph.DependencyGraph.RemoveDependencies | lib/dependency-graph/index.ts:14-25 | the cell's forward entry is dropped and it leaves each former target's reverse set, keeping the maps inverse |
| DepGraph.DependencyGraph.GetDependencies | lib/dependency-graph/index.ts:27-29 | a cell's dependencies are exactly the cells listing it as a dependent |
| DepGraph.DependencyGraph.GetDependents | lib/dependency-graph/index.ts:31-33 | a cell's dependents are exactly the cells listing it as a dependency |
| DepGraph.DependencyGraph.HasCycle | lib/dependency-graph/index.ts:35-48 | hasCycle answers true exactly when from is reachable from to along dependency edges (from == to included) |
| DepGraph.DependencyGraph.GetEvaluationOrder | lib/dependency-graph/index.ts:50-78 | the order lists each given cell once; when the subset is acyclic, every cell comes before each cell it reads |
| DepGraph.DfsStep | lib/dependency-graph/index.ts:39-46 | one round of the walk: found means reachable; otherwise the walk's invariant holds and fewer cells are left or the stack shrank |
| DepGraph.DfsDone | lib/dependency-graph/index.ts:47 | an exhausted walk proves from unreachable |
| DepGraph.PushAll | lib/dependency-graph/index.ts:44-45 | pushing a set keeps the stack below and adds exactly the set's cells |
| DepGraph.Unique | lib/dependency-graph/index.ts:51 | `new Set(cells)` lists each given cell exactly once |
| DepGraph.CountEdgesOf | lib/dependency-graph/index.ts:55-58 | each subset cell that c reads gains one in-degree, the others none |
| DepGraph.CountInDegrees | lib/dependency-graph/index.ts:52-59 | each subset cell's in-degree is the number of subset cells that read it |
| DepGraph.SeedQueue | lib/dependency-graph/index.ts:60-61 | the queue starts with exactly the subset cells of in-degree 0, each once |
| DepGraph.KahnInit | lib/dependency-graph/index.ts:52-61 | the counted in-degrees and the seeded queue satisfy the queue loop's invariant |
| DepGraph.KahnTake | lib/dependency-graph/index.ts:63-65 | emitting the queue's head starts the release of its dependencies, and fewer cells are left |
| DepGraph.Release | lib/dependency-graph/index.ts:66-73 | after the release loop the queue loop's invariant holds again |
| DepGraph.ReleaseOne | lib/dependency-graph/index.ts:68-73 | releasing one dependency lowers its in-degree and queues it when that reaches 0 |
| DepGraph.KahnEnd | lib/dependency-graph/index.ts:63-77 | on an acyclic subset Kahn's loop emits every cell |
| DepGraph.KahnOrdered | lib/dependency-graph/index.ts:63-74 | Kahn's loop emits distinct subset cells, each before the cells it reads |
| DepGraph.Complete | lib/dependency-graph/index.ts:75-77 | the fallback is the emitted order followed by exactly the cells not emitted, in the order of the distinct input cells, so every given cell is listed once |
| DepGraph.Leftover | lib/dependency-graph/index.ts:76 | the cells appended are exactly the input cells not yet emitted |
| DepGraph.CompleteStep | lib/dependency-graph/index.ts:76 | one round of the fallback loop appends the input cell exactly when it is not yet listed, keeping the list distinct |
| FunctionRegistry.LookupHandler | lib/dependency-graph/function-registry.ts:109 | a name finds the handler whose name is the upper-cased name, and none when there is no such handler |
| FunctionRegistry.LookupIgnoresCase | lib/dependency-graph/function-registry.ts:109 | function names are case-insensitive |
| FunctionRegistry.FlattenedAppend | lib/dependency-graph/function-registry.ts:11-15 | flattening distributes over concatenation |
| FunctionRegistry.Flatten | lib/dependency-graph/function-registry.ts:11-15 | flatten splices range values in place, in order |
| FunctionRegistry.Numbers | lib/dependency-graph/function-registry.ts:48 | the numbers among the values are no more than the values |
| FunctionRegistry.NumbersAreNumValues | lib/dependency-graph/function-registry.ts:48 | the numbers kept are exactly the values of type number |
| FunctionRegistry.SumSplits | lib/dependency-graph/function-registry.ts:18-27 | SUM of concatenated values is the sum of their SUMs |
| FunctionRegistry.SumWithoutNumbers | lib/dependency-graph/function-registry.ts:25 | values with no number among them (strings such as "5", booleans, null) sum to 0 |
| FunctionRegistry.Sum | lib/dependency-graph/function-registry.ts:24-26 | SUM's loop adds exactly the values of type number |
| FunctionRegistry.TotalBetween | lib/dependency-graph/function-registry.ts:24-26 | a sum of n numbers, each between lo and hi, lies between n * lo and n * hi |
| FunctionRegistry.AverageBetween | lib/dependency-graph/function-registry.ts:34-41 | the average of numbers between lo and hi lies between lo and hi |
| FunctionRegistry.MeanBetween | lib/dependency-graph/function-registry.ts:34-58 | AVG of values holding a number lies between their MIN and MAX |
| FunctionRegistry.MeanTimesCount | lib/dependency-graph/function-registry.ts:34-41 | AVG is 0 without numbers, and otherwise times the count of numbers gives their sum |
| FunctionRegistry.Average | lib/dependency-graph/function-registry.ts:34-41 | AVG's loop computes the mean of the numbers, 0 when there are none |
| FunctionRegistry.Least | lib/dependency-graph/function-registry.ts:49 | `Math.min` of numbers is one of them and no greater than any |
| FunctionRegistry.Greatest | lib/dependency-graph/function-registry.ts:57 | `Math.max` of numbers is one of them and no less than any |
| FunctionRegistry.MinOf | lib/dependency-graph/function-registry.ts:43-50 | MIN is 0 without numbers, and otherwise a number among the values no greater than any |
| FunctionRegistry.MaxOf | lib/dependency-graph/function-registry.ts:51-58 | MAX is 0 without numbers, and otherwise a number among the values no less than any |
| FunctionRegistry.NonNull | lib/dependency-graph/function-registry.ts:66 | COUNT's value, the number of non-null values, is at most the number of values |
| FunctionRegistry.CountAllButNull | lib/dependency-graph/function-registry.ts:66 | COUNT is the number of values exactly when none is null |
| FunctionRegistry.Count | lib/dependency-graph/function-registry.ts:65-67 | COUNT's loop counts the values that are not null |
| FunctionRegistry.Truthy | lib/dependency-graph/function-registry.ts:72 | IF's test: a value is falsy exactly when it is null, 0, "" or false |
| FunctionRegistry.Aggregate | lib/dependency-graph/function-registry.ts:18-68 | an aggregate is always a number; AVG, MIN and MAX are 0 without numbers and otherwise between the least and the greatest number; COUNT is at most the number of values |
| FunctionRegistry.Apply | lib/dependency-graph/function-registry.ts:18-68 | the aggregate handler's loop gives the aggregate's value |
| Coercion.TrimStart | lib/engine.ts:278 | trimming the start removes a prefix and leaves no leading whitespace |
| Coercion.TrimEnd | lib/engine.ts:278 | trimming the end removes a suffix and leaves no trailing whitespace |
| Coercion.StrToNum | lib/engine.ts:278-279 | `Number` reads blank text as 0, and any other readable text holds a digit |
| Coercion.NumToString | lib/engine.ts:288 | `String(x)` is never empty and starts with '-' exactly for a negative number, followed by a digit |
| Coercion.NatTextValue | lib/engine.ts:288 | the text of a natural number reads back as the number |
| Coercion.SignedTextValue | lib/engine.ts:285-286 | signed digit text reads back as its signed value |
| Coercion.IntegerText | lib/engine.ts:288 | the text of an integer is its sign and decimal digits |
| Coercion.IntegerRoundTrip | lib/engine.ts:278-288 | `Number(String(i)) == i` for every integer i |
| Coercion.CanNum | lib/engine.ts:274-280 | blank text is numeric (as 0); any other numeric text holds a digit |
| Coercion.WordNotNumber | lib/engine.ts:278-279 | a word starting with a letter, such as `true`, is not a number |
| Coercion.ToNum | lib/engine.ts:281-287 | toNum of a numeric string is what `Number` reads; of a non-numeric value it is 0 |
| Coercion.ToStr | lib/engine.ts:288 | null is "", an integer's text reads back as the integer, and a boolean's text is not numeric |
| Coercion.Compare | lib/engine.ts:310-325 | the string comparison answers -1, 0 or 1 |
| Coercion.CompareAntisymmetric | lib/engine.ts:310-325 | swapping the operands flips the comparison |
| Coercion.CompareZero | lib/engine.ts:310-331 | two strings compare equal exactly when they are equal |
| Coercion.IntPow | lib/engine.ts:308-309 | a non-zero base to a natural power is not zero |
| Coercion.Power | lib/engine.ts:308-309 | x^0 is 1; a non-zero base to an integer power is not 0; a negative exponent gives the reciprocal of the positive power |
| Coercion.Comparison | lib/engine.ts:309-331 | a value compared with itself satisfies exactly `<=`, `>=` and `=` |
| Coercion.BinaryOp | lib/engine.ts:289-331 | only division by zero fails, with DIV0; a relational operator always yields its comparison's boolean |
| Coercion.AddNumericIff | lib/engine.ts:289-296 | `+` never fails; it adds exactly when both operands are numeric, and otherwise joins their text |
| Coercion.AddCommutesOnNumbers | lib/engine.ts:289-296 | `+` on numeric operands commutes |
| Coercion.ComparisonConverse | lib/engine.ts:310-331 | `<` and `>` are converses, as are `<=` and `>=` |
| Coercion.Trichotomy | lib/engine.ts:310-331 | exactly one of `<`, `=` and `>` holds for any two values |
| Coercion.LeIsLtOrEq | lib/engine.ts:310-331 | `<=` is `<` or `=`, `>=` is `>` or `=`, `<>` is not `=` |
| Coercion.UnaryMinus | lib/engine.ts:170-176 | unary minus always gives a number, the negation of toNum of the operand: null and unreadable text give 0, true gives -1 |
| Evaluation.ViewOf | lib/engine.ts:86-102 | the view has an entry for exactly the sheet's cells |
| Evaluation.CacheParse | lib/engine.ts:92-100 | caching a formula's parse keeps the cell's kind, its source text and its view entry, and gives it a tree exactly when it had one or its text parses |
| Evaluation.CachingKeepsView | lib/engine.ts:92-100 | caching parses in any cells leaves the view, and so every evaluation, unchanged |
| Evaluation.CacheOne | lib/engine.ts:92-100 | caching the parse of one cell is a caching of the sheet |
| Evaluation.CachesTrans | lib/engine.ts:92-100 | caching twice is caching once: a cached cell caches to itself |
| Evaluation.FaultError | lib/engine.ts:124-147 | a caught fault is reported with one of CYCLE, REF, DIV0 and PARSE, always with a message |
| Evaluation.CodeFault | lib/engine.ts:196-211 | through a reference REF, CYCLE and DIV0 keep their code, and any other code becomes PARSE with the same message ("Error" when empty) |
| Evaluation.ReraiseKeepsFault | lib/engine.ts:124-147 | re-raising an evaluation error through a reference gives back the fault it came from |
| Evaluation.VisitShrinks | lib/engine.ts:111-117 | marking a cell visited leaves fewer cells to visit, so the evaluation terminates |
| Evaluation.EvalCell | lib/engine.ts:80-149 | an error result has a null value, and unless the cell is an error cell its code is PARSE, REF, CYCLE or DIV0 |
| Evaluation.EvalAst | lib/engine.ts:151-180 | literals always evaluate; unary minus and `-`, `*`, `/`, `^` give numbers; the relational operators give booleans |
| Evaluation.RangeFirstValue | lib/engine.ts:162-164 | a range outside a function call gives the value of its first cell, in column-major order, that evaluates |
| Evaluation.RangeNoValue | lib/engine.ts:162-164 | a range outside a function call none of whose cells evaluates gives null |
| Evaluation.CollectFirst | lib/engine.ts:229-254 | the first collected range value is that of the first cell that evaluates |
| Evaluation.CollectNone | lib/engine.ts:229-254 | no value is collected when no cell evaluates |
| Evaluation.EvalRef | lib/engine.ts:182-227 | a reference to an existing cell not being evaluated succeeds exactly when that cell's evaluation has no error, and then has that cell's value |
| Evaluation.EvalRange | lib/engine.ts:229-254 | a well-formed range gives at most one value per cell; a malformed one fails with the range's error |
| Evaluation.Collect | lib/engine.ts:229-254 | a range yields no more values than it has cells |
| Evaluation.EvalCall | lib/dependency-graph/function-registry.ts:69-116 | an unknown name fails with "Unknown function: " and the name; IF with fewer than two arguments is null; an aggregate gives a number |
| Evaluation.EvalArg | lib/dependency-graph/function-registry.ts:19-23 | an argument evaluates to a list of values exactly when it is a range, and a non-range argument succeeds exactly when its tree does |
| Evaluation.EvalArgs | lib/dependency-graph/function-registry.ts:19-23 | a successful argument evaluation gives one operand per argument |
| Evaluation.SelfReferenceIsCycle | lib/engine.ts:111-117 | a formula that refers to its own cell is a circular reference |
| Evaluation.MutualReferenceIsCycle | lib/engine.ts:182-227 | two formula cells referring to each other are circular |
| Evaluation.IfIsLazy | lib/dependency-graph/function-registry.ts:69-80 | IF evaluates only the chosen branch: the other may be anything |
| Evaluation.CollectSkipsFaults | lib/dependency-graph/function-registry.ts:94-99 | a range yields a value for every cell exactly when no cell's evaluation fails |
| Engine.ClosedTreeIgnoresSheet | lib/engine.ts:31-69 | a tree whose dependency walk finds no cell evaluates alike in every sheet and with every visited set, so it needs no edge |
| Engine.DepsAllMember | lib/engine.ts:57-59 | the cells found in a call's arguments include those of each argument |
| Engine.PopStack | lib/engine.ts:33-34 | popping a tree off the walk's stack removes its links and its size |
| Engine.Operands | lib/engine.ts:57-65 | a node's operands, pushed as the walk pushes them, link to the same cells and are smaller |
| Engine.SheetLinkedStep | lib/engine.ts:25-71 | linking one more formula cell keeps the graph-building invariant |
| Engine.GrowsKeepsReach | lib/engine.ts:37-42 | adding edges keeps every reachable cell reachable |
| Engine.InverseReach | lib/engine.ts:393-404 | following dependents reaches x from y exactly when following dependencies reaches y from x |
| Engine.Written | lib/engine.ts:342-343 | the cell is written at the address, or the entry deleted, and no other entry changes |
| Engine.CachedFormulas | lib/engine.ts:28 | the cells evaluateSheet links are exactly the formula cells with a cached tree |
| Engine.LinkTargets | lib/engine.ts:346-389 | a written cell gets edges only when it is a formula whose tree is cached or parses |
| Engine.FormulaStep | lib/engine.ts:111-147 | a parsed formula not being evaluated yields its tree's value, or the error its fault maps to |
| Engine.BfsStart | lib/engine.ts:394-395 | the gathering starts with the edited cell as both the gathered list and the queue |
| Engine.BfsAdvance | lib/engine.ts:396-404 | expanding the queue's head keeps the gathering's invariant and makes progress |
| Engine.BfsDone | lib/engine.ts:393-404 | with the queue empty, the gathered cells are exactly those the edited cell reaches along dependent edges |
| Engine.Enqueue | lib/engine.ts:399-403 | the cells not yet gathered are appended once each, to the gathered list and to the queue |
| Engine.Sheet.constructor | lib/engine.ts:21 | a sheet holds the cells it is given |
| Engine.VisitedSet.constructor | lib/engine.ts:105-110 | an evaluation starts with no cell visited |
| Engine.FormulaEngine.constructor | lib/engine.ts:18-19 | a new engine holds a fresh, empty, valid graph |
| Engine.FormulaEngine.EvaluateCell | lib/engine.ts:80-149 | evaluateCell gives the specified result with a fresh visited set; the sheet changes only by cached parses, so the view is unchanged |
| Engine.FormulaEngine.EnsureAst | lib/engine.ts:92-102 | the tree handed out is the cell's entry in the view; the cell gets its parse cached when it parses, and no other cell changes |
| Engine.FormulaEngine.EvaluateCellShared | lib/engine.ts:80-149 | evaluateCell with a shared visited set gives the specified result and restores the visited set; the sheet changes only by cached parses |
| Engine.FormulaEngine.EvaluateFormula | lib/engine.ts:103-148 | a parsed formula not being evaluated gets the specified result, with the visited set restored and the sheet changed only by cached parses |
| Engine.FormulaEngine.EvaluateAst | lib/engine.ts:151-180 | evaluateAst gives the specified value or fault, restoring the visited set |
| Engine.FormulaEngine.EvaluateBinaryOp | lib/engine.ts:266-335 | the left operand, the right, then the operator: the specified value or fault |
| Engine.FormulaEngine.EvaluateCellRef | lib/engine.ts:182-227 | evaluateCellRef gives the specified value or fault |
| Engine.FormulaEngine.EvaluateRange | lib/engine.ts:229-254 | evaluateRange gives the values of the range's cells in column-major order, failing cells skipped |
| Engine.FormulaEngine.EvaluateFunction | lib/engine.ts:256-264 | an unknown name fails; IF evaluates its condition and one branch; an aggregate folds all its arguments' values |
| Engine.FormulaEngine.EvaluateArgs | lib/dependency-graph/function-registry.ts:19-23 | each argument in turn, ranges to their values, stopping at the first failure |
| Engine.FormulaEngine.LinkOne | lib/engine.ts:37-42 | the guarded insertion adds the edge unless its target already reaches its source, keeping the graph acyclic; either way the target is linked or reaches the source |
| Engine.FormulaEngine.LinkCell | lib/engine.ts:31-69 | the walk changes only the cell's edges, only towards cells of its tree, and links or finds a path back from every such cell |
| Engine.FormulaEngine.LinkStep | lib/engine.ts:34-68 | one node off the stack keeps the walk's invariant and shrinks what is left |
| Engine.FormulaEngine.Visit | lib/engine.ts:37-42 | the seen check around one insertion keeps the walk's invariant and marks the cell seen |
| Engine.FormulaEngine.EvaluateSheet | lib/engine.ts:21-78 | a fresh acyclic graph whose edges run from each cached formula to cells of its tree, each of which is linked or reaches it; a result for exactly the cached formula cells, each its specified evaluation; the results come in an order listing each of them once, every cell before the cells its graph edges point to, as getEvaluationOrder's order fills the results Map |
| Engine.FormulaEngine.LinkSheet | lib/engine.ts:25-71 | the graph-building loop lists exactly the cached formula cells and links each one |
| Engine.FormulaEngine.EvaluateAll | lib/engine.ts:72-77 | the evaluation loop gives each listed cell its specified evaluation |
| Engine.FormulaEngine.Relink | lib/engine.ts:342-389 | the cell is written with its parse cached, no other cell changes but by cached parses; only its edges change, towards cells of its formula, each linked or reaching it |
| Engine.FormulaEngine.UpdateCell | lib/engine.ts:337-413 | the cell is written, with its parse cached when it is a formula that parses, and other cells change only by cached parses; only its edges change, towards cells of its formula, each linked or reaching it; the gathered cells are exactly those that depend on it; exactly the formula cells among them are evaluated |
| Engine.FormulaEngine.CollectAffected | lib/engine.ts:393-404 | the gathering lists the edited cell first and then, once each, exactly the cells that depend on it |
| Engine.FormulaEngine.EvaluateAffected | lib/engine.ts:405-410 | exactly the formula cells among the gathered ones are evaluated, and the view is unchanged |

## Left out

- Floating point. Numbers are exact reals. So `0.1 + 0.2` is exactly `0.3`, and there is no `-0`, `NaN`, `Infinity` or rounding.
- Coercion.StrToNum: `Number(s)` is modelled for blank text and for an optional `+` or `-` sign followed by decimal digits with at most one '.'. Exponents (`1e3`), the `0b`, `0o` and `0x` prefixes and `Infinity` are read as not a number.
- Coercion.NumToString: `String(x)` is exact only for integers of magnitude below 10^21. Every number is written in plain decimal: JavaScript's exponent forms for magnitudes of 10^21 or more (`String(1e21)` is "1e+21") and for non-zero magnitudes below 10^-6 (`String(1e-7)` is "1e-7") are not modelled, so `+` joining such a number with text gives different text. A non-integer is written with its integer part and at most twenty fraction digits, truncated, not JavaScript's shortest round-trip form.
- FunctionRegistry.LookupHandler: function names are upper-cased as ASCII only (`Text.ToUpper`), where `toUpperCase` in lib/dependency-graph/function-registry.ts:109 maps all of Unicode ("ſum" becomes "SUM"). The lexer only produces ASCII identifiers, so this differs only for trees that the parser did not build.
- Coercion.Power: `Math.pow` is modelled for integer exponents only; any other exponent gives 0. A zero base with a negative exponent also gives 0, where JavaScript gives `Infinity`.
- Coercion.Compare: `localeCompare` is modelled as lexicographic order on code units, since locale collation is not available.
- Lexing.LexToken, Lexing.UnexpectedCharacter: Dafny strings are sequences of Unicode scalar values, while JavaScript strings are UTF-16 code units. For text with characters outside the Basic Multilingual Plane, positions and the "Unexpected character '…' at N" message (lib/parser.ts:148) differ from the source's.
- Lexing.Lexer.ReadNumber: `parseFloat` of the number text is its exact decimal value (`DecimalValue`), without rounding.
- Iteration order of JavaScript `Set` and `Map` (hasCycle's pushes, getDependents, the in-degree map) and of the `for...in` over the sheet's cells in evaluateSheet (lib/engine.ts:25, `Engine.FormulaEngine.LinkSheet`'s `:|`) is left as an open choice; the properties hold for every order. That order decides which edge of a reference cycle evaluateSheet leaves out.
- iterateRange and rangeValues are generators. The model collects them eagerly, since every caller drives them to the end.
- `adjustReference` and `transformFormula` (lib/grid.ts:21-41) only throw "Not implemented". They are not part of this model.
- The `trace`/`explain` parameter of evaluateCell, the `updatedAt` timestamp of updateCell and the engine singleton have no effect on values and are not modelled.
- Engine.FormulaEngine.UpdateCell: the values updateCell computes are thrown away by the source. The model names the cells evaluated (`evaluated`, a ghost result) instead of returning their values.
- Parsing.Parser.constructor: the source's constructor reads the first token. Here the caller (`ParseFormula`) reads it, so that a lexing failure can be returned.
- Cell objects are values in the cell map. Aliasing of a cell object between the sheet and a caller is not modelled; the cached tree is written back into the map.
- The lexer's branch for a space read as an operator (lib/parser.ts:118-120) cannot be reached, since whitespace is skipped first, so it is not modelled.
- The "Unknown operator" and "Unknown AST node" branches of evaluateAst and evaluateBinaryOp cannot be reached from a parsed tree, so they are not modelled.
- The user interface, persistence and the other files of the application are not part of this model.
