# A Dafny model of a Lua obfuscator's passes

The modelled program is a JavaScript obfuscator for Lua source. It parses a
Lua program into a luaparse syntax tree. It then rewrites that tree in passes
and prints it back to Lua text with its own printer, `AST2Code`. This project
models the passes and the printer as pure functions over an explicit model of
the JavaScript object graph. It proves what each pass promises about the
program it returns.

The model has these parts:

- **Json** (`json.dfy`) is the object graph. A `Value` is `null`, a boolean,
  an integer, a string, an array, or an object with ordered own fields.
  `GetKey`, `Put`, `GetProp` and `SetProp` model property access and
  assignment. Reading a property of `null` or `undefined` is the `TypeError`
  JavaScript throws. `Undefined` is an `Access`, the result of reading a
  missing field; it is never stored.
- **TreeIndex** (`treeindex.dfy`) models `FindAllInstances` and the two
  `FindAllBodies` searches. Each search is proved sound and complete against
  a declarative reading of the tree, in pre-order.
- **Utils** (`utils.dfy`) and **Arith** (`arith.dfy`) model the helpers of
  `Utils.js` and `Math.js`. Randomness is an explicit draw: `Random(lo, hi, u)`
  maps any natural `u` into the range, and a stream of draws is a function
  `nat -> nat`. Every result is proved for every draw, and every result is
  reached by some draw. `EvalText` is an evaluator for exactly the grammar
  `Number2Equation` emits. It stands in for JavaScript's `eval`.
- **Mangle** (`mangle.dfy`) models `MangleNumbers` and `MangleBools`.
  **Cipher**, **Escapes** and **Strings** (`cipher.dfy`, `escapes.dfy`,
  `strings.dfy`) model `EncryptStrings` and `StringifyMemberExpressions`.
  This covers Lua escape decoding and UTF-8, the XOR cipher, the
  base-N payload, and the Lua decryptor as a decoding function.
  **EncryptLoop** (`encryptloop.dfy`) states what the pass's loop leaves in
  the tree: each sampled literal is kept or carries the decryptor call on its
  own encrypted bytes.
- **Emit** (`emit.dfy`) is the `AST2Code` printer.
- **Shuffle** and **HideGlobals** (`shuffle.dfy`, `hideglobals.dfy`) model the
  linear-congruential argument shuffle, its prediction, the dead-code
  templates and the scope walk of `HideGlobals`.
- **Renamer** (`renamer.dfy`) models `VariableRenamer`.
- **Lowering**, **DecomposePass**, **DecomposeIndent** and **DecomposeLaws**
  (`lowering.dfy`, `decompose.dfy`, `decompose_laws.dfy`) model
  `DecomposeExpressions`. Every expression is lowered to statements on
  temporaries. The laws give the meaning of the lowered code in terms of the
  original expression.
- **ControlFlow** (`controlflow.dfy`) models the flattening of a statement
  list into a state-machine dispatcher. It proves that the dispatcher runs the
  blocks in their original order.
- **Text** and **Wrappers** (`text.dfy`, `wrappers.dfy`) hold string helpers
  and `Result`/`Option`.

Several operations take a flag `fixed: bool`. With `fixed = false` the member
follows the code as written. With `fixed = true` it applies the corrections
named under "## Findings". The Lua parser (`luaparse`) and the formatter
(`UltraBeautify`) are foreign code. Members that call them take them as
parameters `parse: string -> Option<Value>` and
`format: string -> Option<string>`.

## Model

| member | source | states |
|---|---|---|
| ControlFlow.DrawIds | Obfuscate/ControlFlow/ControlFlow.js:35-39 | the loop collects exactly the requested number of ids, pairwise distinct and within ±2·10^9, keeps those already collected, and takes each new one from some draw; `None` when the draws run out first |
| ControlFlow.DrawIdsFresh | Obfuscate/ControlFlow/ControlFlow.js:36-39 | draws whose ids are all new are taken in order and none is rejected |
| ControlFlow.LeavingIsKept | Obfuscate/ControlFlow/ControlFlow.js:44-48 | every block that really leaves the loop (`break`, or the keyword `return`) is also kept by the as-written `startsWith("return")` test |
| ControlFlow.LongerNameIsMisread | Obfuscate/ControlFlow/ControlFlow.js:46 | a block that starts with `return` followed by a name character is kept without a state update, yet does not leave the loop |
| ControlFlow.ReturnedIsMisread | Obfuscate/ControlFlow/ControlFlow.js:46 | `returned = 1` is such a block |
| ControlFlow.Insert | Obfuscate/ControlFlow/ControlFlow.js:53-55 | one insertion step of the sort by id: the pairs plus the new one, still ordered |
| ControlFlow.SortByValue | Obfuscate/ControlFlow/ControlFlow.js:53-55 | the sort by id returns a permutation of the pairs, in non-decreasing id order |
| ControlFlow.SortAscending | Obfuscate/ControlFlow/ControlFlow.js:53-55 | pairs with distinct ids come out strictly ascending |
| ControlFlow.Halves | Obfuscate/ControlFlow/ControlFlow.js:68-70 | the midpoint is `floor(n / 2)`, both halves are non-empty and together they are the list |
| ControlFlow.Divide | Obfuscate/ControlFlow/ControlFlow.js:72-102 | each branch of the `switch (Mode)` is non-empty and shorter than the list, and the two branches hold exactly the list's indices |
| ControlFlow.DivideRoutes | Obfuscate/ControlFlow/ControlFlow.js:74-105 | in an ascending list the comparison `State <op> pivot` of every mode sends each pair to the branch that holds it, and both branches stay ascending |
| ControlFlow.BuildLeaves | Obfuscate/ControlFlow/ControlFlow.js:57-111 | the leaves of `BuildBranch` are the indices of its pairs, each as often as it occurs |
| ControlFlow.RouteFinds | Obfuscate/ControlFlow/ControlFlow.js:57-111 | whatever modes are drawn, the nested comparisons lead each id of an ascending pair list to the block it indexes |
| ControlFlow.DispatcherRoutes | Obfuscate/ControlFlow/ControlFlow.js:53-113 | for distinct ids the sorted-then-split dispatcher leads the `k`-th id to block `k` |
| ControlFlow.DispatcherLeaves | Obfuscate/ControlFlow/ControlFlow.js:57-113 | the dispatcher has one leaf per block and every leaf names a block |
| ControlFlow.GenerateTree | Obfuscate/ControlFlow/ControlFlow.js:28-114 | no blocks give `("", "nil")`; otherwise the ids are distinct and in range, the first id is returned, the tree routes the `k`-th id to block `k` and the code is that tree printed over the processed blocks |
| ControlFlow.CorrectedNeverStays | Obfuscate/ControlFlow/ControlFlow.js:46 | with the keyword test every block either leaves the loop or advances the state |
| ControlFlow.SameEffects | Obfuscate/ControlFlow/ControlFlow.js:46 | the as-written and the keyword test classify a list alike exactly when every block the as-written test keeps really leaves the loop |
| ControlFlow.Run | Obfuscate/ControlFlow/ControlFlow.js:127 | the `while State ~= nil` loop runs one block per round and only blocks of the list |
| ControlFlow.RunsInOrder | Obfuscate/ControlFlow/ControlFlow.js:41-51 | a dispatcher whose blocks never stay put runs them in their original order, stopping after the first `return`; a `break` ends only the dispatcher loop |
| ControlFlow.FlattenedRunsInOrder | Obfuscate/ControlFlow/ControlFlow.js:28-127 | with the keyword test the generated dispatcher runs the list in order up to the first `return` or `break`, and a `break` comes out as the end of the list |
| ControlFlow.RoutedRunsInOrder | Obfuscate/ControlFlow/ControlFlow.js:41-51 | the same for any tree that routes each id to its block |
| ControlFlow.FlattenedWithoutBreak | Obfuscate/ControlFlow/ControlFlow.js:28-127 | without a `break` block the flattened list ends exactly as the original list does |
| ControlFlow.BreakEndsOnlyTheDispatcher | Obfuscate/ControlFlow/ControlFlow.js:46-47 | for the loop body `x = x + 1; break` the original leaves the enclosing loop after both statements, the flattened list only finishes, so the enclosing loop goes round again |
| ControlFlow.StallsOnStay | Obfuscate/ControlFlow/ControlFlow.js:127 | a first block that neither leaves nor updates the state runs again on every round, forever |
| ControlFlow.ReturnedStalls | Obfuscate/ControlFlow/ControlFlow.js:41-51 | as written, a list starting with `returned = 1` never gets past its first block |
| ControlFlow.Statements | Obfuscate/ControlFlow/ControlFlow.js:118 | `for … of` accepts an array (its items) or a string (its characters) and throws on anything else |
| ControlFlow.BlockTexts | Obfuscate/ControlFlow/ControlFlow.js:117-120 | each statement is printed on its own by `AST2Code`; the step fails exactly when one statement fails to print |
| ControlFlow.FinalCode | Obfuscate/ControlFlow/ControlFlow.js:127 | the flattened text opens by setting the state variable |
| ControlFlow.Flatten | Obfuscate/ControlFlow/ControlFlow.js:116-127 | a statement list that cannot be iterated throws; the flattened text opens by setting the state variable |
| ControlFlow.ProcessBlock | Obfuscate/ControlFlow/ControlFlow.js:116-137 | succeeds exactly when the list flattens, and returns `undefined` exactly when the flattened text does not parse |
| ControlFlow.Retype | Obfuscate/ControlFlow/ControlFlow.js:146-149 | the retyping loop leaves every path apart from the written `type` fields as it was |
| ControlFlow.RetypeSucceeds | Obfuscate/ControlFlow/ControlFlow.js:146-149 | on nodes that are still objects with a leaf `type`, the loop never throws and every listed node ends typed `AssignmentStatement` |
| ControlFlow.RetypeLocals | Obfuscate/ControlFlow/ControlFlow.js:146-149 | on a well-formed tree the step never throws and every object whose own `type` is `LocalStatement` ends up typed `AssignmentStatement` |
| ControlFlow.RootBody | Obfuscate/ControlFlow/ControlFlow.js:167-169 | for a root with an array body whose flattened text parses, the program as written sets the root's `body` to `undefined` (stored as `null`) and the corrected one to the re-parsed statement list |
| ControlFlow.FlattenRoot | Obfuscate/ControlFlow/ControlFlow.js:167-172 | a `null` root throws |
| ControlFlow.ControlFlow | Obfuscate/ControlFlow/ControlFlow.js:140-175 | a `null` tree throws |
| TreeIndex.SearchSound | Obfuscate/Utils/Utils.js:8-37 | every path `FindAllInstances` returns ends at a `key` field holding `target` inside an object |
| TreeIndex.SearchComplete | Obfuscate/Utils/Utils.js:8-37 | every object position whose own `key` reads `target` is found |
| TreeIndex.FindAllInstancesSpec | Obfuscate/Utils/Utils.js:8-37 | both directions from the root: the results are exactly the `key` fields of the matching objects |
| TreeIndex.MatchParentIsMatchedObject | Obfuscate/Utils/Utils.js:75-82 | `GetKey` on a found path minus its last step is the matched object |
| TreeIndex.Parents | Obfuscate/ControlFlow/ControlFlow.js:141-145 | `Path.pop()` on every result: the same number of paths, each one step shorter |
| TreeIndex.ObjSearchIsParents | Obfuscate/VariableRenamer.js:7-34 | the renaming pass's own search returns exactly the shared search's results with the trailing key dropped, in the same order |
| TreeIndex.ObjectInstancesSpec | Obfuscate/VariableRenamer.js:7-34 | on a well-formed tree that search returns exactly the positions of the objects whose own `key` is `target` |
| TreeIndex.ObjSearchPreOrder | Obfuscate/VariableRenamer.js:7-34 | the search lists an object before anything inside it |
| TreeIndex.FindAllBodiesSound | Obfuscate/ControlFlow/ControlFlow.js:5-26 | every path found reads a `body` array whose parent is an object, and none is longer than the depth cut-off plus one |
| TreeIndex.BodiesComplete | Obfuscate/ControlFlow/ControlFlow.js:5-26 | every object within the cut-off that owns a `body` array is found |
| TreeIndex.FindAllBodiesSpec | Obfuscate/ControlFlow/ControlFlow.js:5-26 | both directions: the found paths are exactly the `body` arrays of objects no deeper than the cut-off |
| TreeIndex.FindAllBodiesComplete | Obfuscate/ControlFlow/ControlFlow.js:5-26 | every `body` array of an object no deeper than the cut-off is among the found paths |
| TreeIndex.SortByLengthDesc | Obfuscate/ControlFlow/ControlFlow.js:151-152 | the sort by descending path length is a permutation of the paths, longest first |
| TreeIndex.SortByLengthDescStable | Obfuscate/ControlFlow/ControlFlow.js:151-152 | the sort is stable: paths of the same length keep their order, so the `k`-th round gets the same body as in JavaScript |
| TreeIndex.NestedBodiesFirst | Obfuscate/ControlFlow/ControlFlow.js:151-152 | when one body path is a proper prefix of another, the longer is rewritten first |
| TreeIndex.ReplaceAllSucceeds | Obfuscate/ControlFlow/ControlFlow.js:154-165 | replacing longest-first paths whose parents are objects, the loop runs to the end exactly when every round, run on the tree the earlier rounds left, still finds an object parent and its rewrite of what it reads there succeeds |
| TreeIndex.SortedBodiesReplaced | Obfuscate/ControlFlow/DecomposeExpressions.js:285-323 | in both passes, the sorted body list of a well-formed tree is replaced in full exactly when every round's rewrite succeeds |
| TreeIndex.ReplaceAllFailsOnlyInRewrite | Obfuscate/ControlFlow/DecomposeExpressions.js:285-307 | replacing longest-first paths whose parents are objects, with a rewrite that returns containers, throws exactly when some round, run on the tree the earlier rounds left, finds its body there and the rewrite of that body throws |
| TreeIndex.SortedBodiesFailOnlyInRewrite | Obfuscate/ControlFlow/DecomposeExpressions.js:285-307 | on a well-formed tree, the sorted body list is replaced in full unless some round finds its body and the rewrite of that body throws, and then the loop throws |
| Lowering.Decompose | Obfuscate/ControlFlow/DecomposeExpressions.js:22-116 | lowering an expression only writes temporaries numbered from `next` on; a falsy node lowers to `nil` with no lines |
| Lowering.DecomposeBinary | Obfuscate/ControlFlow/DecomposeExpressions.js:33-39 | a binary expression writes only fresh temporaries |
| Lowering.DecomposeLogical | Obfuscate/ControlFlow/DecomposeExpressions.js:40-61 | an `and`/`or` writes only fresh temporaries |
| Lowering.DecomposeMember | Obfuscate/ControlFlow/DecomposeExpressions.js:68-95 | a member access writes only fresh temporaries |
| Lowering.DecomposeCall | Obfuscate/ControlFlow/DecomposeExpressions.js:96-107 | a call writes only fresh temporaries |
| Lowering.DecomposeItems | Obfuscate/ControlFlow/DecomposeExpressions.js:98 | each argument is lowered in order; one operand per item, temporaries fresh |
| Lowering.Then | Obfuscate/ControlFlow/DecomposeExpressions.js:37 | a step writes what its operands write plus its own temporary |
| Lowering.ShortCircuit | Obfuscate/ControlFlow/DecomposeExpressions.js:43-58 | the `if [not] t then … end` shape writes the left side's temporaries, `t` and the right side's |
| Lowering.DecomposeMeans | Obfuscate/ControlFlow/DecomposeExpressions.js:22-116 | replaying the emitted lines in any environment whose temporaries lie below `next` gives the lowered result the meaning of the original expression |
| Lowering.BinaryMeans | Obfuscate/ControlFlow/DecomposeExpressions.js:33-39 | the same for a binary expression |
| Lowering.LogicalMeans | Obfuscate/ControlFlow/DecomposeExpressions.js:40-61 | the same for `and` and `or`: the short-circuit lines give the value Lua's operator gives |
| Lowering.UnaryMeans | Obfuscate/ControlFlow/DecomposeExpressions.js:62-67 | the same for a unary expression |
| Lowering.MemberMeans | Obfuscate/ControlFlow/DecomposeExpressions.js:68-95 | the same for `.`, `[ ]` and `:` accesses |
| Lowering.DotMeans | Obfuscate/ControlFlow/DecomposeExpressions.js:81-87 | a `.` access through a temporary holding the quoted name means the original access |
| Lowering.IndexMeans | Obfuscate/ControlFlow/DecomposeExpressions.js:88-93 | a bracket access means the original access |
| Lowering.CallMeans | Obfuscate/ControlFlow/DecomposeExpressions.js:96-107 | a call, a method call included, means the original call |
| Lowering.ItemsMeans | Obfuscate/ControlFlow/DecomposeExpressions.js:98 | the operands of a list read back as the meanings of its items |
| Lowering.LeafLowering | Obfuscate/ControlFlow/DecomposeExpressions.js:23-29 | a leaf lowers to a literal with no lines exactly when it is a leaf; `nil`, a name, `...` and a literal's trimmed text in particular |
| Lowering.ReplayFrame | Obfuscate/ControlFlow/DecomposeExpressions.js:16-20 | replaying lines changes only the temporaries they write |
| Lowering.ReplayFresh | Obfuscate/ControlFlow/DecomposeExpressions.js:22-116 | lowering leaves every name below `next` as it was |
| DecomposePass.HandleStatement | Obfuscate/ControlFlow/DecomposeExpressions.js:118-255 | a statement draws temporaries only forward; a falsy node emits nothing |
| DecomposePass.Statements | Obfuscate/ControlFlow/DecomposeExpressions.js:173 | a statement list draws temporaries only forward |
| DecomposePass.BodyAt | Obfuscate/ControlFlow/DecomposeExpressions.js:173 | a missing or falsy body emits nothing |
| DecomposePass.EmitAll | Obfuscate/ControlFlow/DecomposeExpressions.js:16-20 | every emitted line carries the current indentation; no line is dropped unless it is empty |
| DecomposePass.OperandsOf | Obfuscate/ControlFlow/DecomposeExpressions.js:128-154 | the values of an assignment are lowered in order into fresh temporaries |
| DecomposePass.StoredInTurn | Obfuscate/ControlFlow/DecomposeExpressions.js:135-161 | the lines as written are indented at the statement's depth |
| DecomposePass.StoredOnce | Obfuscate/ControlFlow/DecomposeExpressions.js:135-161 | the corrected lines are indented at the statement's depth |
| DecomposePass.AssignmentLines | Obfuscate/ControlFlow/DecomposeExpressions.js:122-163 | an assignment prints only when its targets print and its values lower |
| DecomposePass.ClauseHead | Obfuscate/ControlFlow/DecomposeExpressions.js:166-171 | a clause head is indented at the statement's depth |
| DecomposePass.WhileClosed | Obfuscate/ControlFlow/DecomposeExpressions.js:179-197 | the `while` lines are indented at the statement's depth when the body is one level deeper |
| DecomposePass.Iterator | Obfuscate/ControlFlow/DecomposeExpressions.js:211-218 | an iterator writes only fresh temporaries |
| DecomposePass.Process | Obfuscate/ControlFlow/DecomposeExpressions.js:257-261 | a `null` root throws, and so does a root whose truthy `body` is not a list |
| DecomposePass.ProcessedAsList | Obfuscate/ControlFlow/DecomposeExpressions.js:258 | a chunk is processed as its `body` list, and a node without a body as the list holding only itself |
| DecomposePass.LowerBody | Obfuscate/ControlFlow/DecomposeExpressions.js:289-307 | a body is replaced only when its text is produced; a text that does not parse throws; when it parses, the body is replaced exactly when the parser gives a non-null value, and a re-parsed statement list is stored as it is |
| DecomposePass.DecomposeExpressions | Obfuscate/ControlFlow/DecomposeExpressions.js:285-323 | a `null` tree throws; a result is the parse of the root's text after every body was replaced; its failure cases are stated by `DecomposeFailsOnlyInLowering` |
| DecomposePass.LoopOrRootFails | Obfuscate/ControlFlow/DecomposeExpressions.js:289-323 | the pass throws exactly when the replacement loop throws or, after it, the root's text cannot be produced or parsed |
| DecomposePass.DecomposeFailsOnlyInLowering | Obfuscate/ControlFlow/DecomposeExpressions.js:285-323 | on a well-formed tree and a parser that returns statement lists, the pass throws exactly when lowering or re-parsing the body some round finds, in the tree the earlier rounds left, fails, or the root's does |
| DecomposePass.LowerBodyFails | Obfuscate/ControlFlow/DecomposeExpressions.js:289-307 | with a parser that returns statement lists, a body that exists fails to lower exactly when the printer or the parser fails on it |
| DecomposeIndent.StatementIndented | Obfuscate/ControlFlow/DecomposeExpressions.js:16-20 | every line a statement emits is indented at least at its depth |
| DecomposeIndent.StatementsIndented | Obfuscate/ControlFlow/DecomposeExpressions.js:173 | the same for a statement list |
| DecomposeIndent.IfIndented | Obfuscate/ControlFlow/DecomposeExpressions.js:164-178 | the same for an `if` |
| DecomposeIndent.ClausesIndented | Obfuscate/ControlFlow/DecomposeExpressions.js:165-175 | the same for the clauses of an `if` |
| DecomposeIndent.WhileIndented | Obfuscate/ControlFlow/DecomposeExpressions.js:179-198 | the same for a `while` |
| DecomposeIndent.ForNumericIndented | Obfuscate/ControlFlow/DecomposeExpressions.js:199-209 | the same for a numeric `for` |
| DecomposeIndent.ForGenericIndented | Obfuscate/ControlFlow/DecomposeExpressions.js:210-227 | the same for a generic `for` |
| DecomposeIndent.FunctionIndented | Obfuscate/ControlFlow/DecomposeExpressions.js:236-251 | the same for a function declaration |
| DecomposeLaws.IteratorIsCall | Obfuscate/ControlFlow/DecomposeExpressions.js:211-216 | a call iterator lowers its base and arguments in order; as written it applies the base's text, corrected it rebuilds the call |
| DecomposeLaws.IteratorMeans | Obfuscate/ControlFlow/DecomposeExpressions.js:211-216 | the corrected iterator means the original call |
| DecomposeLaws.IteratorAsWrittenLosesReceiver | Obfuscate/ControlFlow/DecomposeExpressions.js:211-216 | as written, a method-call iterator is applied to `[object Object]` and does not mean the original call |
| DecomposeLaws.LeadingValuesMean | Obfuscate/ControlFlow/DecomposeExpressions.js:128-132 | all but the last value read back as their meanings |
| DecomposeLaws.ValuesMean | Obfuscate/ControlFlow/DecomposeExpressions.js:152-160 | without a trailing call every value reads back as its meaning once all are computed |
| DecomposeLaws.SwapAsWritten | Obfuscate/ControlFlow/DecomposeExpressions.js:152-160 | as written, `x, y = y, x` becomes `x = y` then `y = x` |
| DecomposeLaws.SwapCorrected | Obfuscate/ControlFlow/DecomposeExpressions.js:152-160 | corrected, it stays one statement `x, y = y, x` |
| DecomposeLaws.WhileRetests | Obfuscate/ControlFlow/DecomposeExpressions.js:188-193 | re-evaluating the condition at the end of the body stores its current meaning back into the condition's temporary |
| Emit.TextOf | Obfuscate/Utils/AST2Code.js:25 | a value read off a node prints as JavaScript converts it; a string prints as itself, and only an array (not modelled) fails |
| Emit.Handle | Obfuscate/Utils/AST2Code.js:7-10 | a `null` node throws when its `type` is read; a string, number or boolean prints as nothing |
| Emit.At | Obfuscate/Utils/AST2Code.js:37 | printing a missing child throws |
| Emit.ListAt | Obfuscate/Utils/AST2Code.js:12 | a missing list prints as nothing |
| Emit.Handler | Obfuscate/Utils/AST2Code.js:245-257 | an empty list and a non-object print as nothing |
| Emit.HandleAll | Obfuscate/Utils/AST2Code.js:247 | a list prints exactly when each of its items prints, one text per item in order |
| Emit.ConcatAt | Obfuscate/Utils/AST2Code.js:160-163 | the clauses of an `if` print only when they are a list |
| Emit.WrapBase | Obfuscate/Utils/AST2Code.js:187-198 | as written a base is parenthesised exactly when its kind is on the written list; corrected, exactly when it is not a prefix expression |
| Emit.FormattedCode | Obfuscate/Utils/AST2Code.js:259-266 | `AST2Code` fails exactly when the printing fails; a formatter that always throws leaves the printed text |
| Emit.AST2Code | Obfuscate/Utils/AST2Code.js:245-266 | `null`, a string, a number or a boolean prints as nothing; a statement list prints exactly when every one of its statements prints |
| Emit.Statement | Obfuscate/Utils/AST2Code.js:87-237 | a `while`, `repeat` or `if`/`elseif` clause without a condition throws when the condition is read; a printed `do`, `while` or generic `for` ends with ` end ` |
| Emit.Expression | Obfuscate/Utils/AST2Code.js:74-213 | a binary or logical expression without both operands, a unary one without its operand, or a keyed table field without its key throws |
| Emit.AST2CodeOfNode | Obfuscate/Utils/AST2Code.js:260 | a node with a truthy `type` prints as a list of one |
| Emit.LocalFunctionFixed | Obfuscate/Utils/AST2Code.js:34-49 | the corrected printer declares a named function `local` exactly when the parser's `isLocal` flag is set |
| Emit.LocalFunctionAsWritten | Obfuscate/Utils/AST2Code.js:41 | the printer as written reads `islocal`, which the parser never sets, so every named function prints as a global assignment |
| Emit.EmptyLocalFunction | Obfuscate/Utils/AST2Code.js:34-49 | `local function f() end` prints as `f = function() … end` as written and as `local f = function() … end` corrected |
| Emit.NameNodeText | Obfuscate/Utils/AST2Code.js:24-27 | an identifier prints as its name |
| Emit.EmptyListText | Obfuscate/Utils/AST2Code.js:245-248 | an empty list prints as nothing |
| Emit.StatementListsGuarded | Obfuscate/Utils/AST2Code.js:245-248 | every statement list the corrected printer emits is its statements in order, one per line, the first as it is and each later one unchanged or behind a `;` exactly when it opens with a parenthesis, so no line after the first opens with one; the list prints exactly when each statement does |
| Emit.StatementListsAsWritten | Obfuscate/Utils/AST2Code.js:245-248 | as written a statement list is its statements joined by bare line breaks, printed exactly when each statement prints |
| Emit.GuardSeparates | Obfuscate/Utils/AST2Code.js:248 | once guarded no statement after the first opens with a parenthesis, and each reads as the statement it guards |
| Emit.TwoStatements | Obfuscate/Utils/AST2Code.js:248 | two statements, the second opening with a parenthesis: as written only a line break separates them, corrected a `;` does |
| Emit.AnonymousFunctionText | Obfuscate/Utils/AST2Code.js:50-59 | an anonymous function prints parenthesised |
| Emit.AnonymousCallOpensParen | Obfuscate/Utils/AST2Code.js:67-73 | a call of an anonymous function opens with a parenthesis in both printers |
| Emit.MemberBaseIsPrefix | Obfuscate/Utils/AST2Code.js:114-129 | the base of a member expression is printed bare only when it is a prefix expression, otherwise parenthesised |
| Emit.IndexBaseFixed | Obfuscate/Utils/AST2Code.js:187-198 | the corrected printer parenthesises an index base unless it is a prefix expression |
| Emit.CallBaseFixed | Obfuscate/Utils/AST2Code.js:67-73 | the corrected printer parenthesises a call base unless it is a prefix expression |
| Emit.VarargText | Obfuscate/Utils/AST2Code.js:224-227 | `...` prints as itself |
| Emit.IndexVarargBase | Obfuscate/Utils/AST2Code.js:187-198 | an index on `...` prints as `...[i]` as written and as `(...)[i]` corrected |
| Renamer.NodeAt | Obfuscate/VariableRenamer.js:39-46 | a node read by `GetNodeInternal` and truthy |
| Renamer.DefinedNamesWholeProgram | Obfuscate/VariableRenamer.js:54-94 | a name is in the defined set exactly when some declaration in the program declares it |
| Renamer.DefinedIsDeclared | Obfuscate/VariableRenamer.js:54-94 | every collected name is declared by some declaration |
| Renamer.DeclaredIsDefined | Obfuscate/VariableRenamer.js:54-94 | every declared name is collected |
| Renamer.Classify | Obfuscate/VariableRenamer.js:96-127 | every identifier occurrence kept is a declared or an external use, with its node; every declared use lands in `Defined` and every external use in `ExternalAPIs` |
| Renamer.CollectVariables | Obfuscate/VariableRenamer.js:48-130 | every occurrence in `Defined` is a named node at its path whose name is declared somewhere; every occurrence in `ExternalAPIs` is a named node at its path whose name is declared nowhere |
| Renamer.CollectVariablesSorts | Obfuscate/VariableRenamer.js:96-127 | an identifier is sorted as defined exactly when it has a name, the name is declared, and it is not a member name or table key |
| Renamer.Aliases | Obfuscate/VariableRenamer.js:137-144 | one alias per occurrence |
| Renamer.RenameStep | Obfuscate/VariableRenamer.js:139-143 | corrected, a name seen before gets its earlier alias and a new name gets the next generated one |
| Renamer.AliasesShareByName | Obfuscate/VariableRenamer.js:137-144 | corrected, occurrences get the same alias exactly when they have the same name, the `k`-th distinct name getting the `k`-th generated alias |
| Renamer.AliasesAsWrittenInherited | Obfuscate/VariableRenamer.js:139-143 | as written, an occurrence named like a member every object inherits (`toString`, `constructor`, …) reads that member instead of an alias |
| Renamer.InheritedNameCounterexample | Obfuscate/VariableRenamer.js:139-143 | a variable named `toString` is assigned the inherited function as written and a generated alias corrected |
| Renamer.AliasesAgreeOffInherited | Obfuscate/VariableRenamer.js:137-144 | when no name is an inherited member, the program as written aliases exactly as the corrected one |
| Renamer.RenameVariablesAsWrittenAgrees | Obfuscate/VariableRenamer.js:132-147 | for programs with no such name the whole pass as written equals the corrected pass |
| Renamer.NameKeys | Obfuscate/VariableRenamer.js:138 | each defined occurrence's `name` read as text |
| Renamer.NameWrites | Obfuscate/VariableRenamer.js:143 | one write of the alias to each occurrence's `name` field |
| Renamer.ApplyWritesLands | Obfuscate/VariableRenamer.js:137-144 | each write, once applied with the rest, reads back |
| Renamer.ApplyWritesFrame | Obfuscate/VariableRenamer.js:137-144 | every path apart from the written ones reads as before |
| Renamer.SameNamePath | Obfuscate/VariableRenamer.js:137-144 | two collected occurrences whose `name` paths coincide are the same occurrence |
| Renamer.RenameWritable | Obfuscate/VariableRenamer.js:132-147 | on a well-formed tree with string names every alias write fits |
| Renamer.RenameVariablesRenames | Obfuscate/VariableRenamer.js:132-147 | corrected, the pass succeeds and each defined occurrence's name becomes the generated alias of its name's rank |
| Renamer.RenameVariablesKeepsExternals | Obfuscate/VariableRenamer.js:132-147 | every external occurrence keeps its name |
| Renamer.RenameVariablesFrame | Obfuscate/VariableRenamer.js:132-147 | any path apart from the renamed `name` fields reads as before |
| Renamer.RenameVariables | Obfuscate/VariableRenamer.js:132-147 | when it succeeds, every defined occurrence has a text name, and every path apart from their `name` fields reads as before |
| Shuffle.Lcg | Obfuscate/HideGlobals.js:16 | the generator's next state is below 2^31 |
| Shuffle.SwapIndex | Obfuscate/HideGlobals.js:18-20 | the swap partner of slot `i` lies in `1..i` |
| Shuffle.LcgShuffle | Obfuscate/HideGlobals.js:15-26 | the shuffle driven by the generator is a permutation |
| Shuffle.SwapInverse | Obfuscate/HideGlobals.js:22-25 | swapping two trackers keeps the index map and its inverse inverse to each other |
| Shuffle.Track | Obfuscate/HideGlobals.js:15-26 | tracking the swaps on the index map yields the shuffled identity and its inverse |
| Shuffle.ScatterInverts | Obfuscate/HideGlobals.js:28-31 | `result[originalIndex] = currentIndex` inverts the index map |
| Shuffle.PredictShuffle | Obfuscate/HideGlobals.js:7-34 | one predicted slot per argument |
| Shuffle.PredictionIsInverse | Obfuscate/HideGlobals.js:7-34 | the prediction is a permutation and the inverse of the shuffle the runtime performs |
| Shuffle.RuntimeShuffle | Obfuscate/HideGlobals.js:206-217 | the preamble's shuffle of the packed arguments is a permutation of them |
| Shuffle.LcgShuffleReorder | Obfuscate/HideGlobals.js:206-217 | shuffling the arguments is shuffling their indices and reading the arguments through them |
| Shuffle.PredictionAgrees | Obfuscate/HideGlobals.js:93-94 | after the runtime shuffle, the slot predicted for argument `r` holds argument `r` |
| HideGlobals.IsLocalFrom | Obfuscate/HideGlobals.js:102-107 | `isLocal` holds exactly when some open scope binds the name |
| HideGlobals.PushGrowPop | Obfuscate/HideGlobals.js:98-99 | a scope pushed and popped again leaves the stack below it as it was |
| HideGlobals.AddGrows | Obfuscate/HideGlobals.js:100 | binding a name only adds to the current scope |
| HideGlobals.Proxied | Obfuscate/HideGlobals.js:160-175 | a global identifier becomes `proxy["name"]`, with the name quoted; only an identifier with a text name is rewritten |
| HideGlobals.Declare | Obfuscate/HideGlobals.js:126-128 | declaring a list of variables succeeds exactly when it is a list without `null` items, and binds each (identifier) name in the current scope |
| HideGlobals.DeclareItems | Obfuscate/HideGlobals.js:126-128 | the same from position `i` on |
| HideGlobals.Process | Obfuscate/HideGlobals.js:110-198 | an identifier is rewritten exactly when no open scope binds it; dot and colon names, table keys and function names are never walked; only blocks, functions and loops open scopes and they close them again; a local function binds its name in the current scope; a `local` statement binds its variables there, after walking its initialisers with the stack from before it; a numeric `for` walks its start with its control variable already in scope; values that are not objects or arrays are left alone |
| HideGlobals.WalkDo | Obfuscate/HideGlobals.js:118-122 | a `do` block closes the scope it opened |
| HideGlobals.WalkLocal | Obfuscate/HideGlobals.js:124-129 | a `local` statement keeps its variables and binds their names in the current scope; the initialisers it writes back were walked with the stack from before the statement |
| HideGlobals.WalkFunction | Obfuscate/HideGlobals.js:131-141 | a function keeps its name, binds it when the declaration is local, and closes the scope of its parameters |
| HideGlobals.WalkForGeneric | Obfuscate/HideGlobals.js:143-157 | a generic `for` closes the scope of its variables; the iterators it writes back were walked in a new scope that already holds every loop variable |
| HideGlobals.WalkForNumeric | Obfuscate/HideGlobals.js:143-157 | a numeric `for` closes the scope of its variable; the start it writes back was walked in a new scope holding only the control variable, and the end with the stack the start left |
| HideGlobals.LocalInitSeesOuterScope | Obfuscate/HideGlobals.js:124-128 | in `local x = x` with `x` bound nowhere, the right-hand `x` is proxied and the left-hand one is bound afterwards |
| HideGlobals.NumericStartSeesLoopVariable | Obfuscate/HideGlobals.js:145-151 | in `for i = i, n do end` the start `i` is taken as the loop's own variable and left alone |
| HideGlobals.WalkIdentifier | Obfuscate/HideGlobals.js:160-176 | a bound identifier is left alone and an unbound one is proxied |
| HideGlobals.WalkMember | Obfuscate/HideGlobals.js:178-184 | a `.` or `:` member keeps its name |
| HideGlobals.WalkOther | Obfuscate/HideGlobals.js:186-196 | any other node walks its object fields, and a table key string keeps its key |
| HideGlobals.ProcessFields | Obfuscate/HideGlobals.js:187-195 | the walk keeps every key in order and leaves every field that is not an object alone |
| HideGlobals.ProcessAt | Obfuscate/HideGlobals.js:110-111 | a missing child stays missing |
| HideGlobals.Const | Obfuscate/HideGlobals.js:38-42 | a constant opens with a digit |
| HideGlobals.GenerateDeadCode | Obfuscate/HideGlobals.js:36-79 | every decoy opens with `(` followed by `(`, a digit or `#` |
| HideGlobals.DeadCodeIsNotEnv | Obfuscate/HideGlobals.js:36-79 | no decoy is the environment argument |
| HideGlobals.Pack | Obfuscate/HideGlobals.js:88-90 | exactly one argument, the one at slot `r`, carries the environment |
| HideGlobals.Packing | Obfuscate/HideGlobals.js:85-94 | between 11 and 26 arguments, the seed at most 9·10^9, the environment at exactly one slot, and the predicted index holds the environment after the runtime shuffle |
| HideGlobals.ProcessRoot | Obfuscate/HideGlobals.js:200 | a `null` tree throws |
| HideGlobals.HideGlobals | Obfuscate/HideGlobals.js:81-225 | a `null` tree throws; otherwise the packing properties hold of the result |
| Cipher.BitXorTwice | Obfuscate/MangleConstants/EncryptStrings.js:152-158 | the decryptor's bit-by-bit XOR undone by the same key byte gives the byte back |
| Cipher.XorWithKey | Obfuscate/MangleConstants/EncryptStrings.js:109-117 | `Output[i] = Input[i] ^ Key[i % Key.length]`, one byte per input byte |
| Cipher.XorWithKeyTwice | Obfuscate/MangleConstants/EncryptStrings.js:109-117 | XOR with the same key twice is the identity |
| Cipher.Digits | Obfuscate/MangleConstants/EncryptStrings.js:76-88 | the base-`b` digits of a number, most significant first, with no leading zero |
| Cipher.DigitsValue | Obfuscate/MangleConstants/EncryptStrings.js:76-88 | the digits read back as the number |
| Cipher.CanonicalUnique | Obfuscate/MangleConstants/EncryptStrings.js:76-88 | two digit strings without leading zeros and of equal value are equal |
| Cipher.LeadingDigitBound | Obfuscate/MangleConstants/EncryptStrings.js:77 | a digit string has a non-zero lead exactly when its value reaches the top power |
| Cipher.Spell | Obfuscate/MangleConstants/EncryptStrings.js:84 | each digit spelt by its character of the alphabet |
| Cipher.BaseStarEncode | Obfuscate/MangleConstants/EncryptStrings.js:76-88 | the encoding is non-empty and uses only alphabet characters |
| Cipher.CarryLoopValue | Obfuscate/MangleConstants/EncryptStrings.js:135-139 | the decryptor's multiply-and-carry pass over the byte array computes `k·base + l` with the carry out on top |
| Cipher.PrependLoopValue | Obfuscate/MangleConstants/EncryptStrings.js:140-143 | the carry is prepended in bytes, so the value is kept and a non-zero carry gives a non-zero lead |
| Cipher.MulAddValue | Obfuscate/MangleConstants/EncryptStrings.js:132-145 | one digit step of the decryptor multiplies by the base and adds the digit, and keeps the array free of leading zeros |
| Cipher.DecodeDigitsValue | Obfuscate/MangleConstants/EncryptStrings.js:131-145 | the decryptor turns base-`b` digits into bytes of the same value, without leading zeros |
| Cipher.DigitsRoundTripIff | Obfuscate/MangleConstants/EncryptStrings.js:76-88 | encoding bytes as digits and decoding them again returns the bytes exactly when they have no leading zero byte |
| Cipher.RankedPool | Obfuscate/MangleConstants/EncryptStrings.js:93 | the 61 characters of the pool |
| Cipher.PoolShape | Obfuscate/MangleConstants/EncryptStrings.js:93 | the pool has 61 distinct characters, none a lower-case letter, quote, backslash or line break |
| Cipher.Find | Obfuscate/MangleConstants/EncryptStrings.js:124 | `b:find(d, from, true)`: the first occurrence of `d` at or after `from`, or none |
| Cipher.CharDigits | Obfuscate/MangleConstants/EncryptStrings.js:129-133 | each payload character read as its position in the alphabet |
| Cipher.FindSecondDelimiter | Obfuscate/MangleConstants/EncryptStrings.js:123-124 | the second delimiter is found right after the alphabet, since neither the pool nor the alphabet holds a lower-case letter |
| Cipher.CharDigitsSpell | Obfuscate/MangleConstants/EncryptStrings.js:129-133 | reading back spelt digits gives the digits |
| Cipher.DecodePayloadParts | Obfuscate/MangleConstants/EncryptStrings.js:121-145 | the decryptor splits the payload into delimiter, alphabet and encoding and decodes the encoding in that alphabet |
| Cipher.DecodePayloadOf | Obfuscate/MangleConstants/EncryptStrings.js:99-145 | decoding an encoded payload gives the bytes' value decoded back to bytes |
| Cipher.DecodePayloadCanonical | Obfuscate/MangleConstants/EncryptStrings.js:99-145 | the payload decodes to the bytes exactly when they have no leading zero byte |
| Cipher.Shuffle | Obfuscate/MangleConstants/EncryptStrings.js:97 | `sort(() => Math.random() - 0.5)` permutes the pool |
| Cipher.PoolOrderNoRepeat | Obfuscate/MangleConstants/EncryptStrings.js:97 | any order of the pool has no repeated character |
| Cipher.PickKey | Obfuscate/MangleConstants/EncryptStrings.js:185 | a key of 5 to 40 pool characters, a prefix of the shuffled pool |
| Cipher.PickAlphabet | Obfuscate/MangleConstants/EncryptStrings.js:96-97 | an alphabet of 16 to 61 distinct pool characters, a prefix of the shuffled pool |
| Cipher.PickDelimiter | Obfuscate/MangleConstants/EncryptStrings.js:102 | the delimiter is four pool characters then one lower-case letter |
| Cipher.EncryptLiteral | Obfuscate/MangleConstants/EncryptStrings.js:95-107 | the pool stays a permutation; the key, alphabet and delimiter have their shapes; the payload is delimiter, alphabet, delimiter and the encoded ciphertext |
| Cipher.XorZero | Obfuscate/MangleConstants/EncryptStrings.js:114 | a ciphertext byte is zero exactly when the plain byte equals the key byte |
| Cipher.LeadingCipherByte | Obfuscate/MangleConstants/EncryptStrings.js:114 | the ciphertext has no leading zero exactly when the literal has one byte or its first byte differs from the key's |
| Cipher.DecryptIffCipher | Obfuscate/MangleConstants/EncryptStrings.js:147-160 | decrypting gives the literal exactly when the decoded bytes are its ciphertext |
| Cipher.DecodePayload | Obfuscate/MangleConstants/EncryptStrings.js:121-145 | the decryptor decodes to nothing exactly when the payload is shorter than five characters or its delimiter does not recur from position 6; otherwise to a minimal byte array: a single byte, or no leading zero |
| Cipher.Decrypt | Obfuscate/MangleConstants/EncryptStrings.js:147-160 | the result has the decoded payload's length, and XORing it with the repeating key gives back the decoded payload |
| Cipher.PayloadRoundTripIff | Obfuscate/MangleConstants/EncryptStrings.js:99-160 | for any delimiter, alphabet and key the decryptor returns the literal exactly when it has one byte or its first byte differs from the key's first |
| Cipher.EncryptLiteralRoundTripIff | Obfuscate/MangleConstants/EncryptStrings.js:183-189 | as written, an encrypted literal decrypts to itself exactly when it has one byte or its first byte differs from the key's first byte |
| Cipher.EncryptLiteralSentinelRoundTrip | Obfuscate/MangleConstants/EncryptStrings.js:183-189 | with a leading sentinel byte, every encrypted literal decrypts to itself |
| Cipher.LeadingZeroLost | Obfuscate/MangleConstants/EncryptStrings.js:77 | `"AB"` under the key `ACDEF`, which `PickKey` can draw, encrypts to the bytes `0, 1`, loses its zero in the number and decrypts to `"@"` |
| Escapes.Utf8 | Obfuscate/MangleConstants/EncryptStrings.js:61-70 | `Buffer.from(c, 'utf8')`: one to four bytes by the code point's range, a lead byte announcing the width and continuation bytes after it |
| Escapes.Utf8CodePoint | Obfuscate/MangleConstants/EncryptStrings.js:61-70 | decoding a character's UTF-8 bytes gives its code point back (RFC 3629, section 3) |
| Escapes.Utf8StringRoundTrip | Obfuscate/MangleConstants/EncryptStrings.js:60-71 | the UTF-8 bytes of a string decode back to its code points |
| Escapes.EscapeTableAsWritten | Obfuscate/MangleConstants/EncryptStrings.js:46-57 | the written escape table gives each Lua escape's byte except `\\a`, which becomes the letter `a` |
| Escapes.EscapeTableCorrected | Obfuscate/MangleConstants/EncryptStrings.js:46-57 | the corrected table gives every single-letter Lua escape its byte (section 3.1 of the Lua 5.4 reference manual) |
| Escapes.DigitRun | Obfuscate/MangleConstants/EncryptStrings.js:41-44 | `\\ddd`: up to three digits are read |
| Escapes.UnescapePlain | Obfuscate/MangleConstants/EncryptStrings.js:60-71 | text without a backslash unescapes to its UTF-8 bytes |
| Escapes.ThreeDigitsValue | Obfuscate/MangleConstants/EncryptStrings.js:41-44 | three decimal digits of a byte read back as the byte |
| Escapes.UnescapeQuote | Obfuscate/MangleConstants/EncryptStrings.js:33-74 | any bytes written as `\\ddd` escapes unescape back to the same bytes |
| Escapes.Unescape | Obfuscate/MangleConstants/EncryptStrings.js:33-74 | the loop fails only on a backslash that ends the text, where reading the next character throws |
| Escapes.LowSurrogateBytes | Obfuscate/MangleConstants/EncryptStrings.js:57-70 | after an escaped character above U+FFFF the loop lands on its low surrogate and adds the three bytes of U+FFFD; below U+10000 it adds nothing |
| Escapes.EscapedAstral | Obfuscate/MangleConstants/EncryptStrings.js:56-70 | a backslash before a character above U+FFFF yields the low byte of its high surrogate followed by `EF BF BD` |
| Escapes.EscapedEmoji | Obfuscate/MangleConstants/EncryptStrings.js:56-70 | a backslash before U+1F600 yields `3D EF BF BD` |
| Escapes.DecimalEscape | Obfuscate/MangleConstants/EncryptStrings.js:41-44 | a backslash and three digits push the number they spell, modulo 256, and the loop goes on after them |
| Escapes.BellLost | Obfuscate/MangleConstants/EncryptStrings.js:46-57 | `\\a` unescapes to 97 as written and to 7 corrected |
| Escapes.LeadingEq | Obfuscate/MangleConstants/EncryptStrings.js:176 | the run of `=` at the front |
| Escapes.TrailingEq | Obfuscate/MangleConstants/EncryptStrings.js:176 | the run of `=` at the back |
| Escapes.OpenUnique | Obfuscate/MangleConstants/EncryptStrings.js:176 | the opening `[=*[` of a raw text is matched in at most one way |
| Escapes.CloseUnique | Obfuscate/MangleConstants/EncryptStrings.js:176 | the closing `]=*]` is matched in at most one way |
| Escapes.SkipLineBreak | Obfuscate/MangleConstants/EncryptStrings.js:176 | the line break Lua skips after an opening bracket: one `\n` or `\r`, or a `\r\n` or `\n\r` pair, and nothing else (section 3.1 of the Lua 5.4 reference manual) |
| Escapes.NormalizeBreaks | Obfuscate/MangleConstants/EncryptStrings.js:176 | Lua's reading of the line breaks inside a long string leaves no carriage return |
| Escapes.NormalizeBreaksIdentity | Obfuscate/MangleConstants/EncryptStrings.js:176 | text without a carriage return is read unchanged |
| Escapes.LuaLongValuePlain | Obfuscate/MangleConstants/EncryptStrings.js:176 | without a carriage return, Lua's value of a long string is its body less a first `\n`, which is what `\n?` removes |
| Escapes.OpenBreakAppend | Obfuscate/MangleConstants/EncryptStrings.js:176 | skipping the first line break does not reach past the body into a closing bracket |
| Escapes.StripOpen | Obfuscate/MangleConstants/EncryptStrings.js:176 | the first `replace` drops the opening bracket and an immediately following `\n`, keeping the `=` run as written; corrected, it drops the bracket and a first line break as Lua reads one |
| Escapes.StripClose | Obfuscate/MangleConstants/EncryptStrings.js:176 | the second `replace` drops the closing bracket, keeping the `=` run as written |
| Escapes.OpenLongBracket | Obfuscate/MangleConstants/EncryptStrings.js:176 | the opening of a long bracket of any level is stripped as described |
| Escapes.CloseShape | Obfuscate/MangleConstants/EncryptStrings.js:176 | the closing of a long bracket of any level is stripped as described |
| Escapes.LongContentAsWritten | Obfuscate/MangleConstants/EncryptStrings.js:176 | as written, a long string of level `n` keeps `n` signs on each side of its body less a first `\n`; without a carriage return that body is its Lua value |
| Escapes.LongContentCorrected | Obfuscate/MangleConstants/EncryptStrings.js:176 | corrected, a long string yields exactly its Lua value, line breaks read as Lua reads them |
| Escapes.LevelOneKeepsSigns | Obfuscate/MangleConstants/EncryptStrings.js:176 | `[=[x]=]` yields `=x=` as written and `x` corrected (nothing when `x` is a carriage return) |
| Escapes.CarriageReturnKept | Obfuscate/MangleConstants/EncryptStrings.js:176 | a long string opened by `[[` and a `\r\n` keeps both characters as written; Lua, and the corrected strip, read only what follows |
| Escapes.LiteralBytes | Obfuscate/MangleConstants/EncryptStrings.js:172-182 | a long-bracket literal never fails; a quoted one fails only when its content ends in a backslash |
| Escapes.LiteralBytesQuoted | Obfuscate/MangleConstants/EncryptStrings.js:178-181 | a quoted literal of `\\ddd` escapes yields its bytes in both versions |
| Escapes.LiteralBytesLong | Obfuscate/MangleConstants/EncryptStrings.js:175-177 | a long-bracket literal yields the UTF-8 bytes of its Lua value corrected; as written, of the body less a first `\n` wrapped in `=` signs, which is the Lua value wrapped when the body has no carriage return |
| Strings.IndexNodeFields | Obfuscate/MangleConstants/EncryptStrings.js:18-26 | the replacement node is an `IndexExpression` over the old base whose index is the quoted identifier |
| Strings.StringifyNode | Obfuscate/MangleConstants/EncryptStrings.js:16-27 | a node whose `indexer` is `.` becomes the matching `IndexExpression`, any other node is left alone, and a missing node or identifier name is the thrown `TypeError` |
| Strings.Stringify | Obfuscate/MangleConstants/EncryptStrings.js:9-28 | walking the found positions never changes a position none of them reaches |
| Strings.StringHasNoIndexer | Obfuscate/MangleConstants/EncryptStrings.js:16-17 | a string value has no `indexer` and is left alone |
| Strings.VisitTypeField | Obfuscate/MangleConstants/EncryptStrings.js:8-17 | a path found for `type = MemberExpression` ends at the `type` string itself, so its visit changes nothing |
| Strings.StringifyTypeFields | Obfuscate/MangleConstants/EncryptStrings.js:9-28 | when every found path ends at a `type` field, the loop returns the tree unchanged |
| Strings.StringifyMemberExpressionsIsIdentity | Obfuscate/MangleConstants/EncryptStrings.js:7-30 | as written, the pass returns every well-formed tree unchanged |
| Strings.VisitReads | Obfuscate/MangleConstants/EncryptStrings.js:10-17 | a visit succeeds exactly when the parent chain resolves and the node can be read, and then acts on the node at the parent path |
| Strings.StringifyInTurn | Obfuscate/MangleConstants/EncryptStrings.js:9-28 | over positions in turn, the loop succeeds exactly when every visit does, and each rewritten node lands at its position |
| Strings.StringifyFixedRewrites | Obfuscate/MangleConstants/EncryptStrings.js:7-30 | corrected to the node's own path, the pass succeeds exactly when every visit does, keeps every other position, and rewrites each dotted member expression |
| Strings.DotCallAsWritten | Obfuscate/MangleConstants/EncryptStrings.js:7-30 | `a.b()` comes back unchanged as written |
| Strings.DotCallFixed | Obfuscate/MangleConstants/EncryptStrings.js:7-30 | `a.b()` becomes `a["b"]()` corrected |
| Strings.EncryptRaw | Obfuscate/MangleConstants/EncryptStrings.js:172-190 | a literal is encrypted exactly when its raw text reads; an empty value keeps its raw text; the pool stays a permutation of the 61 characters |
| Strings.EncryptAt | Obfuscate/MangleConstants/EncryptStrings.js:166-190 | one literal's step changes nothing outside that literal's `raw` field and keeps the pool a permutation; a literal whose raw text denotes no bytes is left as it was; any other has its `raw` overwritten by the decryptor call on its encryption, and that encryption's pool is passed on |
| Strings.EncryptRaws | Obfuscate/MangleConstants/EncryptStrings.js:166-191 | the loop changes nothing outside the sampled literals' `raw` fields and keeps the pool a permutation |
| Strings.EncryptStrings | Obfuscate/MangleConstants/EncryptStrings.js:92-195 | the pool left after the pass is still a permutation of the 61 characters, and nothing outside the sampled literals' `raw` fields changes |
| EncryptLoop.StepHandles | Obfuscate/MangleConstants/EncryptStrings.js:172-190 | one step leaves an empty literal's `raw` as it was and writes the decryptor call on the literal's encrypted bytes into any other |
| EncryptLoop.StepKeepsLater | Obfuscate/MangleConstants/EncryptStrings.js:166-190 | a step leaves every later literal that sits apart from it, and that literal's `raw`, as they were |
| EncryptLoop.EncryptRawsWrites | Obfuscate/MangleConstants/EncryptStrings.js:166-191 | when the sampled literals sit apart, after the loop every one of them is either left as it was, having no bytes, or reads as the decryptor call on its own bytes encrypted under its draw |
| EncryptLoop.EncryptStringsWrites | Obfuscate/MangleConstants/EncryptStrings.js:92-195 | the same for the whole pass over the sampled string literals |
| EncryptLoop.CallDecrypts | Obfuscate/MangleConstants/EncryptStrings.js:121-190 | with the corrected decoding, the call written for a literal's bytes has arguments that read back as payload and key, and decrypts to those bytes |
| EncryptLoop.EncryptStringsDecrypts | Obfuscate/MangleConstants/EncryptStrings.js:92-195 | with the corrected decoding and the sentinel byte, every sampled literal that sits apart is left alone or replaced by a call that decrypts to exactly the bytes it denoted |
| Strings.EncryptedQuotable | Obfuscate/MangleConstants/EncryptStrings.js:95-107 | the payload and key of an encrypted literal need no escaping inside double quotes |
| Strings.QuotableReadsBack | Obfuscate/MangleConstants/EncryptStrings.js:178-181 | a quotable text in double quotes reads back as its own UTF-8 bytes |
| Strings.EncryptRawRoundTrip | Obfuscate/MangleConstants/EncryptStrings.js:121-190 | with the sentinel correction, decrypting the emitted payload with the emitted key gives the original literal's bytes |
| Arith.Floor | Obfuscate/Utils/Math.js:7-13 | the result is the greatest integer not above the argument |
| Arith.FloorIsFloor | Obfuscate/Utils/Math.js:7-13 | the truncation-based case split agrees with the mathematical floor |
| Arith.HexString | Obfuscate/Utils/Math.js:23 | `toString(16).toUpperCase()`: at least one hexadecimal digit and no leading zero except for zero itself |
| Arith.HexValueOfString | Obfuscate/Utils/Math.js:23 | the digits read back as the number they were printed from |
| Arith.ParseSignedOf | Obfuscate/Utils/Math.js:20-25 | `ToHex(v)`, followed by something that is not a digit, reads back as `v` |
| Arith.ToHexNegative | Obfuscate/Utils/Math.js:20-25 | a negative value prints as `-` before the hex of its absolute value |
| Arith.ParseRender | Obfuscate/Utils/Math.js:27-69 | the text of an equation reads back as the same equation tree |
| Arith.EvalTextRender | Obfuscate/Utils/Math.js:27-69 | evaluating the text of an equation gives the value of its tree |
| Arith.Step | Obfuscate/Utils/Math.js:36-48 | a multiplication is kept only when the running value times an operand from 1 to 1000 stays within 10^14; otherwise an addition with an operand from 1 to 10^6 |
| Arith.Chain | Obfuscate/Utils/Math.js:28-60 | the value tracked while the parentheses are built is the value of the expression built |
| Arith.Number2Equation | Obfuscate/Utils/Math.js:27-69 | the emitted text evaluates to the target number |
| Arith.EquationValue | Obfuscate/Utils/Math.js:62-68 | the final offset and its sign make the whole equation equal the target |
| Arith.ChainBounded | Obfuscate/Utils/Math.js:35-60 | the running value stays within 10^14 plus 10^6 per step |
| Arith.DefaultLengthShape | Obfuscate/Utils/Math.js:27-69 | with the default length 2, the equation is one step and the offset around the first random literal |
| Arith.RenderBalanced | Obfuscate/Utils/Math.js:54-68 | the emitted text has as many `(` as `)` |
| Arith.RenderDashFree | Obfuscate/Utils/Math.js:63-66 | the emitted text never holds `--`, which Lua would read as a comment |
| Utils.Random | Obfuscate/Utils/Math.js:3-5 | `Random(Min, Max)` draws an integer from `Min` to `Max` inclusive |
| Utils.RandomReachesAll | Obfuscate/Utils/Math.js:3-5 | every integer of the range is drawn by some draw |
| Utils.GenerateVariable | Obfuscate/Utils/Utils.js:39-61 | types 1 and 2 give a name of the type's length whose first character is a letter of the type and the rest from its alphabet; any other type is the thrown error of an undefined alphabet |
| Utils.GeneratedNameIsIdentifier | Obfuscate/Utils/Utils.js:39-61 | with the default type every generated name is a Lua identifier |
| Utils.GenerateVariableReachesAll | Obfuscate/Utils/Utils.js:39-61 | every name of that shape is generated by some draw |
| Utils.SampleSize | Obfuscate/Utils/Utils.js:64 | `Math.ceil(len * pct / 100)`: the least count whose hundredfold reaches `len * pct` |
| Utils.SampleSizeAtMost | Obfuscate/Utils/Utils.js:64 | a percentage of at most 100 never asks for more than the list holds |
| Utils.ShuffleDownPermutes | Obfuscate/Utils/Utils.js:67-70 | the Fisher-Yates loop keeps a permutation a permutation |
| Utils.ShuffleDownMultiset | Obfuscate/Utils/Utils.js:67-70 | the Fisher-Yates loop keeps the list's elements |
| Utils.SamplePositions | Obfuscate/Utils/Utils.js:63-73 | the sampled positions are distinct, in range, and as many as the sample size allows |
| Utils.GetRandomSample | Obfuscate/Utils/Utils.js:63-73 | the sample holds as many elements as the size allows |
| Utils.SampleAtPositions | Obfuscate/Utils/Utils.js:63-73 | the sample is the list read at the sampled positions |
| Utils.SampleIsSubMultiset | Obfuscate/Utils/Utils.js:63-73 | the sample takes each element of the list at most as often as the list holds it |
| Json.GetKey | Obfuscate/Utils/Utils.js:75-82 | following the path from the root; reading a property of `null` or `undefined` is the thrown `TypeError` |
| Json.GetNodeInternal | Obfuscate/VariableRenamer.js:39-46 | the guarded walk never throws |
| Json.GetNodeInternalAgrees | Obfuscate/VariableRenamer.js:39-46 | the guarded walk reads what `GetKey` reads, and nothing where `GetKey` would throw |
| Json.GetNodeInternalThroughNull | Obfuscate/VariableRenamer.js:41-43 | once the walk meets `null` it yields nothing |
| Json.PutFrame | Obfuscate/Utils/Utils.js:75-82 | writing at a path leaves every path that diverges from it unchanged |
| Mangle.Negate | Obfuscate/MangleConstants/MangleBools.js:14-20 | each mode's second operator is the negation of its first |
| Mangle.Operators | Obfuscate/MangleConstants/MangleBools.js:14-22 | the operator for `false` is the negation of the operator for `true` |
| Mangle.GenerateExpression | Obfuscate/MangleConstants/MangleBools.js:9-39 | the comparison holds exactly when the literal is `true`, its left side is within 9e9 and its sides differ by 1 to 9e5 |
| Mangle.ComparisonRoundTrip | Obfuscate/MangleConstants/MangleBools.js:38 | the emitted text `(L op R)` evaluates to the truth of the comparison |
| Mangle.CheckMangled | Obfuscate/MangleConstants/MangleNumbers.js:18-22 | the mangled text is accepted exactly when it evaluates to the literal's value, else the thrown error |
| Mangle.Parenthesize | Obfuscate/MangleConstants/MangleNumbers.js:24 | the raw text is the mangled text in parentheses |
| Mangle.RawText | Obfuscate/MangleConstants/MangleNumbers.js:17-24 | the raw text is produced exactly when the value is accepted, and then it denotes that value |
| Mangle.RewriteRaws | Obfuscate/MangleConstants/MangleNumbers.js:11-25 | the loop changes nothing outside the sampled literals' `raw` fields |
| Mangle.RewriteRawsSucceeds | Obfuscate/MangleConstants/MangleNumbers.js:11-25 | over found literals, the loop succeeds and leaves each sampled literal's `raw` denoting its `value` |
| Mangle.Sampled | Obfuscate/MangleConstants/MangleNumbers.js:9-10 | the sampled paths are found literals, as many as the sample size |
| Mangle.MangleLiteralsSpec | Obfuscate/MangleConstants/MangleNumbers.js:8-29 | a well-formed tree is mangled without error and every sampled literal's `raw` denotes its `value` |
| Mangle.MangleNumbersSucceeds | Obfuscate/MangleConstants/MangleNumbers.js:8-29 | every sampled number keeps its `value` and gets a `raw` text that evaluates to it |
| Mangle.MangleBoolsSucceeds | Obfuscate/MangleConstants/MangleBools.js:41-52 | every sampled boolean keeps its `value` and gets a `raw` comparison with the same truth |
| Mangle.MangleNumbers | Obfuscate/MangleConstants/MangleNumbers.js:8-25 | on a well-formed tree where every numeric literal has a plain `raw` and an integer `value`, the pass does not throw, and every path apart from the sampled literals' `raw` fields reads as before |
| Mangle.MangleBools | Obfuscate/MangleConstants/MangleBools.js:41-52 | on a well-formed tree where every boolean literal has a plain `raw` and `value`, the pass does not throw, and every path apart from the sampled literals' `raw` fields reads as before |

## Left out

- Numbers: `Json.Num` holds integers only. Float literals, non-integer `Number2Equation` targets and JavaScript's double rounding are not modelled. The rounding matters in `PredictShuffle` once the seed products exceed 2^53. The Lua runtime shuffle uses integer arithmetic, so there the two can differ. The model's shuffle and prediction both use exact integers.
- Parsing and formatting: `Utils.Parse` (luaparse) and `UltraBeautify` are foreign code. They are parameters, and no property of them is assumed.
- Utils.GenerateVariable: the passes take fresh names as parameters (`temps`, `gen`, `names`), not as calls to `GenerateVariable`. Collisions between generated names, or with the program's own names, are not modelled.
- Lowering.DecomposeMeans: the meaning is stated over temporary indices, not over the rendered text of the names.
- Emit.TextOf: an array stored where a string is expected is an error here. JavaScript would print its elements joined by commas. The same holds for `HideGlobals.Proxied` and `Renamer.NameKeys`, which fail with "array names are not modelled" where JavaScript would use the joined text.
- Shuffle.PredictionAgrees: agreement is proved for a runtime that computes the same state sequence, with exact integers. JavaScript computes `1103515245 * state` in doubles, which round once the product passes 2^53 (a state above about 8.2·10^6), so `PredictShuffle` is rounded on nearly every step; Lua 5.3 and later compute it in 64-bit integers. Exact agreement between the two is not modelled.
- HideGlobals.Packing: inherits the agreement assumption of `Shuffle.PredictionAgrees`.
- Logging: `console.log`, `console.warn` and `console.error` are dropped. What follows each call is kept: `ProcessBlock` returns `undefined` after a failed parse, and `DecomposeExpressions` fails with the error it rethrows.
- Randomness: `Math.random`, `crypto.randomInt` and `Array.prototype.sort` with a random comparator are explicit draws. The distribution is not modelled. The random-comparator sort is modelled as a Fisher-Yates permutation of the pool, and the proofs use only that the result is a permutation.
- DecomposePass.HandleStatement: the lines of an `elseif` condition are emitted inside the previous clause's body (DecomposeExpressions.js:165-168). So the condition is evaluated only when the previous clause runs. The model keeps this as written, and no corrected clause layout is modelled.
- ControlFlow.FlattenedRunsInOrder: flattening keeps behaviour only for lists without `break`. A flattened `break` ends only the dispatcher loop, and the enclosing loop goes round again (`BreakEndsOnlyTheDispatcher`). No corrected flattening of `break` is modelled. A `break` nested in an inner block of the list is not classified separately.
- ControlFlow.ControlFlow: the contract states only the error on a `null` tree. The per-list behaviour is stated by `FlattenedRunsInOrder`, and the root's body by `RootBody`.
- ControlFlow.FlattenRoot: the contract states only the error on a `null` tree. `RootBody` states the result for an object root with an array body.
- HideGlobals.ProcessRoot: the contract states only the error on a `null` tree. The scope behaviour is stated per node by the ensures of `HideGlobals.Process`.
- HideGlobals.HideGlobals: the argument list, the environment slot and the prediction are stated. The final text and its re-parse are not.
- Mangle.MangleNumbers and Mangle.MangleBools: the model stops at the rewritten tree. The final print through `AST2Code` and the re-parse (MangleNumbers.js:27-28, MangleBools.js:54-55) are not modelled.
- Strings.EncryptStrings: the model stops at the rewritten tree and the pool. The pass's last step (EncryptStrings.js:193-194) is not modelled: it prints the tree through `AST2Code`, puts the decryptor's Lua source in front of it, and re-parses the whole text, returning a fresh statement list or throwing when the parse fails.
- Strings.StringifyFixedRewrites: assumes member expressions lie inside one another only under `base` (`NestInBase`). Every tree luaparse builds has this shape.
- Emit.StatementListsAsWritten: Dafny proves it from the printer's definition without further proof. It is listed for the comparison with `StatementListsGuarded`.
- EncryptLoop.EncryptRawsWrites, EncryptLoop.EncryptStringsWrites and EncryptLoop.EncryptStringsDecrypts: stated for samples whose literals sit apart (`RawsApart`): no literal lies inside another literal's `raw` field or on the path to it. A luaparse string literal holds no other node, and the sample never takes a position twice, so every parsed tree has this shape.
- DecomposePass.DecomposeFailsOnlyInLowering: assumes the parser returns a statement list whenever it parses, as `Utils.Parse` returns luaparse's `body`.
- DecomposePass.ProcessedAsList: Dafny proves it from the definition without further proof. It states the root dispatch of `process()`.
- Arith.FloorIsFloor: Dafny proves it from the definition without further proof. `Floor` is not used by any modelled pass.

## Findings

| source | as written | input that shows it | evidently intended | confidence | as-written member | corrected member |
|---|---|---|---|---|---|---|
| Obfuscate/MangleConstants/EncryptStrings.js:77,131-145 | `BaseStarEncode` reads the buffer as one big number, so leading zero bytes vanish; the decryptor then rebuilds a shorter string | the literal `"AB"` with the key `ACDEF`: the cipher bytes `[0, 1]` come back as `[1]`, which decrypts to `"@"` | every literal decrypts to its own bytes; the model prefixes a sentinel byte 1 before encoding and drops it after decoding | not executed | Cipher.LeadingZeroLost | Cipher.EncryptLiteralSentinelRoundTrip |
| Obfuscate/ControlFlow/ControlFlow.js:46 | a block counts as a return when its text starts with `return`, so `returned = 1` is taken for a return statement and the automaton never advances | a statement list whose first statement is `returned = 1` | only a `return` statement ends the list | not executed | ControlFlow.ReturnedStalls | ControlFlow.FlattenedRunsInOrder |
| Obfuscate/MangleConstants/EncryptStrings.js:46-57 | the escape table has no `a`, so `\a` decodes to the letter `a` (97) | `"\a"` | `\a` is the bell, byte 7 | not executed | Escapes.BellLost | Escapes.EscapeTableCorrected |
| Obfuscate/MangleConstants/EncryptStrings.js:176 | the strip keeps the captured `=` run on both sides of a long string | `[=[x]=]` yields `=x=` | the long string's value `x` | not executed | Escapes.LevelOneKeepsSigns | Escapes.LongContentCorrected |
| Obfuscate/MangleConstants/EncryptStrings.js:176 | `\n?` skips only a newline and every carriage return is kept, where Lua skips a first `\r\n` and reads each line break as `\n` | `[[` CR LF `x]]`, a long string from a file with Windows line ends, yields CR LF `x` | the long string's value `x` | not executed | Escapes.CarriageReturnKept | Escapes.LongContentCorrected |
| Obfuscate/Utils/AST2Code.js:41 | the printer reads `islocal`, but the parser sets `isLocal`, so local functions become globals | `local function f() end` | `local f = function() end`, the printer's own `islocal` form; in Lua this form does not bind `f` inside its own body as `local function f` does, so a recursive local function still calls a global `f` after the correction | not executed | Emit.LocalFunctionAsWritten | Emit.LocalFunctionFixed |
| Obfuscate/ControlFlow/DecomposeExpressions.js:211-216 | a method-call iterator is interpolated as an object, so the printed call loses its receiver | `for x in t:items() do end` | the iterator call keeps `t:items()` | not executed | DecomposeLaws.IteratorAsWrittenLosesReceiver | DecomposeLaws.IteratorMeans |
| Obfuscate/MangleConstants/EncryptStrings.js:8-17 | each found path ends at the `type` string, so the rewrite tests `indexer` on a string and changes nothing | `a.b()` comes back unchanged | `a.b()` becomes `a["b"]()` | not executed | Strings.StringifyMemberExpressionsIsIdentity | Strings.StringifyFixedRewrites |
| Obfuscate/ControlFlow/DecomposeExpressions.js:137-160 | a multiple assignment is lowered into one assignment per target in turn, so a later right-hand side sees an earlier target's new value | `a, b = b, a` | every right-hand side is evaluated before any target is assigned | not executed | DecomposeLaws.SwapAsWritten | DecomposeLaws.SwapCorrected |
| Obfuscate/VariableRenamer.js:139-143 | the lookup `RenameDict[name]` also finds members inherited from `Object.prototype`, so such a name is never given a fresh name and its node's `name` becomes the inherited function | `local toString = 1` | every variable gets its own generated name | not executed | Renamer.InheritedNameCounterexample | Renamer.AliasesShareByName |
| Obfuscate/ControlFlow/ControlFlow.js:167-169 | for an object root with a statement-list `body`, the re-parsed program is an array of statements, and its `.body` is `undefined`, so the root's body is lost | `ControlFlow` called on a whole luaparse chunk, an object whose `body` is the statement list; Main.js:62 passes the statement array that `Utils.Parse` returns, which takes the other branch and keeps the body | the root's body becomes the re-parsed statements | not executed | ControlFlow.RootBody | ControlFlow.RootBody |
| Obfuscate/Utils/AST2Code.js:248 | statements are joined by bare line breaks, so a statement opening with `(` continues the previous line as a call | `f()` followed by `(function() end)()` | a `;` before every statement that opens with `(` | not executed | Emit.StatementListsAsWritten | Emit.StatementListsGuarded |
| Obfuscate/Utils/AST2Code.js:67-72,187-198 | the base of a call is printed as it is, and the base of an index is parenthesised only for six listed node types, so a base the parser stored without its parentheses, such as `...`, prints where Lua expects a prefix expression | `(...)[i]`, which the parser stores as an index on `...`, prints as `...[i]`, which Lua does not accept | a base that is not a prefix expression is printed in parentheses | not executed | Emit.IndexVarargBase | Emit.IndexBaseFixed |
