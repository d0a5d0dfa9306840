/** `AST2Code`: the printer that turns a parser tree back into Lua text. Every
    pass that rewrites a tree through text (HideGlobals, ControlFlow) and the
    final output go through it. It reads the generic tree, so a missing or
    misspelt field reads as `undefined` exactly as it does in JavaScript.

    `fixed` selects the corrected printer: it reads the parser's `isLocal`
    flag, separates a statement that opens with a parenthesis from the one
    before it, and parenthesises a base that is not a Lua prefix expression. */
module Emit {
  import opened Wrappers
  import opened Json
  import Text

  /** `Code += x` for a value read off a node: JavaScript's string conversion. */
  function TextOf(a: Access): (r: Result<string>)
    ensures r.Ok? <==> !(a.Defined? && a.value.Arr?)
    ensures a.Defined? && a.value.Str? ==> r == Ok(a.value.s)
  {
    match JsText(a)
    case Some(s) => Ok(s)
    case None => Err("array text is not modelled")
  }

  /** The node's kind is one of `kinds` (`kinds.includes(node.type)`). */
  predicate KindIn(a: Access, kinds: set<string>)
  {
    a.Defined? && a.value.Str? && a.value.s in kinds
  }

  /** The member-expression bases printed without parentheses. */
  const SafeBases: set<string> := {"Identifier", "MemberExpression", "IndexExpression"}

  /** The index-expression bases printed inside parentheses. */
  const UnsafeIndexBases: set<string> :=
    {"TableConstructorExpression", "FunctionDeclaration", "BooleanLiteral", "StringLiteral",
     "NumericLiteral", "NilLiteral"}

  /** The node kinds whose Lua text is a prefix expression (section 3.4 of the
      Lua 5.4 reference manual: a name, an index, a call), and so may stand
      before `[`, `.`, `:` or an argument list without parentheses. */
  const PrefixKinds: set<string> :=
    {"Identifier", "MemberExpression", "IndexExpression", "CallExpression",
     "StringCallExpression", "TableCallExpression"}

  lemma SafeBasesArePrefixes()
    ensures SafeBases <= PrefixKinds
  {
  }

  /** The text opens with a parenthesis once leading blanks are skipped. */
  predicate OpensParen(s: string)
  {
    var t := Text.TrimStart(s);
    t != [] && t[0] == '('
  }

  /** The statement texts of a block, separated as the printer does: by line
      breaks, and in the corrected printer with a `;` before a statement that
      opens with a parenthesis, since Lua would otherwise read it as a call of
      the expression that ends the statement before it. */
  function Lines(parts: seq<string>, fixed: bool): string
  {
    Text.Join(if fixed then Guard(parts) else parts, "\n")
  }

  /** A statement after the first gets a `;` before it when it opens with a
      parenthesis. */
  function GuardOne(stmt: string, first: bool): string
  {
    if !first && OpensParen(stmt) then ";" + stmt else stmt
  }

  function Guard(parts: seq<string>): (r: seq<string>)
    ensures |r| == |parts|
  {
    seq(|parts|, k requires 0 <= k < |parts| => GuardOne(parts[k], k == 0))
  }

  /** No statement after the first opens with a parenthesis once guarded, and
      each one reads as the statement it guards. */
  lemma GuardSeparates(parts: seq<string>)
    ensures var g := Guard(parts);
      |g| == |parts|
      && (|g| > 0 ==> g[0] == parts[0])
      && forall k :: 0 < k < |g| ==>
           !OpensParen(g[k]) && (g[k] == parts[k] || g[k] == ";" + parts[k])
  {
    var g := Guard(parts);
    forall k | 0 < k < |g| ensures !OpensParen(g[k]) {
      if OpensParen(parts[k]) {
        assert g[k] == ";" + parts[k];
        assert g[k][0] == ';';
        assert Text.TrimStart(g[k]) == g[k];
      }
    }
  }

  /** `g` lays out the statements `parts` as the corrected printer does: the
      first as it is, each later one unchanged or behind a `;`, the `;` only
      where the statement opens with a parenthesis, and none of them opening
      with one. */
  predicate GuardedLayout(g: seq<string>, parts: seq<string>)
  {
    |g| == |parts|
    && (|g| > 0 ==> g[0] == parts[0])
    && forall k :: 0 < k < |g| ==>
         !OpensParen(g[k]) && (if OpensParen(parts[k]) then g[k] == ";" + parts[k] else g[k] == parts[k])
  }

  lemma GuardLaysOut(parts: seq<string>)
    ensures GuardedLayout(Guard(parts), parts)
  {
    GuardSeparates(parts);
  }

  // ---------------------------------------------------------------------------
  // The printer

  /** `Handle(Block)`: the text of one node. `null` throws when its `type` is
      read; a string, number or boolean has no `type` and prints as nothing. */
  function Handle(v: Value, fixed: bool): (r: Result<string>)
    ensures v.Null? ==> r.Err?
    ensures !v.Null? && !v.Obj? ==> r == Ok("")
    decreases v, 2
  {
    match v
    case Null => Err("TypeError: Cannot read properties of null (reading 'type')")
    case Obj(fs) => Node(fs, fixed)
    case _ => Ok("")
  }

  /** `Handle(Block[n])`: a missing child throws. */
  function At(fs: seq<Member>, n: string, fixed: bool): (r: Result<string>)
    ensures !HasOwn(fs, n) ==> r.Err?
    decreases fs, 1
  {
    if !HasOwn(fs, n) then Err("TypeError: Cannot read properties of undefined (reading 'type')")
    else Handle(fs[OwnIndex(fs, n)].val, fixed)
  }

  /** `AST2CodeHandler(Block[n], comma)`: a missing child prints as nothing. */
  function ListAt(fs: seq<Member>, n: string, comma: bool, fixed: bool): (r: Result<string>)
    ensures !HasOwn(fs, n) ==> r == Ok("")
    decreases fs, 1
  {
    if !HasOwn(fs, n) then Ok("")
    else Handler(fs[OwnIndex(fs, n)].val, comma, fixed)
  }

  /** `AST2CodeHandler(AST, joinWithComma)`: a list prints each node and joins
      them with `, ` or as lines; an object with a `body` list prints that
      list; any other node with a truthy `type` prints as one node; anything
      else prints as nothing. */
  function Handler(v: Value, comma: bool, fixed: bool): (r: Result<string>)
    ensures v.Arr? && v.items == [] ==> r == Ok("")
    ensures v.Null? || v.Bool? || v.Num? || v.Str? ==> r == Ok("")
    decreases v, 3
  {
    match v
    case Arr(items) =>
      var parts :- HandleAll(items, 0, fixed);
      Ok(if comma then Text.Join(parts, ", ") else Lines(parts, fixed))
    case Obj(fs) =>
      var body := Own(fs, "body");
      if body.Defined? && body.value.Arr? then ListAt(fs, "body", comma, fixed)
      else if Truthy(Own(fs, "type")) then Handle(v, fixed)
      else Ok("")
    case _ => Ok("")
  }

  /** `AST.map(block => Handle(block))` from position `i` on. */
  function HandleAll(items: seq<Value>, i: nat, fixed: bool): (r: Result<seq<string>>)
    requires i <= |items|
    ensures r.Ok? ==> |r.value| == |items| - i
    ensures r.Ok? <==> forall k :: i <= k < |items| ==> Handle(items[k], fixed).Ok?
    ensures r.Ok? ==> forall k :: 0 <= k < |r.value| ==> Handle(items[i + k], fixed) == Ok(r.value[k])
    decreases items, |items| - i
  {
    if i == |items| then Ok([])
    else
      var x :- Handle(items[i], fixed);
      var rest :- HandleAll(items, i + 1, fixed);
      Ok([x] + rest)
  }

  /** `Clauses.forEach(Clause => Code += Handle(Clause))`: only a list has `forEach`. */
  function ConcatAt(fs: seq<Member>, n: string, fixed: bool): (r: Result<string>)
    ensures r.Ok? ==> Own(fs, n).Defined? && Own(fs, n).value.Arr?
    decreases fs, 1
  {
    if !HasOwn(fs, n) then Err("TypeError: Cannot read properties of undefined (reading 'forEach')")
    else
      match fs[OwnIndex(fs, n)].val
      case Arr(items) =>
        var parts :- HandleAll(items, 0, fixed);
        Ok(Concat(parts))
      case _ => Err("TypeError: Clauses.forEach is not a function")
  }

  function Concat(parts: seq<string>): string
  {
    if parts == [] then "" else parts[0] + Concat(parts[1..])
  }

  /** The kind of a child node: `Block[n].type`, read after the child printed. */
  function KindAt(fs: seq<Member>, n: string): Access
  {
    match Own(fs, n)
    case Defined(c) => GetProp(c, "type")
    case Undefined => Undefined
  }

  /** One node, by the name in its `type` field; an unknown kind prints as nothing. */
  function Node(fs: seq<Member>, fixed: bool): (r: Result<string>)
    decreases fs, 4
  {
    var kind := Own(fs, "type");
    if !(kind.Defined? && kind.value.Str?) then Ok("")
    else
      var k := kind.value.s;
      if k in {"AssignmentStatement", "LocalStatement", "FunctionDeclaration", "CallStatement",
               "ReturnStatement", "DoStatement", "WhileStatement", "ForGenericStatement",
               "ForNumericStatement", "IfStatement", "IfClause", "ElseifClause", "ElseClause",
               "BreakStatement", "Chunk", "RepeatStatement"}
      then Statement(fs, k, fixed)
      else Expression(fs, k, fixed)
  }

  /** Statements and the clauses of an `if`. */
  function Statement(fs: seq<Member>, k: string, fixed: bool): (r: Result<string>)
    // a loop or clause without its condition throws
    ensures k in {"WhileStatement", "IfClause", "ElseifClause", "RepeatStatement"} && !HasOwn(fs, "condition") ==> r.Err?
    // every block statement is closed by `end`
    ensures r.Ok? && k in {"DoStatement", "WhileStatement", "ForGenericStatement"} ==>
      |r.value| >= 5 && r.value[|r.value| - 5..] == " end "
    decreases fs, 3
  {
    if k == "AssignmentStatement" then
      var vars :- ListAt(fs, "variables", true, fixed);
      var vals :- ListAt(fs, "init", true, fixed);
      Ok(if vals != "" then vars + " = " + vals else vars + " = nil")
    else if k == "LocalStatement" then
      var vars :- ListAt(fs, "variables", true, fixed);
      var vals :- ListAt(fs, "init", true, fixed);
      Ok(if vals != "" then "local " + vars + " = " + vals else "local " + vars)
    else if k == "FunctionDeclaration" then FunctionText(fs, fixed)
    else if k == "CallStatement" then At(fs, "expression", fixed)
    else if k == "ReturnStatement" then
      var args :- ListAt(fs, "arguments", true, fixed);
      Ok("return " + args + "; ")
    else if k == "DoStatement" then
      var body :- ListAt(fs, "body", false, fixed);
      Ok("do " + body + " end ")
    else if k == "WhileStatement" then
      var cond :- At(fs, "condition", fixed);
      var body :- ListAt(fs, "body", false, fixed);
      Ok("while (" + cond + ") do " + body + " end ")
    else if k == "ForGenericStatement" then
      var vars :- ListAt(fs, "variables", true, fixed);
      var its :- ListAt(fs, "iterators", true, fixed);
      var body :- ListAt(fs, "body", false, fixed);
      Ok("for " + vars + " in " + its + " do " + body + " end ")
    else if k == "ForNumericStatement" then ForNumeric(fs, fixed)
    else if k == "IfStatement" then
      var clauses :- ConcatAt(fs, "clauses", fixed);
      Ok(clauses + " end")
    else if k == "IfClause" || k == "ElseifClause" then
      var body :- ListAt(fs, "body", false, fixed);
      var cond :- At(fs, "condition", fixed);
      Ok((if k == "ElseifClause" then "elseif" else "if") + " " + cond + " then " + body + " ")
    else if k == "ElseClause" then
      var body :- ListAt(fs, "body", false, fixed);
      Ok("else " + body + " ")
    else if k == "BreakStatement" then Ok(" break ")
    else if k == "Chunk" then
      var body := Own(fs, "body");
      if body.Defined? && body.value.Arr? then ListAt(fs, "body", false, fixed) else Ok("")
    else
      var body :- ListAt(fs, "body", false, fixed);
      var cond :- At(fs, "condition", fixed);
      Ok("repeat " + body + " until " + cond)
  }

  /** The field the printer reads for `local function`: the parser writes
      `isLocal`, and the printer as written reads `islocal`. */
  function LocalFlag(fixed: bool): string
  {
    if fixed then "isLocal" else "islocal"
  }

  /** A named function prints as an assignment of a function expression,
      `local` when the flag is set; an anonymous one prints parenthesised. */
  function FunctionText(fs: seq<Member>, fixed: bool): (r: Result<string>)
    decreases fs, 2
  {
    var id := Own(fs, "identifier");
    if id.Defined? && !id.value.Null? then
      var name :- At(fs, "identifier", fixed);
      var params :- ListAt(fs, "parameters", true, fixed);
      var body :- ListAt(fs, "body", false, fixed);
      var head := if Truthy(Own(fs, LocalFlag(fixed))) then "local " + name + " = function(" + params + ")"
                  else name + " = function(" + params + ")";
      Ok(head + "\n" + body + "\n" + "end\n")
    else
      var params :- ListAt(fs, "parameters", true, fixed);
      var body :- ListAt(fs, "body", false, fixed);
      Ok("(function(" + params + ")" + "\n" + body + "\n" + "end)")
  }

  /** `for v = start,end[,step] do body end`, the step read as `step || Step`. */
  function ForNumeric(fs: seq<Member>, fixed: bool): (r: Result<string>)
    decreases fs, 2
  {
    var variable :- At(fs, "variable", fixed);
    var start :- At(fs, "start", fixed);
    var end :- At(fs, "end", fixed);
    var bodyField := Own(fs, "body");
    var body :-
      if bodyField.Defined? && bodyField.value.Arr? then ListAt(fs, "body", false, fixed)
      else if Truthy(bodyField) && Truthy(GetProp(bodyField.value, "type")) then At(fs, "body", fixed)
      else Ok("");
    var stepName := if Truthy(Own(fs, "step")) then "step" else "Step";
    var stepField := Own(fs, stepName);
    var step :-
      if stepField.Undefined? || stepField.value.Null? then Ok("")
      else var s :- At(fs, stepName, fixed); Ok("," + s);
    Ok("for " + variable + " = " + start + "," + end + step + " do " + body + " end ")
  }

  /** Expressions and table fields. */
  function Expression(fs: seq<Member>, k: string, fixed: bool): (r: Result<string>)
    // an operator without an operand, or a keyed table field without its key, throws
    ensures k in {"BinaryExpression", "LogicalExpression"} && (!HasOwn(fs, "left") || !HasOwn(fs, "right")) ==> r.Err?
    ensures k == "UnaryExpression" && !HasOwn(fs, "argument") ==> r.Err?
    ensures k in {"TableKey", "TableKeyString"} && !HasOwn(fs, "key") ==> r.Err?
    decreases fs, 3
  {
    if k == "Identifier" then TextOf(Own(fs, "name"))
    else if k in {"BooleanLiteral", "StringLiteral", "NumericLiteral"} then TextOf(Own(fs, "raw"))
    else if k == "CallExpression" then CallText(fs, fixed)
    else if k == "BinaryExpression" then
      var op :- TextOf(Own(fs, "operator"));
      var left :- At(fs, "left", fixed);
      var right :- At(fs, "right", fixed);
      Ok(" (" + left + " " + op + " " + right + ") ")
    else if k == "TableConstructorExpression" then
      var fields :- ListAt(fs, "fields", true, fixed);
      Ok("{" + fields + "}")
    else if k == "TableValue" then At(fs, "value", fixed)
    else if k == "TableKey" then
      var key :- At(fs, "key", fixed);
      var value :- At(fs, "value", fixed);
      Ok("[" + key + "]=" + value)
    else if k == "MemberExpression" then MemberText(fs, fixed)
    else if k == "UnaryExpression" then
      var op :- TextOf(Own(fs, "operator"));
      var arg :- At(fs, "argument", fixed);
      Ok(" " + op + " " + arg + " ")
    else if k == "IndexExpression" then IndexText(fs, fixed)
    else if k == "LogicalExpression" then
      var op :- TextOf(Own(fs, "operator"));
      var left :- At(fs, "left", fixed);
      var right :- At(fs, "right", fixed);
      Ok("(" + left + " " + op + " " + right + ")")
    else if k == "TableKeyString" then
      var key :- At(fs, "key", fixed);
      var value :- At(fs, "value", fixed);
      Ok(key + " = " + value)
    else if k == "VarargLiteral" then Ok("...")
    else if k == "NilLiteral" then Ok("nil")
    else Ok("")
  }

  /** The base of an index or call is parenthesised when it is not a prefix
      expression: by the written list of kinds, or in the corrected printer
      whenever its kind is not a prefix kind. */
  function WrapBase(base: string, kind: Access, unsafe: set<string>, fixed: bool): (r: string)
    ensures !fixed ==> r == if KindIn(kind, unsafe) then "(" + base + ")" else base
    ensures fixed ==> (KindIn(kind, PrefixKinds) ==> r == base)
    ensures fixed ==> (!KindIn(kind, PrefixKinds) ==> r == "(" + base + ")")
  {
    if (if fixed then !KindIn(kind, PrefixKinds) else KindIn(kind, unsafe)) then "(" + base + ")" else base
  }

  /** `base(args)`. */
  function CallText(fs: seq<Member>, fixed: bool): (r: Result<string>)
    decreases fs, 2
  {
    var base :- At(fs, "base", fixed);
    var args :- ListAt(fs, "arguments", true, fixed);
    Ok(WrapBase(base, KindAt(fs, "base"), {}, fixed) + "(" + args + ")")
  }

  /** `base.name`, `base:name` or `base[key]`, the base parenthesised unless
      its kind is one of the safe ones. */
  function MemberText(fs: seq<Member>, fixed: bool): (r: Result<string>)
    decreases fs, 2
  {
    var indexer :- TextOf(Own(fs, "indexer"));
    var base :- At(fs, "base", fixed);
    var id :- At(fs, "identifier", fixed);
    var closing := if Own(fs, "indexer") == Defined(Str("[")) then "]" else "";
    if KindIn(KindAt(fs, "base"), SafeBases) then Ok(base + indexer + id + closing)
    else Ok("(" + base + ")" + indexer + id + closing)
  }

  /** `base[index]`, the base parenthesised when its kind is on the unsafe list. */
  function IndexText(fs: seq<Member>, fixed: bool): (r: Result<string>)
    decreases fs, 2
  {
    var base :- At(fs, "base", fixed);
    var index :- At(fs, "index", fixed);
    Ok(WrapBase(base, KindAt(fs, "base"), UnsafeIndexBases, fixed) + "[" + index + "]")
  }

  /** `AST2Code(AST)` before formatting: a single node is printed as a list of one. */
  function AST2Code(ast: Value, fixed: bool): (r: Result<string>)
    // `null` and a bare string, number or boolean print as nothing
    ensures ast.Null? || ast.Bool? || ast.Num? || ast.Str? ==> r == Ok("")
    // a statement list prints exactly when each of its statements does
    ensures ast.Arr? ==> (r.Ok? <==> forall k :: 0 <= k < |ast.items| ==> Handle(ast.items[k], fixed).Ok?)
  {
    if ast.Obj? && Truthy(Own(ast.fields, "type")) then Handler(Arr([ast]), false, fixed)
    else Handler(ast, false, fixed)
  }

  /** `AST2Code(AST)` as other passes call it: the printed text goes through the
      formatter, which is foreign code and a parameter here (`None` when it
      throws); a formatter that throws leaves the text as printed. */
  function FormattedCode(ast: Value, format: string -> Option<string>, fixed: bool): (r: Result<string>)
    ensures r.Ok? <==> AST2Code(ast, fixed).Ok?
    ensures (forall s :: format(s) == None) ==> r == AST2Code(ast, fixed)
  {
    var raw :- AST2Code(ast, fixed);
    match format(raw)
    case Some(pretty) => Ok(pretty)
    case None => Ok(raw)
  }

  // ---------------------------------------------------------------------------
  // Properties

  /** Helper for the lemmas below: a present child prints as the value
      the field holds. */
  lemma AtOwn(fs: seq<Member>, n: string, fixed: bool)
    requires HasOwn(fs, n)
    ensures At(fs, n, fixed) == Handle(Own(fs, n).value, fixed)
  {
  }

  /** A single node prints as itself: a list of one needs no separator. */
  lemma AST2CodeOfNode(ast: Value, fixed: bool)
    requires ast.Obj? && Truthy(Own(ast.fields, "type"))
    ensures AST2Code(ast, fixed) == Handle(ast, fixed)
  {
    var h := HandleAll([ast], 0, fixed);
    if h.Ok? {
      assert h.value == [h.value[0]];
      assert Lines(h.value, fixed) == h.value[0] by {
        if fixed {
          assert Guard(h.value) == [h.value[0]];
        }
      }
    }
  }

  /** A named function declaration. */
  predicate NamedFunction(fs: seq<Member>)
  {
    Own(fs, "type") == Defined(Str("FunctionDeclaration"))
    && Own(fs, "identifier").Defined? && !Own(fs, "identifier").value.Null?
  }

  /** The corrected printer declares a local function exactly when the parser
      flagged it local: the text opens with `local` and the name, or with the
      name and `= function(`. */
  lemma LocalFunctionFixed(fs: seq<Member>)
    requires NamedFunction(fs) && FunctionText(fs, true).Ok?
    ensures var r := FunctionText(fs, true).value;
      var name := At(fs, "identifier", true);
      name.Ok?
      && (Truthy(Own(fs, "isLocal")) ==> Text.StartsWith(r, "local " + name.value + " = function("))
      && (!Truthy(Own(fs, "isLocal")) ==> Text.StartsWith(r, name.value + " = function("))
  {
  }

  /** The printer as written reads `islocal`, which the parser never writes:
      every named declaration opens with its name, so a `local function` is
      printed as an assignment to a global. */
  lemma LocalFunctionAsWritten(fs: seq<Member>)
    requires NamedFunction(fs) && !HasOwn(fs, "islocal") && FunctionText(fs, false).Ok?
    ensures var name := At(fs, "identifier", false);
      name.Ok? && Text.StartsWith(FunctionText(fs, false).value, name.value + " = function(")
  {
  }

  /** `f` */
  function NameNode(name: string): Value
  {
    Obj([Member("type", Str("Identifier")), Member("name", Str(name))])
  }

  lemma NameNodeText(name: string, fixed: bool)
    ensures Handle(NameNode(name), fixed) == Ok(name)
  {
    var fs := NameNode(name).fields;
    assert Own(fs, "type") == Defined(Str("Identifier"));
    assert Own(fs, "name") == Defined(Str(name));
    assert Node(fs, fixed) == Expression(fs, "Identifier", fixed);
  }

  lemma EmptyListText(fs: seq<Member>, n: string, comma: bool, fixed: bool)
    requires Own(fs, n) == Defined(Arr([]))
    ensures ListAt(fs, n, comma, fixed) == Ok("")
  {
  }

  /** `local function f() end` as the parser writes it (the parser sets
      `isLocal`): the printer as written prints `f = function() end`, an
      assignment to a global, and the corrected one keeps `local`. */
  lemma EmptyLocalFunction(fs: seq<Member>, name: string)
    requires Own(fs, "type") == Defined(Str("FunctionDeclaration"))
    requires Own(fs, "identifier") == Defined(NameNode(name)) && Own(fs, "isLocal") == Defined(Bool(true))
    requires !HasOwn(fs, "islocal")
    requires Own(fs, "parameters") == Defined(Arr([])) && Own(fs, "body") == Defined(Arr([]))
    ensures Node(fs, false) == Ok(name + " = function()\n\nend\n")
    ensures Node(fs, true) == Ok("local " + name + " = function()\n\nend\n")
  {
    NameNodeText(name, false);
    NameNodeText(name, true);
    AtOwn(fs, "identifier", false);
    AtOwn(fs, "identifier", true);
    EmptyListText(fs, "parameters", true, false);
    EmptyListText(fs, "parameters", true, true);
    EmptyListText(fs, "body", false, false);
    EmptyListText(fs, "body", false, true);
    var tail := " = function(" + "" + ")" + "\n" + "" + "\n" + "end\n";
    assert tail == " = function()\n\nend\n";
    assert "local " + name + " = function(" + "" + ")" + "\n" + "" + "\n" + "end\n" == ("local " + name) + tail;
    assert name + " = function(" + "" + ")" + "\n" + "" + "\n" + "end\n" == name + tail;
    assert FunctionText(fs, false) == Ok(name + " = function(" + "" + ")" + "\n" + "" + "\n" + "end\n");
    assert FunctionText(fs, true) == Ok("local " + name + " = function(" + "" + ")" + "\n" + "" + "\n" + "end\n");
    assert Node(fs, false) == Statement(fs, "FunctionDeclaration", false);
    assert Node(fs, true) == Statement(fs, "FunctionDeclaration", true);
    assert Node(fs, false) == Ok(name + tail);
  }

  /** Every statement list the corrected printer emits is its statements in
      order, one per line, and no line after the first opens with a
      parenthesis: a statement that does carries a `;` before it. A list
      prints exactly when each of its statements does. */
  lemma StatementListsGuarded(items: seq<Value>)
    ensures Handler(Arr(items), false, true).Ok? <==> forall k :: 0 <= k < |items| ==> Handle(items[k], true).Ok?
    ensures Handler(Arr(items), false, true).Ok? ==>
      exists parts, g :: GuardedLayout(g, parts) && Handler(Arr(items), false, true).value == Text.Join(g, "\n")
        && |parts| == |items| && forall k :: 0 <= k < |items| ==> Handle(items[k], true) == Ok(parts[k])
  {
    if Handler(Arr(items), false, true).Ok? {
      var parts := HandleAll(items, 0, true).value;
      GuardLaysOut(parts);
      assert Handler(Arr(items), false, true).value == Text.Join(Guard(parts), "\n");
    }
  }

  /** The printer as written joins a statement list with bare line breaks. */
  lemma StatementListsAsWritten(items: seq<Value>)
    ensures Handler(Arr(items), false, false).Ok? <==> forall k :: 0 <= k < |items| ==> Handle(items[k], false).Ok?
    ensures Handler(Arr(items), false, false).Ok? ==>
      exists parts :: Handler(Arr(items), false, false).value == Text.Join(parts, "\n")
        && |parts| == |items| && forall k :: 0 <= k < |items| ==> Handle(items[k], false) == Ok(parts[k])
  {
  }

  /** Two statements of a block: as written the second follows a bare line
      break, so one that opens with a parenthesis continues the first as a
      call; the corrected printer puts a `;` between them. */
  lemma TwoStatements(a: string, b: string)
    requires OpensParen(b)
    ensures Lines([a, b], false) == a + "\n" + b
    ensures Lines([a, b], true) == a + "\n" + (";" + b)
  {
    assert Guard([a, b]) == [a, ";" + b];
    assert Text.Join([a, b], "\n") == a + "\n" + Text.Join([b], "\n");
    assert Text.Join([a, ";" + b], "\n") == a + "\n" + Text.Join([";" + b], "\n");
  }

  /** An anonymous function node. */
  predicate AnonymousFunction(v: Value)
  {
    v.Obj? && Own(v.fields, "type") == Defined(Str("FunctionDeclaration"))
    && (Own(v.fields, "identifier").Undefined? || Own(v.fields, "identifier").value.Null?)
  }

  /** An anonymous function prints parenthesised. */
  lemma AnonymousFunctionText(v: Value, fixed: bool)
    requires AnonymousFunction(v) && Handle(v, fixed).Ok?
    ensures |Handle(v, fixed).value| > 0 && Handle(v, fixed).value[0] == '('
  {
    assert Node(v.fields, fixed) == Statement(v.fields, "FunctionDeclaration", fixed);
    assert Statement(v.fields, "FunctionDeclaration", fixed) == FunctionText(v.fields, fixed);
  }

  /** A call of an anonymous function, `(function() ... end)()`, opens with a
      parenthesis in both printers. */
  lemma AnonymousCallOpensParen(fs: seq<Member>, fixed: bool)
    requires Own(fs, "type") == Defined(Str("CallExpression"))
    requires Own(fs, "base").Defined? && AnonymousFunction(Own(fs, "base").value)
    requires Node(fs, fixed).Ok?
    ensures OpensParen(Node(fs, fixed).value)
  {
    assert Node(fs, fixed) == Expression(fs, "CallExpression", fixed);
    assert Expression(fs, "CallExpression", fixed) == CallText(fs, fixed);
    AtOwn(fs, "base", fixed);
    AnonymousFunctionText(Own(fs, "base").value, fixed);
    var b := At(fs, "base", fixed).value;
    var r := Node(fs, fixed).value;
    assert b[0] == '(';
    assert KindAt(fs, "base") == Defined(Str("FunctionDeclaration"));
    assert r[0] == '(';
    assert Text.TrimStart(r) == r;
  }

  /** The base printed before `[`, `.`, `:` or an argument list is either a
      prefix expression or parenthesised. */
  predicate PrefixOrWrapped(r: string, base: string, kind: Access)
  {
    (KindIn(kind, PrefixKinds) && Text.StartsWith(r, base))
    || Text.StartsWith(r, "(" + base + ")")
  }

  lemma WrapBaseFixed(base: string, kind: Access, unsafe: set<string>, rest: string)
    ensures PrefixOrWrapped(WrapBase(base, kind, unsafe, true) + rest, base, kind)
  {
    var w := WrapBase(base, kind, unsafe, true);
    assert (w + rest)[..|w|] == w;
  }

  /** Both printers parenthesise a member-expression base unless it is a
      prefix expression: the kinds left bare are all prefix kinds. */
  lemma MemberBaseIsPrefix(fs: seq<Member>, fixed: bool)
    requires MemberText(fs, fixed).Ok?
    ensures At(fs, "base", fixed).Ok?
      && PrefixOrWrapped(MemberText(fs, fixed).value, At(fs, "base", fixed).value, KindAt(fs, "base"))
  {
    SafeBasesArePrefixes();
    var r := MemberText(fs, fixed).value;
    var b := At(fs, "base", fixed).value;
    if KindIn(KindAt(fs, "base"), SafeBases) {
      assert r[..|b|] == b;
    } else {
      assert r[..|b| + 2] == "(" + b + ")";
    }
  }

  /** The corrected printer parenthesises an index or call base unless it is a
      prefix expression. */
  lemma IndexBaseFixed(fs: seq<Member>)
    requires IndexText(fs, true).Ok?
    ensures At(fs, "base", true).Ok?
      && PrefixOrWrapped(IndexText(fs, true).value, At(fs, "base", true).value, KindAt(fs, "base"))
  {
    var b := At(fs, "base", true).value;
    var i := At(fs, "index", true).value;
    WrapBaseFixed(b, KindAt(fs, "base"), UnsafeIndexBases, "[" + i + "]");
  }

  lemma CallBaseFixed(fs: seq<Member>)
    requires CallText(fs, true).Ok?
    ensures At(fs, "base", true).Ok?
      && PrefixOrWrapped(CallText(fs, true).value, At(fs, "base", true).value, KindAt(fs, "base"))
  {
    var b := At(fs, "base", true).value;
    var a := ListAt(fs, "arguments", true, true).value;
    WrapBaseFixed(b, KindAt(fs, "base"), {}, "(" + a + ")");
  }

  /** `...` */
  function VarargNode(): Value
  {
    Obj([Member("type", Str("VarargLiteral"))])
  }

  lemma VarargText(fixed: bool)
    ensures Handle(VarargNode(), fixed) == Ok("...")
    ensures GetProp(VarargNode(), "type") == Defined(Str("VarargLiteral"))
  {
    assert Node(VarargNode().fields, fixed) == Expression(VarargNode().fields, "VarargLiteral", fixed);
  }

  /** `(...)[i]`: the parser keeps the vararg and drops the parentheses, and
      the printer as written prints `...[i]`, which Lua does not accept since
      `...` is not a prefix expression; the corrected printer restores them. */
  lemma IndexVarargBase(fs: seq<Member>, i: string)
    requires Own(fs, "base") == Defined(VarargNode()) && At(fs, "index", false) == Ok(i)
      && At(fs, "index", true) == Ok(i)
    ensures IndexText(fs, false) == Ok("..." + "[" + i + "]")
    ensures IndexText(fs, true) == Ok("(...)" + "[" + i + "]")
    ensures !KindIn(KindAt(fs, "base"), PrefixKinds)
  {
    VarargText(false);
    VarargText(true);
    AtOwn(fs, "base", false);
    AtOwn(fs, "base", true);
    assert KindAt(fs, "base") == Defined(Str("VarargLiteral"));
    assert "VarargLiteral" !in UnsafeIndexBases;
    assert WrapBase("...", KindAt(fs, "base"), UnsafeIndexBases, false) == "...";
    assert WrapBase("...", KindAt(fs, "base"), UnsafeIndexBases, true) == "(...)";
  }
}
