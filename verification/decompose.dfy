/** `ExpressionDecomposer.handleStatement`, `process` and the
    `DecomposeExpressions` driver (DecomposeExpressions.js): every statement
    list is rewritten so that each emitted line performs one operation, the
    expressions being lowered by module `Lowering`, and the statements' own
    structure (`if`, `while`, `for`, `function`) re-emitted around those lines,
    two spaces deeper per nesting level.

    `fixed` selects the corrected lowering: a multiple assignment stores all
    its targets in one statement after every value is computed, and a
    generic `for` over a method call keeps the receiver. */
module DecomposePass {
  import opened Wrappers
  import opened Json
  import Text
  import Emit
  import TreeIndex
  import opened Lowering

  /** The lines a statement or a run of statements emits, and the first
      temporary not yet drawn. */
  datatype Emission = Emission(lines: seq<string>, next: nat)

  /** Every line is indented at least `depth` levels. */
  predicate Indented(lines: seq<string>, depth: nat)
  {
    forall j :: 0 <= j < |lines| ==> Text.StartsWith(lines[j], Spacing(depth))
  }

  lemma Deeper(lines: seq<string>, depth: nat)
    requires Indented(lines, depth + 1)
    ensures Indented(lines, depth)
  {
    DeeperSpacing(depth);
  }

  /** `emit("end")`: the closing line at the statement's own depth. */
  lemma ClosingLine(depth: nat)
    ensures Emitted(depth, "end") == [Spacing(depth) + "end"]
  {
    Text.TrimOfTrimmed("end");
  }

  /** A block statement's lines: its head at its own depth, its body one level
      deeper, and `end` back at its own depth. */
  function Closed(head: seq<string>, body: seq<string>, depth: nat): (r: seq<string>)
    ensures |r| > 0 && r[|r| - 1] == Spacing(depth) + "end"
  {
    ClosingLine(depth);
    head + body + Emitted(depth, "end")
  }

  lemma ClosedIndented(head: seq<string>, body: seq<string>, depth: nat)
    requires Indented(head, depth) && Indented(body, depth + 1)
    ensures Indented(Closed(head, body, depth), depth)
  {
    Deeper(body, depth);
    ClosingLine(depth);
  }

  /** A block whose body is followed by more lines at the body's depth. */
  lemma ClosedAround(head: seq<string>, body: seq<string>, tail: seq<string>, depth: nat)
    ensures Indented(head, depth) && Indented(body, depth + 1) && Indented(tail, depth + 1) ==> Indented(Closed(head, body + tail, depth), depth)
    ensures tail == [] ==> body + tail == body
  {
    if Indented(head, depth) && Indented(body, depth + 1) && Indented(tail, depth + 1) {
      Joined(body, tail, depth + 1);
      ClosedIndented(head, body + tail, depth);
    }
  }


  /** Two runs of lines, one after the other. */
  function Sequenced(first: Emission, rest: Emission, depth: nat): (r: Emission)
    ensures r.next == rest.next
    ensures Indented(first.lines, depth) && Indented(rest.lines, depth) ==> Indented(r.lines, depth)
  {
    Emission(first.lines + rest.lines, rest.next)
  }

  /** A head followed by a body one level deeper. */
  function Nested(head: Emission, body: Emission, depth: nat): (r: Emission)
    ensures r.next == body.next
    ensures Indented(head.lines, depth) && Indented(body.lines, depth + 1) ==> Indented(r.lines, depth)
  {
    if Indented(body.lines, depth + 1) then Deeper(body.lines, depth); Emission(head.lines + body.lines, body.next)
    else Emission(head.lines + body.lines, body.next)
  }

  /** One emitted line. */
  function Line(depth: nat, text: string): (r: seq<string>)
    ensures Indented(r, depth) && |r| <= 1
  {
    Emitted(depth, text)
  }

  lemma Joined(a: seq<string>, b: seq<string>, depth: nat)
    requires Indented(a, depth) && Indented(b, depth)
    ensures Indented(a + b, depth)
  {
  }

  /** `${x}` for what `decompose` returned. */
  function Shown(l: Lowered, temps: nat -> string): string
  {
    AtomText(AsAtom(l), temps)
  }

  function Texts(atoms: seq<Atom>, temps: nat -> string): (r: seq<string>)
    ensures |r| == |atoms|
  {
    seq(|atoms|, i requires 0 <= i < |atoms| => AtomText(atoms[i], temps))
  }

  /** `lines.forEach(l => this.emit(l))`. */
  function EmitAll(depth: nat, lines: seq<string>): (r: seq<string>)
    ensures Indented(r, depth)
    ensures (forall j :: 0 <= j < |lines| ==> lines[j] != "") ==> |r| == |lines|
  {
    if lines == [] then [] else Emitted(depth, lines[0]) + EmitAll(depth, lines[1..])
  }

  /** A value joined into text: `undefined` and `null` print as nothing. */
  function JoinText(a: Access): Result<string>
  {
    match a
    case Undefined => Ok("")
    case Defined(Null) => Ok("")
    case _ => Emit.TextOf(a)
  }

  // ---------------------------------------------------------------------------
  // Statement kinds

  datatype StatementKind =
    | LocalKind | AssignKind | IfKind | WhileKind | ForNumericKind | ForGenericKind
    | ReturnKind | CallStatementKind | FunctionKind | OtherStatement

  function StatementKindOf(fs: seq<Member>): StatementKind
  {
    var kind := Kind(fs);
    if kind == Defined(Str("LocalStatement")) then LocalKind
    else if kind == Defined(Str("AssignmentStatement")) then AssignKind
    else if kind == Defined(Str("IfStatement")) then IfKind
    else if kind == Defined(Str("WhileStatement")) then WhileKind
    else if kind == Defined(Str("ForNumericStatement")) then ForNumericKind
    else if kind == Defined(Str("ForGenericStatement")) then ForGenericKind
    else if kind == Defined(Str("ReturnStatement")) then ReturnKind
    else if kind == Defined(Str("CallStatement")) then CallStatementKind
    else if kind == Defined(Str("FunctionDeclaration")) then FunctionKind
    else OtherStatement
  }

  // ---------------------------------------------------------------------------
  // handleStatement

  /** `handleStatement(node)` at indentation `depth`, temporaries drawn from
      `next` on and named by `temps`. A falsy node emits nothing. */
  function HandleStatement(v: Value, depth: nat, next: nat, temps: nat -> string, show: Printer, fixed: bool): (r: Result<Emission>)
    ensures r.Ok? ==> next <= r.value.next
    ensures !Truthy(Defined(v)) ==> r == Ok(Emission([], next))
    decreases v, 4
  {
    if !Truthy(Defined(v)) then Ok(Emission([], next))
    else if v.Obj? then StatementNode(v.fields, depth, next, temps, show, fixed)
    else
      var text :- show(v);
      Ok(Emission(Emitted(depth, text), next))
  }

  /** `list.forEach(n => this.handleStatement(n))` from position `i` on. */
  function Statements(items: seq<Value>, i: nat, depth: nat, next: nat, temps: nat -> string, show: Printer, fixed: bool): (r: Result<Emission>)
    requires i <= |items|
    ensures r.Ok? ==> next <= r.value.next
    decreases items, |items| - i
  {
    if i == |items| then Ok(Emission([], next))
    else
      var first :- HandleStatement(items[i], depth, next, temps, show, fixed);
      var rest :- Statements(items, i + 1, depth, first.next, temps, show, fixed);
      Ok(Sequenced(first, rest, depth))
  }

  /** `(node[n] || []).forEach(…)`: a truthy field that is not a list throws. */
  function BodyAt(fs: seq<Member>, n: string, depth: nat, next: nat, temps: nat -> string, show: Printer, fixed: bool): (r: Result<Emission>)
    ensures r.Ok? ==> next <= r.value.next
    ensures !Truthy(Own(fs, n)) ==> r == Ok(Emission([], next))
    decreases fs, 1
  {
    if !Truthy(Own(fs, n)) then Ok(Emission([], next))
    else match fs[OwnIndex(fs, n)].val
      case Arr(items) => Statements(items, 0, depth, next, temps, show, fixed)
      case _ => Err("TypeError: (node.body || []).forEach is not a function")
  }

  function StatementNode(fs: seq<Member>, depth: nat, next: nat, temps: nat -> string, show: Printer, fixed: bool): (r: Result<Emission>)
    ensures r.Ok? ==> next <= r.value.next
    decreases fs, 3
  {
    match StatementKindOf(fs)
    case LocalKind => AssignmentLines(fs, true, depth, next, temps, show, fixed)
    case AssignKind => AssignmentLines(fs, false, depth, next, temps, show, fixed)
    case IfKind => IfLines(fs, depth, next, temps, show, fixed)
    case WhileKind => WhileLines(fs, depth, next, temps, show, fixed)
    case ForNumericKind => ForNumericLines(fs, depth, next, temps, show, fixed)
    case ForGenericKind => ForGenericLines(fs, depth, next, temps, show, fixed)
    case ReturnKind =>
      var values :- DecomposeArgs(fs, next, show);
      Ok(Emission(Render(values.steps, depth, temps) + Emitted(depth, "return " + AtomsText(values.atoms, temps)), values.next))
    case CallStatementKind =>
      var l :- DecomposeAt(fs, "expression", next, show);
      Ok(Emission(Render(l.steps, depth, temps), l.next))
    case FunctionKind => FunctionLines(fs, depth, next, temps, show, fixed)
    case OtherStatement =>
      var text :- show(Obj(fs));
      Ok(Emission(Emitted(depth, text), next))
  }

  // ---------------------------------------------------------------------------
  // Assignments

  /** `node.variables.map(v => A2C.Handle(v).trim())`. */
  function TargetNames(fs: seq<Member>, show: Printer): Result<seq<string>>
  {
    match Own(fs, "variables")
    case Defined(Arr(items)) => ShowEach(items, 0, show)
    case _ => Err("TypeError: node.variables.map is not a function")
  }

  /** `A2C.Handle(v).trim()` for each item from position `i` on. */
  function ShowEach(items: seq<Value>, i: nat, show: Printer): (r: Result<seq<string>>)
    requires i <= |items|
    ensures r.Ok? ==> |r.value| == |items| - i
    decreases |items| - i
  {
    if i == |items| then Ok([])
    else
      var first :- show(items[i]);
      var rest :- ShowEach(items, i + 1, show);
      Ok([Text.Trim(first)] + rest)
  }

  /** `A2C.Handle(node[n])`: a missing child throws when its `type` is read. */
  function ShowAt(fs: seq<Member>, n: string, show: Printer): Result<string>
  {
    if !HasOwn(fs, n) then Err("TypeError: Cannot read properties of undefined (reading 'type')")
    else show(fs[OwnIndex(fs, n)].val)
  }

  /** What an assignment evaluates after all but its last expression: the call
      the last one makes (its base, its arguments, whether the base is read
      with `:`), or the last one's value. */
  datatype Tail = CallTail(base: Lowering, args: Lowerings, colon: bool) | ValueTail(last: Lowering)

  /** Everything an assignment evaluates before it stores. */
  datatype Operands = Operands(pre: Lowerings, tail: Tail)

  /** What an assignment lowers after all but its last expression. */
  function TailSteps(t: Tail): seq<Step>
  {
    match t
    case CallTail(b, args, _) => b.steps + args.steps
    case ValueTail(last) => last.steps
  }

  function OperandSteps(o: Operands): seq<Step>
  {
    o.pre.steps + TailSteps(o.tail)
  }

  function OperandsEnd(o: Operands): nat
  {
    match o.tail
    case CallTail(_, args, _) => args.next
    case ValueTail(last) => last.next
  }

  /** `lastExpr && lastExpr.type === "CallExpression"`. */
  predicate EndsInCall(init: seq<Value>)
  {
    |init| > 0 && init[|init| - 1].Obj? && ExprKindOf(init[|init| - 1].fields) == CallKind
  }

  /** `lastExpr.base.indexer === ":"`: a missing or null base throws. */
  function ColonBase(fs: seq<Member>): Result<bool>
  {
    match Own(fs, "base")
    case Defined(b) =>
      if b.Null? then Err("TypeError: Cannot read properties of null (reading 'indexer')")
      else Ok(GetProp(b, "indexer") == Defined(Str(":")))
    case Undefined => Err("TypeError: Cannot read properties of undefined (reading 'indexer')")
  }

  /** The expressions of `node.init` lowered in order: all but the last, then
      the last call's base and arguments, or the last value. */
  function OperandsOf(fs: seq<Member>, next: nat, show: Printer): (r: Result<Operands>)
    ensures r.Ok? ==> next <= OperandsEnd(r.value) && Between(Writes(OperandSteps(r.value)), next, OperandsEnd(r.value))
    ensures r.Ok? ==> FreshListFrom(r.value.pre, next)
  {
    match Own(fs, "init")
    case Defined(Arr(init)) =>
      var n := |init|;
      var pre :- DecomposeItems(init, 0, if n == 0 then 0 else n - 1, next, show);
      if EndsInCall(init) then
        var call := init[n - 1].fields;
        var b :- DecomposeAt(call, "base", pre.next, show);
        var args :- DecomposeArgs(call, b.next, show);
        var colon :- ColonBase(call);
        WritesAppend(b.steps, args.steps);
        WritesAppend(pre.steps, b.steps + args.steps);
        Ok(Operands(pre, CallTail(b, args, colon)))
      else
        var last :- if n == 0 then Ok(Nil(pre.next)) else Decompose(init[n - 1], pre.next, show);
        WritesAppend(pre.steps, last.steps);
        Ok(Operands(pre, ValueTail(last)))
    case _ => Err("TypeError: node.init.slice is not a function")
  }

  /** `callStr`: on a colon base the marker's object and name around the
      arguments (a base that is not the marker has neither and prints
      `undefined`), otherwise the base's value. */
  function CallText(colon: bool, b: Lowered, args: seq<Atom>, temps: nat -> string): string
  {
    var list := "(" + AtomsText(args, temps) + ")";
    if colon then
      match b
      case ColonRef(o, m) => AtomText(o, temps) + ":" + m + list
      case Plain(_) => "undefined:undefined" + list
    else Shown(b, temps) + list
  }

  function LocalPrefix(local: bool): string
  {
    if local then "local " else ""
  }

  /** `tempValues[i] || "nil"`. */
  function ValueOrNil(values: seq<string>, i: nat): string
  {
    if i < |values| && values[i] != "" then values[i] else "nil"
  }

  /** `varNames[i]`, `undefined` beyond the list. */
  function NameAt(names: seq<string>, i: nat): string
  {
    if i < |names| then names[i] else "undefined"
  }

  /** `[local ]a, b = x, y`: one statement storing every target. */
  function MultipleAssignment(local: bool, names: seq<string>, values: seq<string>): string
  {
    LocalPrefix(local) + Text.Join(names, ", ") + " = " + Text.Join(values, ", ")
  }

  /** The lines as written: after a call, one line per leading value and then
      the remaining targets from the call, emitted before the call's own
      lines; otherwise one line per target, `nil` past the values. */
  function StoredInTurn(o: Operands, names: seq<string>, local: bool, depth: nat, temps: nat -> string): (r: seq<string>)
    ensures Indented(r, depth)
  {
    match o.tail
    case CallTail(b, args, colon) => CallStoredInTurn(o.pre, b, args, colon, names, LocalPrefix(local), depth, temps)
    case ValueTail(last) => EachStoredInTurn(o.pre, last, names, LocalPrefix(local), depth, temps)
  }

  /** After a call: one line per leading value, then the call's own lines and
      the remaining targets from the call. */
  function CallStoredInTurn(pre: Lowerings, b: Lowering, args: Lowerings, colon: bool, names: seq<string>,
                            head: string, depth: nat, temps: nat -> string): (r: seq<string>)
    ensures Indented(r, depth)
  {
    var values := Texts(pre.atoms, temps);
    var leading := seq(|values|, i requires 0 <= i < |values| => head + NameAt(names, i) + " = " + values[i]);
    var rest := if |values| <= |names| then names[|values|..] else [];
    var first := Render(pre.steps, depth, temps);
    var stores := EmitAll(depth, leading);
    var base := Render(b.steps, depth, temps);
    var argLines := Render(args.steps, depth, temps);
    var last := Line(depth, head + Text.Join(rest, ", ") + " = " + CallText(colon, b.result, args.atoms, temps));
    assert Indented(first, depth) && Indented(base, depth) && Indented(argLines, depth);
    Joined(first, stores, depth);
    Joined(first + stores, base, depth);
    Joined(first + stores + base, argLines, depth);
    Joined(first + stores + base + argLines, last, depth);
    first + stores + base + argLines + last
  }

  /** Otherwise: one line per target, `nil` past the values. */
  function EachStoredInTurn(pre: Lowerings, last: Lowering, names: seq<string>, head: string, depth: nat,
                            temps: nat -> string): (r: seq<string>)
    ensures Indented(r, depth)
  {
    var all := Texts(pre.atoms, temps) + [Shown(last.result, temps)];
    var first := Render(pre.steps, depth, temps);
    var lastLines := Render(last.steps, depth, temps);
    var stores := EmitAll(depth, seq(|names|, i requires 0 <= i < |names| => head + names[i] + " = " + ValueOrNil(all, i)));
    assert Indented(first, depth) && Indented(lastLines, depth);
    Joined(first, lastLines, depth);
    Joined(first + lastLines, stores, depth);
    first + lastLines + stores
  }

  /** The values the corrected statement stores: every value and the call,
      or one value per target with `nil` past the values. */
  function StoredValues(o: Operands, names: seq<string>, temps: nat -> string): seq<string>
  {
    var values := Texts(o.pre.atoms, temps);
    match o.tail
    case CallTail(b, args, colon) => values + [CallText(colon, b.result, args.atoms, temps)]
    case ValueTail(last) =>
      var all := values + [Shown(last.result, temps)];
      seq(|names|, i requires 0 <= i < |names| => ValueOrNil(all, i))
  }

  /** The corrected lines: every value computed first, then one statement. */
  function StoredOnce(o: Operands, names: seq<string>, local: bool, depth: nat, temps: nat -> string): (r: seq<string>)
    ensures Indented(r, depth)
  {
    Render(OperandSteps(o), depth, temps)
    + (if names == [] && o.tail.ValueTail? then []
       else Emitted(depth, MultipleAssignment(local, names, StoredValues(o, names, temps))))
  }

  /** `local a, b = x, y` and `a, b = x, y`. */
  function AssignmentLines(fs: seq<Member>, local: bool, depth: nat, next: nat, temps: nat -> string, show: Printer, fixed: bool): (r: Result<Emission>)
    ensures r.Ok? ==> next <= r.value.next
    ensures r.Ok? ==> TargetNames(fs, show).Ok? && OperandsOf(fs, next, show).Ok?
  {
    var names :- TargetNames(fs, show);
    var o :- OperandsOf(fs, next, show);
    var lines := if fixed then StoredOnce(o, names, local, depth, temps) else StoredInTurn(o, names, local, depth, temps);
    Ok(Emission(lines, OperandsEnd(o)))
  }

  // ---------------------------------------------------------------------------
  // Blocks

  /** `if c then … elseif d then … else … end`. */
  function IfLines(fs: seq<Member>, depth: nat, next: nat, temps: nat -> string, show: Printer, fixed: bool): (r: Result<Emission>)
    ensures r.Ok? ==> next <= r.value.next
    decreases fs, 2
  {
    if !HasOwn(fs, "clauses") then Err("TypeError: Cannot read properties of undefined (reading 'forEach')")
    else match fs[OwnIndex(fs, "clauses")].val
      case Arr(clauses) =>
        var e :- Clauses(clauses, 0, depth, next, temps, show, fixed);
        Ok(Emission(Closed(e.lines, [], depth), e.next))
      case _ => Err("TypeError: node.clauses.forEach is not a function")
  }

  function Clauses(clauses: seq<Value>, i: nat, depth: nat, next: nat, temps: nat -> string, show: Printer, fixed: bool): (r: Result<Emission>)
    requires i <= |clauses|
    ensures r.Ok? ==> next <= r.value.next
    decreases clauses, |clauses| - i
  {
    if i == |clauses| then Ok(Emission([], next))
    else
      var first :- Clause(clauses[i], i == 0, depth, next, temps, show, fixed);
      var rest :- Clauses(clauses, i + 1, depth, first.next, temps, show, fixed);
      Ok(Sequenced(first, rest, depth))
  }

  /** One clause: its condition's lines, `if`/`elseif cond then` (or `else`),
      and its body one level deeper. */
  function Clause(c: Value, first: bool, depth: nat, next: nat, temps: nat -> string, show: Printer, fixed: bool): (r: Result<Emission>)
    ensures r.Ok? ==> next <= r.value.next
    decreases c, 2
  {
    match c
    case Null => Err("TypeError: Cannot read properties of null (reading 'condition')")
    case Obj(cfs) =>
      var head :- ClauseHead(cfs, first, depth, next, temps, show, fixed);
      var body :- BodyAt(cfs, "body", depth + 1, head.next, temps, show, fixed);
      Ok(Nested(head, body, depth))
    case _ => Ok(Emission(Line(depth, "else"), next))
  }

  function ClauseHead(cfs: seq<Member>, first: bool, depth: nat, next: nat, temps: nat -> string, show: Printer, fixed: bool): (r: Result<Emission>)
    ensures r.Ok? ==> next <= r.value.next && Indented(r.value.lines, depth)
  {
    if Truthy(Own(cfs, "condition")) then
      var cond :- DecomposeAt(cfs, "condition", next, show);
      Ok(Emission(Render(cond.steps, depth, temps)
                  + Line(depth, (if first then "if" else "elseif") + " " + Shown(cond.result, temps) + " then"),
                  cond.next))
    else Ok(Emission(Line(depth, "else"), next))
  }

  /** `["NumericLiteral", …].includes(node.condition.type)`: a missing or
      null condition throws here. */
  function LiteralCondition(fs: seq<Member>): Result<bool>
  {
    match Own(fs, "condition")
    case Defined(c) =>
      if c.Null? then Err("TypeError: Cannot read properties of null (reading 'type')")
      else Ok(Emit.KindIn(GetProp(c, "type"), LiteralKinds))
    case Undefined => Err("TypeError: Cannot read properties of undefined (reading 'type')")
  }

  /** `condVar = reEval`, unless the condition printed as `true`, `false` or
      `nil`. */
  function Refresh(c: Lowered, re: Lowered, depth: nat, temps: nat -> string): (r: seq<string>)
    ensures Indented(r, depth)
  {
    var cond := Shown(c, temps);
    if cond == "true" || cond == "false" || cond == "nil" then []
    else Line(depth, cond + " = " + Shown(re, temps))
  }

  /** `while c do … end`: the condition's lines before the loop, and, unless
      it is a literal, lowered again at the end of the body and stored back
      into the variable the loop tests. */
  function WhileLines(fs: seq<Member>, depth: nat, next: nat, temps: nat -> string, show: Printer, fixed: bool): (r: Result<Emission>)
    ensures r.Ok? ==> next <= r.value.next
    decreases fs, 2
  {
    var c :- DecomposeAt(fs, "condition", next, show);
    var body :- BodyAt(fs, "body", depth + 1, c.next, temps, show, fixed);
    WhileClosed(fs, c, body, depth, temps, show)
  }

  /** The loop around its lowered body: closed at once after a literal
      condition, otherwise after the condition is lowered again and stored. */
  function WhileClosed(fs: seq<Member>, c: Lowering, body: Emission, depth: nat, temps: nat -> string, show: Printer): (r: Result<Emission>)
    ensures r.Ok? ==> body.next <= r.value.next
    ensures r.Ok? && Indented(body.lines, depth + 1) ==> Indented(r.value.lines, depth)
  {
    var literal :- LiteralCondition(fs);
    if literal then
      ClosedAround(WhileHead(c, depth, temps), body.lines, [], depth);
      Ok(Emission(Closed(WhileHead(c, depth, temps), body.lines, depth), body.next))
    else
      var re :- DecomposeAt(fs, "condition", body.next, show);
      var tail := Retested(c.result, re, depth + 1, temps);
      ClosedAround(WhileHead(c, depth, temps), body.lines, tail, depth);
      Ok(Emission(Closed(WhileHead(c, depth, temps), body.lines + tail, depth), re.next))
  }

  /** The condition's lines and `while c do`. */
  function WhileHead(c: Lowering, depth: nat, temps: nat -> string): (r: seq<string>)
    ensures Indented(r, depth)
  {
    Render(c.steps, depth, temps) + Line(depth, "while " + Shown(c.result, temps) + " do")
  }

  /** The end of the loop body: the condition lowered again and stored back. */
  function Retested(c: Lowered, re: Lowering, depth: nat, temps: nat -> string): (r: seq<string>)
    ensures Indented(r, depth)
  {
    Render(re.steps, depth, temps) + Refresh(c, re.result, depth, temps)
  }

  /** `node.variable.name` in a template literal. */
  function LoopVariable(fs: seq<Member>): Result<string>
  {
    match Own(fs, "variable")
    case Defined(x) =>
      if x.Null? then Err("TypeError: Cannot read properties of null (reading 'name')")
      else Emit.TextOf(GetProp(x, "name"))
    case Undefined => Err("TypeError: Cannot read properties of undefined (reading 'name')")
  }

  /** `node.step ? `, ${…}` : ""`: the step's lowering and its text. */
  function StepPart(fs: seq<Member>, next: nat, show: Printer): (r: Result<(Lowering, string)>)
    ensures r.Ok? ==> FreshFrom(r.value.0, next)
  {
    if Truthy(Own(fs, "step")) then
      var s :- DecomposeAt(fs, "step", next, show);
      Ok((s, ", "))
    else Ok((Lowering([], Plain(Lit("")), next), ""))
  }

  /** `for i = a, b[, c] do … end`. */
  function ForNumericLines(fs: seq<Member>, depth: nat, next: nat, temps: nat -> string, show: Printer, fixed: bool): (r: Result<Emission>)
    ensures r.Ok? ==> next <= r.value.next
    decreases fs, 2
  {
    var head :- NumericHead(fs, depth, next, temps, show, fixed);
    var body :- BodyAt(fs, "body", depth + 1, head.next, temps, show, fixed);
    Ok(Emission(Closed(head.lines, body.lines, depth), body.next))
  }

  /** The bounds' lines and `for i = a, b[, c] do`. */
  function NumericHead(fs: seq<Member>, depth: nat, next: nat, temps: nat -> string, show: Printer, fixed: bool): (r: Result<Emission>)
    ensures r.Ok? ==> next <= r.value.next && Indented(r.value.lines, depth)
  {
    var s :- DecomposeAt(fs, "start", next, show);
    var e :- DecomposeAt(fs, "end", s.next, show);
    var step :- StepPart(fs, e.next, show);
    var name :- LoopVariable(fs);
    var stepText := if step.1 == "" then "" else step.1 + Shown(step.0.result, temps);
    var lines := Render(s.steps, depth, temps) + Render(e.steps, depth, temps) + Render(step.0.steps, depth, temps);
    Ok(Emission(lines + Line(depth, "for " + name + " = " + Shown(s.result, temps) + ", " + Shown(e.result, temps) + stepText + " do"),
                step.0.next))
  }

  /** One iterator of a generic `for`: its lines and the expression the header
      lists. */
  datatype Iteration = Iteration(steps: seq<Step>, call: Rhs, next: nat)

  const IteratorCallKinds: set<string> := {"CallExpression", "MethodCallExpression"}

  /** An iterator that is a call prints as `${base}(args)` from its lowered
      base and arguments: as written the colon marker prints as
      `[object Object]`, corrected it is `obj:name(args)`. Any other
      iterator is lowered as an expression. */
  function Iterator(v: Value, next: nat, show: Printer, fixed: bool): (r: Result<Iteration>)
    ensures r.Ok? ==> next <= r.value.next && Between(Writes(r.value.steps), next, r.value.next)
  {
    if v.Null? then Err("TypeError: Cannot read properties of null (reading 'type')")
    else if v.Obj? && Emit.KindIn(Kind(v.fields), IteratorCallKinds) then
      var its := v.fields;
      var b :- if Truthy(Own(its, "base")) then DecomposeAt(its, "base", next, show)
               else DecomposeAt(its, "identifier", next, show);
      var args :- DecomposeArgs(its, b.next, show);
      WritesAppend(b.steps, args.steps);
      var call := if fixed then CallRhs(b.result, args.atoms) else Apply(AsAtom(b.result), args.atoms);
      Ok(Iteration(b.steps + args.steps, call, args.next))
    else
      var l :- Decompose(v, next, show);
      Ok(Iteration(l.steps, Copy(AsAtom(l.result)), l.next))
  }

  /** The iterators from position `i` on: their lines in order and the
      expressions listed. */
  function Iterators(items: seq<Value>, i: nat, next: nat, show: Printer, fixed: bool): (r: Result<(seq<Step>, seq<Rhs>, nat)>)
    requires i <= |items|
    ensures r.Ok? ==> next <= r.value.2 && |r.value.1| == |items| - i
    decreases |items| - i
  {
    if i == |items| then Ok(([], [], next))
    else
      var first :- Iterator(items[i], next, show, fixed);
      var rest :- Iterators(items, i + 1, first.next, show, fixed);
      Ok((first.steps + rest.0, [first.call] + rest.1, rest.2))
  }

  /** `(node.iterators || []).map(…)`. */
  function IteratorsOf(fs: seq<Member>, next: nat, show: Printer, fixed: bool): (r: Result<(seq<Step>, seq<Rhs>, nat)>)
    ensures r.Ok? ==> next <= r.value.2
  {
    if !Truthy(Own(fs, "iterators")) then Ok(([], [], next))
    else match fs[OwnIndex(fs, "iterators")].val
      case Arr(items) => Iterators(items, 0, next, show, fixed)
      case _ => Err("TypeError: (node.iterators || []).map is not a function")
  }

  /** `list.map(v => v.name).join(", ")`, or for parameters `"..."` for a
      vararg. */
  function NameList(items: seq<Value>, i: nat, parameters: bool): Result<seq<string>>
    requires i <= |items|
    decreases |items| - i
  {
    if i == |items| then Ok([])
    else
      var v := items[i];
      var first :- if v.Null? then Err("TypeError: Cannot read properties of null (reading 'name')")
                   else if parameters && GetProp(v, "type") == Defined(Str("VarargLiteral")) then Ok("...")
                   else JoinText(GetProp(v, "name"));
      var rest :- NameList(items, i + 1, parameters);
      Ok([first] + rest)
  }

  function NamesAt(fs: seq<Member>, n: string, parameters: bool): Result<string>
  {
    match Own(fs, n)
    case Defined(Arr(items)) =>
      var names :- NameList(items, 0, parameters);
      Ok(Text.Join(names, ", "))
    case _ => Err("TypeError: node." + n + ".map is not a function")
  }

  function RhsList(calls: seq<Rhs>, temps: nat -> string): string
  {
    Text.Join(seq(|calls|, i requires 0 <= i < |calls| => RhsText(calls[i], temps)), ", ")
  }

  /** `for k, v in iterators do … end`. */
  function ForGenericLines(fs: seq<Member>, depth: nat, next: nat, temps: nat -> string, show: Printer, fixed: bool): (r: Result<Emission>)
    ensures r.Ok? ==> next <= r.value.next
    decreases fs, 2
  {
    var head :- GenericHead(fs, depth, next, temps, show, fixed);
    var body :- BodyAt(fs, "body", depth + 1, head.next, temps, show, fixed);
    Ok(Emission(Closed(head.lines, body.lines, depth), body.next))
  }

  /** The iterators' lines and `for names in iterators do`. */
  function GenericHead(fs: seq<Member>, depth: nat, next: nat, temps: nat -> string, show: Printer, fixed: bool): (r: Result<Emission>)
    ensures r.Ok? ==> next <= r.value.next && Indented(r.value.lines, depth)
  {
    var its :- IteratorsOf(fs, next, show, fixed);
    var names :- NamesAt(fs, "variables", false);
    Ok(Emission(Render(its.0, depth, temps) + Line(depth, "for " + names + " in " + RhsList(its.1, temps) + " do"), its.2))
  }

  /** `[local ]function name(params) … end`. */
  function FunctionLines(fs: seq<Member>, depth: nat, next: nat, temps: nat -> string, show: Printer, fixed: bool): (r: Result<Emission>)
    ensures r.Ok? ==> next <= r.value.next
    decreases fs, 2
  {
    var name :- ShowAt(fs, "identifier", show);
    var params :- NamesAt(fs, "parameters", true);
    var head := LocalPrefix(Truthy(Own(fs, "isLocal"))) + "function " + Text.Trim(name) + "(" + params + ")";
    var body :- BodyAt(fs, "body", depth + 1, next, temps, show, fixed);
    Ok(Emission(Closed(Line(depth, head), body.lines, depth), body.next))
  }

  // ---------------------------------------------------------------------------
  // process and the driver

  /** The statements `process()` lowers: the root when it is a list, else its
      `body` when that is truthy, else the root alone. */
  function RootLines(root: Value, temps: nat -> string, show: Printer, fixed: bool): (r: Result<Emission>)
  {
    match root
    case Null => Err("TypeError: Cannot read properties of null (reading 'body')")
    case Arr(items) => Statements(items, 0, 0, 0, temps, show, fixed)
    case _ =>
      var body := GetProp(root, "body");
      if !Truthy(body) then Statements([root], 0, 0, 0, temps, show, fixed)
      else match body.value
        case Arr(items) => Statements(items, 0, 0, 0, temps, show, fixed)
        case _ => Err("TypeError: body.forEach is not a function")
  }

  /** `process()`: the lowered lines joined by newlines. */
  function Process(root: Value, temps: nat -> string, show: Printer, fixed: bool): (r: Result<string>)
    // `null` has no `body`, and a truthy `body` that is not a list has no `forEach`
    ensures root.Null? ==> r.Err?
    ensures (root.Obj? && Truthy(GetProp(root, "body")) && !GetProp(root, "body").value.Arr?) ==> r.Err?
  {
    var e :- RootLines(root, temps, show, fixed);
    Ok(Text.Join(e.lines, "\n"))
  }

  /** A chunk whose `body` is a list is processed as that list, and a node
      without a truthy `body` as the one-statement list holding it. */
  lemma ProcessedAsList(root: Value, temps: nat -> string, show: Printer, fixed: bool)
    requires root.Obj?
    ensures Truthy(GetProp(root, "body")) && GetProp(root, "body").value.Arr? ==>
      Process(root, temps, show, fixed) == Process(GetProp(root, "body").value, temps, show, fixed)
    ensures !Truthy(GetProp(root, "body")) ==> Process(root, temps, show, fixed) == Process(Arr([root]), temps, show, fixed)
  {
  }

  /** What replaces a body: `newNodes.body || newNodes`. */
  function Replacement(n: Value): Result<Value>
  {
    if n.Null? then Err("TypeError: Cannot read properties of null (reading 'body')")
    else
      var body := GetProp(n, "body");
      if Truthy(body) then Ok(body.value) else Ok(n)
  }

  /** One body of the loop: lowered, re-parsed by `parse` (the foreign parser,
      which returns the statement list), and the re-parsed list stored; a text
      that does not parse is rethrown. */
  function LowerBody(a: Access, temps: nat -> string, parse: string -> Option<Value>, show: Printer, fixed: bool): (r: Result<Value>)
    ensures r.Ok? ==> a.Defined? && Process(a.value, temps, show, fixed).Ok?
    ensures a.Defined? && Process(a.value, temps, show, fixed).Ok? && parse(Process(a.value, temps, show, fixed).value).None? ==> r.Err?
    // a body whose text is produced and parses is replaced, unless the parser gave `null`
    ensures a.Defined? && Process(a.value, temps, show, fixed).Ok? && parse(Process(a.value, temps, show, fixed).value).Some? ==>
      (r.Ok? <==> !parse(Process(a.value, temps, show, fixed).value).value.Null?)
    // a re-parsed statement list is stored as it is
    ensures (a.Defined? && Process(a.value, temps, show, fixed).Ok? && parse(Process(a.value, temps, show, fixed).value).Some?
             && parse(Process(a.value, temps, show, fixed).value).value.Arr?)
            ==> r == Ok(parse(Process(a.value, temps, show, fixed).value).value)
  {
    match a
    case Undefined => Err("TypeError: Cannot read properties of undefined (reading 'body')")
    case Defined(v) =>
      var code :- Process(v, temps, show, fixed);
      match parse(code)
      case None => Err("SyntaxError: the lowered block does not parse")
      case Some(n) => Replacement(n)
  }

  /** The rewrite applied to the `k`-th body, with its own temporary names. */
  function LowerEach(temps: nat -> (nat -> string), parse: string -> Option<Value>, show: Printer, fixed: bool): (nat, Access) -> Result<Value>
  {
    (k: nat, a: Access) => LowerBody(a, temps(k), parse, show, fixed)
  }

  /** The bodies in the order the loop visits them: every `body` array no
      deeper than 50 levels, longest path first. */
  function BodyOrder(t: Value): seq<Path>
  {
    TreeIndex.SortByLengthDesc(TreeIndex.FindAllBodies(t, 50))
  }

  /** The root's text after every body has been replaced. */
  function RootCode(t: Value, temps: nat -> (nat -> string), parse: string -> Option<Value>, show: Printer, fixed: bool): Result<string>
  {
    var bodies := BodyOrder(t);
    var t2 :- TreeIndex.ReplaceAll(t, bodies, 0, LowerEach(temps, parse, show, fixed));
    Process(t2, temps(|bodies|), show, fixed)
  }

  /** The printer the pass uses: `A2C.Handle` of module `Emit`. */
  function Printed(fixed: bool): Printer
  {
    (v: Value) => Emit.Handle(v, fixed)
  }

  /** `DecomposeExpressions(Ast)`: lower every body deepest first, then the
      root as a whole, and return the re-parsed statement list; a root text
      that does not parse is rethrown. */
  function DecomposeExpressions(t: Value, temps: nat -> (nat -> string), parse: string -> Option<Value>, fixed: bool): (r: Result<Value>)
    ensures r.Ok? <==> RootCode(t, temps, parse, Printed(fixed), fixed).Ok? && parse(RootCode(t, temps, parse, Printed(fixed), fixed).value).Some?
    ensures r.Ok? ==> r == Ok(parse(RootCode(t, temps, parse, Printed(fixed), fixed).value).value)
    // `null` has no bodies, and its own `body` cannot be read
    ensures t.Null? ==> r.Err?
  {
    assert t.Null? ==> BodyOrder(t) == [];
    var code :- RootCode(t, temps, parse, Printed(fixed), fixed);
    match parse(code)
    case None => Err("SyntaxError: the lowered program does not parse")
    case Some(n) => Ok(n)
  }

  /** Lowering `v` throws: its text cannot be produced, or does not parse. */
  predicate LowerFails(v: Value, temps: nat -> string, parse: string -> Option<Value>, fixed: bool)
  {
    Process(v, temps, Printed(fixed), fixed).Err? || parse(Process(v, temps, Printed(fixed), fixed).value).None?
  }

  /** Every body was replaced, and the root's own text then throws. */
  predicate RootFails(t: Value, temps: nat -> (nat -> string), parse: string -> Option<Value>, fixed: bool)
  {
    var t2 := TreeIndex.ReplaceAll(t, BodyOrder(t), 0, LowerEach(temps, parse, Printed(fixed), fixed));
    t2.Ok? && LowerFails(t2.value, temps(|BodyOrder(t)|), parse, fixed)
  }

  /** With a parser that returns statement lists, every body the pass stores is a list. */
  lemma LowerEachContainers(temps: nat -> (nat -> string), parse: string -> Option<Value>, fixed: bool)
    requires forall c :: parse(c).Some? ==> parse(c).value.Arr?
    ensures forall j, a :: LowerEach(temps, parse, Printed(fixed), fixed)(j, a).Ok? ==>
      IsContainer(LowerEach(temps, parse, Printed(fixed), fixed)(j, a).value)
  {
    var rw := LowerEach(temps, parse, Printed(fixed), fixed);
    forall j, a ensures rw(j, a).Ok? ==> IsContainer(rw(j, a).value) {
      assert rw(j, a) == LowerBody(a, temps(j), parse, Printed(fixed), fixed);
    }
  }

  /** With a parser that returns statement lists, a body that is there fails
      to lower exactly when the printer or the parser fails on it. */
  lemma LowerBodyFails(v: Value, temps: nat -> string, parse: string -> Option<Value>, fixed: bool)
    requires forall c :: parse(c).Some? ==> parse(c).value.Arr?
    ensures LowerBody(Defined(v), temps, parse, Printed(fixed), fixed).Err? <==> LowerFails(v, temps, parse, fixed)
  {
  }

  /** Round `j` of the loop finds its body still there, and lowering it throws. */
  predicate BodyFailsAt(t: Value, temps: nat -> (nat -> string), parse: string -> Option<Value>, fixed: bool, j: int)
  {
    var ps, rw := BodyOrder(t), LowerEach(temps, parse, Printed(fixed), fixed);
    0 <= j < |ps| && TreeIndex.Turn(t, ps, 0, rw, j).Ok? && GetKey(TreeIndex.Turn(t, ps, 0, rw, j).value, ps[j]).Found?
    && LowerFails(GetKey(TreeIndex.Turn(t, ps, 0, rw, j).value, ps[j]).value, temps(j), parse, fixed)
  }

  /** A round's lowering throws exactly when the loop's rewrite does. */
  lemma BodyFailsInRound(t: Value, temps: nat -> (nat -> string), parse: string -> Option<Value>, fixed: bool, j: int)
    requires forall c :: parse(c).Some? ==> parse(c).value.Arr?
    ensures BodyFailsAt(t, temps, parse, fixed, j)
      <==> TreeIndex.RewriteFailsAt(t, BodyOrder(t), 0, LowerEach(temps, parse, Printed(fixed), fixed), j)
  {
    var ps, rw := BodyOrder(t), LowerEach(temps, parse, Printed(fixed), fixed);
    if 0 <= j < |ps| && TreeIndex.Turn(t, ps, 0, rw, j).Ok? && GetKey(TreeIndex.Turn(t, ps, 0, rw, j).value, ps[j]).Found? {
      var v := GetKey(TreeIndex.Turn(t, ps, 0, rw, j).value, ps[j]).value;
      assert rw(0 + j, Defined(v)) == LowerBody(Defined(v), temps(j), parse, Printed(fixed), fixed);
      LowerBodyFails(v, temps(j), parse, fixed);
    }
  }

  /** The pass throws exactly when the replacement loop does or the root fails to lower. */
  lemma LoopOrRootFails(t: Value, temps: nat -> (nat -> string), parse: string -> Option<Value>, fixed: bool)
    ensures DecomposeExpressions(t, temps, parse, fixed).Err? <==>
      TreeIndex.ReplaceAll(t, BodyOrder(t), 0, LowerEach(temps, parse, Printed(fixed), fixed)).Err? || RootFails(t, temps, parse, fixed)
  {
    var t2 := TreeIndex.ReplaceAll(t, BodyOrder(t), 0, LowerEach(temps, parse, Printed(fixed), fixed));
    if t2.Ok? {
      assert RootCode(t, temps, parse, Printed(fixed), fixed) == Process(t2.value, temps(|BodyOrder(t)|), Printed(fixed), fixed);
    }
  }

  /** With a parser that returns statement lists, the pass on a well-formed
      tree throws exactly where the program rethrows: lowering or re-parsing
      the body some round finds, or the root at the end. No body goes missing
      on the way, because the deepest are replaced first. */
  lemma DecomposeFailsOnlyInLowering(t: Value, temps: nat -> (nat -> string), parse: string -> Option<Value>, fixed: bool)
    requires WellFormed(t)
    requires forall c :: parse(c).Some? ==> parse(c).value.Arr?
    ensures DecomposeExpressions(t, temps, parse, fixed).Err? <==>
      (exists j :: BodyFailsAt(t, temps, parse, fixed, j)) || RootFails(t, temps, parse, fixed)
  {
    var rw := LowerEach(temps, parse, Printed(fixed), fixed);
    var ps := BodyOrder(t);
    LowerEachContainers(temps, parse, fixed);
    TreeIndex.SortedBodiesFailOnlyInRewrite(t, 50, rw);
    forall j ensures BodyFailsAt(t, temps, parse, fixed, j) <==> TreeIndex.RewriteFailsAt(t, ps, 0, rw, j) {
      BodyFailsInRound(t, temps, parse, fixed, j);
    }
    LoopOrRootFails(t, temps, parse, fixed);
  }
}
/** Indentation: `indent` is raised around every nested body and lowered
    after it, so every statement's lines are indented at least as deep as the
    statement itself, and a block's body one level deeper. */
module DecomposeIndent {
  import opened Wrappers
  import opened Json
  import opened Lowering
  import opened DecomposePass
  import Text

  lemma {:induction false} StatementIndented(v: Value, depth: nat, next: nat, temps: nat -> string, show: Printer, fixed: bool)
    ensures HandleStatement(v, depth, next, temps, show, fixed).Ok? ==> Indented(HandleStatement(v, depth, next, temps, show, fixed).value.lines, depth)
    decreases v, 4
  {
    if Truthy(Defined(v)) && v.Obj? {
      NodeIndented(v.fields, depth, next, temps, show, fixed);
    }
  }

  lemma {:induction false} StatementsIndented(items: seq<Value>, i: nat, depth: nat, next: nat, temps: nat -> string, show: Printer, fixed: bool)
    requires i <= |items|
    ensures Statements(items, i, depth, next, temps, show, fixed).Ok? ==> Indented(Statements(items, i, depth, next, temps, show, fixed).value.lines, depth)
    decreases items, |items| - i
  {
    if i < |items| {
      StatementIndented(items[i], depth, next, temps, show, fixed);
      match HandleStatement(items[i], depth, next, temps, show, fixed) {
        case Ok(first) => StatementsIndented(items, i + 1, depth, first.next, temps, show, fixed);
        case Err(_) =>
      }
    }
  }

  lemma {:induction false} BodyIndented(fs: seq<Member>, n: string, depth: nat, next: nat, temps: nat -> string, show: Printer, fixed: bool)
    ensures BodyAt(fs, n, depth, next, temps, show, fixed).Ok? ==> Indented(BodyAt(fs, n, depth, next, temps, show, fixed).value.lines, depth)
    decreases fs, 1
  {
    if Truthy(Own(fs, n)) && fs[OwnIndex(fs, n)].val.Arr? {
      StatementsIndented(fs[OwnIndex(fs, n)].val.items, 0, depth, next, temps, show, fixed);
    }
  }

  lemma {:induction false} NodeIndented(fs: seq<Member>, depth: nat, next: nat, temps: nat -> string, show: Printer, fixed: bool)
    ensures StatementNode(fs, depth, next, temps, show, fixed).Ok? ==> Indented(StatementNode(fs, depth, next, temps, show, fixed).value.lines, depth)
    decreases fs, 3
  {
    match StatementKindOf(fs)
    case LocalKind =>
    case AssignKind =>
    case IfKind => IfIndented(fs, depth, next, temps, show, fixed);
    case WhileKind => WhileIndented(fs, depth, next, temps, show, fixed);
    case ForNumericKind => ForNumericIndented(fs, depth, next, temps, show, fixed);
    case ForGenericKind => ForGenericIndented(fs, depth, next, temps, show, fixed);
    case ReturnKind =>
    case CallStatementKind =>
    case FunctionKind => FunctionIndented(fs, depth, next, temps, show, fixed);
    case OtherStatement =>
  }

  lemma {:induction false} IfIndented(fs: seq<Member>, depth: nat, next: nat, temps: nat -> string, show: Printer, fixed: bool)
    ensures IfLines(fs, depth, next, temps, show, fixed).Ok? ==> Indented(IfLines(fs, depth, next, temps, show, fixed).value.lines, depth)
    decreases fs, 2
  {
    if HasOwn(fs, "clauses") && fs[OwnIndex(fs, "clauses")].val.Arr? {
      var clauses := fs[OwnIndex(fs, "clauses")].val.items;
      ClausesIndented(clauses, 0, depth, next, temps, show, fixed);
      var e := Clauses(clauses, 0, depth, next, temps, show, fixed);
      if e.Ok? {
        ClosedIndented(e.value.lines, [], depth);
      }
    }
  }

  lemma {:induction false} ClausesIndented(clauses: seq<Value>, i: nat, depth: nat, next: nat, temps: nat -> string, show: Printer, fixed: bool)
    requires i <= |clauses|
    ensures Clauses(clauses, i, depth, next, temps, show, fixed).Ok? ==> Indented(Clauses(clauses, i, depth, next, temps, show, fixed).value.lines, depth)
    decreases clauses, |clauses| - i
  {
    if i < |clauses| {
      ClauseIndented(clauses[i], i == 0, depth, next, temps, show, fixed);
      match Clause(clauses[i], i == 0, depth, next, temps, show, fixed) {
        case Ok(first) =>
          ClausesIndented(clauses, i + 1, depth, first.next, temps, show, fixed);
          var rest := Clauses(clauses, i + 1, depth, first.next, temps, show, fixed);
          if rest.Ok? {
            assert Clauses(clauses, i, depth, next, temps, show, fixed) == Ok(Sequenced(first, rest.value, depth));
          }
        case Err(_) =>
      }
    }
  }

  lemma {:induction false} ClauseIndented(c: Value, first: bool, depth: nat, next: nat, temps: nat -> string, show: Printer, fixed: bool)
    ensures Clause(c, first, depth, next, temps, show, fixed).Ok? ==> Indented(Clause(c, first, depth, next, temps, show, fixed).value.lines, depth)
    decreases c, 2
  {
    if c.Obj? {
      match ClauseHead(c.fields, first, depth, next, temps, show, fixed) {
        case Ok(head) =>
          BodyIndented(c.fields, "body", depth + 1, head.next, temps, show, fixed);
          var body := BodyAt(c.fields, "body", depth + 1, head.next, temps, show, fixed);
          if body.Ok? {
            assert Clause(c, first, depth, next, temps, show, fixed) == Ok(Nested(head, body.value, depth));
          }
        case Err(_) =>
      }
    }
  }

  lemma {:induction false} WhileIndented(fs: seq<Member>, depth: nat, next: nat, temps: nat -> string, show: Printer, fixed: bool)
    ensures WhileLines(fs, depth, next, temps, show, fixed).Ok? ==> Indented(WhileLines(fs, depth, next, temps, show, fixed).value.lines, depth)
    decreases fs, 2
  {
    match DecomposeAt(fs, "condition", next, show) {
      case Ok(c) => BodyIndented(fs, "body", depth + 1, c.next, temps, show, fixed);
      case Err(_) =>
    }
  }

  lemma {:induction false} ForNumericIndented(fs: seq<Member>, depth: nat, next: nat, temps: nat -> string, show: Printer, fixed: bool)
    ensures ForNumericLines(fs, depth, next, temps, show, fixed).Ok? ==> Indented(ForNumericLines(fs, depth, next, temps, show, fixed).value.lines, depth)
    decreases fs, 2
  {
    var head := NumericHead(fs, depth, next, temps, show, fixed);
    if head.Ok? {
      BodyIndented(fs, "body", depth + 1, head.value.next, temps, show, fixed);
      var body := BodyAt(fs, "body", depth + 1, head.value.next, temps, show, fixed);
      if body.Ok? {
        ClosedIndented(head.value.lines, body.value.lines, depth);
      }
    }
  }

  lemma {:induction false} ForGenericIndented(fs: seq<Member>, depth: nat, next: nat, temps: nat -> string, show: Printer, fixed: bool)
    ensures ForGenericLines(fs, depth, next, temps, show, fixed).Ok? ==> Indented(ForGenericLines(fs, depth, next, temps, show, fixed).value.lines, depth)
    decreases fs, 2
  {
    var head := GenericHead(fs, depth, next, temps, show, fixed);
    if head.Ok? {
      BodyIndented(fs, "body", depth + 1, head.value.next, temps, show, fixed);
      var body := BodyAt(fs, "body", depth + 1, head.value.next, temps, show, fixed);
      if body.Ok? {
        ClosedIndented(head.value.lines, body.value.lines, depth);
      }
    }
  }

  lemma {:induction false} FunctionIndented(fs: seq<Member>, depth: nat, next: nat, temps: nat -> string, show: Printer, fixed: bool)
    ensures FunctionLines(fs, depth, next, temps, show, fixed).Ok? ==> Indented(FunctionLines(fs, depth, next, temps, show, fixed).value.lines, depth)
    decreases fs, 2
  {
    var name := ShowAt(fs, "identifier", show);
    var params := NamesAt(fs, "parameters", true);
    if name.Ok? && params.Ok? {
      var head := LocalPrefix(Truthy(Own(fs, "isLocal"))) + "function " + Text.Trim(name.value) + "(" + params.value + ")";
      BodyIndented(fs, "body", depth + 1, next, temps, show, fixed);
      var body := BodyAt(fs, "body", depth + 1, next, temps, show, fixed);
      if body.Ok? {
        ClosedIndented(Line(depth, head), body.value.lines, depth);
      }
    }
  }
}
