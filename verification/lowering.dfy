/** `ExpressionDecomposer.decompose`: the lowering of one expression into lines
    that each perform a single operation and store it in a fresh temporary
    (`t = a + b`), the value of the whole expression ending up in the last one.

    The lines are kept as steps over numbered temporaries and printed through
    a name for each number; the names are `GenerateVariable` draws, a
    parameter here. Printing gives the exact text the decomposer emits. Each
    step's meaning is given by `Replay`, which evaluates the steps
    symbolically, and the main theorem (`DecomposeMeans`) says that replaying
    the lowered lines yields the expression tree the input denotes. */
module Lowering {
  import opened Wrappers
  import opened Json
  import Text
  import Emit

  /** How a node is printed: `A2C.Handle`, the printer of module `Emit`, which
      the pass binds; the lowering only passes its text through. */
  type Printer = Value -> Result<string>

  // ---------------------------------------------------------------------------
  // Lowered lines

  /** A value in an emitted line: the `k`-th temporary drawn, or text that
      stands for itself (a name, a literal, `nil`, `...`). */
  datatype Atom = Temp(k: nat) | Lit(text: string)

  /** What `decompose` returns: a value, or the marker a colon access returns
      (`{isColon, base, identifier}`) so that the call around it can print
      `base:name(...)`. */
  datatype Lowered = Plain(atom: Atom) | ColonRef(base: Atom, name: string)

  /** `${x}` for what `decompose` returned: the marker is an object and prints
      as `[object Object]`. */
  function AsAtom(l: Lowered): Atom
  {
    match l
    case Plain(a) => a
    case ColonRef(_, _) => Lit("[object Object]")
  }

  /** The right-hand side of an emitted assignment. */
  datatype Rhs =
    | Copy(a: Atom)
    | Bin(l: Atom, op: string, r: Atom)
    | Un(op: string, a: Atom)
    | Quote(name: string)
    | At(base: Atom, key: Atom)
    | Apply(f: Atom, args: seq<Atom>)
    | Invoke(obj: Atom, name: string, args: seq<Atom>)

  /** One emitted assignment `t = rhs`, or the guard of a short-circuit
      operator: `if t then … end` (`if not t then … end` for `or`) around the
      lines of the right operand, one level deeper. */
  datatype Step = Assign(target: nat, rhs: Rhs) | Guard(negated: bool, flag: nat, body: seq<Step>)

  /** The result of lowering one expression from temporary `next` on: the
      steps, the value, and the first temporary not yet drawn. */
  datatype Lowering = Lowering(steps: seq<Step>, result: Lowered, next: nat)

  /** The result of lowering a list of expressions, each value as printed. */
  datatype Lowerings = Lowerings(steps: seq<Step>, atoms: seq<Atom>, next: nat)

  // ---------------------------------------------------------------------------
  // Printing

  /** `"  ".repeat(indent)`. */
  function Spacing(depth: nat): string
  {
    Text.Repeat("  ", depth)
  }

  /** `emit(line)`: an empty line is dropped, any other is trimmed and
      indented. */
  function Emitted(depth: nat, line: string): seq<string>
  {
    if line == "" then [] else [Spacing(depth) + Text.Trim(line)]
  }

  function AtomText(a: Atom, temps: nat -> string): string
  {
    match a
    case Temp(k) => temps(k)
    case Lit(t) => t
  }

  /** `args.join(", ")`. */
  function AtomsText(args: seq<Atom>, temps: nat -> string): string
  {
    Text.Join(seq(|args|, i requires 0 <= i < |args| => AtomText(args[i], temps)), ", ")
  }

  function RhsText(r: Rhs, temps: nat -> string): string
  {
    match r
    case Copy(a) => AtomText(a, temps)
    case Bin(l, op, x) => AtomText(l, temps) + " " + op + " " + AtomText(x, temps)
    case Un(op, a) => if op == "#" then op + AtomText(a, temps) else op + " " + AtomText(a, temps)
    case Quote(n) => "\"" + n + "\""
    case At(b, k) => AtomText(b, temps) + "[" + AtomText(k, temps) + "]"
    case Apply(f, args) => AtomText(f, temps) + "(" + AtomsText(args, temps) + ")"
    case Invoke(o, m, args) => AtomText(o, temps) + ":" + m + "(" + AtomsText(args, temps) + ")"
  }

  /** The text lines of a run of steps at an indentation depth. */
  function Render(steps: seq<Step>, depth: nat, temps: nat -> string): (r: seq<string>)
    ensures forall j :: 0 <= j < |r| ==> Text.StartsWith(r[j], Spacing(depth))
    decreases steps, 1
  {
    if steps == [] then [] else RenderStep(steps[0], depth, temps) + Render(steps[1..], depth, temps)
  }

  function RenderStep(s: Step, depth: nat, temps: nat -> string): (r: seq<string>)
    ensures forall j :: 0 <= j < |r| ==> Text.StartsWith(r[j], Spacing(depth))
    decreases s, 0
  {
    match s
    case Assign(t, rhs) => Emitted(depth, temps(t) + " = " + RhsText(rhs, temps))
    case Guard(neg, f, body) =>
      var inner := Render(body, depth + 1, temps);
      DeeperSpacing(depth);
      Emitted(depth, "if " + (if neg then "not " else "") + temps(f) + " then")
      + inner
      + Emitted(depth, "end")
  }

  /** A line indented one level deeper is also indented at this level. */
  lemma DeeperSpacing(depth: nat)
    ensures forall s :: Text.StartsWith(s, Spacing(depth + 1)) ==> Text.StartsWith(s, Spacing(depth))
  {
    assert Spacing(depth + 1) == "  " + Spacing(depth);
    assert Spacing(depth + 1) == Spacing(depth) + "  " by { RepeatSwap("  ", depth); }
  }

  lemma {:induction false} RepeatSwap(s: string, n: nat)
    ensures s + Text.Repeat(s, n) == Text.Repeat(s, n) + s
  {
    if n > 0 {
      RepeatSwap(s, n - 1);
      calc {
        s + Text.Repeat(s, n);
        s + (s + Text.Repeat(s, n - 1));
        s + (Text.Repeat(s, n - 1) + s);
        (s + Text.Repeat(s, n - 1)) + s;
      }
    }
  }

  // ---------------------------------------------------------------------------
  // Temporaries written

  /** The temporaries a run of steps assigns, guard flags included. */
  function Writes(steps: seq<Step>): set<nat>
    decreases steps, 1
  {
    if steps == [] then {} else StepWrites(steps[0]) + Writes(steps[1..])
  }

  function StepWrites(s: Step): set<nat>
    decreases s, 0
  {
    match s
    case Assign(t, _) => {t}
    case Guard(_, f, body) => {f} + Writes(body)
  }

  lemma {:induction false} WritesAppend(a: seq<Step>, b: seq<Step>)
    ensures Writes(a + b) == Writes(a) + Writes(b)
    decreases |a|
  {
    if a == [] {
      assert a + b == b;
    } else {
      assert (a + b)[0] == a[0];
      assert (a + b)[1..] == a[1..] + b;
      WritesAppend(a[1..], b);
    }
  }

  lemma WritesOne(s: Step)
    ensures Writes([s]) == StepWrites(s)
  {
    assert [s][1..] == [];
  }

  predicate Between(ks: set<nat>, lo: nat, hi: nat)
  {
    forall k :: k in ks ==> lo <= k < hi
  }

  /** A temporary, if it is one, drawn in `[lo, hi)`. */
  predicate Within(a: Atom, lo: nat, hi: nat)
  {
    a.Temp? ==> lo <= a.k < hi
  }

  predicate Produced(l: Lowered, lo: nat, hi: nat)
  {
    match l
    case Plain(a) => Within(a, lo, hi)
    case ColonRef(b, _) => Within(b, lo, hi)
  }

  /** A lowering from temporary `next` on draws only new temporaries, writes
      only those, and its value is text or one of them. */
  predicate FreshFrom(l: Lowering, next: nat)
  {
    next <= l.next && Between(Writes(l.steps), next, l.next) && Produced(l.result, next, l.next)
  }

  predicate FreshListFrom(l: Lowerings, next: nat)
  {
    next <= l.next && Between(Writes(l.steps), next, l.next)
    && forall j :: 0 <= j < |l.atoms| ==> Within(l.atoms[j], next, l.next)
  }

  // ---------------------------------------------------------------------------
  // decompose

  /** The node kinds printed as they are (`A2C.Handle(node).trim()`). */
  const LiteralKinds: set<string> := {"NumericLiteral", "StringLiteral", "BooleanLiteral", "NilLiteral"}

  /** The value `nil`, emitted for a missing or falsy operand. */
  function Nil(next: nat): Lowering
  {
    Lowering([], Plain(Lit("nil")), next)
  }

  /** `this.decompose(node)` with the temporaries drawn from `next` on. */
  function Decompose(v: Value, next: nat, show: Printer): (r: Result<Lowering>)
    ensures r.Ok? ==> FreshFrom(r.value, next)
    ensures !Truthy(Defined(v)) ==> r == Ok(Nil(next))
    decreases v, 4
  {
    if !Truthy(Defined(v)) then Ok(Nil(next))
    else if v.Obj? then DecomposeNode(v.fields, next, show)
    else
      var text :- show(v);
      Ok(Temporary(Text.Trim(text), next))
  }

  /** `v = value` for a text value: the fall-back for kinds not taken apart. */
  function Temporary(text: string, next: nat): (r: Lowering)
    ensures FreshFrom(r, next)
  {
    WritesOne(Assign(next, Copy(Lit(text))));
    Lowering([Assign(next, Copy(Lit(text)))], Plain(Temp(next)), next + 1)
  }

  /** `this.decompose(node[n])`: a missing child lowers to `nil`. */
  function DecomposeAt(fs: seq<Member>, n: string, next: nat, show: Printer): (r: Result<Lowering>)
    ensures r.Ok? ==> FreshFrom(r.value, next)
    ensures !Truthy(Own(fs, n)) ==> r == Ok(Nil(next))
    decreases fs, 1
  {
    if !HasOwn(fs, n) then Ok(Nil(next))
    else Decompose(fs[OwnIndex(fs, n)].val, next, show)
  }

  /** `list.map(x => this.decompose(x))` over positions `[i, hi)`; each value
      as it prints. */
  function DecomposeItems(items: seq<Value>, i: nat, hi: nat, next: nat, show: Printer): (r: Result<Lowerings>)
    requires i <= hi <= |items|
    ensures r.Ok? ==> FreshListFrom(r.value, next) && |r.value.atoms| == hi - i
    decreases items, hi - i
  {
    if i == hi then Ok(Lowerings([], [], next))
    else
      var first :- Decompose(items[i], next, show);
      var rest :- DecomposeItems(items, i + 1, hi, first.next, show);
      WritesAppend(first.steps, rest.steps);
      Ok(Lowerings(first.steps + rest.steps, [AsAtom(first.result)] + rest.atoms, rest.next))
  }

  /** `(node.arguments || []).map(…)`: a list that is not an array throws. */
  function DecomposeArgs(fs: seq<Member>, next: nat, show: Printer): (r: Result<Lowerings>)
    ensures r.Ok? ==> FreshListFrom(r.value, next)
    ensures !Truthy(Own(fs, "arguments")) ==> r == Ok(Lowerings([], [], next))
    decreases fs, 1
  {
    if !Truthy(Own(fs, "arguments")) then Ok(Lowerings([], [], next))
    else match fs[OwnIndex(fs, "arguments")].val
      case Arr(items) => DecomposeItems(items, 0, |items|, next, show)
      case _ => Err("TypeError: (node.arguments || []).map is not a function")
  }

  /** `node.identifier.name` as a template literal prints it. */
  function FieldName(fs: seq<Member>): Result<string>
  {
    match Own(fs, "identifier")
    case Defined(x) =>
      if x.Null? then Err("TypeError: Cannot read properties of null (reading 'name')")
      else Emit.TextOf(GetProp(x, "name"))
    case Undefined => Err("TypeError: Cannot read properties of undefined (reading 'name')")
  }

  function Kind(fs: seq<Member>): Access
  {
    Own(fs, "type")
  }

  /** The kinds `decompose` tells apart, by the node's `type`. */
  datatype ExprKind =
    | IdentifierKind | VarargKind | LiteralKind | BinaryKind | LogicalKind
    | UnaryKind | MemberKind | CallKind | OtherKind

  function ExprKindOf(fs: seq<Member>): ExprKind
  {
    var kind := Kind(fs);
    if kind == Defined(Str("Identifier")) then IdentifierKind
    else if kind == Defined(Str("VarargLiteral")) then VarargKind
    else if Emit.KindIn(kind, LiteralKinds) then LiteralKind
    else if kind == Defined(Str("BinaryExpression")) then BinaryKind
    else if kind == Defined(Str("LogicalExpression")) then LogicalKind
    else if kind == Defined(Str("UnaryExpression")) then UnaryKind
    else if kind == Defined(Str("MemberExpression")) then MemberKind
    else if kind == Defined(Str("CallExpression")) then CallKind
    else OtherKind
  }

  /** One node, by its `type`. */
  function DecomposeNode(fs: seq<Member>, next: nat, show: Printer): (r: Result<Lowering>)
    ensures r.Ok? ==> FreshFrom(r.value, next)
    decreases fs, 3
  {
    match ExprKindOf(fs)
    case IdentifierKind =>
      (match Own(fs, "name")
       case Defined(Str(s)) => Ok(Lowering([], Plain(Lit(s)), next))
       case _ => Err("an identifier whose name is not a string is not modelled"))
    case VarargKind => Ok(Lowering([], Plain(Lit("...")), next))
    case LiteralKind =>
      var text :- show(Obj(fs));
      Ok(Lowering([], Plain(Lit(Text.Trim(text))), next))
    case BinaryKind => DecomposeBinary(fs, next, show)
    case LogicalKind => DecomposeLogical(fs, next, show)
    case UnaryKind => DecomposeUnary(fs, next, show)
    case MemberKind => DecomposeMember(fs, next, show)
    case CallKind => DecomposeCall(fs, next, show)
    case OtherKind =>
      var text :- show(Obj(fs));
      Ok(Temporary(Text.Trim(text), next))
  }

  /** Steps `a`, then `b`, then one assignment of `rhs` to the next temporary. */
  function Then(a: seq<Step>, b: seq<Step>, t: nat, rhs: Rhs): (r: seq<Step>)
    ensures Writes(r) == Writes(a) + Writes(b) + {t}
  {
    WritesAppend(a, b);
    WritesAppend(a + b, [Assign(t, rhs)]);
    WritesOne(Assign(t, rhs));
    a + b + [Assign(t, rhs)]
  }

  /** `t = left op right`: the left operand's lines, the right operand's,
      then one line. */
  function DecomposeBinary(fs: seq<Member>, next: nat, show: Printer): (r: Result<Lowering>)
    ensures r.Ok? ==> FreshFrom(r.value, next)
    decreases fs, 2
  {
    var l :- DecomposeAt(fs, "left", next, show);
    var x :- DecomposeAt(fs, "right", l.next, show);
    var op :- Emit.TextOf(Own(fs, "operator"));
    var t := x.next;
    Ok(Lowering(Then(l.steps, x.steps, t, Bin(AsAtom(l.result), op, AsAtom(x.result))), Plain(Temp(t)), t + 1))
  }

  /** The guard of `and` (`if t then`) and of `or` (`if not t then`). */
  function ShortCircuit(left: seq<Step>, t: nat, la: Atom, negated: bool, right: seq<Step>, ra: Atom): (r: seq<Step>)
    ensures Writes(r) == Writes(left) + {t} + Writes(right)
  {
    var body := right + [Assign(t, Copy(ra))];
    WritesAppend(right, [Assign(t, Copy(ra))]);
    WritesOne(Assign(t, Copy(ra)));
    var tail := [Assign(t, Copy(la)), Guard(negated, t, body)];
    assert tail[1..] == [Guard(negated, t, body)];
    WritesOne(Guard(negated, t, body));
    WritesAppend(left, tail);
    left + tail
  }

  /** Which guard a logical operator takes: `Some(false)` for `and`,
      `Some(true)` (negated) for `or`, `None` for any other. */
  function GuardOf(fs: seq<Member>): Option<bool>
  {
    var op := Own(fs, "operator");
    if op == Defined(Str("and")) then Some(false)
    else if op == Defined(Str("or")) then Some(true)
    else None
  }

  /** `t = left; if [not] t then <right> t = right end`. An operator other
      than `and` or `or` leaves `t` unassigned. */
  function DecomposeLogical(fs: seq<Member>, next: nat, show: Printer): (r: Result<Lowering>)
    ensures r.Ok? ==> FreshFrom(r.value, next)
    decreases fs, 2
  {
    var l :- DecomposeAt(fs, "left", next, show);
    var t := l.next;
    match GuardOf(fs)
    case Some(negated) =>
      var x :- DecomposeAt(fs, "right", t + 1, show);
      Ok(Lowering(ShortCircuit(l.steps, t, AsAtom(l.result), negated, x.steps, AsAtom(x.result)),
                  Plain(Temp(t)), x.next))
    case None => Ok(Lowering(l.steps, Plain(Temp(t)), t + 1))
  }

  /** `v = op arg` (`#arg` without the space). */
  function DecomposeUnary(fs: seq<Member>, next: nat, show: Printer): (r: Result<Lowering>)
    ensures r.Ok? ==> FreshFrom(r.value, next)
    decreases fs, 2
  {
    var a :- DecomposeAt(fs, "argument", next, show);
    var op :- Emit.TextOf(Own(fs, "operator"));
    Ok(Lowering(Then(a.steps, [], a.next, Un(op, AsAtom(a.result))), Plain(Temp(a.next)), a.next + 1))
  }

  datatype Indexer = ColonIndexer | DotIndexer | OtherIndexer

  function IndexerOf(fs: seq<Member>): Indexer
  {
    var indexer := Own(fs, "indexer");
    if indexer == Defined(Str(":")) then ColonIndexer
    else if indexer == Defined(Str(".")) then DotIndexer
    else OtherIndexer
  }

  /** `base:name` yields the marker and no line; `base.name` stores the
      quoted name in a temporary and reads `base[p]`; any other indexer
      lowers the key as an expression. */
  function DecomposeMember(fs: seq<Member>, next: nat, show: Printer): (r: Result<Lowering>)
    ensures r.Ok? ==> FreshFrom(r.value, next)
    decreases fs, 2
  {
    var b :- DecomposeAt(fs, "base", next, show);
    match IndexerOf(fs)
    case ColonIndexer =>
      var name :- FieldName(fs);
      Ok(Lowering(b.steps, ColonRef(AsAtom(b.result), name), b.next))
    case DotIndexer =>
      var p := b.next;
      var name :- FieldName(fs);
      WritesOne(Assign(p, Quote(name)));
      Ok(Lowering(Then(b.steps, [Assign(p, Quote(name))], p + 1, At(AsAtom(b.result), Temp(p))),
                  Plain(Temp(p + 1)), p + 2))
    case OtherIndexer =>
      var i :- DecomposeAt(fs, "identifier", b.next, show);
      Ok(Lowering(Then(b.steps, i.steps, i.next, At(AsAtom(b.result), AsAtom(i.result))),
                  Plain(Temp(i.next)), i.next + 1))
  }

  /** The call a lowered base and arguments make: `obj:name(args)` on the
      colon marker, `f(args)` otherwise. */
  function CallRhs(base: Lowered, args: seq<Atom>): Rhs
  {
    match base
    case ColonRef(o, m) => Invoke(o, m, args)
    case Plain(f) => Apply(f, args)
  }

  /** `v = base(args)`, or `v = obj:name(args)` when the base is the colon
      marker. */
  function DecomposeCall(fs: seq<Member>, next: nat, show: Printer): (r: Result<Lowering>)
    ensures r.Ok? ==> FreshFrom(r.value, next)
    decreases fs, 2
  {
    var b :- DecomposeAt(fs, "base", next, show);
    var args :- DecomposeArgs(fs, b.next, show);
    Ok(Lowering(Then(b.steps, args.steps, args.next, CallRhs(b.result, args.atoms)), Plain(Temp(args.next)), args.next + 1))
  }

  // ---------------------------------------------------------------------------
  // What an expression denotes

  /** Expression trees over the text of their leaves. */
  datatype Sym =
    | Atomic(text: string)
    | BinOp(op: string, l: Sym, r: Sym)
    | AndAlso(l: Sym, r: Sym)
    | OrElse(l: Sym, r: Sym)
    | UnOp(op: string, a: Sym)
    | Indexed(base: Sym, key: Sym)
    | Called(f: Sym, args: seq<Sym>)
    | Invoked(obj: Sym, name: string, args: seq<Sym>)
    | Unset

  /** A value, or a method of an object waiting for its call. */
  datatype Denot = Val(sym: Sym) | Method(obj: Sym, name: string)

  /** A denotation used as an operand: a method reference is the marker object
      and reads as `[object Object]`. */
  function Operand(d: Denot): Sym
  {
    match d
    case Val(s) => s
    case Method(_, _) => Atomic("[object Object]")
  }

  /** What the expression `v` denotes, read directly off the tree. */
  function Meaning(v: Value, show: Printer): Denot
    decreases v, 4
  {
    if !Truthy(Defined(v)) then Val(Atomic("nil"))
    else if v.Obj? then NodeMeaning(v.fields, show)
    else Val(Printed(v, show))
  }

  /** The trimmed printed text of a node taken as it is. */
  function Printed(v: Value, show: Printer): Sym
  {
    match show(v)
    case Ok(s) => Atomic(Text.Trim(s))
    case Err(_) => Unset
  }

  function MeaningAt(fs: seq<Member>, n: string, show: Printer): Denot
    decreases fs, 1
  {
    if !HasOwn(fs, n) then Val(Atomic("nil")) else Meaning(fs[OwnIndex(fs, n)].val, show)
  }

  function MeaningItems(items: seq<Value>, i: nat, hi: nat, show: Printer): (r: seq<Sym>)
    requires i <= hi <= |items|
    ensures |r| == hi - i
    decreases items, hi - i
  {
    if i == hi then [] else [Operand(Meaning(items[i], show))] + MeaningItems(items, i + 1, hi, show)
  }

  function ArgsMeaning(fs: seq<Member>, show: Printer): seq<Sym>
    decreases fs, 1
  {
    if !Truthy(Own(fs, "arguments")) then []
    else match fs[OwnIndex(fs, "arguments")].val
      case Arr(items) => MeaningItems(items, 0, |items|, show)
      case _ => []
  }

  function NodeMeaning(fs: seq<Member>, show: Printer): Denot
    decreases fs, 3
  {
    match ExprKindOf(fs)
    case IdentifierKind =>
      (match Own(fs, "name")
       case Defined(Str(s)) => Val(Atomic(s))
       case _ => Val(Unset))
    case VarargKind => Val(Atomic("..."))
    case LiteralKind => Val(Printed(Obj(fs), show))
    case BinaryKind => BinaryMeaning(fs, show)
    case LogicalKind => LogicalMeaning(fs, show)
    case UnaryKind => UnaryMeaning(fs, show)
    case MemberKind => MemberMeaning(fs, show)
    case CallKind => CallMeaning(fs, show)
    case OtherKind => Val(Printed(Obj(fs), show))
  }

  function BinaryMeaning(fs: seq<Member>, show: Printer): Denot
    decreases fs, 2
  {
    Val(BinOp(OpText(fs), Operand(MeaningAt(fs, "left", show)), Operand(MeaningAt(fs, "right", show))))
  }

  /** `and` and `or`; any other operator leaves the value unset. */
  function LogicalMeaning(fs: seq<Member>, show: Printer): Denot
    decreases fs, 2
  {
    var l := Operand(MeaningAt(fs, "left", show));
    var r := Operand(MeaningAt(fs, "right", show));
    match GuardOf(fs)
    case Some(false) => Val(AndAlso(l, r))
    case Some(true) => Val(OrElse(l, r))
    case None => Val(Unset)
  }

  function UnaryMeaning(fs: seq<Member>, show: Printer): Denot
    decreases fs, 2
  {
    Val(UnOp(OpText(fs), Operand(MeaningAt(fs, "argument", show))))
  }

  /** `obj:name` is the method `name` of `obj`; `obj.name` indexes with the
      quoted name. */
  function MemberMeaning(fs: seq<Member>, show: Printer): Denot
    decreases fs, 2
  {
    var base := Operand(MeaningAt(fs, "base", show));
    var name := match FieldName(fs) case Ok(s) => s case Err(_) => "";
    match IndexerOf(fs)
    case ColonIndexer => Method(base, name)
    case DotIndexer => Val(Indexed(base, Atomic("\"" + name + "\"")))
    case OtherIndexer => Val(Indexed(base, Operand(MeaningAt(fs, "identifier", show))))
  }

  function CallMeaning(fs: seq<Member>, show: Printer): Denot
    decreases fs, 2
  {
    var args := ArgsMeaning(fs, show);
    match MeaningAt(fs, "base", show)
    case Method(o, m) => Val(Invoked(o, m, args))
    case Val(f) => Val(Called(f, args))
  }

  function OpText(fs: seq<Member>): string
  {
    match Emit.TextOf(Own(fs, "operator"))
    case Ok(s) => s
    case Err(_) => ""
  }

  // ---------------------------------------------------------------------------
  // What the lowered lines compute

  /** The symbolic value of each temporary assigned so far. */
  type Env = map<nat, Sym>

  function Load(a: Atom, env: Env): Sym
  {
    match a
    case Temp(k) => if k in env then env[k] else Unset
    case Lit(t) => Atomic(t)
  }

  function LoadAll(args: seq<Atom>, env: Env): (r: seq<Sym>)
    ensures |r| == |args|
  {
    seq(|args|, i requires 0 <= i < |args| => Load(args[i], env))
  }

  function Eval(r: Rhs, env: Env): Sym
  {
    match r
    case Copy(a) => Load(a, env)
    case Bin(l, op, x) => BinOp(op, Load(l, env), Load(x, env))
    case Un(op, a) => UnOp(op, Load(a, env))
    case Quote(n) => Atomic("\"" + n + "\"")
    case At(b, k) => Indexed(Load(b, env), Load(k, env))
    case Apply(f, args) => Called(Load(f, env), LoadAll(args, env))
    case Invoke(o, m, args) => Invoked(Load(o, env), m, LoadAll(args, env))
  }

  /** Runs the steps in order. A guard runs its body and then leaves its flag
      holding `flag and value` (`flag or value` when negated): the flag keeps
      its value when the body is skipped and takes the body's otherwise. */
  function Replay(steps: seq<Step>, env: Env): Env
    decreases steps, 1
  {
    if steps == [] then env else Replay(steps[1..], ReplayStep(steps[0], env))
  }

  function ReplayStep(s: Step, env: Env): Env
    decreases s, 0
  {
    match s
    case Assign(t, rhs) => env[t := Eval(rhs, env)]
    case Guard(neg, f, body) =>
      var inner := Replay(body, env);
      var before := Load(Temp(f), env);
      var after := Load(Temp(f), inner);
      inner[f := if neg then OrElse(before, after) else AndAlso(before, after)]
  }

  function Denote(l: Lowered, env: Env): Denot
  {
    match l
    case Plain(a) => Val(Load(a, env))
    case ColonRef(b, m) => Method(Load(b, env), m)
  }

  lemma {:induction false} ReplayAppend(a: seq<Step>, b: seq<Step>, env: Env)
    ensures Replay(a + b, env) == Replay(b, Replay(a, env))
    decreases |a|
  {
    if a == [] {
      assert a + b == b;
    } else {
      assert (a + b)[0] == a[0];
      assert (a + b)[1..] == a[1..] + b;
      ReplayAppend(a[1..], b, ReplayStep(a[0], env));
    }
  }

  /** Replaying steps adds only the temporaries they write, and leaves every
      other one as it was. */
  lemma {:induction false} ReplayFrame(steps: seq<Step>, env: Env)
    ensures forall k :: k in Replay(steps, env) ==> k in env || k in Writes(steps)
    ensures forall k :: k !in Writes(steps) && k in env ==> k in Replay(steps, env) && Replay(steps, env)[k] == env[k]
    decreases steps, 1
  {
    if steps != [] {
      var e1 := ReplayStep(steps[0], env);
      ReplayStepFrame(steps[0], env);
      ReplayFrame(steps[1..], e1);
    }
  }

  lemma {:induction false} ReplayStepFrame(s: Step, env: Env)
    ensures forall k :: k in ReplayStep(s, env) ==> k in env || k in StepWrites(s)
    ensures forall k :: k !in StepWrites(s) && k in env ==> k in ReplayStep(s, env) && ReplayStep(s, env)[k] == env[k]
    decreases s, 0
  {
    match s
    case Assign(_, _) =>
    case Guard(_, _, body) => ReplayFrame(body, env);
  }

  predicate Below(env: Env, next: nat)
  {
    forall k :: k in env ==> k < next
  }

  /** What the lines of a fresh lowering leave behind: no temporary at or
      beyond its end, and every value drawn before it untouched. */
  lemma ReplayFresh(l: Lowering, next: nat, env: Env)
    requires FreshFrom(l, next) && Below(env, next)
    ensures Below(Replay(l.steps, env), l.next)
    ensures forall a :: Within(a, 0, next) ==> Load(a, Replay(l.steps, env)) == Load(a, env)
  {
    ReplayFrame(l.steps, env);
    forall a | Within(a, 0, next) ensures Load(a, Replay(l.steps, env)) == Load(a, env) {
      if a.Temp? {
        assert a.k !in Writes(l.steps);
      }
    }
  }

  lemma ReplayFreshList(l: Lowerings, next: nat, env: Env)
    requires FreshListFrom(l, next) && Below(env, next)
    ensures Below(Replay(l.steps, env), l.next)
    ensures forall a :: Within(a, 0, next) ==> Load(a, Replay(l.steps, env)) == Load(a, env)
  {
    ReplayFresh(Lowering(l.steps, Plain(Lit("")), l.next), next, env);
  }

  // ---------------------------------------------------------------------------
  // Lowering preserves meaning

  /** Replaying the lines `decompose` emits, from any state holding only
      earlier temporaries, yields what the expression denotes: operands in
      order, `and`/`or` as their guarded assignments, a method call with its
      receiver, and a colon access as the method of its object. */
  lemma DecomposeMeans(v: Value, next: nat, show: Printer, env: Env)
    requires Decompose(v, next, show).Ok? && Below(env, next)
    ensures var l := Decompose(v, next, show).value;
      Denote(l.result, Replay(l.steps, env)) == Meaning(v, show)
    decreases v, 5
  {
    if !Truthy(Defined(v)) {
      NilMeans(next, env);
    } else if v.Obj? {
      NodeMeans(v.fields, next, show, env);
    } else {
      TemporaryMeans(Text.Trim(show(v).value), next, env);
    }
  }

  /** `nil` needs no lines and denotes `nil`. */
  lemma NilMeans(next: nat, env: Env)
    ensures Denote(Nil(next).result, Replay(Nil(next).steps, env)) == Val(Atomic("nil"))
  {
  }

  /** A printed leaf copied into a fresh temporary denotes its text. */
  lemma TemporaryMeans(text: string, next: nat, env: Env)
    ensures var l := Temporary(text, next);
      Denote(l.result, Replay(l.steps, env)) == Val(Atomic(text))
  {
  }

  lemma AtMeans(fs: seq<Member>, n: string, next: nat, show: Printer, env: Env)
    requires DecomposeAt(fs, n, next, show).Ok? && Below(env, next)
    ensures var l := DecomposeAt(fs, n, next, show).value;
      Denote(l.result, Replay(l.steps, env)) == MeaningAt(fs, n, show)
    decreases fs, 1
  {
    if HasOwn(fs, n) {
      DecomposeMeans(fs[OwnIndex(fs, n)].val, next, show, env);
    }
  }

  /** A lowered operand read after later lines ran still denotes the operand. */
  lemma OperandSurvives(l: Lowering, next: nat, later: seq<Step>, env: Env, d: Denot)
    requires FreshFrom(l, next) && Below(env, next)
    requires Denote(l.result, Replay(l.steps, env)) == d
    requires forall k :: k in Writes(later) ==> k >= l.next
    ensures Load(AsAtom(l.result), Replay(later, Replay(l.steps, env))) == Operand(d)
  {
    var e1 := Replay(l.steps, env);
    ReplayFrame(later, e1);
    var a := AsAtom(l.result);
    if a.Temp? {
      assert a.k < l.next;
      assert a.k !in Writes(later);
    }
  }

  lemma {:induction false} ItemsMeans(items: seq<Value>, i: nat, hi: nat, next: nat, show: Printer, env: Env)
    requires i <= hi <= |items|
    requires DecomposeItems(items, i, hi, next, show).Ok? && Below(env, next)
    ensures var l := DecomposeItems(items, i, hi, next, show).value;
      LoadAll(l.atoms, Replay(l.steps, env)) == MeaningItems(items, i, hi, show)
    decreases items, hi - i
  {
    if i < hi {
      var first := Decompose(items[i], next, show).value;
      var rest := DecomposeItems(items, i + 1, hi, first.next, show).value;
      var l := DecomposeItems(items, i, hi, next, show).value;
      assert l.steps == first.steps + rest.steps;
      assert l.atoms == [AsAtom(first.result)] + rest.atoms;
      DecomposeMeans(items[i], next, show, env);
      var e1 := Replay(first.steps, env);
      ReplayFresh(first, next, env);
      ItemsMeans(items, i + 1, hi, first.next, show, e1);
      ReplayAppend(first.steps, rest.steps, env);
      OperandSurvives(first, next, rest.steps, env, Meaning(items[i], show));
      var e2 := Replay(rest.steps, e1);
      assert LoadAll(l.atoms, e2)[0] == Operand(Meaning(items[i], show));
      assert LoadAll(l.atoms, e2)[1..] == LoadAll(rest.atoms, e2);
    }
  }

  lemma ArgsMeans(fs: seq<Member>, next: nat, show: Printer, env: Env)
    requires DecomposeArgs(fs, next, show).Ok? && Below(env, next)
    ensures var l := DecomposeArgs(fs, next, show).value;
      LoadAll(l.atoms, Replay(l.steps, env)) == ArgsMeaning(fs, show)
    decreases fs, 1
  {
    if Truthy(Own(fs, "arguments")) {
      var items := fs[OwnIndex(fs, "arguments")].val.items;
      ItemsMeans(items, 0, |items|, next, show, env);
    }
  }

  lemma NodeMeans(fs: seq<Member>, next: nat, show: Printer, env: Env)
    requires DecomposeNode(fs, next, show).Ok? && Below(env, next)
    ensures var l := DecomposeNode(fs, next, show).value;
      Denote(l.result, Replay(l.steps, env)) == NodeMeaning(fs, show)
    decreases fs, 4
  {
    match ExprKindOf(fs)
    case BinaryKind => BinaryMeans(fs, next, show, env);
    case LogicalKind => LogicalMeans(fs, next, show, env);
    case UnaryKind => UnaryMeans(fs, next, show, env);
    case MemberKind => MemberMeans(fs, next, show, env);
    case CallKind => CallMeans(fs, next, show, env);
    case _ =>
  }

  lemma ReplayTwo(a: Step, b: Step, env: Env)
    ensures Replay([a, b], env) == ReplayStep(b, ReplayStep(a, env))
  {
    var e := ReplayStep(a, env);
    assert [a, b][1..] == [b];
    assert Replay([a, b], env) == Replay([b], e);
    assert [b][1..] == [];
    assert Replay([b], e) == Replay([], ReplayStep(b, e));
  }

  /** Replaying `a`, `b`, then one assignment. */
  lemma ReplayThen(a: seq<Step>, b: seq<Step>, t: nat, rhs: Rhs, env: Env)
    ensures var e := Replay(b, Replay(a, env));
      Replay(Then(a, b, t, rhs), env) == e[t := Eval(rhs, e)]
  {
    ReplayAppend(a, b, env);
    ReplayAppend(a + b, [Assign(t, rhs)], env);
    assert [Assign(t, rhs)][1..] == [];
  }

  lemma BinaryMeans(fs: seq<Member>, next: nat, show: Printer, env: Env)
    requires DecomposeBinary(fs, next, show).Ok? && Below(env, next)
    ensures var l := DecomposeBinary(fs, next, show).value;
      Denote(l.result, Replay(l.steps, env)) == BinaryMeaning(fs, show)
    decreases fs, 2
  {
    var l := DecomposeAt(fs, "left", next, show).value;
    var x := DecomposeAt(fs, "right", l.next, show).value;
    AtMeans(fs, "left", next, show, env);
    var e1 := Replay(l.steps, env);
    ReplayFresh(l, next, env);
    AtMeans(fs, "right", l.next, show, e1);
    OperandSurvives(l, next, x.steps, env, MeaningAt(fs, "left", show));
    var op := Emit.TextOf(Own(fs, "operator")).value;
    ReplayThen(l.steps, x.steps, x.next, Bin(AsAtom(l.result), op, AsAtom(x.result)), env);
  }

  lemma LogicalMeans(fs: seq<Member>, next: nat, show: Printer, env: Env)
    requires DecomposeLogical(fs, next, show).Ok? && Below(env, next)
    ensures var l := DecomposeLogical(fs, next, show).value;
      Denote(l.result, Replay(l.steps, env)) == LogicalMeaning(fs, show)
    decreases fs, 2
  {
    var l := DecomposeAt(fs, "left", next, show).value;
    var t := l.next;
    AtMeans(fs, "left", next, show, env);
    var e1 := Replay(l.steps, env);
    ReplayFresh(l, next, env);
    if GuardOf(fs).Some? {
      var neg := GuardOf(fs).value;
      var x := DecomposeAt(fs, "right", t + 1, show).value;
      var la := AsAtom(l.result);
      var ra := AsAtom(x.result);
      var e2 := e1[t := Load(la, e1)];
      AtMeans(fs, "right", t + 1, show, e2);
      var e3 := Replay(x.steps, e2);
      ReplayFresh(x, t + 1, e2);
      var body := x.steps + [Assign(t, Copy(ra))];
      ReplayAppend(x.steps, [Assign(t, Copy(ra))], e2);
      assert [Assign(t, Copy(ra))][1..] == [];
      var inner := e3[t := Load(ra, e3)];
      assert Replay(body, e2) == inner;
      var tail := [Assign(t, Copy(la)), Guard(neg, t, body)];
      ReplayTwo(Assign(t, Copy(la)), Guard(neg, t, body), e1);
      ReplayAppend(l.steps, tail, env);
      assert Load(la, e1) == Operand(MeaningAt(fs, "left", show));
    }
  }

  lemma UnaryMeans(fs: seq<Member>, next: nat, show: Printer, env: Env)
    requires DecomposeUnary(fs, next, show).Ok? && Below(env, next)
    ensures var l := DecomposeUnary(fs, next, show).value;
      Denote(l.result, Replay(l.steps, env)) == UnaryMeaning(fs, show)
    decreases fs, 2
  {
    var a := DecomposeAt(fs, "argument", next, show).value;
    AtMeans(fs, "argument", next, show, env);
    var op := Emit.TextOf(Own(fs, "operator")).value;
    ReplayThen(a.steps, [], a.next, Un(op, AsAtom(a.result)), env);
    assert Replay([], Replay(a.steps, env)) == Replay(a.steps, env);
  }

  lemma MemberMeans(fs: seq<Member>, next: nat, show: Printer, env: Env)
    requires DecomposeMember(fs, next, show).Ok? && Below(env, next)
    ensures var l := DecomposeMember(fs, next, show).value;
      Denote(l.result, Replay(l.steps, env)) == MemberMeaning(fs, show)
    decreases fs, 3
  {
    AtMeans(fs, "base", next, show, env);
    match IndexerOf(fs)
    case ColonIndexer =>
    case DotIndexer => DotMeans(fs, next, show, env);
    case OtherIndexer => IndexMeans(fs, next, show, env);
  }

  lemma DotMeans(fs: seq<Member>, next: nat, show: Printer, env: Env)
    requires IndexerOf(fs) == DotIndexer
    requires DecomposeMember(fs, next, show).Ok? && Below(env, next)
    requires DecomposeAt(fs, "base", next, show).Ok?
    requires var b := DecomposeAt(fs, "base", next, show).value;
      Denote(b.result, Replay(b.steps, env)) == MeaningAt(fs, "base", show)
    ensures var l := DecomposeMember(fs, next, show).value;
      Denote(l.result, Replay(l.steps, env)) == MemberMeaning(fs, show)
  {
    var b := DecomposeAt(fs, "base", next, show).value;
    var p := b.next;
    var name := FieldName(fs).value;
    var q := [Assign(p, Quote(name))];
    WritesOne(Assign(p, Quote(name)));
    OperandSurvives(b, next, q, env, MeaningAt(fs, "base", show));
    assert q[1..] == [];
    ReplayThen(b.steps, q, p + 1, At(AsAtom(b.result), Temp(p)), env);
  }

  lemma IndexMeans(fs: seq<Member>, next: nat, show: Printer, env: Env)
    requires IndexerOf(fs) == OtherIndexer
    requires DecomposeMember(fs, next, show).Ok? && Below(env, next)
    requires DecomposeAt(fs, "base", next, show).Ok?
    requires var b := DecomposeAt(fs, "base", next, show).value;
      Denote(b.result, Replay(b.steps, env)) == MeaningAt(fs, "base", show)
    ensures var l := DecomposeMember(fs, next, show).value;
      Denote(l.result, Replay(l.steps, env)) == MemberMeaning(fs, show)
    decreases fs, 2
  {
    var b := DecomposeAt(fs, "base", next, show).value;
    var e1 := Replay(b.steps, env);
    ReplayFresh(b, next, env);
    var i := DecomposeAt(fs, "identifier", b.next, show).value;
    AtMeans(fs, "identifier", b.next, show, e1);
    OperandSurvives(b, next, i.steps, env, MeaningAt(fs, "base", show));
    ReplayThen(b.steps, i.steps, i.next, At(AsAtom(b.result), AsAtom(i.result)), env);
  }

  lemma CallMeans(fs: seq<Member>, next: nat, show: Printer, env: Env)
    requires DecomposeCall(fs, next, show).Ok? && Below(env, next)
    ensures var l := DecomposeCall(fs, next, show).value;
      Denote(l.result, Replay(l.steps, env)) == CallMeaning(fs, show)
    decreases fs, 2
  {
    var b := DecomposeAt(fs, "base", next, show).value;
    var args := DecomposeArgs(fs, b.next, show).value;
    AtMeans(fs, "base", next, show, env);
    var e1 := Replay(b.steps, env);
    ReplayFresh(b, next, env);
    ArgsMeans(fs, b.next, show, e1);
    var e2 := Replay(args.steps, e1);
    ReplayFrame(args.steps, e1);
    var rhs := CallRhs(b.result, args.atoms);
    match b.result {
      case ColonRef(o, m) =>
        if o.Temp? { assert o.k !in Writes(args.steps); }
      case Plain(f) =>
        if f.Temp? { assert f.k !in Writes(args.steps); }
    }
    ReplayThen(b.steps, args.steps, args.next, rhs, env);
  }

  // ---------------------------------------------------------------------------
  // Leaves

  /** What `decompose` returns at once: a falsy node, an identifier, `...` or
      a literal. */
  predicate IsLeaf(v: Value)
  {
    !Truthy(Defined(v)) || (v.Obj? && ExprKindOf(v.fields) in {IdentifierKind, VarargKind, LiteralKind})
  }

  /** A leaf emits no line, draws no temporary and returns its own text
      (`nil`, the identifier's name, `...`, the literal as printed); every
      other node emits at least one line or returns a temporary or the
      colon marker. */
  lemma LeafLowering(v: Value, next: nat, show: Printer)
    ensures var r := Decompose(v, next, show);
      r.Ok? ==> (IsLeaf(v) <==> r.value.steps == [] && r.value.result.Plain? && r.value.result.atom.Lit?)
    ensures var r := Decompose(v, next, show);
      IsLeaf(v) && r.Ok? ==> r.value.next == next
    ensures !Truthy(Defined(v)) ==> Decompose(v, next, show) == Ok(Lowering([], Plain(Lit("nil")), next))
    ensures v.Obj? && ExprKindOf(v.fields) == IdentifierKind && Own(v.fields, "name").Defined? && Own(v.fields, "name").value.Str?
            ==> Decompose(v, next, show) == Ok(Lowering([], Plain(Lit(Own(v.fields, "name").value.s)), next))
    ensures v.Obj? && ExprKindOf(v.fields) == VarargKind ==> Decompose(v, next, show) == Ok(Lowering([], Plain(Lit("...")), next))
    ensures v.Obj? && ExprKindOf(v.fields) == LiteralKind && show(v).Ok?
            ==> Decompose(v, next, show) == Ok(Lowering([], Plain(Lit(Text.Trim(show(v).value))), next))
  {
    if Truthy(Defined(v)) && v.Obj? {
      var fs := v.fields;
      match ExprKindOf(fs) {
        case BinaryKind => assert DecomposeNode(fs, next, show) == DecomposeBinary(fs, next, show);
        case LogicalKind => assert DecomposeNode(fs, next, show) == DecomposeLogical(fs, next, show);
        case UnaryKind => assert DecomposeNode(fs, next, show) == DecomposeUnary(fs, next, show);
        case MemberKind => assert DecomposeNode(fs, next, show) == DecomposeMember(fs, next, show);
        case CallKind => assert DecomposeNode(fs, next, show) == DecomposeCall(fs, next, show);
        case _ =>
      }
    }
  }
}
