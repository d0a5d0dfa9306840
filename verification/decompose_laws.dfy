/** Properties of the statement lowering beyond indentation: what a generic
    `for` over a call iterates, and how a multiple assignment stores. */
module DecomposeLaws {
  import opened Wrappers
  import opened Json
  import Text
  import opened Lowering
  import opened DecomposePass

  // ---------------------------------------------------------------------------
  // Generic `for` over a call

  /** A call node, lowered as an iterator, has the call's own base and
      arguments. */
  lemma IteratorIsCall(v: Value, next: nat, show: Printer, fixed: bool)
    requires v.Obj? && ExprKindOf(v.fields) == CallKind && Truthy(Own(v.fields, "base"))
    requires Iterator(v, next, show, fixed).Ok?
    ensures var fs := v.fields;
      var b := DecomposeAt(fs, "base", next, show);
      b.Ok? && DecomposeArgs(fs, b.value.next, show).Ok? &&
      var args := DecomposeArgs(fs, b.value.next, show).value;
      var it := Iterator(v, next, show, fixed).value;
      it.steps == b.value.steps + args.steps &&
      it.call == (if fixed then CallRhs(b.value.result, args.atoms) else Apply(AsAtom(b.value.result), args.atoms))
  {
    assert Kind(v.fields) == Defined(Str("CallExpression"));
  }

  /** Corrected: the iterator's lines, replayed, leave the header's call
      expression denoting exactly the call the source wrote, a method call
      with its receiver included. */
  lemma IteratorMeans(v: Value, next: nat, show: Printer, env: Env)
    requires v.Obj? && ExprKindOf(v.fields) == CallKind && Truthy(Own(v.fields, "base"))
    requires Iterator(v, next, show, true).Ok? && Below(env, next)
    ensures var it := Iterator(v, next, show, true).value;
      Val(Eval(it.call, Replay(it.steps, env))) == Meaning(v, show)
  {
    var fs := v.fields;
    IteratorIsCall(v, next, show, true);
    var b := DecomposeAt(fs, "base", next, show).value;
    var args := DecomposeArgs(fs, b.next, show).value;
    var rhs := CallRhs(b.result, args.atoms);
    assert DecomposeCall(fs, next, show).Ok?;
    CallMeans(fs, next, show, env);
    ReplayThen(b.steps, args.steps, args.next, rhs, env);
    ReplayAppend(b.steps, args.steps, env);
    assert Meaning(v, show) == CallMeaning(fs, show);
  }

  /** As written: when the iterator is a method call `obj:m(…)`, the header
      calls the colon marker's text, `[object Object](…)`, so the expression
      iterated is not the call the source wrote. */
  lemma IteratorAsWrittenLosesReceiver(v: Value, next: nat, show: Printer, env: Env)
    requires v.Obj? && ExprKindOf(v.fields) == CallKind && Truthy(Own(v.fields, "base"))
    requires MeaningAt(v.fields, "base", show).Method?
    requires Iterator(v, next, show, false).Ok? && Below(env, next)
    ensures var it := Iterator(v, next, show, false).value;
      it.call.Apply? && it.call.f == Lit("[object Object]")
      && Val(Eval(it.call, Replay(it.steps, env))) != Meaning(v, show)
  {
    var fs := v.fields;
    IteratorIsCall(v, next, show, false);
    var b := DecomposeAt(fs, "base", next, show).value;
    AtMeans(fs, "base", next, show, env);
    assert b.result.ColonRef?;
    assert Meaning(v, show) == CallMeaning(fs, show);
  }

  // ---------------------------------------------------------------------------
  // Multiple assignment

  /** The leading values are lowered first, from the first expression on. */
  lemma OperandsPre(fs: seq<Member>, next: nat, show: Printer)
    requires OperandsOf(fs, next, show).Ok?
    ensures Own(fs, "init").Defined? && Own(fs, "init").value.Arr?
    ensures var init := Own(fs, "init").value.items;
      DecomposeItems(init, 0, if |init| == 0 then 0 else |init| - 1, next, show) == Ok(OperandsOf(fs, next, show).value.pre)
  {
    match Own(fs, "init") {
      case Defined(Arr(init)) =>
    }
  }

  /** Nothing lowered after the leading values writes a temporary they use. */
  lemma OperandsTail(fs: seq<Member>, next: nat, show: Printer)
    requires OperandsOf(fs, next, show).Ok?
    ensures var o := OperandsOf(fs, next, show).value;
      Between(Writes(TailSteps(o.tail)), o.pre.next, OperandsEnd(o))
  {
    var o := OperandsOf(fs, next, show).value;
    match o.tail {
      case CallTail(b, args, _) =>
        WritesAppend(b.steps, args.steps);
      case ValueTail(_) =>
    }
  }

  /** The values an assignment computes before its last expression keep what
      they denote through everything lowered after them, so the stores read
      the values the source wrote. */
  lemma LeadingValuesMean(fs: seq<Member>, next: nat, show: Printer, env: Env)
    requires Own(fs, "init").Defined? && Own(fs, "init").value.Arr? && |Own(fs, "init").value.items| > 0
    requires OperandsOf(fs, next, show).Ok? && Below(env, next)
    ensures var init := Own(fs, "init").value.items;
      var o := OperandsOf(fs, next, show).value;
      LoadAll(o.pre.atoms, Replay(OperandSteps(o), env)) == MeaningItems(init, 0, |init| - 1, show)
  {
    var init := Own(fs, "init").value.items;
    var o := OperandsOf(fs, next, show).value;
    OperandsPre(fs, next, show);
    OperandsTail(fs, next, show);
    ItemsMeans(init, 0, |init| - 1, next, show, env);
    Survive(o.pre, TailSteps(o.tail), env, MeaningItems(init, 0, |init| - 1, show));
  }

  lemma Survive(pre: Lowerings, later: seq<Step>, env: Env, meaning: seq<Sym>)
    requires forall j :: 0 <= j < |pre.atoms| ==> Within(pre.atoms[j], 0, pre.next)
    requires forall k :: k in Writes(later) ==> pre.next <= k
    requires LoadAll(pre.atoms, Replay(pre.steps, env)) == meaning
    ensures LoadAll(pre.atoms, Replay(pre.steps + later, env)) == meaning
  {
    ReplayAppend(pre.steps, later, env);
    LoadsKept(pre.atoms, pre.next, later, Replay(pre.steps, env));
  }

  /** Steps writing only temporaries from `bound` on leave every atom below
      it reading what it read. */
  lemma LoadsKept(atoms: seq<Atom>, bound: nat, later: seq<Step>, env: Env)
    requires forall j :: 0 <= j < |atoms| ==> Within(atoms[j], 0, bound)
    requires forall k :: k in Writes(later) ==> bound <= k
    ensures LoadAll(atoms, Replay(later, env)) == LoadAll(atoms, env)
  {
    ReplayFrame(later, env);
    var e2 := Replay(later, env);
    forall j | 0 <= j < |atoms|
      ensures Load(atoms[j], e2) == Load(atoms[j], env)
    {
      if atoms[j].Temp? {
        assert atoms[j].k !in Writes(later);
      }
    }
  }

  lemma {:induction false} MeaningItemsLast(items: seq<Value>, i: nat, hi: nat, show: Printer)
    requires i < hi <= |items|
    ensures MeaningItems(items, i, hi, show) == MeaningItems(items, i, hi - 1, show) + [Operand(Meaning(items[hi - 1], show))]
    decreases hi - i
  {
    if i < hi - 1 {
      MeaningItemsLast(items, i + 1, hi, show);
    }
  }

  /** When the last expression is not a call, the values the corrected
      statement stores are, in order, every expression the source wrote. */
  lemma ValuesMean(fs: seq<Member>, next: nat, show: Printer, env: Env)
    requires Own(fs, "init").Defined? && Own(fs, "init").value.Arr? && |Own(fs, "init").value.items| > 0
    requires !EndsInCall(Own(fs, "init").value.items)
    requires OperandsOf(fs, next, show).Ok? && Below(env, next)
    ensures var init := Own(fs, "init").value.items;
      var o := OperandsOf(fs, next, show).value;
      o.tail.ValueTail? &&
      LoadAll(o.pre.atoms + [AsAtom(o.tail.last.result)], Replay(OperandSteps(o), env)) == MeaningItems(init, 0, |init|, show)
  {
    var init := Own(fs, "init").value.items;
    var n := |init|;
    var o := OperandsOf(fs, next, show).value;
    var pre := o.pre;
    var last := o.tail.last;
    assert last == Decompose(init[n - 1], pre.next, show).value;
    LeadingValuesMean(fs, next, show, env);
    ReplayFreshList(pre, next, env);
    var e1 := Replay(pre.steps, env);
    DecomposeMeans(init[n - 1], pre.next, show, e1);
    OperandSurvives(last, pre.next, [], e1, Meaning(init[n - 1], show));
    ReplayAppend(pre.steps, last.steps, env);
    var e2 := Replay(OperandSteps(o), env);
    assert Load(AsAtom(last.result), e2) == Operand(Meaning(init[n - 1], show));
    MeaningItemsLast(init, 0, n, show);
  }

  /** A name the printer leaves alone: not empty, no space at either end. */
  predicate PlainName(s: string)
  {
    s != [] && !Text.IsSpace(s[0]) && !Text.IsSpace(s[|s| - 1])
  }

  /** `x, y = y, x`. */
  function SwapNode(x: string, y: string): (r: Value)
    ensures r.Obj? && StatementKindOf(r.fields) == AssignKind
  {
    Obj([Member("type", Str("AssignmentStatement")),
         Member("variables", Arr([Emit.NameNode(x), Emit.NameNode(y)])),
         Member("init", Arr([Emit.NameNode(y), Emit.NameNode(x)]))])
  }

  lemma NameLowering(x: string, next: nat, show: Printer)
    ensures Decompose(Emit.NameNode(x), next, show) == Ok(Lowering([], Plain(Lit(x)), next))
  {
    var fs := Emit.NameNode(x).fields;
    assert Own(fs, "type") == Defined(Str("Identifier"));
    assert Own(fs, "name") == Defined(Str(x));
    LeafLowering(Emit.NameNode(x), next, show);
  }

  lemma SwapFields(x: string, y: string)
    ensures var fs := SwapNode(x, y).fields;
      Own(fs, "variables") == Defined(Arr([Emit.NameNode(x), Emit.NameNode(y)]))
      && Own(fs, "init") == Defined(Arr([Emit.NameNode(y), Emit.NameNode(x)]))
  {
    var fs := SwapNode(x, y).fields;
    assert fs[0].key == "type" && fs[1].key == "variables" && fs[2].key == "init";
    OwnOfDistinct(fs, 1);
    OwnOfDistinct(fs, 2);
  }

  lemma SwapOperands(x: string, y: string, next: nat, show: Printer)
    ensures OperandsOf(SwapNode(x, y).fields, next, show)
      == Ok(SwapLowered(x, y, next))
  {
    var fs := SwapNode(x, y).fields;
    var init := [Emit.NameNode(y), Emit.NameNode(x)];
    SwapFields(x, y);
    NameLowering(x, next, show);
    NameLowering(y, next, show);
    assert Own(init[1].fields, "type") == Defined(Str("Identifier"));
    assert !EndsInCall(init);
    assert DecomposeItems(init, 1, 1, next, show) == Ok(Lowerings([], [], next));
    assert Decompose(init[0], next, show) == Ok(Lowering([], Plain(Lit(y)), next));
    var none: seq<Step> := [];
    assert none + none == none;
    assert [Lit(y)] + [] == [Lit(y)];
    assert DecomposeItems(init, 0, 1, next, show) == Ok(Lowerings([], [Lit(y)], next));
    assert none + none == none;
  }

  lemma ShowPair(a: Value, b: Value, sa: string, sb: string, show: Printer)
    requires show(a) == Ok(sa) && show(b) == Ok(sb)
    ensures ShowEach([a, b], 0, show) == Ok([Text.Trim(sa), Text.Trim(sb)])
  {
    ShowLast([a, b], sb, show);
    assert [Text.Trim(sa)] + [Text.Trim(sb)] == [Text.Trim(sa), Text.Trim(sb)];
  }

  lemma ShowLast(items: seq<Value>, sb: string, show: Printer)
    requires |items| == 2 && show(items[1]) == Ok(sb)
    ensures ShowEach(items, 1, show) == Ok([Text.Trim(sb)])
  {
    assert ShowEach(items, 2, show) == Ok([]);
    assert [Text.Trim(sb)] + [] == [Text.Trim(sb)];
  }

  lemma SwapTargets(x: string, y: string, show: Printer)
    requires PlainName(x) && PlainName(y)
    requires show(Emit.NameNode(x)) == Ok(x) && show(Emit.NameNode(y)) == Ok(y)
    ensures TargetNames(SwapNode(x, y).fields, show) == Ok([x, y])
  {
    var items := [Emit.NameNode(x), Emit.NameNode(y)];
    SwapFields(x, y);
    Text.TrimOfTrimmed(x);
    Text.TrimOfTrimmed(y);
    ShowPair(items[0], items[1], x, y, show);
    assert items == [items[0], items[1]];
  }

  /** What the lowered swap evaluates: nothing, the names as they are. */
  function SwapLowered(x: string, y: string, next: nat): Operands
  {
    Operands(Lowerings([], [Lit(y)], next), ValueTail(Lowering([], Plain(Lit(x)), next)))
  }

  lemma EmitPair(depth: nat, a: string, b: string)
    requires PlainName(a) && PlainName(b)
    ensures EmitAll(depth, [a, b]) == [Spacing(depth) + a, Spacing(depth) + b]
  {
    Text.TrimOfTrimmed(a);
    Text.TrimOfTrimmed(b);
    assert [a, b][1..] == [b];
    assert EmitAll(depth, [b]) == [Spacing(depth) + b] + EmitAll(depth, []);
  }

  lemma SwapInTurn(x: string, y: string, depth: nat, next: nat, temps: nat -> string)
    requires PlainName(x) && PlainName(y)
    ensures StoredInTurn(SwapLowered(x, y, next), [x, y], false, depth, temps)
      == [Spacing(depth) + (x + " = " + y), Spacing(depth) + (y + " = " + x)]
  {
    var pre := Lowerings([], [Lit(y)], next);
    var last := Lowering([], Plain(Lit(x)), next);
    assert StoredInTurn(SwapLowered(x, y, next), [x, y], false, depth, temps)
      == EachStoredInTurn(pre, last, [x, y], "", depth, temps);
    SwapStores(x, y, pre, last, depth, temps);
  }

  lemma SwapStores(x: string, y: string, pre: Lowerings, last: Lowering, depth: nat, temps: nat -> string)
    requires PlainName(x) && PlainName(y)
    requires pre == Lowerings([], [Lit(y)], pre.next) && last == Lowering([], Plain(Lit(x)), last.next)
    ensures EachStoredInTurn(pre, last, [x, y], "", depth, temps)
      == [Spacing(depth) + (x + " = " + y), Spacing(depth) + (y + " = " + x)]
  {
    var a := x + " = " + y;
    var b := y + " = " + x;
    var values := Texts([Lit(y)], temps);
    assert values == [y];
    var all := values + [Shown(last.result, temps)];
    assert all == [y, x];
    var stores := seq(2, i requires 0 <= i < 2 => "" + [x, y][i] + " = " + ValueOrNil(all, i));
    assert stores[0] == a && stores[1] == b;
    assert stores == [a, b];
    EmitPair(depth, a, b);
    var none: seq<string> := [];
    assert Render([], depth, temps) == none;
    assert none + none + [Spacing(depth) + a, Spacing(depth) + b] == [Spacing(depth) + a, Spacing(depth) + b];
  }

  lemma SwapOnce(x: string, y: string, depth: nat, next: nat, temps: nat -> string)
    requires PlainName(x) && PlainName(y)
    ensures StoredOnce(SwapLowered(x, y, next), [x, y], false, depth, temps)
      == [Spacing(depth) + (x + ", " + y + " = " + y + ", " + x)]
  {
    var line := x + ", " + y + " = " + y + ", " + x;
    Text.TrimOfTrimmed(line);
    var o := SwapLowered(x, y, next);
    assert OperandSteps(o) == [];
    assert Text.Join([x, y], ", ") == x + ", " + y;
    assert Text.Join([y, x], ", ") == y + ", " + x;
    assert Texts([Lit(y)], temps) == [y];
    assert [y] + [x] == [y, x];
    var values := StoredValues(o, [x, y], temps);
    assert values[0] == y && values[1] == x;
    assert values == [y, x];
    assert MultipleAssignment(false, [x, y], [y, x]) == line;
    var none: seq<string> := [];
    assert Render([], depth, temps) == none;
    assert Emitted(depth, line) == [Spacing(depth) + line];
    assert none + [Spacing(depth) + line] == [Spacing(depth) + line];
  }

  /** As written: `x, y = y, x` becomes `x = y` followed by `y = x`, so the
      second store reads the value the first just wrote and both names end
      up holding `y`. */
  lemma SwapAsWritten(x: string, y: string, depth: nat, next: nat, temps: nat -> string, show: Printer)
    requires PlainName(x) && PlainName(y)
    requires show(Emit.NameNode(x)) == Ok(x) && show(Emit.NameNode(y)) == Ok(y)
    ensures AssignmentLines(SwapNode(x, y).fields, false, depth, next, temps, show, false)
      == Ok(Emission([Spacing(depth) + (x + " = " + y), Spacing(depth) + (y + " = " + x)], next))
  {
    SwapTargets(x, y, show);
    SwapOperands(x, y, next, show);
    SwapInTurn(x, y, depth, next, temps);
  }

  /** Corrected: every value is read before anything is stored, in one
      statement `x, y = y, x`. */
  lemma SwapCorrected(x: string, y: string, depth: nat, next: nat, temps: nat -> string, show: Printer)
    requires PlainName(x) && PlainName(y)
    requires show(Emit.NameNode(x)) == Ok(x) && show(Emit.NameNode(y)) == Ok(y)
    ensures AssignmentLines(SwapNode(x, y).fields, false, depth, next, temps, show, true)
      == Ok(Emission([Spacing(depth) + (x + ", " + y + " = " + y + ", " + x)], next))
  {
    SwapTargets(x, y, show);
    SwapOperands(x, y, next, show);
    SwapOnce(x, y, depth, next, temps);
  }

  // ---------------------------------------------------------------------------
  // While loops

  lemma {:induction false} RenderAppend(a: seq<Step>, b: seq<Step>, depth: nat, temps: nat -> string)
    ensures Render(a + b, depth, temps) == Render(a, depth, temps) + Render(b, depth, temps)
    decreases |a|
  {
    if a != [] {
      assert (a + b)[0] == a[0];
      assert (a + b)[1..] == a[1..] + b;
      RenderAppend(a[1..], b, depth, temps);
    } else {
      assert a + b == b;
    }
  }

  /** Storing the condition's fresh value back into the temporary the loop
      tests, as a step. */
  function StoreBack(k: nat, re: Lowering): Step
  {
    Assign(k, Copy(AsAtom(re.result)))
  }

  /** At the end of a loop body whose condition was computed into a
      temporary, the lines are the condition lowered afresh followed by a
      store of its value back into that temporary. */
  lemma RetestLines(k: nat, re: Lowering, depth: nat, temps: nat -> string)
    requires temps(k) != "true" && temps(k) != "false" && temps(k) != "nil"
    ensures Retested(Plain(Temp(k)), re, depth, temps) == Render(re.steps + [StoreBack(k, re)], depth, temps)
  {
    RenderAppend(re.steps, [StoreBack(k, re)], depth, temps);
    assert [StoreBack(k, re)][1..] == [];
  }

  /** Those lines leave the tested temporary holding the condition's
      current value, so the next test reads it. */
  lemma WhileRetests(fs: seq<Member>, k: nat, n: nat, show: Printer, env: Env)
    requires DecomposeAt(fs, "condition", n, show).Ok? && Below(env, n)
    ensures var re := DecomposeAt(fs, "condition", n, show).value;
      Load(Temp(k), Replay(re.steps + [StoreBack(k, re)], env)) == Operand(MeaningAt(fs, "condition", show))
  {
    var re := DecomposeAt(fs, "condition", n, show).value;
    AtMeans(fs, "condition", n, show, env);
    OperandSurvives(re, n, [], env, MeaningAt(fs, "condition", show));
    ReplayAppend(re.steps, [StoreBack(k, re)], env);
  }
}
