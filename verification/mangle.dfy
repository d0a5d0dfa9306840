/** `MangleNumbers.js` and `MangleBools.js`: a sample of the numeric and boolean
    literals found by `Utils.FindAllInstances` gets a new `raw` text, an
    arithmetic chain or an integer comparison that evaluates to the literal's
    value. Only `raw` fields are written; `value` and everything else stays. */
module Mangle {
  import opened Wrappers
  import opened Json
  import TreeIndex
  import Utils
  import Arith
  import Text

  // ---------------------------------------------------------------------------
  // MangleBools.GenerateExpression

  /** The six Lua comparison operators the configuration table uses. */
  datatype Rel = Ne | Eq | Gt | Le | Ge | Lt

  function RelText(r: Rel): string
  {
    match r
    case Ne => "~="
    case Eq => "=="
    case Gt => ">"
    case Le => "<="
    case Ge => ">="
    case Lt => "<"
  }

  function ParseRel(s: string): Option<Rel>
  {
    if s == "~=" then Some(Ne)
    else if s == "==" then Some(Eq)
    else if s == ">" then Some(Gt)
    else if s == "<=" then Some(Le)
    else if s == ">=" then Some(Ge)
    else if s == "<" then Some(Lt)
    else None
  }

  /** What the Lua operator yields on two integers. */
  function Holds(r: Rel, a: int, b: int): bool
  {
    match r
    case Ne => a != b
    case Eq => a == b
    case Gt => a > b
    case Le => a <= b
    case Ge => a >= b
    case Lt => a < b
  }

  /** The operator with the opposite outcome on every pair of integers. */
  function Negate(r: Rel): (n: Rel)
    ensures forall a: int, b: int :: Holds(n, a, b) == !Holds(r, a, b)
  {
    match r
    case Ne => Eq
    case Eq => Ne
    case Gt => Le
    case Le => Gt
    case Ge => Lt
    case Lt => Ge
  }

  /** `Config`: for each mode, the operator used for a true value and the one used for a false value. */
  const Config: seq<(Rel, Rel)> := [(Ne, Eq), (Gt, Le), (Ge, Lt), (Lt, Ge), (Le, Gt)]

  /** `Config[Mode]`: the false operator is always the negation of the true one. */
  function Operators(mode: nat): (ops: (Rel, Rel))
    requires mode < |Config|
    ensures ops.1 == Negate(ops.0)
  {
    Config[mode]
  }

  /** The draws of one `GenerateExpression` call: `Mode`, `Left` and the distance to `Right`. */
  datatype ComparisonDraw = ComparisonDraw(mode: nat, left: nat, delta: nat)

  /** `(Left Operator Right)`. */
  datatype Comparison = Comparison(left: int, rel: Rel, right: int)

  /** `GenerateExpression(Value)`: a comparison whose outcome is `Value`, with
      `Left` in [-9e9, 9e9] and `Right` 1 to 9e5 away from it. */
  function GenerateExpression(value: bool, d: ComparisonDraw): (c: Comparison)
    ensures Holds(c.rel, c.left, c.right) == value
    ensures -9_000_000_000 <= c.left <= 9_000_000_000
    ensures 1 <= Arith.Abs(c.right - c.left) <= 900_000
  {
    var mode := Utils.Random(0, 4, d.mode);
    var left := Utils.Random(-9_000_000_000, 9_000_000_000, d.left);
    var ops := Operators(mode);
    var rel := if value then ops.0 else ops.1;
    var delta := Utils.Random(1, 900_000, d.delta);
    var right := if mode == 1 || mode == 2 then left - delta else left + delta;
    Comparison(left, rel, right)
  }

  /** The template string `(${Left} ${Operator} ${Right})`. */
  function RenderComparison(c: Comparison): string
  {
    "(" + Text.IntToString(c.left) + " " + RelText(c.rel) + " " + Text.IntToString(c.right) + ")"
  }

  /** What Lua makes of a text `(a op b)` with decimal integers `a`, `b`, or
      `None` when the text is not of that form. */
  function EvalComparison(s: string): Option<bool>
  {
    if |s| >= 2 && s[0] == '(' && s[|s| - 1] == ')' then
      var parts := Text.Split(s[1..|s| - 1], ' ');
      if |parts| == 3 && Text.IsNumeral(parts[0]) && Text.IsNumeral(parts[2]) && ParseRel(parts[1]).Some? then
        Some(Holds(ParseRel(parts[1]).value, Text.ParseInt(parts[0]), Text.ParseInt(parts[2])))
      else None
    else None
  }

  lemma NumeralHasNoSpace(s: string)
    requires Text.IsNumeral(s)
    ensures ' ' !in s
  {
    forall i | 0 <= i < |s| ensures s[i] != ' ' {
      if s[0] == '-' && i > 0 {
        assert s[1..][i - 1] == s[i];
      }
    }
  }

  lemma ParseRelText(r: Rel)
    ensures ParseRel(RelText(r)) == Some(r)
  {
  }

  /** Three space-free pieces joined by single spaces split back into those pieces. */
  lemma SplitThree(a: string, o: string, b: string)
    requires ' ' !in a && ' ' !in o && ' ' !in b
    ensures Text.Split(a + [' '] + o + [' '] + b, ' ') == [a, o, b]
  {
    assert a + [' '] + o + [' '] + b == a + [' '] + (o + [' '] + b);
    Text.SplitAt(a, o + [' '] + b, ' ');
    Text.SplitAt(o, b, ' ');
    Text.SplitFree(b, ' ');
  }

  lemma EvalComparisonOf(a: string, o: string, b: string)
    requires Text.IsNumeral(a) && Text.IsNumeral(b) && ParseRel(o).Some? && ' ' !in o
    ensures EvalComparison("(" + a + [' '] + o + [' '] + b + ")")
         == Some(Holds(ParseRel(o).value, Text.ParseInt(a), Text.ParseInt(b)))
  {
    var inner := a + [' '] + o + [' '] + b;
    var s := "(" + inner + ")";
    assert s == "(" + a + [' '] + o + [' '] + b + ")";
    assert s[1..|s| - 1] == inner;
    assert |s| >= 2 && s[0] == '(' && s[|s| - 1] == ')';
    NumeralHasNoSpace(a);
    NumeralHasNoSpace(b);
    SplitThree(a, o, b);
  }

  /** The rendered comparison reads back with the outcome it was built for. */
  lemma ComparisonRoundTrip(c: Comparison)
    ensures EvalComparison(RenderComparison(c)) == Some(Holds(c.rel, c.left, c.right))
  {
    var a := Text.IntToString(c.left);
    var o := RelText(c.rel);
    var b := Text.IntToString(c.right);
    assert RenderComparison(c) == "(" + a + [' '] + o + [' '] + b + ")";
    ParseRelText(c.rel);
    assert ' ' !in o;
    EvalComparisonOf(a, o, b);
    Text.IntToStringRoundTrip(c.left);
    Text.IntToStringRoundTrip(c.right);
  }

  // ---------------------------------------------------------------------------
  // The new `raw` texts

  /** `"(" + text + ")"` where `text` is an arithmetic chain worth `n`. */
  predicate NumberText(s: string, n: int)
  {
    |s| >= 2 && s[0] == '(' && s[|s| - 1] == ')' && Arith.EvalText(s[1..|s| - 1]) == Some(n)
  }

  /** `"(" + text + ")"` where `text` is a comparison whose outcome is `b`. */
  predicate BoolText(s: string, b: bool)
  {
    |s| >= 2 && s[0] == '(' && s[|s| - 1] == ')' && EvalComparison(s[1..|s| - 1]) == Some(b)
  }

  /** JavaScript truthiness of the `value` read (`Value ? … : …`). */
  function Truthy(r: Reading): bool
  {
    match r
    case Found(Bool(b)) => b
    case Found(Num(n)) => n != 0
    case Found(Str(s)) => s != []
    case Found(Arr(_)) => true
    case Found(Obj(_)) => true
    case _ => false
  }

  /** The draws of one `Number2Equation` call: the first value and the loop. */
  datatype EquationDraw = EquationDraw(u: nat, steps: nat -> Arith.StepDraw)

  /** The two passes differ only in the literal kind they find and the text they write. */
  datatype Pass = Numbers(equations: nat -> EquationDraw) | Bools(comparisons: nat -> ComparisonDraw)

  function Target(pass: Pass): string
  {
    if pass.Numbers? then "NumericLiteral" else "BooleanLiteral"
  }

  /** The default `Percentage` of each pass. */
  const NumbersPercentage: nat := 75
  const BoolsPercentage: nat := 80

  /** The literal values a pass can rewrite: the numeric pass needs an integer. */
  predicate Accepts(pass: Pass, value: Reading)
  {
    pass.Numbers? ==> value.Found? && value.value.Num?
  }

  /** A `raw` text that is right for the literal's value. */
  predicate Fits(pass: Pass, raw: string, value: Reading)
  {
    match pass
    case Numbers(_) => value.Found? && value.value.Num? && NumberText(raw, value.value.n)
    case Bools(_) => BoolText(raw, Truthy(value))
  }

  /** `if (eval(Mangled) !== Value) throw …`. */
  function CheckMangled(mangled: string, n: int): (r: Result<string>)
    ensures r.Ok? <==> Arith.EvalText(mangled) == Some(n)
    ensures r.Ok? ==> r.value == mangled
  {
    if Arith.EvalText(mangled) != Some(n) then
      Err("Math Mangle Failed: " + mangled + " does not equal " + Text.IntToString(n))
    else Ok(mangled)
  }

  /** `"(" + Mangled + ")"` once the check has passed. */
  function Parenthesize(r: Result<string>): (p: Result<string>)
    ensures p.Ok? <==> r.Ok?
    ensures p.Ok? ==> p.value == "(" + r.value + ")"
  {
    match r
    case Ok(m) => Ok("(" + m + ")")
    case Err(e) => Err(e)
  }

  /** The text the pass writes into `raw` of the `i`-th sampled literal. */
  function RawText(pass: Pass, value: Reading, i: nat): (r: Result<string>)
    ensures r.Ok? <==> Accepts(pass, value)
    ensures r.Ok? ==> Fits(pass, r.value, value)
  {
    match pass
    case Numbers(eq) =>
      if value.Found? && value.value.Num? then
        var n := value.value.n;
        var r := Parenthesize(CheckMangled(Arith.Number2Equation(n, 2, eq(i).u, eq(i).steps), n));
        assert r.Ok? ==> r.value[1..|r.value| - 1] == Arith.Number2Equation(n, 2, eq(i).u, eq(i).steps);
        r
      else Err("Math Mangle Failed: the literal's value is not an integer")
    case Bools(cmp) =>
      var c := GenerateExpression(Truthy(value), cmp(i));
      ComparisonRoundTrip(c);
      var raw := "(" + RenderComparison(c) + ")";
      assert raw[1..|raw| - 1] == RenderComparison(c);
      Ok(raw)
  }

  // ---------------------------------------------------------------------------
  // The rewriting loop

  function RawPath(q: Path): Path
  {
    q + [Name("raw")]
  }

  function ValuePath(q: Path): Path
  {
    q + [Name("value")]
  }

  /** `q` parts ways with every `raw` field still to be written from position `i` on. */
  predicate Avoids(paths: seq<Path>, i: nat, q: Path)
  {
    forall k :: i <= k < |paths| ==> Diverge(RawPath(TreeIndex.DropLast(paths[k])), q)
  }

  /** The loop over the sample from position `i`: walk to the literal, read
      its `value`, write the new `raw`. Every path that parts ways with all
      the `raw` fields written reads as before. */
  function RewriteRaws(t: Value, pass: Pass, paths: seq<Path>, i: nat): (r: Result<Value>)
    ensures r.Ok? ==> forall q :: Avoids(paths, i, q) ==> GetKey(r.value, q) == GetKey(t, q)
    decreases |paths| - i
  {
    if i >= |paths| then Ok(t)
    else
      var q := TreeIndex.DropLast(paths[i]);
      match GetKey(t, q)
      case Found(node) =>
        if node.Null? then Err("TypeError: Cannot read properties of null (reading 'value')")
        else
          var raw :- RawText(pass, AsReading(Get(node, Name("value"))), i);
          var t' :- Put(t, RawPath(q), Str(raw));
          PutFrameAll(t, RawPath(q), Str(raw));
          RewriteRaws(t', pass, paths, i + 1)
      case Missing => Err("TypeError: Cannot read properties of undefined (reading 'value')")
      case Thrown => Err("TypeError: Cannot read properties of undefined")
  }

  predicate Node(t: Value, q: Path)
  {
    GetKey(t, q).Found? && GetKey(t, q).value.Obj?
  }

  /** What the loop needs of a literal in the original tree `t0`. */
  predicate Ready(t0: Value, pass: Pass, q: Path)
  {
    Leaf(GetKey(t0, ValuePath(q))) && Accepts(pass, GetKey(t0, ValuePath(q)))
  }

  /** The literal at `q` is still an object with its original `value` and a
      leaf `raw`, which fits the value once the literal has been `done`. */
  predicate Kept(t0: Value, t: Value, pass: Pass, q: Path, done: bool)
  {
    Node(t, q) && GetKey(t, ValuePath(q)) == GetKey(t0, ValuePath(q)) && Leaf(GetKey(t, RawPath(q)))
    && (done ==> GetKey(t, RawPath(q)).Found? && GetKey(t, RawPath(q)).value.Str?
                 && Fits(pass, GetKey(t, RawPath(q)).value.s, GetKey(t0, ValuePath(q))))
  }

  lemma SameParents(a: Path, b: Path)
    requires SameNames(RawPath(a), RawPath(b))
    ensures SameNames(ValuePath(a), ValuePath(b))
  {
    forall i | 0 <= i < |ValuePath(a)| ensures PropName(ValuePath(a)[i]) == PropName(ValuePath(b)[i]) {
      if i < |a| {
        assert ValuePath(a)[i] == RawPath(a)[i] && ValuePath(b)[i] == RawPath(b)[i];
      }
    }
  }

  lemma LastNamesDiffer(p: Path, v: Path)
    requires p != [] && v != [] && PropName(p[|p| - 1]) != PropName(v[|v| - 1])
    ensures !SameNames(p, v)
  {
    if |p| == |v| {
      assert PropName(p[|p| - 1]) != PropName(v[|p| - 1]);
    }
  }

  lemma ValueAfterWrite(t: Value, q0: Path, x: Value, q: Path)
    requires Node(t, q0) && Leaf(GetKey(t, RawPath(q0))) && Put(t, RawPath(q0), x).Ok?
    requires Node(t, q) && Leaf(GetKey(t, ValuePath(q)))
    ensures GetKey(Put(t, RawPath(q0), x).value, ValuePath(q)) == GetKey(t, ValuePath(q))
  {
    var p := RawPath(q0);
    var v := ValuePath(q);
    assert p[..|p| - 1] == q0;
    assert v[..|v| - 1] == q;
    LastNamesDiffer(p, v);
    KeepLeaf(t, p, x, v);
  }

  lemma RawAfterWrite(t0: Value, t: Value, pass: Pass, q0: Path, raw: string, q: Path, done: bool)
    requires Node(t, q0) && Leaf(GetKey(t, RawPath(q0)))
    requires Fits(pass, raw, GetKey(t0, ValuePath(q0)))
    requires Put(t, RawPath(q0), Str(raw)).Ok?
    requires GetKey(Put(t, RawPath(q0), Str(raw)).value, RawPath(q0)) == Found(Str(raw))
    requires Kept(t0, t, pass, q, done)
    ensures var w := GetKey(Put(t, RawPath(q0), Str(raw)).value, RawPath(q));
      Leaf(w) && ((done || SameNames(RawPath(q0), RawPath(q))) ==>
        w.Found? && w.value.Str? && Fits(pass, w.value.s, GetKey(t0, ValuePath(q))))
  {
    var p := RawPath(q0);
    var w := RawPath(q);
    assert w[..|w| - 1] == q;
    assert p[..|p| - 1] == q0;
    if SameNames(p, w) {
      SameNamesRead(Put(t, p, Str(raw)).value, p, w);
      SameParents(q0, q);
      SameNamesRead(t0, ValuePath(q0), ValuePath(q));
    } else {
      KeepLeaf(t, p, Str(raw), w);
    }
  }

  /** Writing one `raw` keeps every literal as `Kept` describes it. */
  lemma KeptAfterWrite(t0: Value, t: Value, pass: Pass, q0: Path, raw: string, q: Path, done: bool)
    requires Node(t, q0) && Leaf(GetKey(t, RawPath(q0)))
    requires Fits(pass, raw, GetKey(t0, ValuePath(q0)))
    requires Put(t, RawPath(q0), Str(raw)).Ok?
    requires GetKey(Put(t, RawPath(q0), Str(raw)).value, RawPath(q0)) == Found(Str(raw))
    requires Kept(t0, t, pass, q, done) && Ready(t0, pass, q)
    ensures Kept(t0, Put(t, RawPath(q0), Str(raw)).value, pass, q, done || SameNames(RawPath(q0), RawPath(q)))
  {
    var p := RawPath(q0);
    assert p[..|p| - 1] == q0;
    KeepObject(t, p, Str(raw), q);
    ValueAfterWrite(t, q0, Str(raw), q);
    RawAfterWrite(t0, t, pass, q0, raw, q, done);
  }

  /** One iteration of the loop moves the boundary of `Kept` by one. */
  lemma KeptAfterStep(t0: Value, t: Value, pass: Pass, ps: seq<Path>, i: nat, raw: string)
    requires i < |ps|
    requires forall k :: 0 <= k < |ps| ==> Ready(t0, pass, TreeIndex.DropLast(ps[k]))
    requires forall k :: 0 <= k < |ps| ==> Kept(t0, t, pass, TreeIndex.DropLast(ps[k]), k < i)
    requires Fits(pass, raw, GetKey(t0, ValuePath(TreeIndex.DropLast(ps[i]))))
    requires Put(t, RawPath(TreeIndex.DropLast(ps[i])), Str(raw)).Ok?
    requires GetKey(Put(t, RawPath(TreeIndex.DropLast(ps[i])), Str(raw)).value, RawPath(TreeIndex.DropLast(ps[i]))) == Found(Str(raw))
    ensures forall k :: 0 <= k < |ps| ==>
      Kept(t0, Put(t, RawPath(TreeIndex.DropLast(ps[i])), Str(raw)).value, pass, TreeIndex.DropLast(ps[k]), k < i + 1)
  {
    var q0 := TreeIndex.DropLast(ps[i]);
    var t' := Put(t, RawPath(q0), Str(raw)).value;
    forall k | 0 <= k < |ps| ensures Kept(t0, t', pass, TreeIndex.DropLast(ps[k]), k < i + 1) {
      var q := TreeIndex.DropLast(ps[k]);
      KeptAfterWrite(t0, t, pass, q0, raw, q, k < i);
      if k == i {
        assert SameNames(RawPath(q0), RawPath(q));
      }
    }
  }

  /** From position `i` on, the loop never throws, and it leaves every sampled
      literal an object with its original `value` and a fitting `raw`. */
  /** One iteration on a literal that is still as `Kept` describes it: the
      value read is the original one, and the write lands. */
  lemma RewriteRawsStep(t0: Value, t: Value, pass: Pass, ps: seq<Path>, i: nat) returns (raw: string)
    requires i < |ps|
    requires Ready(t0, pass, TreeIndex.DropLast(ps[i]))
    requires Kept(t0, t, pass, TreeIndex.DropLast(ps[i]), false)
    ensures Fits(pass, raw, GetKey(t0, ValuePath(TreeIndex.DropLast(ps[i]))))
    ensures Put(t, RawPath(TreeIndex.DropLast(ps[i])), Str(raw)).Ok?
    ensures GetKey(Put(t, RawPath(TreeIndex.DropLast(ps[i])), Str(raw)).value, RawPath(TreeIndex.DropLast(ps[i]))) == Found(Str(raw))
    ensures RewriteRaws(t, pass, ps, i) == RewriteRaws(Put(t, RawPath(TreeIndex.DropLast(ps[i])), Str(raw)).value, pass, ps, i + 1)
  {
    var q0 := TreeIndex.DropLast(ps[i]);
    var node := GetKey(t, q0).value;
    FieldRead(t, q0, "value");
    var value := AsReading(Get(node, Name("value")));
    assert value == GetKey(t0, ValuePath(q0));
    raw := RawText(pass, value, i).value;
    var p := RawPath(q0);
    assert p[..|p| - 1] == q0;
    PutThenGet(t, p, Str(raw));
    UnfoldRewriteRaws(t, pass, ps, i, node, raw);
  }

  lemma UnfoldRewriteRaws(t: Value, pass: Pass, ps: seq<Path>, i: nat, node: Value, raw: string)
    requires i < |ps|
    requires GetKey(t, TreeIndex.DropLast(ps[i])) == Found(node) && !node.Null?
    requires RawText(pass, AsReading(Get(node, Name("value"))), i) == Ok(raw)
    requires Put(t, RawPath(TreeIndex.DropLast(ps[i])), Str(raw)).Ok?
    ensures RewriteRaws(t, pass, ps, i) == RewriteRaws(Put(t, RawPath(TreeIndex.DropLast(ps[i])), Str(raw)).value, pass, ps, i + 1)
  {
  }

  lemma {:induction false} RewriteRawsSucceeds(t0: Value, t: Value, pass: Pass, ps: seq<Path>, i: nat)
    requires i <= |ps|
    requires forall k :: 0 <= k < |ps| ==> Ready(t0, pass, TreeIndex.DropLast(ps[k]))
    requires forall k :: 0 <= k < |ps| ==> Kept(t0, t, pass, TreeIndex.DropLast(ps[k]), k < i)
    ensures RewriteRaws(t, pass, ps, i).Ok?
    ensures forall k :: 0 <= k < |ps| ==> Kept(t0, RewriteRaws(t, pass, ps, i).value, pass, TreeIndex.DropLast(ps[k]), true)
    decreases |ps| - i
  {
    if i < |ps| {
      var q0 := TreeIndex.DropLast(ps[i]);
      assert Kept(t0, t, pass, q0, false);
      var raw := RewriteRawsStep(t0, t, pass, ps, i);
      var t' := Put(t, RawPath(q0), Str(raw)).value;
      KeptAfterStep(t0, t, pass, ps, i, raw);
      RewriteRawsSucceeds(t0, t', pass, ps, i + 1);
    }
  }

  // ---------------------------------------------------------------------------
  // The passes

  /** `FindAllInstances(AST, "type", target)` cut down by `GetRandomSample(…, pct)`:
      every sampled path is a found one, and there are ceil(len·pct/100) of them. */
  function Sampled(t: Value, target: string, pct: nat, pick: nat -> nat): (ps: seq<Path>)
    ensures forall k :: 0 <= k < |ps| ==> ps[k] in TreeIndex.FindAllInstances(t, "type", target)
    ensures pct <= 100 ==> |ps| == Utils.SampleSize(|TreeIndex.FindAllInstances(t, "type", target)|, pct)
  {
    var found := TreeIndex.FindAllInstances(t, "type", target);
    var ps := Utils.GetRandomSample(found, pct, pick);
    SampleMembers(found, ps, pct, pick);
    ps
  }

  lemma SampleMembers<T>(list: seq<T>, ps: seq<T>, pct: nat, pick: nat -> nat)
    requires ps == Utils.GetRandomSample(list, pct, pick)
    ensures forall k :: 0 <= k < |ps| ==> ps[k] in list
    ensures pct <= 100 ==> |ps| == Utils.SampleSize(|list|, pct)
  {
    if pct <= 100 {
      Utils.SampleSizeAtMost(|list|, pct);
    }
    Utils.SampleIsSubMultiset(list, pct, pick);
    forall k | 0 <= k < |ps| ensures ps[k] in list {
      assert ps[k] in multiset(ps);
    }
  }

  /** An object at `q` whose `type` is `target`. */
  predicate LiteralAt(t: Value, q: Path, target: string)
  {
    Node(t, q) && Own(GetKey(t, q).value.fields, "type") == Defined(Str(target))
  }

  /** Every literal of the pass's kind has a leaf `raw` and a `value` the pass accepts. */
  ghost predicate Mangleable(t: Value, pass: Pass)
  {
    forall q :: LiteralAt(t, q, Target(pass)) ==> Leaf(GetKey(t, RawPath(q))) && Ready(t, pass, q)
  }

  /** The rewrite of either pass before the tree is printed and re-parsed. */
  function MangleLiterals(t: Value, pass: Pass, pct: nat, pick: nat -> nat): Result<Value>
  {
    RewriteRaws(t, pass, Sampled(t, Target(pass), pct, pick), 0)
  }

  /** `MangleNumbers(AST, Percentage)` up to the printing and re-parsing. */
  function MangleNumbers(t: Value, pct: nat, pick: nat -> nat, eq: nat -> EquationDraw): (r: Result<Value>)
    ensures WellFormed(t) && Mangleable(t, Numbers(eq)) ==> r.Ok?
    ensures r.Ok? ==> forall q :: Avoids(Sampled(t, "NumericLiteral", pct, pick), 0, q) ==> GetKey(r.value, q) == GetKey(t, q)
  {
    MangleLiteralsOk(t, Numbers(eq), pct, pick);
    MangleLiterals(t, Numbers(eq), pct, pick)
  }

  /** `MangleBools(AST, Percentage)` up to the printing and re-parsing. */
  function MangleBools(t: Value, pct: nat, pick: nat -> nat, cmp: nat -> ComparisonDraw): (r: Result<Value>)
    ensures WellFormed(t) && Mangleable(t, Bools(cmp)) ==> r.Ok?
    ensures r.Ok? ==> forall q :: Avoids(Sampled(t, "BooleanLiteral", pct, pick), 0, q) ==> GetKey(r.value, q) == GetKey(t, q)
  {
    MangleLiteralsOk(t, Bools(cmp), pct, pick);
    MangleLiterals(t, Bools(cmp), pct, pick)
  }

  /** On a well-formed tree whose literals are as the parser makes them, the
      pass never throws, and every sampled literal keeps its `value` and gets a
      `raw` text that evaluates to it. */
  lemma MangleLiteralsSpec(t: Value, pass: Pass, pct: nat, pick: nat -> nat)
    requires WellFormed(t) && Mangleable(t, pass)
    ensures var ps := Sampled(t, Target(pass), pct, pick);
      MangleLiterals(t, pass, pct, pick).Ok?
      && forall k :: 0 <= k < |ps| ==> Kept(t, MangleLiterals(t, pass, pct, pick).value, pass, TreeIndex.DropLast(ps[k]), true)
  {
    var ps := Sampled(t, Target(pass), pct, pick);
    TreeIndex.FindAllInstancesSpec(t, "type", Target(pass));
    forall k | 0 <= k < |ps|
      ensures Ready(t, pass, TreeIndex.DropLast(ps[k])) && Kept(t, t, pass, TreeIndex.DropLast(ps[k]), k < 0)
    {
      FoundLiteralReady(t, pass, ps[k]);
    }
    RewriteRawsSucceeds(t, t, pass, ps, 0);
  }

  /** The no-throw half of `MangleLiteralsSpec`, for any tree. */
  lemma MangleLiteralsOk(t: Value, pass: Pass, pct: nat, pick: nat -> nat)
    ensures WellFormed(t) && Mangleable(t, pass) ==> MangleLiterals(t, pass, pct, pick).Ok?
  {
    if WellFormed(t) && Mangleable(t, pass) {
      MangleLiteralsSpec(t, pass, pct, pick);
    }
  }

  /** A found literal of a mangleable tree is ready for the loop. */
  lemma FoundLiteralReady(t: Value, pass: Pass, p: Path)
    requires Mangleable(t, pass)
    requires TreeIndex.MatchAt(t, p, "type", Target(pass))
    ensures Ready(t, pass, TreeIndex.DropLast(p)) && Kept(t, t, pass, TreeIndex.DropLast(p), false)
  {
    TreeIndex.MatchOwner(t, p, "type", Target(pass));
    assert LiteralAt(t, TreeIndex.DropLast(p), Target(pass));
  }

  /** `MangleNumbers`: no "Math Mangle Failed" is ever thrown for integer
      literals, and each sampled literal's `raw` is a chain equal to its `value`. */
  lemma MangleNumbersSucceeds(t: Value, pct: nat, pick: nat -> nat, eq: nat -> EquationDraw)
    requires WellFormed(t) && Mangleable(t, Numbers(eq))
    ensures MangleNumbers(t, pct, pick, eq).Ok?
    ensures var ps := Sampled(t, "NumericLiteral", pct, pick);
      forall k :: 0 <= k < |ps| ==>
        var q := TreeIndex.DropLast(ps[k]);
        var r := MangleNumbers(t, pct, pick, eq).value;
        GetKey(r, ValuePath(q)) == GetKey(t, ValuePath(q)) && GetKey(t, ValuePath(q)).Found?
        && GetKey(t, ValuePath(q)).value.Num? && GetKey(r, RawPath(q)).Found? && GetKey(r, RawPath(q)).value.Str?
        && NumberText(GetKey(r, RawPath(q)).value.s, GetKey(t, ValuePath(q)).value.n)
  {
    MangleLiteralsSpec(t, Numbers(eq), pct, pick);
  }

  /** `MangleBools`: each sampled literal's `raw` is a comparison whose outcome is its `value`. */
  lemma MangleBoolsSucceeds(t: Value, pct: nat, pick: nat -> nat, cmp: nat -> ComparisonDraw)
    requires WellFormed(t) && Mangleable(t, Bools(cmp))
    ensures MangleBools(t, pct, pick, cmp).Ok?
    ensures var ps := Sampled(t, "BooleanLiteral", pct, pick);
      forall k :: 0 <= k < |ps| ==>
        var q := TreeIndex.DropLast(ps[k]);
        var r := MangleBools(t, pct, pick, cmp).value;
        GetKey(r, ValuePath(q)) == GetKey(t, ValuePath(q)) && GetKey(r, RawPath(q)).Found? && GetKey(r, RawPath(q)).value.Str?
        && BoolText(GetKey(r, RawPath(q)).value.s, Truthy(GetKey(t, ValuePath(q))))
  {
    MangleLiteralsSpec(t, Bools(cmp), pct, pick);
  }
}
