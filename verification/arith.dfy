/** `Math.js`: hexadecimal rendering and `Number2Equation`, which hides an integer
    behind a fully parenthesised chain of random additions, subtractions and
    multiplications closed by a final offset. The text the chain is rendered to
    is read back by `ParseExpr`, an evaluator of exactly the emitted grammar,
    which stands in for the `eval` the source calls on it. */
module Arith {
  import opened Wrappers
  import Utils

  // ---------------------------------------------------------------------------
  // ToHex

  predicate IsHexDigit(c: char)
  {
    ('0' <= c <= '9') || ('A' <= c <= 'F')
  }

  function HexDigit(d: nat): (c: char)
    requires d < 16
    ensures IsHexDigit(c)
  {
    if d < 10 then ('0' as int + d) as char else ('A' as int + d - 10) as char
  }

  function HexDigitValue(c: char): (d: nat)
    requires IsHexDigit(c)
    ensures d < 16 && HexDigit(d) == c
  {
    if c <= '9' then (c as int) - ('0' as int) else (c as int) - ('A' as int) + 10
  }

  /** `n.toString(16).toUpperCase()`: digits with no leading zero. */
  function HexString(n: nat): (s: string)
    ensures |s| >= 1 && forall i :: 0 <= i < |s| ==> IsHexDigit(s[i])
    ensures s[0] == '0' ==> n == 0 && s == "0"
  {
    if n < 16 then [HexDigit(n)] else HexString(n / 16) + [HexDigit(n % 16)]
  }

  predicate AllHex(s: string)
  {
    forall i :: 0 <= i < |s| ==> IsHexDigit(s[i])
  }

  function HexValue(s: string): nat
    requires AllHex(s)
  {
    if s == [] then 0 else HexValue(s[..|s| - 1]) * 16 + HexDigitValue(s[|s| - 1])
  }

  lemma {:induction false} HexValueOfString(n: nat)
    ensures HexValue(HexString(n)) == n
  {
    var s := HexString(n);
    if n >= 16 {
      assert s[..|s| - 1] == HexString(n / 16);
      HexValueOfString(n / 16);
      assert HexDigitValue(s[|s| - 1]) == n % 16;
    } else {
      assert s == [HexDigit(n)];
    }
  }

  /** `ToHex(Value)`: "0x" and the upper-case hexadecimal digits of `|v|`, with a
      leading "-" exactly when `v` is negative. */
  function ToHex(v: int): string
  {
    if v < 0 then "-" + "0x" + HexString(-v) else "0x" + HexString(v)
  }

  /** JavaScript's `Math.trunc`: the integer part, rounded toward zero. */
  function Trunc(x: real): int
  {
    if x >= 0.0 then x.Floor else -((-x).Floor)
  }

  /** `Floor(num)`: the integer part for non-negative values; for negative ones
      the integer part itself when `num` is whole, and one below it otherwise.
      The result is the greatest integer not above `num`. */
  function Floor(x: real): (r: int)
    ensures r as real <= x < r as real + 1.0
  {
    if x >= 0.0 then Trunc(x)
    else if Trunc(x) as real == x then Trunc(x)
    else Trunc(x) - 1
  }

  /** The case split agrees with Dafny's own floor of a real. */
  lemma FloorIsFloor(x: real)
    ensures Floor(x) == x.Floor
  {
  }

  // ---------------------------------------------------------------------------
  // The emitted expression

  datatype Op = Add | Sub | Mul

  function OpChar(op: Op): char
  {
    match op
    case Add => '+'
    case Sub => '-'
    case Mul => '*'
  }

  /** A left-nested chain: a literal, or `(chain op operand)` with a
      non-negative literal operand. */
  datatype Expr = Lit(v: int) | Bin(left: Expr, op: Op, right: nat)

  function Render(e: Expr): string
  {
    match e
    case Lit(v) => ToHex(v)
    case Bin(l, op, r) => "(" + Render(l) + [OpChar(op)] + ToHex(r) + ")"
  }

  function Apply(op: Op, a: int, b: int): int
  {
    match op
    case Add => a + b
    case Sub => a - b
    case Mul => a * b
  }

  function Eval(e: Expr): int
  {
    match e
    case Lit(v) => v
    case Bin(l, op, r) => Apply(op, Eval(l), r)
  }

  // ---------------------------------------------------------------------------
  // Reading the text back

  /** The hexadecimal digits from `i` on, read left to right into `acc`: the
      value and the position of the first character that is not a digit. */
  function ReadHex(s: string, i: nat, acc: nat): (r: (nat, nat))
    requires i <= |s|
    ensures i <= r.1 <= |s|
    decreases |s| - i
  {
    if i < |s| && IsHexDigit(s[i]) then ReadHex(s, i + 1, acc * 16 + HexDigitValue(s[i])) else (acc, i)
  }

  /** `0x` and at least one digit at `i`: the value and the position after it. */
  function ParseUnsigned(s: string, i: nat): (r: Option<(nat, nat)>)
    requires i <= |s|
    ensures r.Some? ==> i < r.value.1 <= |s|
  {
    if i + 2 <= |s| && s[i] == '0' && s[i + 1] == 'x' then
      var r := ReadHex(s, i + 2, 0);
      if r.1 == i + 2 then None else Some(r)
    else None
  }

  function ParseSigned(s: string, i: nat): (r: Option<(int, nat)>)
    requires i <= |s|
    ensures r.Some? ==> i < r.value.1 <= |s|
  {
    var negative := i < |s| && s[i] == '-';
    match ParseUnsigned(s, if negative then i + 1 else i)
    case Some((v, j)) => Some((if negative then 0 - v as int else v as int, j))
    case None => None
  }

  function ParseOp(c: char): Option<Op>
  {
    if c == '+' then Some(Add) else if c == '-' then Some(Sub) else if c == '*' then Some(Mul) else None
  }

  /** The grammar `E ::= "(" E op "0x" hex+ ")" | ["-"] "0x" hex+` from position `i`. */
  function ParseExpr(s: string, i: nat): (r: Option<(Expr, nat)>)
    requires i <= |s|
    ensures r.Some? ==> i < r.value.1 <= |s|
    decreases |s| - i
  {
    if i < |s| && s[i] == '(' then
      match ParseExpr(s, i + 1)
      case None => None
      case Some((l, j)) =>
        if j < |s| && ParseOp(s[j]).Some? then
          match ParseUnsigned(s, j + 1)
          case None => None
          case Some((v, k)) =>
            if k < |s| && s[k] == ')' then Some((Bin(l, ParseOp(s[j]).value, v), k + 1)) else None
        else None
    else
      match ParseSigned(s, i)
      case Some((v, j)) => Some((Lit(v), j))
      case None => None
  }

  /** What `eval` yields for a text of the emitted grammar, or `None` when the
      text is not one. */
  function EvalText(s: string): Option<int>
  {
    match ParseExpr(s, 0)
    case Some((e, n)) => if n == |s| then Some(Eval(e)) else None
    case None => None
  }

  /** Digits read left to right into `acc`. */
  function Accumulate(acc: nat, d: string): nat
    requires AllHex(d)
    decreases |d|
  {
    if d == [] then acc else Accumulate(acc * 16 + HexDigitValue(d[0]), d[1..])
  }

  lemma {:induction false} AccumulateSnoc(acc: nat, d: string, c: char)
    requires AllHex(d) && IsHexDigit(c)
    ensures AllHex(d + [c]) && Accumulate(acc, d + [c]) == Accumulate(acc, d) * 16 + HexDigitValue(c)
    decreases |d|
  {
    if d != [] {
      assert (d + [c])[1..] == d[1..] + [c];
      AccumulateSnoc(acc * 16 + HexDigitValue(d[0]), d[1..], c);
    }
  }

  /** Reading left to right agrees with `HexValue`, which reads right to left. */
  lemma {:induction false} AccumulateValue(d: string)
    requires AllHex(d)
    ensures Accumulate(0, d) == HexValue(d)
    decreases |d|
  {
    if d != [] {
      var init := d[..|d| - 1];
      AccumulateValue(init);
      AccumulateSnoc(0, init, d[|d| - 1]);
      assert init + [d[|d| - 1]] == d;
    }
  }

  // ---------------------------------------------------------------------------
  // Texts held inside a longer text

  /** `s` holds `t` from position `i` on. */
  predicate At(s: string, i: nat, t: string)
    decreases |t|
  {
    i + |t| <= |s| && (t == [] || (s[i] == t[0] && At(s, i + 1, t[1..])))
  }

  /** Position `n` does not continue a hexadecimal numeral. */
  predicate Ends(s: string, n: nat)
  {
    n >= |s| || !IsHexDigit(s[n])
  }

  lemma {:induction false} AtAppend(s: string, i: nat, a: string, b: string)
    requires At(s, i, a + b)
    ensures At(s, i, a) && At(s, i + |a|, b)
    decreases |a|
  {
    if a != [] {
      assert (a + b)[0] == a[0] && (a + b)[1..] == a[1..] + b;
      AtAppend(s, i + 1, a[1..], b);
    } else {
      assert a + b == b;
    }
  }

  lemma {:induction false} AtSuffix(s: string, i: nat)
    requires i <= |s|
    ensures At(s, i, s[i..])
    decreases |s| - i
  {
    if i < |s| {
      assert s[i..][1..] == s[i + 1..];
      AtSuffix(s, i + 1);
    }
  }

  lemma {:induction false} ReadHexOf(s: string, i: nat, d: string, acc: nat)
    requires At(s, i, d) && AllHex(d) && Ends(s, i + |d|)
    ensures i + |d| <= |s| && ReadHex(s, i, acc) == (Accumulate(acc, d), i + |d|)
    decreases |d|
  {
    if d != [] {
      ReadHexOf(s, i + 1, d[1..], acc * 16 + HexDigitValue(d[0]));
    }
  }

  lemma ParseUnsignedOf(s: string, i: nat, v: nat)
    requires At(s, i, ToHex(v)) && Ends(s, i + |ToHex(v)|)
    ensures ParseUnsigned(s, i) == Some((v, i + |ToHex(v)|))
  {
    var d := HexString(v);
    assert ToHex(v) == "0x" + d;
    UnsignedDigits(s, i, d);
    HexValueOfString(v);
  }

  /** `0x` and a run of digits that nothing continues reads as their value. */
  lemma UnsignedDigits(s: string, i: nat, d: string)
    requires AllHex(d) && d != [] && At(s, i, "0x" + d) && Ends(s, i + 2 + |d|)
    ensures ParseUnsigned(s, i) == Some((HexValue(d), i + 2 + |d|))
  {
    AtAppend(s, i, "0x", d);
    assert s[i] == '0' && s[i + 1] == 'x' by {
      assert "0x"[1..] == "x";
    }
    ReadHexOf(s, i + 2, d, 0);
    AccumulateValue(d);
  }

  lemma ParseSignedOf(s: string, i: nat, v: int)
    requires At(s, i, ToHex(v)) && Ends(s, i + |ToHex(v)|)
    ensures ParseSigned(s, i) == Some((v, i + |ToHex(v)|))
  {
    if v < 0 {
      SignedNegativeOf(s, i, v);
    } else {
      SignedNonNegativeOf(s, i, v);
    }
  }

  lemma SignedNegativeOf(s: string, i: nat, v: int)
    requires v < 0 && At(s, i, ToHex(v)) && Ends(s, i + |ToHex(v)|)
    ensures ParseSigned(s, i) == Some((v, i + |ToHex(v)|))
  {
    var w: nat := -v;
    var n := i + |ToHex(v)|;
    assert s[i] == '-' && ParseUnsigned(s, i + 1) == Some((w, n)) by {
      NegativeParts(s, i, w, ToHex(v));
    }
    ParseNegative(s, i, w, n);
  }

  lemma NegativeParts(s: string, i: nat, w: nat, t: string)
    requires t == ToHex(0 - w) && w > 0 && At(s, i, t) && Ends(s, i + |t|)
    ensures s[i] == '-' && ParseUnsigned(s, i + 1) == Some((w, i + |t|))
  {
    ToHexNegative(0 - w);
    var h := ToHex(w);
    assert t[0] == '-' && t[1..] == h;
    ParseUnsignedOf(s, i + 1, w);
  }

  lemma SignedNonNegativeOf(s: string, i: nat, w: nat)
    requires At(s, i, ToHex(w)) && Ends(s, i + |ToHex(w)|)
    ensures ParseSigned(s, i) == Some((w as int, i + |ToHex(w)|))
  {
    assert s[i] == ToHex(w)[0] == '0';
    ParseUnsignedOf(s, i, w);
    ParseNonNegative(s, i, w, i + |ToHex(w)|);
  }

  lemma ToHexNegative(v: int)
    requires v < 0
    ensures ToHex(v) == "-" + ToHex(-v)
  {
    assert "-" + "0x" + HexString(-v) == "-" + ("0x" + HexString(-v));
  }

  lemma ParseNegative(s: string, i: nat, w: nat, k: nat)
    requires i < |s| && s[i] == '-' && ParseUnsigned(s, i + 1) == Some((w, k))
    ensures ParseSigned(s, i) == Some((0 - w, k))
  {
  }

  lemma ParseNonNegative(s: string, i: nat, w: nat, k: nat)
    requires i < |s| && s[i] != '-' && ParseUnsigned(s, i) == Some((w, k))
    ensures ParseSigned(s, i) == Some((w as int, k))
  {
  }

  /** Every rendering ends with a hexadecimal digit or `)`. */
  lemma RenderEnds(e: Expr)
    ensures |Render(e)| >= 3
    ensures var t := Render(e); IsHexDigit(t[|t| - 1]) || t[|t| - 1] == ')'
  {
    match e
    case Lit(v) =>
      var d := if v < 0 then HexString(-v) else HexString(v);
      assert Render(e)[|Render(e)| - 1] == d[|d| - 1];
    case Bin(l, op, r) =>
  }

  /** The evaluator reads a rendering back as the tree it came from, whatever
      follows it, as long as that does not continue a hexadecimal numeral. */
  lemma {:induction false} ParseRender(e: Expr, s: string, i: nat)
    requires At(s, i, Render(e)) && Ends(s, i + |Render(e)|)
    ensures ParseExpr(s, i) == Some((e, i + |Render(e)|))
    decreases e, 1
  {
    if e.Lit? {
      ParseRenderLit(e, s, i);
    } else {
      ParseRenderBin(e, s, i);
    }
  }

  lemma ParseRenderLit(e: Expr, s: string, i: nat)
    requires e.Lit? && At(s, i, Render(e)) && Ends(s, i + |Render(e)|)
    ensures ParseExpr(s, i) == Some((e, i + |Render(e)|))
  {
    assert Render(e) == ToHex(e.v);
    ParseLit(s, i, e.v);
  }

  lemma {:induction false} ParseRenderBin(e: Expr, s: string, i: nat)
    requires e.Bin? && At(s, i, Render(e))
    ensures ParseExpr(s, i) == Some((e, i + |Render(e)|))
    decreases e, 0
  {
    var l, op, r := e.left, e.op, e.right;
    assert e == Bin(l, op, r);
    var j := i + 1 + |Render(l)|;
    var k := j + 1 + |ToHex(r)|;
    RenderBinParts(s, i, l, op, r);
    assert ParseExpr(s, i + 1) == Some((l, j)) by {
      ParseRender(l, s, i + 1);
    }
    assert ParseUnsigned(s, j + 1) == Some((r, k)) by {
      ParseUnsignedOf(s, j + 1, r);
    }
    ParseOpen(s, i, l, op, r, j, k, i + |Render(e)|);
  }

  lemma ParseLit(s: string, i: nat, v: int)
    requires At(s, i, ToHex(v)) && Ends(s, i + |ToHex(v)|)
    ensures ParseExpr(s, i) == Some((Lit(v), i + |ToHex(v)|))
  {
    ParseSignedOf(s, i, v);
    assert s[i] == ToHex(v)[0];
  }

  /** Where the parts of `(l op r)` sit in a text that holds it at `i`. */
  lemma RenderBinParts(s: string, i: nat, l: Expr, op: Op, r: nat)
    requires At(s, i, Render(Bin(l, op, r)))
    ensures |Render(Bin(l, op, r))| == |Render(l)| + |ToHex(r)| + 3
    ensures s[i] == '(' && At(s, i + 1, Render(l))
    ensures i + 1 + |Render(l)| < |s| && s[i + 1 + |Render(l)|] == OpChar(op) && Ends(s, i + 1 + |Render(l)|)
    ensures At(s, i + 2 + |Render(l)|, ToHex(r))
    ensures i + 2 + |Render(l)| + |ToHex(r)| < |s| && s[i + 2 + |Render(l)| + |ToHex(r)|] == ')'
    ensures Ends(s, i + 2 + |Render(l)| + |ToHex(r)|)
  {
    RenderBinShape(l, op, r);
    BracketParts(s, i, Render(Bin(l, op, r)), Render(l), OpChar(op), ToHex(r));
  }

  lemma RenderBinShape(l: Expr, op: Op, r: nat)
    ensures Render(Bin(l, op, r)) == "(" + Render(l) + [OpChar(op)] + ToHex(r) + ")"
    ensures !IsHexDigit(OpChar(op))
  {
  }

  /** The pieces of `t == "(" + a + [c] + b + ")"` held in `s` at `i`. */
  lemma BracketParts(s: string, i: nat, t: string, a: string, c: char, b: string)
    requires t == "(" + a + [c] + b + ")" && !IsHexDigit(c) && At(s, i, t)
    ensures |t| == |a| + |b| + 3
    ensures s[i] == '(' && At(s, i + 1, a)
    ensures i + 1 + |a| < |s| && s[i + 1 + |a|] == c && Ends(s, i + 1 + |a|)
    ensures At(s, i + 2 + |a|, b)
    ensures i + 2 + |a| + |b| < |s| && s[i + 2 + |a| + |b|] == ')' && Ends(s, i + 2 + |a| + |b|)
  {
    AtAppend(s, i, "(" + a + [c] + b, ")");
    AtAppend(s, i, "(" + a + [c], b);
    AtAppend(s, i, "(" + a, [c]);
    AtAppend(s, i, "(", a);
  }

  /** `(`, a chain ending at `j`, an operator, and an operand ending at `k`
      before `)` parse as one bracketed step ending at `n`. */
  lemma ParseOpen(s: string, i: nat, l: Expr, op: Op, r: nat, j: nat, k: nat, n: nat)
    requires i < |s| && s[i] == '(' && ParseExpr(s, i + 1) == Some((l, j))
    requires j < |s| && s[j] == OpChar(op)
    requires ParseUnsigned(s, j + 1) == Some((r, k))
    requires k < |s| && s[k] == ')' && n == k + 1
    ensures ParseExpr(s, i) == Some((Bin(l, op, r), n))
  {
    assert ParseOp(s[j]) == Some(op);
  }

  /** The text of a tree evaluates to the tree's value. */
  lemma EvalTextRender(e: Expr)
    ensures EvalText(Render(e)) == Some(Eval(e))
  {
    var s := Render(e);
    AtSuffix(s, 0);
    assert s[0..] == s;
    ParseRender(e, s, 0);
  }

  // ---------------------------------------------------------------------------
  // Number2Equation

  /** The draws of one loop iteration of `Number2Equation`: the operation index,
      the multiplier, and the operand of an addition or subtraction. */
  datatype StepDraw = StepDraw(op: nat, mul: nat, add: nat)

  const MulLimit := 100_000_000_000_000

  function Abs(x: int): nat
  {
    if x < 0 then -x else x
  }

  /** One loop iteration: `(op, operand)` for running value `running`. A product
      above 1e14 in magnitude turns the multiplication into an addition whose
      operand is drawn afresh. */
  function Step(running: int, d: StepDraw): (r: (Op, nat))
    ensures r.1 >= 1
    ensures r.0 == Mul ==> r.1 <= 1000 && Abs(running * r.1) <= MulLimit
    ensures r.0 != Mul ==> r.1 <= 1_000_000
  {
    var op := [Add, Sub, Mul][Utils.Random(0, 2, d.op)];
    if op == Mul && Abs(running * Utils.Random(1, 1000, d.mul)) <= MulLimit then
      (Mul, Utils.Random(1, 1000, d.mul) as nat)
    else
      (if op == Mul then Add else op, Utils.Random(1, 1_000_000, d.add) as nat)
  }

  /** The chain after `k` loop iterations, with `RunningValue`. */
  function Chain(first: int, k: nat, steps: nat -> StepDraw): (r: (Expr, int))
    ensures Eval(r.0) == r.1
  {
    if k == 0 then (Lit(first), first)
    else
      var (prev, running) := Chain(first, k - 1, steps);
      var (op, operand) := Step(running, steps(k - 1));
      (Bin(prev, op, operand), Apply(op, running, operand))
  }

  /** The number of loop iterations for `Length`. */
  function Iterations(length: int): nat
  {
    if length <= 1 then 0 else length - 1
  }

  /** The tree `Number2Equation(target, length)` renders, for first-value draw
      `u` and loop draws `steps`. */
  function Equation(target: int, length: int, u: nat, steps: nat -> StepDraw): Expr
  {
    var first := Utils.Random(-1_000_000, 1_000_000, u);
    var (chain, running) := Chain(first, Iterations(length), steps);
    var offset := target - running;
    Bin(chain, if offset >= 0 then Add else Sub, Abs(offset))
  }

  /** `Number2Equation(TargetNumber, Length)`. */
  function Number2Equation(target: int, length: int, u: nat, steps: nat -> StepDraw): (s: string)
    ensures EvalText(s) == Some(target)
  {
    var e := Equation(target, length, u, steps);
    EvalTextRender(e);
    EquationValue(target, length, u, steps);
    Render(e)
  }

  /** `RunningValue` plus the closing offset is the target. */
  lemma EquationValue(target: int, length: int, u: nat, steps: nat -> StepDraw)
    ensures Eval(Equation(target, length, u, steps)) == target
  {
    var first := Utils.Random(-1_000_000, 1_000_000, u);
    var (chain, running) := Chain(first, Iterations(length), steps);
    assert Eval(chain) == running;
  }

  /** `Math.abs` of every running value stays below 1e14 plus 1e6 per iteration,
      so for any realistic length every intermediate is an exact double. */
  lemma {:induction false} ChainBounded(first: int, k: nat, steps: nat -> StepDraw)
    requires Abs(first) <= 1_000_000
    ensures Abs(Chain(first, k, steps).1) <= MulLimit + 1_000_000 * (k + 1)
  {
    if k > 0 {
      ChainBounded(first, k - 1, steps);
    }
  }

  /** With the default `Length` of 2 the equation is one random operation on the
      first value, then the closing offset. */
  lemma DefaultLengthShape(target: int, u: nat, steps: nat -> StepDraw)
    ensures var e := Equation(target, 2, u, steps);
      e.Bin? && e.left.Bin? && e.left.left.Lit?
      && e.left.left.v == Utils.Random(-1_000_000, 1_000_000, u)
  {
    var first := Utils.Random(-1_000_000, 1_000_000, u);
    assert Iterations(2) == 1;
    assert Chain(first, 0, steps).0 == Lit(first);
    assert Chain(first, 1, steps).0.Bin?;
  }

  // ---------------------------------------------------------------------------
  // Shape of the emitted text

  function Count(s: string, c: char): nat
  {
    if s == [] then 0 else (if s[0] == c then 1 else 0) + Count(s[1..], c)
  }

  lemma {:induction false} CountAppend(a: string, b: string, c: char)
    ensures Count(a + b, c) == Count(a, c) + Count(b, c)
  {
    if a != [] {
      assert (a + b)[1..] == a[1..] + b;
      CountAppend(a[1..], b, c);
    } else {
      assert a + b == b;
    }
  }

  lemma {:induction false} CountAbsent(s: string, c: char)
    requires c !in s
    ensures Count(s, c) == 0
  {
    if s != [] {
      assert c !in s[1..];
      CountAbsent(s[1..], c);
    }
  }

  /** The numerals hold no parenthesis. */
  lemma HexHasNoParens(v: int)
    ensures Count(ToHex(v), '(') == 0 && Count(ToHex(v), ')') == 0
  {
    var s := ToHex(v);
    var d := HexString(Abs(v));
    assert s == (if v < 0 then "-0x" else "0x") + d;
    assert forall k :: 0 <= k < |s| ==> s[k] == '-' || s[k] == 'x' || IsHexDigit(s[k]);
    CountAbsent(s, '(');
    CountAbsent(s, ')');
  }

  /** Every `(` the chain opens is closed: one per iteration plus the outer pair. */
  lemma {:induction false} RenderBalanced(e: Expr)
    ensures Count(Render(e), '(') == Count(Render(e), ')')
  {
    match e
    case Lit(v) =>
      HexHasNoParens(v);
    case Bin(l, op, r) =>
      RenderBalanced(l);
      HexHasNoParens(r);
      var h := [OpChar(op)] + ToHex(r);
      assert Count(h, '(') == 0 && Count(h, ')') == 0 by {
        CountAbsent([OpChar(op)], '(');
        CountAbsent([OpChar(op)], ')');
        CountAppend([OpChar(op)], ToHex(r), '(');
        CountAppend([OpChar(op)], ToHex(r), ')');
      }
      assert Render(e) == "(" + Render(l) + (h + ")");
      BracketBalanced(Render(l), h);
  }

  /** Brackets around a balanced text and a bracket-free tail stay balanced. */
  lemma BracketBalanced(a: string, h: string)
    requires Count(a, '(') == Count(a, ')') && Count(h, '(') == 0 && Count(h, ')') == 0
    ensures Count("(" + a + (h + ")"), '(') == Count("(" + a + (h + ")"), ')')
  {
    CountAppend(h, ")", '(');
    CountAppend(h, ")", ')');
    CountAppend("(", a, '(');
    CountAppend("(", a, ')');
    CountAppend("(" + a, h + ")", '(');
    CountAppend("(" + a, h + ")", ')');
  }

  /** No two adjacent `-` in the text: spliced into Lua source it can never
      open a `--` comment. */
  predicate NoDoubleDash(s: string)
  {
    forall i :: 0 <= i < |s| - 1 ==> !(s[i] == '-' && s[i + 1] == '-')
  }

  lemma HexIsDashFree(v: int)
    ensures NoDoubleDash(ToHex(v))
  {
    var s := ToHex(v);
    forall i | 0 <= i < |s| - 1 ensures !(s[i] == '-' && s[i + 1] == '-') {
      if v < 0 {
        assert s == "-" + ("0x" + HexString(-v));
        assert i > 0 ==> s[i] == ("0x" + HexString(-v))[i - 1];
      } else {
        assert s == "0x" + HexString(v);
      }
    }
  }

  lemma {:induction false} RenderDashFree(e: Expr)
    ensures NoDoubleDash(Render(e))
  {
    match e
    case Lit(v) =>
      HexIsDashFree(v);
    case Bin(l, op, r) =>
      RenderDashFree(l);
      RenderEnds(l);
      HexIsDashFree(r);
      var rl := Render(l);
      var h := ToHex(r);
      var s := Render(e);
      assert s == "(" + rl + [OpChar(op)] + h + ")";
      assert h[0] == '0';
      forall i | 0 <= i < |s| - 1 ensures !(s[i] == '-' && s[i + 1] == '-') {
        if 1 <= i < |rl| {
          assert s[i] == rl[i - 1] && s[i + 1] == rl[i];
        } else if i == |rl| {
          assert s[i] == rl[|rl| - 1];
        } else if i == |rl| + 1 {
          assert s[i + 1] == h[0];
        } else if |rl| + 2 <= i < |rl| + 1 + |h| {
          assert s[i] == h[i - |rl| - 2] && s[i + 1] == h[i - |rl| - 1];
        }
      }
  }
}
