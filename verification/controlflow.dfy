/** Control-flow flattening (`ControlFlow.js`): every statement list becomes a
    dispatcher loop. Each statement gets a distinct random id; a state variable
    starts at the first id, each leaf of a balanced comparison tree over the ids
    runs one statement and moves the state to the next id, and the loop stops
    when the state becomes `nil`. */
module ControlFlow {
  import opened Wrappers
  import opened Json
  import Text
  import Utils
  import TreeIndex
  import Emit

  // ---------------------------------------------------------------------------
  // The ids (GenerateTree, the drawing loop)

  const IdLow: int := -2000000000
  const IdHigh: int := 2000000000

  predicate InIdRange(ids: seq<int>)
  {
    forall i :: 0 <= i < |ids| ==> IdLow <= ids[i] <= IdHigh
  }

  /** The value one draw gives `Math.Random(-2e9, 2e9)`. */
  function IdOf(u: nat): int
  {
    Utils.Random(IdLow, IdHigh, u)
  }

  /** The rejection loop: draw until `count` distinct ids are collected, skipping
      any value already taken. The draws are a finite sequence here; `None`
      means they ran out before the loop would have stopped. */
  function DrawIds(count: nat, draws: seq<nat>, i: nat, acc: seq<int>): (r: Option<seq<int>>)
    requires i <= |draws| && |acc| <= count
    requires Utils.Distinct(acc) && InIdRange(acc)
    ensures r.Some? ==> |r.value| == count && Utils.Distinct(r.value) && InIdRange(r.value)
    ensures r.Some? ==> r.value[..|acc|] == acc
    ensures r.Some? ==> forall j :: |acc| <= j < count ==> exists k :: i <= k < |draws| && r.value[j] == IdOf(draws[k])
    decreases |draws| - i
  {
    if |acc| == count then Some(acc)
    else if i == |draws| then None
    else
      var n := IdOf(draws[i]);
      if n in acc then DrawIds(count, draws, i + 1, acc)
      else DrawIds(count, draws, i + 1, acc + [n])
  }

  /** The ids `n` draws from position `i` on give. */
  function IdsFrom(draws: seq<nat>, i: nat, n: nat): (r: seq<int>)
    requires i + n <= |draws|
    ensures |r| == n
    decreases n
  {
    if n == 0 then [] else [IdOf(draws[i])] + IdsFrom(draws, i + 1, n - 1)
  }

  /** Draws whose values are all new are taken in order, none rejected. */
  lemma {:induction false} DrawIdsFresh(count: nat, draws: seq<nat>, i: nat, acc: seq<int>)
    requires i <= |draws| && |acc| <= count && count - |acc| <= |draws| - i
    requires Utils.Distinct(acc) && InIdRange(acc)
    requires Utils.Distinct(acc + IdsFrom(draws, i, count - |acc|))
    ensures DrawIds(count, draws, i, acc) == Some(acc + IdsFrom(draws, i, count - |acc|))
    decreases count - |acc|
  {
    if |acc| < count {
      var n := IdOf(draws[i]);
      var rest := IdsFrom(draws, i + 1, count - |acc| - 1);
      var acc' := acc + [n];
      assert IdsFrom(draws, i, count - |acc|) == [n] + rest;
      assert acc + IdsFrom(draws, i, count - |acc|) == acc' + rest;
      assert n !in acc by {
        var all := acc' + rest;
        assert all[|acc|] == n;
        forall j | 0 <= j < |acc| ensures acc[j] != n {
          assert all[j] == acc[j];
        }
      }
      assert Utils.Distinct(acc') by {
        var all := acc' + rest;
        forall a, b | 0 <= a < b < |acc'| ensures acc'[a] != acc'[b] {
          assert all[a] == acc'[a] && all[b] == acc'[b];
        }
      }
      DrawIdsFresh(count, draws, i + 1, acc');
      assert DrawIds(count, draws, i, acc) == DrawIds(count, draws, i + 1, acc');
    } else {
      assert acc + IdsFrom(draws, i, 0) == acc;
    }
  }

  // ---------------------------------------------------------------------------
  // The processed blocks (GenerateTree, ProcessedBlocks)

  /** A character that may continue a Lua name. */
  predicate IsNameChar(c: char)
  {
    Utils.IsAlphanumeric(c) || c == '_'
  }

  /** As written: a block whose trimmed text starts with `return`, or is
      `break`, is left without a state update. */
  predicate KeptAsWritten(block: string)
  {
    KeptText(Text.Trim(block))
  }

  predicate KeptText(t: string)
  {
    Text.StartsWith(t, "return") || t == "break"
  }

  /** A block that leaves the dispatcher loop: `break`, or the keyword `return`
      (not a longer name that starts with those letters). */
  predicate LeavesLoop(block: string)
  {
    LeavingText(Text.Trim(block))
  }

  predicate LeavingText(t: string)
  {
    t == "break" || (Text.StartsWith(t, "return") && (|t| == 6 || !IsNameChar(t[6])))
  }

  /** Which blocks go without a state update; `fixed` selects the keyword test. */
  predicate Kept(block: string, fixed: bool)
  {
    if fixed then LeavesLoop(block) else KeptAsWritten(block)
  }

  /** The as-written test keeps every block that leaves the loop, and more. */
  lemma LeavingIsKept(block: string)
    requires LeavesLoop(block)
    ensures KeptAsWritten(block)
  {
  }

  /** A name that merely starts with `return` is kept without an update by the
      as-written test, yet it does not leave the loop. */
  lemma LongerNameIsMisread(t: string)
    requires |t| > 6 && t[..6] == "return" && IsNameChar(t[6])
    ensures KeptText(t) && !LeavingText(t)
  {
  }

  /** The statement `returned = 1` is one such block. */
  lemma ReturnedIsMisread()
    ensures KeptAsWritten("returned = 1") && !LeavesLoop("returned = 1")
  {
    var b := "returned = 1";
    assert b[..6] == "return" && b[6] == 'e' && b[|b| - 1] == '1';
    MisreadBlock(b);
  }

  /** A trimmed block whose text runs on from `return` into a longer name. */
  lemma MisreadBlock(b: string)
    requires |b| > 6 && b[..6] == "return" && IsNameChar(b[6]) && !Text.IsSpace(b[|b| - 1])
    ensures KeptAsWritten(b) && !LeavesLoop(b)
  {
    assert b[0] == b[..6][0];
    Text.TrimOfTrimmed(b);
    LongerNameIsMisread(b);
  }

  /** The text of the next id, or `nil` after the last block. */
  function NextText(ids: seq<int>, i: nat): string
  {
    if i + 1 < |ids| then Text.IntToString(ids[i + 1]) else "nil"
  }

  /** Each block followed by the update of the state variable to the next id,
      unless it is kept as it stands. */
  function ProcessedBlocks(blocks: seq<string>, ids: seq<int>, state: string, fixed: bool): (r: seq<string>)
    ensures |r| == |blocks|
  {
    seq(|blocks|, i requires 0 <= i < |blocks| =>
      if Kept(blocks[i], fixed) then blocks[i]
      else blocks[i] + "\n" + state + " = " + NextText(ids, i))
  }

  // ---------------------------------------------------------------------------
  // Sorting the (id, index) pairs

  type Pair = (int, nat)

  /** `Numbers.map((Value, OriginalIndex) => [Value, OriginalIndex])`. */
  function Pairs(ids: seq<int>): (r: seq<Pair>)
    ensures |r| == |ids|
  {
    seq(|ids|, i requires 0 <= i < |ids| => (ids[i], i))
  }

  predicate NonDecreasing(ps: seq<Pair>)
  {
    forall i, j :: 0 <= i < j < |ps| ==> ps[i].0 <= ps[j].0
  }

  predicate Ascending(ps: seq<Pair>)
  {
    forall i, j :: 0 <= i < j < |ps| ==> ps[i].0 < ps[j].0
  }

  predicate ValuesDistinct(ps: seq<Pair>)
  {
    forall i, j :: 0 <= i < j < |ps| ==> ps[i].0 != ps[j].0
  }

  /** No pair of the list carries the value `v`. */
  predicate Avoids(ps: seq<Pair>, v: int)
  {
    forall i :: 0 <= i < |ps| ==> ps[i].0 != v
  }

  /** Insert `p` before the first pair whose value is not smaller. */
  function Insert(p: Pair, sorted: seq<Pair>): (r: seq<Pair>)
    requires NonDecreasing(sorted)
    ensures multiset(r) == multiset(sorted) + multiset{p}
    ensures forall q :: q in r ==> q == p || q in sorted
    ensures |r| == |sorted| + 1 && (r[0] == p || (sorted != [] && r[0] == sorted[0]))
    ensures NonDecreasing(r)
  {
    if sorted == [] || p.0 <= sorted[0].0 then [p] + sorted
    else
      assert sorted == [sorted[0]] + sorted[1..];
      var rest := Insert(p, sorted[1..]);
      assert sorted[0].0 <= rest[0].0;
      [sorted[0]] + rest
  }

  /** A new value lands strictly between its neighbours. */
  lemma {:induction false} InsertAscending(p: Pair, sorted: seq<Pair>)
    requires NonDecreasing(sorted) && Ascending(sorted) && Avoids(sorted, p.0)
    ensures Ascending(Insert(p, sorted))
  {
    if sorted != [] && p.0 > sorted[0].0 {
      InsertAscending(p, sorted[1..]);
      var rest := Insert(p, sorted[1..]);
      assert sorted[0].0 < rest[0].0;
    }
  }

  /** `.sort((A, B) => A[0] - B[0])`: the pairs ordered by id. */
  function SortByValue(ps: seq<Pair>): (r: seq<Pair>)
    ensures multiset(r) == multiset(ps)
    ensures forall q :: q in r ==> q in ps
    ensures NonDecreasing(r)
  {
    if ps == [] then []
    else
      assert ps == [ps[0]] + ps[1..];
      Insert(ps[0], SortByValue(ps[1..]))
  }

  /** Pairs with distinct ids come out strictly ascending. */
  lemma {:induction false} SortAscending(ps: seq<Pair>)
    requires ValuesDistinct(ps)
    ensures Ascending(SortByValue(ps))
  {
    if ps != [] {
      var rest := SortByValue(ps[1..]);
      SortAscending(ps[1..]);
      forall i | 0 <= i < |rest| ensures rest[i].0 != ps[0].0 {
        assert rest[i] in ps[1..];
        var j :| 0 <= j < |ps[1..]| && ps[1..][j] == rest[i];
        assert ps[j + 1] == rest[i];
      }
      InsertAscending(ps[0], rest);
    }
  }

  // ---------------------------------------------------------------------------
  // The dispatch tree (GenerateTree, BuildBranch)

  datatype Op = Lt | Le | Gt | Ge

  function OpText(op: Op): string
  {
    match op
    case Lt => "<"
    case Le => "<="
    case Gt => ">"
    case Ge => ">="
  }

  /** `State <op> pivot` in Lua, on integers. */
  predicate Test(op: Op, x: int, pivot: int)
  {
    match op
    case Lt => x < pivot
    case Le => x <= pivot
    case Gt => x > pivot
    case Ge => x >= pivot
  }

  /** The shape `BuildBranch` prints: a block at each leaf, a comparison of the
      state against a pivot at each split. */
  datatype Branch = Block(index: nat) | Split(op: Op, pivot: int, yes: Branch, no: Branch)

  /** The block the comparisons lead a state value to. */
  function Route(b: Branch, x: int): (i: nat)
    ensures i in Leaves(b)
  {
    match b
    case Block(i) => i
    case Split(op, pivot, yes, no) => if Test(op, x, pivot) then Route(yes, x) else Route(no, x)
  }

  function Leaves(b: Branch): seq<nat>
  {
    match b
    case Block(i) => [i]
    case Split(_, _, yes, no) => Leaves(yes) + Leaves(no)
  }

  predicate LeavesBelow(b: Branch, n: nat)
  {
    forall i :: i in Leaves(b) ==> i < n
  }

  /** The indices a list of pairs carries. */
  function Indices(ps: seq<Pair>): (r: seq<nat>)
    ensures |r| == |ps|
  {
    seq(|ps|, i requires 0 <= i < |ps| => ps[i].1)
  }

  /** `MidPoint = Math.floor(Pairs.length / 2)` and the two slices. */
  function Halves(ps: seq<Pair>): (r: (seq<Pair>, seq<Pair>))
    requires |ps| >= 2
    ensures |r.0| == |ps| / 2 && |r.0| >= 1 && |r.1| >= 1
    ensures r.0 + r.1 == ps
  {
    (ps[..|ps| / 2], ps[|ps| / 2..])
  }

  /** One split: the comparison, its pivot, and the pairs each branch takes. */
  datatype Cut = Cut(op: Op, pivot: int, yes: seq<Pair>, no: seq<Pair>)

  /** The `switch (Mode)` of `BuildBranch`. */
  function Divide(ps: seq<Pair>, m: nat): (r: Cut)
    requires |ps| >= 2 && m <= 3
    ensures 1 <= |r.yes| < |ps| && 1 <= |r.no| < |ps|
    ensures multiset(Indices(r.yes)) + multiset(Indices(r.no)) == multiset(Indices(ps))
  {
    var (left, right) := Halves(ps);
    assert Indices(ps) == Indices(left) + Indices(right);
    if m == 0 then Cut(Lt, right[0].0, left, right)
    else if m == 1 then Cut(Le, left[|left| - 1].0, left, right)
    else if m == 2 then Cut(Gt, left[|left| - 1].0, right, left)
    else Cut(Ge, right[0].0, right, left)
  }

  /** In an ascending list, the comparison sends each pair to the branch that
      holds it; both branches are ascending again. */
  lemma DivideRoutes(ps: seq<Pair>, m: nat, k: nat) returns (j: nat)
    requires |ps| >= 2 && m <= 3 && Ascending(ps) && k < |ps|
    ensures Ascending(Divide(ps, m).yes) && Ascending(Divide(ps, m).no)
    ensures var d := Divide(ps, m);
      if Test(d.op, ps[k].0, d.pivot) then j < |d.yes| && d.yes[j] == ps[k]
      else j < |d.no| && d.no[j] == ps[k]
  {
    var (left, right) := Halves(ps);
    var h := |left|;
    assert left[h - 1] == ps[h - 1] && right[0] == ps[h];
    if k < h {
      assert left[k] == ps[k];
      assert ps[k].0 <= left[h - 1].0 < right[0].0;
      j := k;
    } else {
      assert right[k - h] == ps[k];
      assert left[h - 1].0 < right[0].0 <= ps[k].0;
      j := k - h;
    }
  }

  /** `BuildBranch(Pairs)`: the `c`-th draw of `modes` picks the comparison at
      this split, before the true branch and then the false branch draw theirs.
      The second component is the next unused draw. */
  function Build(ps: seq<Pair>, c: nat, modes: nat -> nat): (r: (Branch, nat))
    requires |ps| >= 1
    ensures r.1 >= c
    decreases |ps|
  {
    if |ps| == 1 then (Block(ps[0].1), c)
    else
      var d := Divide(ps, Utils.Random(0, 3, modes(c)));
      var yes := Build(d.yes, c + 1, modes);
      var no := Build(d.no, yes.1, modes);
      (Split(d.op, d.pivot, yes.0, no.0), no.1)
  }

  /** The leaves are the indices of the pairs, each as often as it occurs. */
  lemma {:induction false} BuildLeaves(ps: seq<Pair>, c: nat, modes: nat -> nat)
    requires |ps| >= 1
    ensures multiset(Leaves(Build(ps, c, modes).0)) == multiset(Indices(ps))
    decreases |ps|
  {
    if |ps| == 1 {
      assert Indices(ps) == [ps[0].1];
    } else {
      var d := Divide(ps, Utils.Random(0, 3, modes(c)));
      var yes := Build(d.yes, c + 1, modes);
      BuildLeaves(d.yes, c + 1, modes);
      BuildLeaves(d.no, yes.1, modes);
    }
  }

  /** Whatever the modes, the comparisons lead each id of an ascending list of
      pairs to the block it indexes. */
  lemma {:induction false} RouteFinds(ps: seq<Pair>, c: nat, modes: nat -> nat, k: nat)
    requires |ps| >= 1 && Ascending(ps) && k < |ps|
    ensures Route(Build(ps, c, modes).0, ps[k].0) == ps[k].1
    decreases |ps|
  {
    if |ps| > 1 {
      var m := Utils.Random(0, 3, modes(c));
      var d := Divide(ps, m);
      var yes := Build(d.yes, c + 1, modes);
      var j := DivideRoutes(ps, m, k);
      if Test(d.op, ps[k].0, d.pivot) {
        RouteFinds(d.yes, c + 1, modes, j);
      } else {
        RouteFinds(d.no, yes.1, modes, j);
      }
    }
  }

  /** The tree over a statement list's ids: the pairs sorted by id, then split. */
  function Dispatcher(ids: seq<int>, modes: nat -> nat): (b: Branch)
    requires |ids| >= 1
  {
    Build(SortByValue(Pairs(ids)), 0, modes).0
  }

  /** Distinct ids route each to its own block. */
  lemma DispatcherRoutes(ids: seq<int>, modes: nat -> nat)
    requires |ids| >= 1 && Utils.Distinct(ids)
    ensures forall k :: 0 <= k < |ids| ==> Route(Dispatcher(ids, modes), ids[k]) == k
  {
    var ps := Pairs(ids);
    var sorted := SortByValue(ps);
    assert ValuesDistinct(ps);
    SortAscending(ps);
    forall k | 0 <= k < |ids| ensures Route(Dispatcher(ids, modes), ids[k]) == k {
      assert ps[k] in multiset(sorted);
      var m :| 0 <= m < |sorted| && sorted[m] == ps[k];
      RouteFinds(sorted, 0, modes, m);
    }
  }

  /** The dispatcher has one leaf per statement, each naming a statement. */
  lemma DispatcherLeaves(ids: seq<int>, modes: nat -> nat)
    requires |ids| >= 1
    ensures LeavesBelow(Dispatcher(ids, modes), |ids|)
    ensures |Leaves(Dispatcher(ids, modes))| == |ids|
  {
    var ps := Pairs(ids);
    var sorted := SortByValue(ps);
    var leaves := Leaves(Dispatcher(ids, modes));
    BuildLeaves(sorted, 0, modes);
    forall j | j in leaves ensures j < |ids| {
      assert j in multiset(Indices(sorted));
      var m :| 0 <= m < |sorted| && Indices(sorted)[m] == j;
      assert sorted[m] in ps;
    }
    assert |leaves| == |multiset(leaves)| == |multiset(Indices(sorted))| == |sorted|;
  }

  // ---------------------------------------------------------------------------
  // The text of the tree (BuildBranch)

  /** `"    ".repeat(IndentLevel)`. */
  function Indent(level: nat): string
  {
    Text.Repeat("    ", level)
  }

  /** A leaf: the block trimmed, each of its lines indented. */
  function IndentLines(block: string, level: nat): string
  {
    var lines := Text.Split(Text.Trim(block), '\n');
    Text.Join(seq(|lines|, j requires 0 <= j < |lines| => Indent(level) + lines[j]), "\n")
  }

  /** The nested `if State <op> pivot then … else … end` text of a tree. */
  function Render(b: Branch, level: nat, processed: seq<string>, state: string): string
    requires LeavesBelow(b, |processed|)
  {
    match b
    case Block(i) =>
      assert i in Leaves(b);
      IndentLines(processed[i], level)
    case Split(op, pivot, yes, no) =>
      assert Leaves(b) == Leaves(yes) + Leaves(no);
      assert forall j :: j in Leaves(yes) ==> j in Leaves(b);
      assert forall j :: j in Leaves(no) ==> j in Leaves(b);
      Text.Join([Indent(level) + "if " + state + " " + OpText(op) + " " + Text.IntToString(pivot) + " then",
                 Render(yes, level + 1, processed, state),
                 Indent(level) + "else",
                 Render(no, level + 1, processed, state),
                 Indent(level) + "end"], "\n")
  }

  // ---------------------------------------------------------------------------
  // GenerateTree

  /** The tree has only blocks below `n` at its leaves, and leads the `k`-th id to block `k`. */
  predicate Routes(tree: Branch, ids: seq<int>, n: nat)
  {
    |ids| == n && LeavesBelow(tree, n) && forall k :: 0 <= k < n ==> Route(tree, ids[k]) == k
  }

  /** The outcome of `GenerateTree(Blocks, Var)`: the ids, the tree the text
      spells out, the text, and the first id (`nil` for no blocks). */
  datatype Dispatch = Dispatch(ids: seq<int>, tree: Branch, code: string, first: string)

  /** `GenerateTree(Blocks, Var)`: the ids come from `draws`, the comparison
      modes from `modes`. The tree leads each block's id to that block, and only
      to blocks. */
  function GenerateTree(blocks: seq<string>, state: string, draws: seq<nat>, modes: nat -> nat, fixed: bool): (r: Option<Dispatch>)
    ensures r.Some? ==> |r.value.ids| == |blocks| && Utils.Distinct(r.value.ids) && InIdRange(r.value.ids)
    ensures r.Some? && blocks == [] ==> r.value.code == "" && r.value.first == "nil"
    ensures r.Some? && blocks != [] ==>
      && r.value.first == Text.IntToString(r.value.ids[0])
      && Routes(r.value.tree, r.value.ids, |blocks|)
      && r.value.code == Render(r.value.tree, 0, ProcessedBlocks(blocks, r.value.ids, state, fixed), state)
  {
    if blocks == [] then Some(Dispatch([], Block(0), "", "nil"))
    else
      var ids :- DrawIds(|blocks|, draws, 0, []);
      var tree := Dispatcher(ids, modes);
      DispatcherRoutes(ids, modes);
      DispatcherLeaves(ids, modes);
      Some(Dispatch(ids, tree, Render(tree, 0, ProcessedBlocks(blocks, ids, state, fixed), state), Text.IntToString(ids[0])))
  }

  // ---------------------------------------------------------------------------
  // What the emitted loop does

  /** What running a processed block does: return from the enclosing
      function, break out of the enclosing loop, leave the state as it was (a
      block kept without its update), or advance the state to the next id. */
  datatype Effect = Return | Break | Stay | Advance

  /** A block that is the statement `break`. */
  predicate IsBreak(block: string)
  {
    Text.Trim(block) == "break"
  }

  function EffectOf(block: string, fixed: bool): Effect
  {
    if IsBreak(block) then Break
    else if LeavesLoop(block) then Return
    else if Kept(block, fixed) then Stay
    else Advance
  }

  /** The block ends the statement list early. */
  predicate Ends(e: Effect)
  {
    e == Return || e == Break
  }

  function Effects(blocks: seq<string>, fixed: bool): (r: seq<Effect>)
    ensures |r| == |blocks|
  {
    seq(|blocks|, i requires 0 <= i < |blocks| => EffectOf(blocks[i], fixed))
  }

  /** Corrected, no block stays put: it leaves the loop or advances. */
  lemma CorrectedNeverStays(blocks: seq<string>)
    ensures forall k :: 0 <= k < |blocks| ==> Effects(blocks, true)[k] != Stay
  {
  }

  /** The two classifiers run alike exactly when none of the blocks is kept
      without leaving the loop. */
  lemma SameEffects(blocks: seq<string>)
    ensures Effects(blocks, false) == Effects(blocks, true)
      <==> forall k :: 0 <= k < |blocks| ==> (KeptAsWritten(blocks[k]) ==> LeavesLoop(blocks[k]))
  {
    if Effects(blocks, false) == Effects(blocks, true) {
      forall k | 0 <= k < |blocks| ensures KeptAsWritten(blocks[k]) ==> LeavesLoop(blocks[k]) {
        assert Effects(blocks, false)[k] == Effects(blocks, true)[k];
      }
    }
  }

  /** How a statement list ends: it ran to its end, a block returned from the
      enclosing function, a block broke out of the enclosing loop, or (for the
      dispatcher) the step budget ran out first. */
  datatype Stop = Finished | ReturnedAt(index: nat) | BrokeAt(index: nat) | OutOfFuel

  /** `while State ~= nil do <tree> end` for at most `fuel` rounds: each round
      follows the comparisons to a block and runs it. The result lists the
      blocks in the order they ran. A `break` block now sits inside the
      dispatcher loop, so it leaves that loop only: the flattened list ends as
      if it had run to its end. */
  function Run(tree: Branch, ids: seq<int>, effects: seq<Effect>, state: Option<int>, fuel: nat): (r: (seq<nat>, Stop))
    requires LeavesBelow(tree, |effects|) && |ids| == |effects|
    ensures |r.0| <= fuel
    ensures forall j :: 0 <= j < |r.0| ==> r.0[j] < |effects|
    decreases fuel
  {
    match state
    case None => ([], Finished)
    case Some(x) =>
      if fuel == 0 then ([], OutOfFuel)
      else
        var i := Route(tree, x);
        match effects[i]
        case Return => ([i], ReturnedAt(i))
        case Break => ([i], Finished)
        case Stay =>
          var rest := Run(tree, ids, effects, state, fuel - 1);
          ([i] + rest.0, rest.1)
        case Advance =>
          var rest := Run(tree, ids, effects, if i + 1 < |ids| then Some(ids[i + 1]) else None, fuel - 1);
          ([i] + rest.0, rest.1)
  }

  /** The first block from `i` on that ends the list early, or `|effects|`. */
  function FirstLeaving(effects: seq<Effect>, i: nat): (e: nat)
    requires i <= |effects|
    ensures i <= e <= |effects|
    ensures e < |effects| ==> Ends(effects[e])
    ensures forall j :: i <= j < e ==> !Ends(effects[j])
    decreases |effects| - i
  {
    if i == |effects| || Ends(effects[i]) then i else FirstLeaving(effects, i + 1)
  }

  /** `a, a + 1, …, b - 1`. */
  function Span(a: nat, b: nat): (r: seq<nat>)
    requires a <= b
    ensures |r| == b - a && forall j :: 0 <= j < |r| ==> r[j] == a + j
  {
    seq(b - a, j requires 0 <= j < b - a => a + j)
  }

  /** The run the original statement list stands for from block `i` on: the
      blocks in order up to and including the first that returns or breaks. */
  function InOrder(effects: seq<Effect>, i: nat): (seq<nat>, Stop)
    requires i <= |effects|
  {
    var e := FirstLeaving(effects, i);
    if e == |effects| then (Span(i, |effects|), Finished)
    else if effects[e] == Break then (Span(i, e + 1), BrokeAt(e))
    else (Span(i, e + 1), ReturnedAt(e))
  }

  /** What the dispatcher makes of an ending: a break out of the enclosing
      loop becomes the end of the list. */
  function Dispatched(r: (seq<nat>, Stop)): (seq<nat>, Stop)
  {
    if r.1.BrokeAt? then (r.0, Finished) else r
  }

  /** Started at block `i`'s id, a dispatcher whose blocks never stay put runs
      them in their original order, within one round per block; a `break`
      ends only the dispatcher. */
  lemma {:induction false} RunsInOrder(tree: Branch, ids: seq<int>, effects: seq<Effect>, i: nat)
    requires LeavesBelow(tree, |effects|) && |ids| == |effects| && i < |effects|
    requires forall k :: 0 <= k < |ids| ==> Route(tree, ids[k]) == k
    requires forall k :: 0 <= k < |effects| ==> effects[k] != Stay
    ensures Run(tree, ids, effects, Some(ids[i]), |effects| - i) == Dispatched(InOrder(effects, i))
    decreases |effects| - i
  {
    var n := |effects|;
    assert Route(tree, ids[i]) == i;
    if Ends(effects[i]) {
      assert FirstLeaving(effects, i) == i;
      assert [i] == Span(i, i + 1);
    } else if i + 1 < n {
      RunsInOrder(tree, ids, effects, i + 1);
      RunAdvances(tree, ids, effects, i, n - i);
      InOrderCons(effects, i);
    } else {
      assert FirstLeaving(effects, i) == n;
      assert Run(tree, ids, effects, None, 0) == ([], Finished);
      assert [i] + [] == Span(i, n);
    }
  }

  /** A block that advances the state is followed by a run from the next id. */
  lemma RunAdvances(tree: Branch, ids: seq<int>, effects: seq<Effect>, i: nat, fuel: nat)
    requires LeavesBelow(tree, |effects|) && |ids| == |effects| && i + 1 < |effects| && fuel > 0
    requires Route(tree, ids[i]) == i && effects[i] == Advance
    ensures var rest := Run(tree, ids, effects, Some(ids[i + 1]), fuel - 1);
      Run(tree, ids, effects, Some(ids[i]), fuel) == ([i] + rest.0, rest.1)
  {
  }

  /** A block that does not end the list is followed by the run from the next one. */
  lemma InOrderCons(effects: seq<Effect>, i: nat)
    requires i + 1 < |effects| && !Ends(effects[i])
    ensures var rest := InOrder(effects, i + 1);
      Dispatched(InOrder(effects, i)) == ([i] + Dispatched(rest).0, Dispatched(rest).1)
  {
    var e := FirstLeaving(effects, i);
    assert e == FirstLeaving(effects, i + 1);
    var hi := if e < |effects| then e + 1 else |effects|;
    assert [i] + Span(i + 1, hi) == Span(i, hi);
  }

  /** Corrected keyword test, from the generated tree: the flattened list runs
      its blocks in order, stopping after the first that returns or breaks,
      and a break out of the enclosing loop comes out as the end of the list. */
  lemma FlattenedRunsInOrder(blocks: seq<string>, state: string, draws: seq<nat>, modes: nat -> nat)
    requires blocks != [] && GenerateTree(blocks, state, draws, modes, true).Some?
    ensures var g := GenerateTree(blocks, state, draws, modes, true).value;
      Run(g.tree, g.ids, Effects(blocks, true), Some(g.ids[0]), |blocks|) == Dispatched(InOrder(Effects(blocks, true), 0))
  {
    var g := GenerateTree(blocks, state, draws, modes, true).value;
    assert Routes(g.tree, g.ids, |blocks|);
    RoutedRunsInOrder(g.tree, g.ids, blocks);
  }

  lemma RoutedRunsInOrder(tree: Branch, ids: seq<int>, blocks: seq<string>)
    requires blocks != [] && Routes(tree, ids, |blocks|)
    ensures Run(tree, ids, Effects(blocks, true), Some(ids[0]), |blocks|) == Dispatched(InOrder(Effects(blocks, true), 0))
  {
    var effects := Effects(blocks, true);
    CorrectedNeverStays(blocks);
    RunsInOrder(tree, ids, effects, 0);
  }

  /** Without a `break` block, the flattened list ends exactly as the original
      one: in order, stopping after the first `return`. */
  lemma FlattenedWithoutBreak(blocks: seq<string>, state: string, draws: seq<nat>, modes: nat -> nat)
    requires blocks != [] && GenerateTree(blocks, state, draws, modes, true).Some?
    requires forall k :: 0 <= k < |blocks| ==> !IsBreak(blocks[k])
    ensures var g := GenerateTree(blocks, state, draws, modes, true).value;
      Run(g.tree, g.ids, Effects(blocks, true), Some(g.ids[0]), |blocks|) == InOrder(Effects(blocks, true), 0)
  {
    var g := GenerateTree(blocks, state, draws, modes, true).value;
    assert Routes(g.tree, g.ids, |blocks|);
    RoutedRunsInOrder(g.tree, g.ids, blocks);
    NoBreakNotDispatched(blocks);
  }

  /** With no `break` block, the dispatcher changes nothing about how the list ends. */
  lemma NoBreakNotDispatched(blocks: seq<string>)
    requires forall k :: 0 <= k < |blocks| ==> !IsBreak(blocks[k])
    ensures Dispatched(InOrder(Effects(blocks, true), 0)) == InOrder(Effects(blocks, true), 0)
  {
    var effects := Effects(blocks, true);
    forall k | 0 <= k < |effects| ensures effects[k] != Break {
      assert effects[k] == EffectOf(blocks[k], true);
    }
    NoBreakEffects(effects);
  }

  lemma NoBreakEffects(effects: seq<Effect>)
    requires forall k :: 0 <= k < |effects| ==> effects[k] != Break
    ensures Dispatched(InOrder(effects, 0)) == InOrder(effects, 0)
  {
    var e := FirstLeaving(effects, 0);
    if e < |effects| {
      assert effects[e] != Break;
    }
  }

  /** The loop body `x = x + 1; break`: the original ends the enclosing loop
      after both statements, the flattened list merely runs to its end, so the
      loop around it goes on. */
  lemma BreakEndsOnlyTheDispatcher(state: string, draws: seq<nat>, modes: nat -> nat)
    requires GenerateTree(["x = x + 1", "break"], state, draws, modes, true).Some?
    ensures var blocks := ["x = x + 1", "break"];
      var g := GenerateTree(blocks, state, draws, modes, true).value;
      && InOrder(Effects(blocks, true), 0) == ([0, 1], BrokeAt(1))
      && Run(g.tree, g.ids, Effects(blocks, true), Some(g.ids[0]), |blocks|) == ([0, 1], Finished)
  {
    var blocks := ["x = x + 1", "break"];
    FlattenedRunsInOrder(blocks, state, draws, modes);
    IncrementThenBreak();
  }

  /** How the original list `x = x + 1; break` ends. */
  lemma IncrementThenBreak()
    ensures InOrder(Effects(["x = x + 1", "break"], true), 0) == ([0, 1], BrokeAt(1))
  {
    BreakBreaks();
    IncrementAdvances();
    EffectsOfTwo("x = x + 1", "break", true);
    AdvanceThenBreak();
  }

  /** The effects of a two-block list, block by block. */
  lemma EffectsOfTwo(a: string, b: string, fixed: bool)
    ensures Effects([a, b], fixed) == [EffectOf(a, fixed), EffectOf(b, fixed)]
  {
  }

  lemma BreakBreaks()
    ensures EffectOf("break", true) == Break
  {
    Text.TrimOfTrimmed("break");
  }

  lemma IncrementAdvances()
    ensures EffectOf("x = x + 1", true) == Advance
  {
    var b := "x = x + 1";
    assert Text.Trim(b) == b by {
      assert b[0] == 'x' && b[|b| - 1] == '1';
      Text.TrimOfTrimmed(b);
    }
    assert b != "break" by {
      assert b[0] != "break"[0];
    }
    assert !Text.StartsWith(b, "return") by {
      assert b[..6][0] != "return"[0];
    }
  }

  lemma AdvanceThenBreak()
    ensures InOrder([Advance, Break], 0) == ([0, 1], BrokeAt(1))
  {
    assert FirstLeaving([Advance, Break], 0) == 1;
    assert Span(0, 2) == [0, 1];
  }

  /** A first block that stays put is run again on every round, forever. */
  lemma {:induction false} StallsOnStay(tree: Branch, ids: seq<int>, effects: seq<Effect>, fuel: nat)
    requires LeavesBelow(tree, |effects|) && |ids| == |effects| && effects != []
    requires Route(tree, ids[0]) == 0 && effects[0] == Stay
    ensures Run(tree, ids, effects, Some(ids[0]), fuel) == (seq(fuel, j => 0), OutOfFuel)
    decreases fuel
  {
    if fuel > 0 {
      StallsOnStay(tree, ids, effects, fuel - 1);
      assert [0] + seq(fuel - 1, j => 0) == seq(fuel, j => 0);
    } else {
      assert seq(fuel, j => 0) == [];
    }
  }

  /** As written, from the generated tree: a list that starts with
      `returned = 1` never gets past it. */
  lemma ReturnedStalls(blocks: seq<string>, state: string, draws: seq<nat>, modes: nat -> nat, fuel: nat)
    requires blocks != [] && blocks[0] == "returned = 1"
    requires GenerateTree(blocks, state, draws, modes, false).Some?
    ensures var g := GenerateTree(blocks, state, draws, modes, false).value;
      Run(g.tree, g.ids, Effects(blocks, false), Some(g.ids[0]), fuel) == (seq(fuel, j => 0), OutOfFuel)
  {
    var g := GenerateTree(blocks, state, draws, modes, false).value;
    assert Routes(g.tree, g.ids, |blocks|);
    ReturnedIsMisread();
    assert Effects(blocks, false)[0] == Stay;
    StallsOnStay(g.tree, g.ids, Effects(blocks, false), fuel);
  }

  // ---------------------------------------------------------------------------
  // ProcessBlock

  /** The draws one `ProcessBlock` call makes: the state variable's name
      (from `GenerateVariable`), the ids, and the comparison modes. */
  datatype BlockDraw = BlockDraw(state: string, ids: seq<nat>, modes: nat -> nat)

  /** `for (const Node of BlockList)`: an array yields its items and a string
      its characters; anything else is not iterable. */
  function Statements(list: Access): (r: Result<seq<Value>>)
    ensures r.Ok? <==> list.Defined? && (list.value.Arr? || list.value.Str?)
    ensures r.Ok? && list.value.Arr? ==> r.value == list.value.items
    ensures r.Ok? && list.value.Str? ==> |r.value| == |list.value.s|
  {
    match list
    case Defined(Arr(items)) => Ok(items)
    case Defined(Str(s)) => Ok(seq(|s|, k requires 0 <= k < |s| => Str([s[k]])))
    case _ => Err("TypeError: BlockList is not iterable")
  }

  /** `StrBlocks`: each statement printed on its own. */
  function BlockTexts(nodes: seq<Value>, format: string -> Option<string>, fixed: bool): (r: Result<seq<string>>)
    ensures r.Ok? ==> |r.value| == |nodes|
    ensures r.Ok? ==> forall i :: 0 <= i < |nodes| ==> Emit.FormattedCode(nodes[i], format, fixed) == Ok(r.value[i])
    ensures r.Err? ==> exists i :: 0 <= i < |nodes| && Emit.FormattedCode(nodes[i], format, fixed).Err?
    decreases |nodes|
  {
    if nodes == [] then Ok([])
    else
      var first :- Emit.FormattedCode(nodes[0], format, fixed);
      var rest :- BlockTexts(nodes[1..], format, fixed);
      Ok([first] + rest)
  }

  /** `FinalCode`: the state set to the first id, then the loop around the tree. */
  function FinalCode(state: string, code: string, first: string): (r: string)
    ensures Text.StartsWith(r, state + " = ")
  {
    var r := state + " = " + first + "\nwhile " + state + " ~= nil do\n" + code + "\nend";
    assert r == (state + " = ") + (first + "\nwhile " + state + " ~= nil do\n" + code + "\nend");
    r
  }

  /** The flattened text of the printed blocks. */
  function Wrapped(blocks: seq<string>, d: BlockDraw, fixed: bool): (r: Result<string>)
    ensures r.Ok? ==> Text.StartsWith(r.value, d.state + " = ")
  {
    match GenerateTree(blocks, d.state, d.ids, d.modes, fixed)
    case None => Err("the id draws ran out")
    case Some(g) => Ok(FinalCode(d.state, g.code, g.first))
  }

  /** `ProcessBlock` up to the re-parse: the Lua text a statement list becomes. */
  function Flatten(list: Access, d: BlockDraw, format: string -> Option<string>, fixed: bool): (r: Result<string>)
    ensures Statements(list).Err? ==> r.Err?
    ensures r.Ok? ==> Text.StartsWith(r.value, d.state + " = ")
  {
    var nodes :- Statements(list);
    var blocks :- BlockTexts(nodes, format, fixed);
    Wrapped(blocks, d, fixed)
  }

  /** `ProcessBlock(BlockList)`: the text re-parsed by `parse` (the foreign
      parser, which returns the statement list); a text that does not parse is
      reported on the console and the call returns `undefined`. */
  function ProcessBlock(list: Access, d: BlockDraw, format: string -> Option<string>,
                        parse: string -> Option<Value>, fixed: bool): (r: Result<Access>)
    ensures r.Ok? <==> Flatten(list, d, format, fixed).Ok?
    ensures r.Ok? ==> (r.value.Undefined? <==> parse(Flatten(list, d, format, fixed).value).None?)
  {
    var text :- Flatten(list, d, format, fixed);
    match parse(text)
    case Some(v) => Ok(Defined(v))
    case None => Ok(Undefined)
  }

  /** A value written back into the tree; `undefined` is stored as `null`. */
  function Stored(a: Access): Value
  {
    match a
    case Defined(v) => v
    case Undefined => Null
  }

  // ---------------------------------------------------------------------------
  // Retyping the local declarations

  const Local := "LocalStatement"
  const Assignment := "AssignmentStatement"

  function TypePath(q: Path): Path
  {
    q + [Name("type")]
  }

  /** `q` parts ways with every `type` field still to be written from position `i` on. */
  predicate AvoidsTypes(ps: seq<Path>, i: nat, q: Path)
  {
    forall k :: i <= k < |ps| ==> Diverge(TypePath(TreeIndex.DropLast(ps[k])), q)
  }

  /** `FindAllInstances(AST, "type", "LocalStatement").forEach(…)`: walk to each
      node and set its `type` to `AssignmentStatement`. Every path that parts
      ways with all the `type` fields written reads as before. */
  function Retype(t: Value, ps: seq<Path>, i: nat): (r: Result<Value>)
    ensures r.Ok? ==> forall q :: AvoidsTypes(ps, i, q) ==> GetKey(r.value, q) == GetKey(t, q)
    decreases |ps| - i
  {
    if i >= |ps| then Ok(t)
    else
      var q := TreeIndex.DropLast(ps[i]);
      match GetKey(t, q)
      case Found(node) =>
        if node.Null? then Err("TypeError: Cannot set properties of null (setting 'type')")
        else
          var t' :- Put(t, TypePath(q), Str(Assignment));
          PutFrameAll(t, TypePath(q), Str(Assignment));
          Retype(t', ps, i + 1)
      case _ => Err("TypeError: Cannot set properties of undefined (setting 'type')")
  }

  predicate Node(t: Value, q: Path)
  {
    GetKey(t, q).Found? && GetKey(t, q).value.Obj?
  }

  /** The node at `q` is still an object with a leaf `type`, which reads
      `AssignmentStatement` once the node is `done`. */
  predicate Typed(t: Value, q: Path, done: bool)
  {
    Node(t, q) && Leaf(GetKey(t, TypePath(q)))
    && (done ==> GetKey(t, TypePath(q)) == Found(Str(Assignment)))
  }

  /** Writing one `type` keeps every node as `Typed` describes it. */
  lemma TypedAfterWrite(t: Value, q0: Path, q: Path, done: bool)
    requires Node(t, q0) && Leaf(GetKey(t, TypePath(q0)))
    requires Put(t, TypePath(q0), Str(Assignment)).Ok?
    requires GetKey(Put(t, TypePath(q0), Str(Assignment)).value, TypePath(q0)) == Found(Str(Assignment))
    requires Typed(t, q, done)
    ensures Typed(Put(t, TypePath(q0), Str(Assignment)).value, q, done || SameNames(TypePath(q0), TypePath(q)))
  {
    var p := TypePath(q0);
    var w := TypePath(q);
    var t' := Put(t, p, Str(Assignment)).value;
    assert p[..|p| - 1] == q0 && w[..|w| - 1] == q;
    KeepObject(t, p, Str(Assignment), q);
    if SameNames(p, w) {
      SameNamesRead(t', p, w);
    } else {
      KeepLeaf(t, p, Str(Assignment), w);
    }
  }

  /** One iteration of the loop on a node that is still an object. */
  lemma RetypeStep(t: Value, ps: seq<Path>, i: nat)
    requires i < |ps|
    requires Typed(t, TreeIndex.DropLast(ps[i]), false)
    ensures Put(t, TypePath(TreeIndex.DropLast(ps[i])), Str(Assignment)).Ok?
    ensures GetKey(Put(t, TypePath(TreeIndex.DropLast(ps[i])), Str(Assignment)).value, TypePath(TreeIndex.DropLast(ps[i]))) == Found(Str(Assignment))
    ensures Retype(t, ps, i) == Retype(Put(t, TypePath(TreeIndex.DropLast(ps[i])), Str(Assignment)).value, ps, i + 1)
  {
    var q0 := TreeIndex.DropLast(ps[i]);
    var p := TypePath(q0);
    assert p[..|p| - 1] == q0;
    PutThenGet(t, p, Str(Assignment));
  }

  /** From position `i` on, the loop never throws and leaves every listed node
      typed `AssignmentStatement`. */
  lemma {:induction false} RetypeSucceeds(t: Value, ps: seq<Path>, i: nat)
    requires i <= |ps|
    requires forall k :: 0 <= k < |ps| ==> Typed(t, TreeIndex.DropLast(ps[k]), k < i)
    ensures Retype(t, ps, i).Ok?
    ensures forall k :: 0 <= k < |ps| ==> Typed(Retype(t, ps, i).value, TreeIndex.DropLast(ps[k]), true)
    decreases |ps| - i
  {
    if i < |ps| {
      var q0 := TreeIndex.DropLast(ps[i]);
      RetypeStep(t, ps, i);
      var t' := Put(t, TypePath(q0), Str(Assignment)).value;
      forall k | 0 <= k < |ps| ensures Typed(t', TreeIndex.DropLast(ps[k]), k < i + 1) {
        var q := TreeIndex.DropLast(ps[k]);
        TypedAfterWrite(t, q0, q, k < i);
        if k == i {
          assert SameNames(TypePath(q0), TypePath(q));
        }
      }
      RetypeSucceeds(t', ps, i + 1);
    }
  }

  /** The first step of the pass: on a well-formed tree it never throws, every
      object whose own `type` is `LocalStatement` ends up typed
      `AssignmentStatement`, and every path that parts ways with those `type`
      fields reads as before. */
  lemma RetypeLocals(t: Value)
    requires WellFormed(t)
    ensures var ps := TreeIndex.FindAllInstances(t, "type", Local);
      && Retype(t, ps, 0).Ok?
      && (forall q :: TreeIndex.ObjectHolding(t, q, "type", Local) ==>
            GetKey(Retype(t, ps, 0).value, TypePath(q)) == Found(Str(Assignment)))
  {
    var ps := TreeIndex.FindAllInstances(t, "type", Local);
    TreeIndex.FindAllInstancesSpec(t, "type", Local);
    MatchesTyped(t, ps);
    RetypeSucceeds(t, ps, 0);
    forall q | TreeIndex.ObjectHolding(t, q, "type", Local)
      ensures GetKey(Retype(t, ps, 0).value, TypePath(q)) == Found(Str(Assignment))
    {
      HoldingListed(ps, q);
    }
  }

  /** Every match of `type == "LocalStatement"` sits on a node with a `type` leaf. */
  lemma MatchesTyped(t: Value, ps: seq<Path>)
    requires forall r :: r in ps ==> TreeIndex.MatchAt(t, r, "type", Local)
    ensures forall k :: 0 <= k < |ps| ==> Typed(t, TreeIndex.DropLast(ps[k]), false)
  {
    forall k | 0 <= k < |ps| ensures Typed(t, TreeIndex.DropLast(ps[k]), false) {
      var p := ps[k];
      assert TreeIndex.MatchAt(t, p, "type", Local);
      assert TypePath(TreeIndex.DropLast(p)) == p;
    }
  }

  /** A listed `type` field is the one the loop drops to its object. */
  lemma HoldingListed(ps: seq<Path>, q: Path)
    requires TypePath(q) in ps
    ensures exists k :: 0 <= k < |ps| && TreeIndex.DropLast(ps[k]) == q
  {
    var k :| 0 <= k < |ps| && ps[k] == TypePath(q);
    assert TreeIndex.DropLast(ps[k]) == q;
  }

  // ---------------------------------------------------------------------------
  // The pass

  /** The last step: a root object with an array `body` has that body
      flattened once more and takes the `.body` of the result; anything else is
      flattened as a whole. Since `parse` returns the statement list itself,
      the result has no `.body` and the root is left with none (stored as
      `null`); `fixed` stores the flattened list instead. */
  function FlattenRoot(t: Value, d: BlockDraw, format: string -> Option<string>,
                       parse: string -> Option<Value>, fixed: bool): (r: Result<Access>)
    ensures t.Null? ==> r.Err?
  {
    if t.Null? then Err("TypeError: Cannot read properties of null (reading 'body')")
    else
      var body := GetProp(t, "body");
      if t.Obj? && Truthy(body) && body.value.Arr? then
        var n :- ProcessBlock(body, d, format, parse, fixed);
        match n
        case Undefined => Err("TypeError: Cannot read properties of undefined (reading 'body')")
        case Defined(v) =>
          if v.Null? then Err("TypeError: Cannot read properties of null (reading 'body')")
          else Ok(Defined(Obj(SetOwn(t.fields, "body", Stored(if fixed then n else GetProp(v, "body"))))))
      else ProcessBlock(Defined(t), d, format, parse, fixed)
  }

  /** A root with an array body whose flattened text parses: as written the
      body is lost, corrected it is the re-parsed statement list. */
  lemma RootBody(fs: seq<Member>, d: BlockDraw, format: string -> Option<string>,
                 parse: string -> Option<Value>, fixed: bool, items: seq<Value>)
    requires Own(fs, "body").Defined? && Own(fs, "body").value.Arr?
    requires ProcessBlock(Own(fs, "body"), d, format, parse, fixed) == Ok(Defined(Arr(items)))
    ensures FlattenRoot(Obj(fs), d, format, parse, fixed).Ok?
    ensures FlattenRoot(Obj(fs), d, format, parse, fixed).value.Defined?
    ensures FlattenRoot(Obj(fs), d, format, parse, fixed).value.value.Obj?
    ensures Own(FlattenRoot(Obj(fs), d, format, parse, fixed).value.value.fields, "body")
      == Defined(if fixed then Arr(items) else Null)
  {
    var body := GetProp(Obj(fs), "body");
    assert body == Own(fs, "body") && Truthy(body);
    assert GetProp(Arr(items), "body") == Undefined;
    var stored := Stored(if fixed then Defined(Arr(items)) else Undefined);
    assert FlattenRoot(Obj(fs), d, format, parse, fixed) == Ok(Defined(Obj(SetOwn(fs, "body", stored))));
  }

  /** `ControlFlow(AST)`: retype the local declarations, flatten every body
      array deepest first (the `k`-th with the `k`-th draws), then flatten the
      root. */
  function ControlFlow(t: Value, draws: nat -> BlockDraw, format: string -> Option<string>,
                       parse: string -> Option<Value>, fixed: bool): (r: Result<Access>)
    ensures t.Null? ==> r.Err?
  {
    var t1 :- Retype(t, TreeIndex.FindAllInstances(t, "type", Local), 0);
    var bodies := TreeIndex.SortByLengthDesc(TreeIndex.FindAllBodies(t1, 30));
    var t2 :- TreeIndex.ReplaceAll(t1, bodies, 0,
      (k: nat, a: Access) => var n :- ProcessBlock(a, draws(k), format, parse, fixed); Ok(Stored(n)));
    FlattenRoot(t2, draws(|bodies|), format, parse, fixed)
  }
}
