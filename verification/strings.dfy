/** The tree side of `EncryptStrings.js`: `StringifyMemberExpressions`, which
    is meant to turn every dot access into an index by a string literal, and
    the loop that replaces the `raw` text of sampled string literals by a call
    of the emitted decoder. */
module Strings {
  import opened Wrappers
  import opened Json
  import TreeIndex
  import Text
  import Utils
  import Cipher
  import Escapes
  import Mangle

  // ---------------------------------------------------------------------------
  // StringifyMemberExpressions

  /** `{type: "IndexExpression", base: Node.base, index: {type: "StringLiteral",
      value: null, raw: "\"name\""}}`. A `base` that reads `undefined` is left
      out, which every later read sees the same way. */
  function IndexNode(base: Access, name: string): Value
  {
    Obj([Member("type", Str("IndexExpression"))]
        + (if base.Defined? then [Member("base", base.value)] else [])
        + [Member("index", QuotedName(name))])
  }

  /** `{type: "StringLiteral", value: null, raw: "\"name\""}`. */
  function QuotedName(name: string): Value
  {
    Obj([Member("type", Str("StringLiteral")), Member("value", Null), Member("raw", Str("\"" + name + "\""))])
  }

  /** The index node keeps the member expression's `base` as it was read. */
  lemma IndexNodeFields(base: Access, name: string)
    ensures GetProp(IndexNode(base, name), "base") == base
    ensures GetProp(IndexNode(base, name), "type") == Defined(Str("IndexExpression"))
    ensures GetProp(IndexNode(base, name), "index") == Defined(QuotedName(name))
  {
    var fs := IndexNode(base, name).fields;
    var index := [Member("index", QuotedName(name))];
    assert "type" != "base" by {
      assert "type"[0] != "base"[0];
    }
    if base.Defined? {
      assert fs == [Member("type", Str("IndexExpression")), Member("base", base.value)] + index;
      assert fs[1..] == [Member("base", base.value)] + index && fs[1..][1..] == index;
      assert Own(fs[1..], "base") == base;
      assert Own(fs, "index") == Own(fs[1..], "index") == Own(index, "index");
    } else {
      assert fs == [Member("type", Str("IndexExpression"))] + index && fs[1..] == index;
      assert Own(fs, "index") == Own(index, "index");
    }
  }

  /** The text of `identifier.name`, the field a dot access names. */
  function AccessedName(node: Value): Option<string>
  {
    match GetProp(node, "identifier")
    case Undefined => None
    case Defined(ident) => if ident.Null? then None else JsText(GetProp(ident, "name"))
  }

  /** What the loop does with the value `Node` it reads: a dot access becomes
      `Some` index node, anything else is left (`None`). Reading `indexer` of
      `null` or `undefined` throws, and so does reading `name` of a missing
      `identifier`. */
  function StringifyNode(node: Access): (r: Result<Option<Value>>)
    ensures r.Err? <==> (node.Undefined? || node == Defined(Null)
      || (GetProp(node.value, "indexer") == Defined(Str(".")) &&
          (GetProp(node.value, "identifier").Undefined? || GetProp(node.value, "identifier") == Defined(Null)
           || JsText(GetProp(GetProp(node.value, "identifier").value, "name")).None?)))
    ensures r.Ok? && r.value.Some? <==> r.Ok? && GetProp(node.value, "indexer") == Defined(Str("."))
    ensures r.Ok? && r.value.Some? ==>
      var name := JsText(GetProp(GetProp(node.value, "identifier").value, "name")).value;
      r.value.value == IndexNode(GetProp(node.value, "base"), name)
  {
    match node
    case Undefined => Err("TypeError: Cannot read properties of undefined (reading 'indexer')")
    case Defined(v) =>
      if v.Null? then Err("TypeError: Cannot read properties of null (reading 'indexer')")
      else if GetProp(v, "indexer") != Defined(Str(".")) then Ok(None)
      else match GetProp(v, "identifier")
        case Undefined => Err("TypeError: Cannot read properties of undefined (reading 'name')")
        case Defined(ident) =>
          if ident.Null? then Err("TypeError: Cannot read properties of null (reading 'name')")
          else match JsText(GetProp(ident, "name"))
            case None => Err("array stringification is not modelled")
            case Some(name) => Ok(Some(IndexNode(GetProp(v, "base"), name)))
  }

  /** The place `ParentNode[Path.at(-1)]` names: for an empty path the key is
      `undefined`, which JavaScript reads as the property `"undefined"`. */
  function Target(p: Path): (r: Path)
    ensures r != []
  {
    if p == [] then [Name("undefined")] else p
  }

  /** Every position the loop may still write, from `i` on, parts ways with `q`. */
  predicate Untouched(ps: seq<Path>, i: nat, q: Path)
  {
    forall k :: i <= k < |ps| ==> Diverge(Target(ps[k]), q)
  }

  /** One turn of the loop at path `p`: walk to the parent, read the node and
      decide on its replacement. Walking through `null` or `undefined`, or
      reading a property of either, throws. */
  function Visit(t: Value, p: Path): (r: Result<Option<Value>>)
    ensures r.Ok? ==> GetKey(t, TreeIndex.DropLast(Target(p))).Found?
  {
    var tp := Target(p);
    var parent := GetKey(t, TreeIndex.DropLast(tp));
    if !parent.Found? || parent.value.Null? then Err("TypeError: Cannot read properties of undefined")
    else StringifyNode(GetProp(parent.value, PropName(tp[|tp| - 1])))
  }

  /** The loop of `StringifyMemberExpressions` over `ps` from position `i`,
      replacing each dot access in place. Whatever it writes, a position apart
      from every listed one keeps its value. */
  function Stringify(t: Value, ps: seq<Path>, i: nat): (r: Result<Value>)
    ensures r.Ok? ==> forall q :: Untouched(ps, i, q) ==> GetKey(r.value, q) == GetKey(t, q)
    decreases |ps| - i
  {
    if i >= |ps| then Ok(t)
    else
      var step :- Visit(t, ps[i]);
      if step.None? then Stringify(t, ps, i + 1)
      else
        var t' :- Put(t, Target(ps[i]), step.value);
        PutFrameAll(t, Target(ps[i]), step.value);
        Stringify(t', ps, i + 1)
  }

  /** As written: the loop runs over the paths `FindAllInstances` returns,
      which end in the `type` key, so the node it inspects is the string
      `"MemberExpression"` itself. */
  function StringifyMemberExpressions(t: Value): Result<Value>
  {
    Stringify(t, TreeIndex.FindAllInstances(t, "type", "MemberExpression"), 0)
  }

  /** Corrected: the loop runs over the member-expression nodes themselves
      (each path with its trailing `type` dropped). */
  function StringifyMemberExpressionsFixed(t: Value): Result<Value>
  {
    Stringify(t, MemberPositions(t), 0)
  }

  /** The position of every member-expression object, in pre-order. */
  function MemberPositions(t: Value): seq<Path>
  {
    TreeIndex.Parents(TreeIndex.FindAllInstances(t, "type", "MemberExpression"))
  }

  /** A string has no `indexer` property. */
  lemma StringHasNoIndexer(s: string)
    ensures StringifyNode(Defined(Str(s))) == Ok(None)
  {
    assert !IsCanonicalIndex("indexer") by {
      assert !Text.IsDigit("indexer"[0]);
    }
  }

  /** At a path that ends in a `type` field, the node read is a string, which
      has no `indexer`: nothing is replaced. */
  lemma VisitTypeField(t: Value, p: Path)
    requires TreeIndex.MatchAt(t, p, "type", "MemberExpression")
    ensures Visit(t, p) == Ok(None)
  {
    TreeIndex.MatchOwner(t, p, "type", "MemberExpression");
    var parent := GetKey(t, p[..|p| - 1]).value;
    assert GetProp(parent, PropName(p[|p| - 1])) == Defined(Str("MemberExpression"));
    VisitAt(t, p, parent, Str("MemberExpression"));
    StringHasNoIndexer("MemberExpression");
  }

  /** Over paths that each end at a `type` field holding a string, the loop
      writes nothing. */
  lemma {:induction false} StringifyTypeFields(t: Value, ps: seq<Path>, i: nat)
    requires forall k :: 0 <= k < |ps| ==> TreeIndex.MatchAt(t, ps[k], "type", "MemberExpression")
    ensures Stringify(t, ps, i) == Ok(t)
    decreases |ps| - i
  {
    if i < |ps| {
      VisitTypeField(t, ps[i]);
      StringifyTypeFields(t, ps, i + 1);
    }
  }

  /** As written the pass changes nothing: no dot access is ever rewritten. */
  lemma StringifyMemberExpressionsIsIdentity(t: Value)
    requires WellFormed(t)
    ensures StringifyMemberExpressions(t) == Ok(t)
  {
    var ps := TreeIndex.FindAllInstances(t, "type", "MemberExpression");
    TreeIndex.FindAllInstancesSpec(t, "type", "MemberExpression");
    forall k | 0 <= k < |ps| ensures TreeIndex.MatchAt(t, ps[k], "type", "MemberExpression") {
      assert ps[k] in ps;
    }
    StringifyTypeFields(t, ps, 0);
  }

  /** Corrected, one member expression at a time: the node the loop reaches at a
      listed position is a member-expression object, a dot access there is
      replaced by the index node and a colon access is left as it is. */
  lemma StringifyFixedStep(t: Value, k: nat)
    requires WellFormed(t)
    requires k < |TreeIndex.Parents(TreeIndex.FindAllInstances(t, "type", "MemberExpression"))|
    ensures var q := TreeIndex.Parents(TreeIndex.FindAllInstances(t, "type", "MemberExpression"))[k];
      GetKey(t, q).Found? && GetKey(t, q).value.Obj?
      && Own(GetKey(t, q).value.fields, "type") == Defined(Str("MemberExpression"))
  {
    var found := TreeIndex.FindAllInstances(t, "type", "MemberExpression");
    var q := TreeIndex.Parents(found)[k];
    TreeIndex.ObjSearchIsParents(t, "type", "MemberExpression", []);
    assert q in TreeIndex.ObjectInstances(t, "type", "MemberExpression");
    TreeIndex.MatchParentIsMatchedObject(t, "type", "MemberExpression", q);
  }

  /** Corrected, at a member expression's own position `q`, the loop decides
      on the node itself: a dot access is replaced by an index by the quoted
      field name, a colon access is left alone. */
  lemma VisitNode(t: Value, q: Path)
    requires q != [] && GetKey(t, q).Found?
    ensures Visit(t, q) == StringifyNode(Defined(GetKey(t, q).value))
  {
    GetKeyParent(t, q);
    VisitAt(t, q, GetKey(t, q[..|q| - 1]).value, GetKey(t, q).value);
  }

  /** `Visit` once its parent and the node read there are known. */
  lemma VisitAt(t: Value, q: Path, parent: Value, node: Value)
    requires q != [] && GetKey(t, q[..|q| - 1]) == Found(parent) && !parent.Null?
    requires GetProp(parent, PropName(q[|q| - 1])) == Defined(node)
    ensures Visit(t, q) == StringifyNode(Defined(node))
  {
    assert Target(q) == q;
  }

  // ---------------------------------------------------------------------------
  // The loop over nested member expressions

  /** Only objects answer `indexer`. */
  lemma IndexerOnlyOnObjects(v: Value)
    requires GetProp(v, "indexer").Defined?
    ensures v.Obj?
  {
    assert !IsCanonicalIndex("indexer") by {
      assert !Text.IsDigit("indexer"[0]);
    }
  }

  /** A turn of the loop depends only on what its position reads: it throws
      unless the position holds a value, and then decides on that value. */
  lemma VisitReads(t: Value, p: Path)
    ensures Visit(t, p).Ok? <==>
      GetKey(t, Target(p)).Found? && StringifyNode(Defined(GetKey(t, Target(p)).value)).Ok?
    ensures Visit(t, p).Ok? ==> Visit(t, p) == StringifyNode(Defined(GetKey(t, Target(p)).value))
  {
    var tp := Target(p);
    assert Visit(t, p) == Visit(t, tp);
    if GetKey(t, tp).Found? {
      VisitNode(t, tp);
    } else {
      var n := |tp| - 1;
      assert tp == tp[..n] + [tp[n]];
      if GetKey(t, tp[..n]).Found? && !GetKey(t, tp[..n]).value.Null? {
        GetKeySnoc(t, tp[..n], tp[n]);
      }
    }
  }

  /** `q` lies under the `base` of the node at `p`. */
  predicate UnderBase(p: Path, q: Path)
  {
    |p| < |q| && PrefixOf(p, q) && PropName(q[|p|]) == "base"
  }

  /** Each position the loop reaches from `i` on parts ways with every earlier
      one or lies under its `base`, as a member expression's object does. */
  predicate InTurn(ps: seq<Path>, i: nat)
  {
    forall a, b :: i <= a < b < |ps| ==>
      Diverge(Target(ps[a]), Target(ps[b])) || UnderBase(Target(ps[a]), Target(ps[b]))
  }

  /** After the loop, every field of a replacement other than `base` reads as written. */
  ghost predicate Landed(r: Value, p: Path, x: Value)
  {
    forall f :: f != "base" ==> GetKey(r, Target(p) + [Name(f)]) == AsReading(GetProp(x, f))
  }

  /** A replacement leaves every later position reading as before. */
  lemma ReplaceKeepsLater(t: Value, tp: Path, x: Value, q: Path)
    requires tp != [] && GetKey(t, tp).Found? && GetKey(t, tp).value.Obj? && x.Obj?
    requires GetProp(x, "base") == GetProp(GetKey(t, tp).value, "base")
    requires Diverge(tp, q) || UnderBase(tp, q)
    ensures Put(t, tp, x).Ok? && GetKey(Put(t, tp, x).value, q) == GetKey(t, q)
  {
    PutThenGetObj(t, tp, x);
    if Diverge(tp, q) {
      PutFrame(t, tp, x, q);
    } else {
      PutKeepsField(t, tp, x, q, "base");
    }
  }

  /** No later position reaches into a replacement's fields other than `base`. */
  lemma FieldsApartFromLater(ps: seq<Path>, i: nat, f: string)
    requires i < |ps| && InTurn(ps, i) && f != "base"
    ensures Untouched(ps, i + 1, Target(ps[i]) + [Name(f)])
  {
    var tp := Target(ps[i]);
    forall k | i + 1 <= k < |ps| ensures Diverge(Target(ps[k]), tp + [Name(f)]) {
      if Diverge(tp, Target(ps[k])) {
        DivergeAppend(tp, Target(ps[k]), [Name(f)]);
        DivergeSymmetric(tp + [Name(f)], Target(ps[k]));
      } else {
        FieldApart(tp, Target(ps[k]), f);
      }
    }
  }

  /** A turn decided the same way on two trees. */
  predicate SameTurn(t: Value, t': Value, p: Path)
  {
    (Visit(t', p).Ok? <==> Visit(t, p).Ok?) && (Visit(t, p).Ok? ==> Visit(t', p) == Visit(t, p))
  }

  /** A replacement that keeps `base` leaves every later turn as it was. */
  lemma LaterTurnsKept(t: Value, ps: seq<Path>, i: nat, x: Value)
    requires i < |ps| && InTurn(ps, i)
    requires GetKey(t, Target(ps[i])).Found? && GetKey(t, Target(ps[i])).value.Obj? && x.Obj?
    requires GetProp(x, "base") == GetProp(GetKey(t, Target(ps[i])).value, "base")
    ensures Put(t, Target(ps[i]), x).Ok?
    ensures forall k :: i < k < |ps| ==> SameTurn(t, Put(t, Target(ps[i]), x).value, ps[k])
  {
    var tp := Target(ps[i]);
    PutThenGetObj(t, tp, x);
    var t' := Put(t, tp, x).value;
    forall k | i < k < |ps| ensures SameTurn(t, t', ps[k]) {
      ReplaceKeepsLater(t, tp, x, Target(ps[k]));
      VisitReads(t, ps[k]);
      VisitReads(t', ps[k]);
    }
  }

  /** Every turn from `i` on, judged on `t`, succeeds. */
  ghost predicate AllOk(t: Value, ps: seq<Path>, i: nat)
  {
    forall k :: i <= k < |ps| ==> Visit(t, ps[k]).Ok?
  }

  /** Every replacement that a turn from `i` on decides on `t` reads as written in `r`. */
  ghost predicate AllLanded(r: Value, t: Value, ps: seq<Path>, i: nat)
  {
    forall k :: i <= k < |ps| && Visit(t, ps[k]).Ok? && Visit(t, ps[k]).value.Some? ==>
      Landed(r, ps[k], Visit(t, ps[k]).value.value)
  }

  /** The loop over positions taken in turn: it succeeds exactly when every
      turn, judged on the tree as it was, succeeds, and each replacement's
      fields other than `base` survive the later turns. */
  lemma {:induction false} StringifyInTurn(t: Value, ps: seq<Path>, i: nat)
    requires InTurn(ps, i)
    ensures Stringify(t, ps, i).Ok? <==> AllOk(t, ps, i)
    ensures Stringify(t, ps, i).Ok? ==> AllLanded(Stringify(t, ps, i).value, t, ps, i)
    decreases |ps| - i, 2
  {
    if i < |ps| {
      var step := Visit(t, ps[i]);
      if step.Err? {
        StringifyFailsInTurn(t, ps, i);
      } else if step.value.None? {
        StringifyKeepInTurn(t, ps, i);
      } else {
        StringifyReplaceInTurn(t, ps, i);
      }
    }
  }

  /** `StringifyInTurn` at a turn that throws. */
  lemma StringifyFailsInTurn(t: Value, ps: seq<Path>, i: nat)
    requires i < |ps| && Visit(t, ps[i]).Err?
    ensures Stringify(t, ps, i).Ok? <==> AllOk(t, ps, i)
    ensures Stringify(t, ps, i).Ok? ==> AllLanded(Stringify(t, ps, i).value, t, ps, i)
  {
    assert Stringify(t, ps, i).Err?;
  }

  /** `StringifyInTurn` at a turn that leaves its node. */
  lemma {:induction false} StringifyKeepInTurn(t: Value, ps: seq<Path>, i: nat)
    requires i < |ps| && InTurn(ps, i)
    requires Visit(t, ps[i]).Ok? && Visit(t, ps[i]).value.None?
    ensures Stringify(t, ps, i).Ok? <==> AllOk(t, ps, i)
    ensures Stringify(t, ps, i).Ok? ==> AllLanded(Stringify(t, ps, i).value, t, ps, i)
    decreases |ps| - i, 1
  {
    StringifyInTurn(t, ps, i + 1);
    StringifyKeeps(t, ps, i);
    KeptTurn(Stringify(t, ps, i + 1), t, ps, i);
  }

  /** One turn that leaves its node, unrolled. */
  lemma StringifyKeeps(t: Value, ps: seq<Path>, i: nat)
    requires i < |ps| && Visit(t, ps[i]).Ok? && Visit(t, ps[i]).value.None?
    ensures Stringify(t, ps, i) == Stringify(t, ps, i + 1)
  {
  }

  /** A turn that leaves its node adds nothing to the loop's success or to what lands. */
  lemma KeptTurn(r: Result<Value>, t: Value, ps: seq<Path>, i: nat)
    requires i < |ps| && Visit(t, ps[i]).Ok? && Visit(t, ps[i]).value.None?
    requires r.Ok? <==> AllOk(t, ps, i + 1)
    requires r.Ok? ==> AllLanded(r.value, t, ps, i + 1)
    ensures r.Ok? <==> AllOk(t, ps, i)
    ensures r.Ok? ==> AllLanded(r.value, t, ps, i)
  {
    if !AllOk(t, ps, i) {
      var k :| i <= k < |ps| && !Visit(t, ps[k]).Ok?;
      assert !AllOk(t, ps, i + 1);
    }
  }

  /** `StringifyInTurn` at a turn that replaces its node. */
  lemma {:induction false} StringifyReplaceInTurn(t: Value, ps: seq<Path>, i: nat)
    requires i < |ps| && InTurn(ps, i)
    requires Visit(t, ps[i]).Ok? && Visit(t, ps[i]).value.Some?
    ensures Stringify(t, ps, i).Ok? <==> AllOk(t, ps, i)
    ensures Stringify(t, ps, i).Ok? ==> AllLanded(Stringify(t, ps, i).value, t, ps, i)
    decreases |ps| - i, 1
  {
    var tp := Target(ps[i]);
    var x := Visit(t, ps[i]).value.value;
    assert GetKey(t, tp).Found? && GetKey(t, tp).value.Obj? && x.Obj?
      && GetProp(x, "base") == GetProp(GetKey(t, tp).value, "base") by {
      VisitReads(t, ps[i]);
      var node := GetKey(t, tp).value;
      IndexerOnlyOnObjects(node);
      IndexNodeFields(GetProp(node, "base"), AccessedName(node).value);
    }
    LaterTurnsKept(t, ps, i, x);
    StringifyReplaces(t, ps, i);
    LandedAtTurn(t, ps, i, x);
    ReplacedInTurn(t, Put(t, tp, x).value, ps, i);
  }

  /** `StringifyReplaceInTurn` once the tree after the turn is known as `t'`. */
  lemma {:induction false} ReplacedInTurn(t: Value, t': Value, ps: seq<Path>, i: nat)
    requires i < |ps| && InTurn(ps, i)
    requires Visit(t, ps[i]).Ok? && Visit(t, ps[i]).value.Some?
    requires forall k :: i < k < |ps| ==> SameTurn(t, t', ps[k])
    requires Stringify(t, ps, i) == Stringify(t', ps, i + 1)
    requires Stringify(t', ps, i + 1).Ok? ==> Landed(Stringify(t', ps, i + 1).value, ps[i], Visit(t, ps[i]).value.value)
    ensures Stringify(t, ps, i).Ok? <==> AllOk(t, ps, i)
    ensures Stringify(t, ps, i).Ok? ==> AllLanded(Stringify(t, ps, i).value, t, ps, i)
    decreases |ps| - i, 0
  {
    StringifyInTurn(t', ps, i + 1);
    TurnsCarryOver(Stringify(t', ps, i + 1), t, t', ps, i);
  }

  /** One replacing turn, unrolled. */
  lemma StringifyReplaces(t: Value, ps: seq<Path>, i: nat)
    requires i < |ps| && Visit(t, ps[i]).Ok? && Visit(t, ps[i]).value.Some?
    requires Put(t, Target(ps[i]), Visit(t, ps[i]).value.value).Ok?
    ensures Stringify(t, ps, i) == Stringify(Put(t, Target(ps[i]), Visit(t, ps[i]).value.value).value, ps, i + 1)
  {
  }

  /** What holds of the loop from `i + 1` on the tree after turn `i` holds of
      the loop from `i` on the tree before, once turn `i` is accounted for. */
  lemma TurnsCarryOver(r: Result<Value>, t: Value, t': Value, ps: seq<Path>, i: nat)
    requires i < |ps| && Visit(t, ps[i]).Ok? && Visit(t, ps[i]).value.Some?
    requires forall k :: i < k < |ps| ==> SameTurn(t, t', ps[k])
    requires r.Ok? <==> AllOk(t', ps, i + 1)
    requires r.Ok? ==> AllLanded(r.value, t', ps, i + 1)
    requires r.Ok? ==> Landed(r.value, ps[i], Visit(t, ps[i]).value.value)
    ensures r.Ok? <==> AllOk(t, ps, i)
    ensures r.Ok? ==> AllLanded(r.value, t, ps, i)
  {
    OkCarriesOver(r, t, t', ps, i);
    if r.Ok? {
      forall k | i <= k < |ps| && Visit(t, ps[k]).Ok? && Visit(t, ps[k]).value.Some?
        ensures Landed(r.value, ps[k], Visit(t, ps[k]).value.value)
      {
        if k > i {
          assert SameTurn(t, t', ps[k]);
        }
      }
    }
  }

  /** The success half of `TurnsCarryOver`. */
  lemma OkCarriesOver(r: Result<Value>, t: Value, t': Value, ps: seq<Path>, i: nat)
    requires i < |ps| && Visit(t, ps[i]).Ok?
    requires forall k :: i < k < |ps| ==> SameTurn(t, t', ps[k])
    requires r.Ok? <==> AllOk(t', ps, i + 1)
    ensures r.Ok? <==> AllOk(t, ps, i)
  {
    if AllOk(t, ps, i) {
      forall k | i + 1 <= k < |ps| ensures Visit(t', ps[k]).Ok? {
        assert SameTurn(t, t', ps[k]);
      }
      assert AllOk(t', ps, i + 1);
    } else {
      var k :| i <= k < |ps| && !Visit(t, ps[k]).Ok?;
      assert SameTurn(t, t', ps[k]);
      assert !AllOk(t', ps, i + 1);
    }
  }

  /** The replacement made at turn `i` is still in place when the loop ends. */
  lemma LandedAtTurn(t: Value, ps: seq<Path>, i: nat, x: Value)
    requires i < |ps| && InTurn(ps, i)
    requires GetKey(t, Target(ps[i])).Found? && GetKey(t, Target(ps[i])).value.Obj?
    requires Put(t, Target(ps[i]), x).Ok? && x.Obj?
    ensures Stringify(Put(t, Target(ps[i]), x).value, ps, i + 1).Ok? ==>
      Landed(Stringify(Put(t, Target(ps[i]), x).value, ps, i + 1).value, ps[i], x)
  {
    var tp := Target(ps[i]);
    PutThenGetObj(t, tp, x);
    var t' := Put(t, tp, x).value;
    if Stringify(t', ps, i + 1).Ok? {
      var r := Stringify(t', ps, i + 1).value;
      forall f | f != "base" ensures GetKey(r, tp + [Name(f)]) == AsReading(GetProp(x, f)) {
        FieldsApartFromLater(ps, i, f);
        FieldRead(t', tp, f);
      }
    }
  }

  /** Member expressions lie inside one another only under `base`, as they do
      in every tree the parser builds: a member expression's other fields hold
      its `indexer` string and its `identifier`. */
  predicate NestInBase(t: Value)
  {
    var ps := MemberPositions(t);
    forall a, b :: 0 <= a < |ps| && 0 <= b < |ps| && a != b ==>
      Diverge(ps[a], ps[b]) || UnderBase(ps[a], ps[b]) || UnderBase(ps[b], ps[a])
  }

  /** The search lists an outer member expression before the ones under its
      `base`, so the corrected loop takes its positions in turn. */
  lemma NestInBaseInTurn(t: Value)
    requires WellFormed(t) && NestInBase(t)
    ensures InTurn(MemberPositions(t), 0)
  {
    var ps := MemberPositions(t);
    TreeIndex.ObjSearchIsParents(t, "type", "MemberExpression", []);
    TreeIndex.ObjSearchPreOrder(t, "type", "MemberExpression", []);
    assert TreeIndex.PreOrdered(ps);
    forall a, b | 0 <= a < b < |ps|
      ensures Diverge(Target(ps[a]), Target(ps[b])) || UnderBase(Target(ps[a]), Target(ps[b]))
    {
      assert !PrefixOf(ps[b], ps[a]);
      assert ps[b] != [];
      if ps[a] == [] {
        assert UnderBase(ps[a], ps[b]);
        assert PropName(Target(ps[a])[0]) != PropName(ps[b][0]);
      }
    }
  }

  /** A dot access found at `q` in `t` reads in `r` as an index expression
      whose index is the quoted field name. */
  predicate DotRewritten(t: Value, r: Value, q: Path)
  {
    (GetKey(t, q).Found? && GetProp(GetKey(t, q).value, "indexer") == Defined(Str("."))) ==>
      && AccessedName(GetKey(t, q).value).Some?
      && GetKey(r, q + [Name("type")]) == Found(Str("IndexExpression"))
      && GetKey(r, q + [Name("index")]) == Found(QuotedName(AccessedName(GetKey(t, q).value).value))
  }

  /** Corrected, whole pass: on a tree whose member expressions nest only under
      `base`, the pass succeeds exactly when every turn does; then each dot
      access has become an index expression whose index is the quoted field
      name, and every position apart from the member expressions reads as before. */
  lemma StringifyFixedRewrites(t: Value)
    requires WellFormed(t) && NestInBase(t)
    ensures StringifyMemberExpressionsFixed(t).Ok? <==>
      forall k :: 0 <= k < |MemberPositions(t)| ==> Visit(t, MemberPositions(t)[k]).Ok?
    ensures StringifyMemberExpressionsFixed(t).Ok? ==>
      forall q :: Untouched(MemberPositions(t), 0, q) ==>
        GetKey(StringifyMemberExpressionsFixed(t).value, q) == GetKey(t, q)
    ensures StringifyMemberExpressionsFixed(t).Ok? ==>
      forall k :: 0 <= k < |MemberPositions(t)| && MemberPositions(t)[k] != [] ==>
        DotRewritten(t, StringifyMemberExpressionsFixed(t).value, MemberPositions(t)[k])
  {
    var ps := MemberPositions(t);
    NestInBaseInTurn(t);
    StringifyInTurn(t, ps, 0);
    var r := StringifyMemberExpressionsFixed(t);
    if r.Ok? {
      forall k | 0 <= k < |ps| && ps[k] != [] ensures DotRewritten(t, r.value, ps[k]) {
        if GetKey(t, ps[k]).Found? {
          VisitNode(t, ps[k]);
          if Visit(t, ps[k]).Ok? && Visit(t, ps[k]).value.Some? {
            DotRewrittenAt(t, r.value, ps[k]);
          }
        }
      }
    }
  }

  /** One replaced member expression, read back field by field. */
  lemma DotRewrittenAt(t: Value, r: Value, q: Path)
    requires q != [] && GetKey(t, q).Found?
    requires Visit(t, q) == StringifyNode(Defined(GetKey(t, q).value))
    requires Visit(t, q).Ok? && Visit(t, q).value.Some?
    requires Landed(r, q, Visit(t, q).value.value)
    ensures DotRewritten(t, r, q)
  {
    var node := GetKey(t, q).value;
    var x := Visit(t, q).value.value;
    assert StringifyNode(Defined(node)) == Ok(Some(x));
    LandedRewrite(node, x, r, q);
  }

  /** The index node that replaced `node` at `q`, read back from the finished tree. */
  lemma LandedRewrite(node: Value, x: Value, r: Value, q: Path)
    requires q != [] && StringifyNode(Defined(node)) == Ok(Some(x)) && Landed(r, q, x)
    ensures AccessedName(node).Some?
    ensures GetKey(r, q + [Name("type")]) == Found(Str("IndexExpression"))
    ensures GetKey(r, q + [Name("index")]) == Found(QuotedName(AccessedName(node).value))
  {
    IndexNodeFields(GetProp(node, "base"), AccessedName(node).value);
    assert Target(q) == q;
    assert GetKey(r, q + [Name("type")]) == AsReading(GetProp(x, "type"));
    assert GetKey(r, q + [Name("index")]) == AsReading(GetProp(x, "index"));
  }

  /** `a.b` as a call statement's expression. */
  function DotCall(): Value
  {
    Obj([Member("type", Str("CallStatement")),
         Member("expression", Obj([Member("type", Str("MemberExpression")), Member("indexer", Str(".")),
                                   Member("identifier", Obj([Member("type", Str("Identifier")), Member("name", Str("b"))])),
                                   Member("base", Obj([Member("type", Str("Identifier")), Member("name", Str("a"))]))]))])
  }

  /** On `a.b` the loop as written, over the `type` field's path, leaves the
      tree as it was. */
  lemma DotCallAsWritten()
    ensures Stringify(DotCall(), [[Name("expression"), Name("type")]], 0) == Ok(DotCall())
  {
    var t := DotCall();
    var p := [Name("expression"), Name("type")];
    var me := GetKey(t, [Name("expression")]).value;
    assert TreeIndex.MatchAt(t, p, "type", "MemberExpression") by {
      assert p[..1] == [Name("expression")];
      assert GetKey(t, p) == GetKey(me, [Name("type")]);
    }
    VisitTypeField(t, p);
  }

  /** The identifier `a`. */
  function IdentA(): Value
  {
    Obj([Member("type", Str("Identifier")), Member("name", Str("a"))])
  }

  /** A dot access whose identifier names `name` becomes the index node on its base. */
  lemma DotNode(node: Value, ident: Value, name: string)
    requires GetProp(node, "indexer") == Defined(Str("."))
    requires GetProp(node, "identifier") == Defined(ident) && !ident.Null?
    requires GetProp(ident, "name") == Defined(Str(name))
    ensures StringifyNode(Defined(node)) == Ok(Some(IndexNode(GetProp(node, "base"), name)))
  {
  }

  lemma DotCallVisit()
    ensures Visit(DotCall(), [Name("expression")]) == Ok(Some(IndexNode(Defined(IdentA()), "b")))
  {
    var t := DotCall();
    var q := [Name("expression")];
    var ident := Obj([Member("type", Str("Identifier")), Member("name", Str("b"))]);
    var me := Obj([Member("type", Str("MemberExpression")), Member("indexer", Str(".")),
                   Member("identifier", ident), Member("base", IdentA())]);
    assert GetProp(t, PropName(q[0])) == Defined(me) by {
      assert "type"[0] != "expression"[0];
    }
    assert q[..0] == [];
    VisitAt(t, q, t, me);
    DotCallFields(ident, me);
    DotNode(me, ident, "b");
  }

  /** The fields of `a.b` the loop reads. */
  lemma DotCallFields(ident: Value, me: Value)
    requires ident == Obj([Member("type", Str("Identifier")), Member("name", Str("b"))])
    requires me == Obj([Member("type", Str("MemberExpression")), Member("indexer", Str(".")),
                        Member("identifier", ident), Member("base", IdentA())])
    ensures GetProp(me, "indexer") == Defined(Str("."))
    ensures GetProp(me, "identifier") == Defined(ident)
    ensures GetProp(ident, "name") == Defined(Str("b"))
    ensures GetProp(me, "base") == Defined(IdentA())
  {
    var m0, m1, m2, m3 := me.fields[0], me.fields[1], me.fields[2], me.fields[3];
    assert me.fields == [m0] + ([m1] + ([m2] + [m3]));
    assert m0.key[0] == 't' && m1.key[0] == 'i' && m2.key[0] == 'i' && m3.key[0] == 'b';
    assert m1.key[1] != m2.key[1];
    OwnFourth(m0, m1, m2, m3);
    OwnAfter(m0, [m1] + ([m2] + [m3]), m1.key);
    OwnAfter(m1, [m2] + [m3], m1.key);
    OwnAfter(m0, [m1] + ([m2] + [m3]), m2.key);
    OwnAfter(m1, [m2] + [m3], m2.key);
    OwnAfter(m2, [m3], m2.key);
    OwnAfter(ident.fields[0], ident.fields[1..], "name");
  }

  /** The fourth of four fields is read when no earlier key is its own. */
  lemma OwnFourth(m0: Member, m1: Member, m2: Member, m3: Member)
    requires m0.key != m3.key && m1.key != m3.key && m2.key != m3.key
    ensures Own([m0] + ([m1] + ([m2] + [m3])), m3.key) == Defined(m3.val)
  {
    OwnAfter(m0, [m1] + ([m2] + [m3]), m3.key);
    OwnAfter(m1, [m2] + [m3], m3.key);
    OwnAfter(m2, [m3], m3.key);
    OwnAfter(m3, [], m3.key);
  }

  /** A field list read past its first member. */
  lemma OwnAfter(m: Member, rest: seq<Member>, n: string)
    ensures Own([m] + rest, n) == if m.key == n then Defined(m.val) else Own(rest, n)
  {
    assert ([m] + rest)[1..] == rest;
  }

  lemma DotCallPut(x: Value)
    ensures Put(DotCall(), [Name("expression")], x) == Ok(Obj([Member("type", Str("CallStatement")), Member("expression", x)]))
  {
    var fs := DotCall().fields;
    assert fs[1..][0].key == "expression";
    assert SetOwn(fs[1..], "expression", x) == [Member("expression", x)];
    assert SetOwn(fs, "expression", x) == [fs[0], Member("expression", x)];
  }

  /** On `a.b` the corrected loop, over the node's own path, writes `a["b"]`. */
  lemma DotCallFixed()
    ensures Stringify(DotCall(), [[Name("expression")]], 0)
      == Ok(Obj([Member("type", Str("CallStatement")), Member("expression", IndexNode(Defined(IdentA()), "b"))]))
  {
    var q := [Name("expression")];
    var x := IndexNode(Defined(IdentA()), "b");
    DotCallVisit();
    DotCallPut(x);
    assert Target(q) == q;
    var t' := Obj([Member("type", Str("CallStatement")), Member("expression", x)]);
    assert Stringify(t', [q], 1) == Ok(t');
  }

  // ---------------------------------------------------------------------------
  // EncryptStrings

  /** `${Decryptor}("${Payload}", "${Key}")`: the call that replaces a literal. */
  function CallText(decryptor: string, e: Cipher.Encrypted): string
  {
    decryptor + "(\"" + e.payload + "\", \"" + e.key + "\")"
  }

  /** One literal's `raw` text: the bytes it denotes and, unless there are
      none, their encryption under the next pool order. A `raw` that is not a
      string makes `startsWith` throw. */
  function EncryptRaw(raw: Access, pool: string, draw: Cipher.LiteralDraw, fixed: bool): (r: Result<Option<Cipher.Encrypted>>)
    requires |pool| == 61 && multiset(pool) == multiset(Cipher.Pool)
    ensures r.Ok? <==> raw.Defined? && raw.value.Str? && Escapes.LiteralBytes(raw.value.s, fixed).Ok?
    ensures r.Ok? ==> (r.value.None? <==> Escapes.LiteralBytes(raw.value.s, fixed).value == [])
    ensures r.Ok? && r.value.Some? ==>
      multiset(r.value.value.pool) == multiset(Cipher.Pool) && |r.value.value.pool| == 61
  {
    if !(raw.Defined? && raw.value.Str?) then Err("TypeError: RawValue.startsWith is not a function")
    else
      var bytes :- Escapes.LiteralBytes(raw.value.s, fixed);
      if bytes == [] then Ok(None)
      else Ok(Some(Cipher.EncryptLiteral(bytes, pool, draw, fixed)))
  }

  /** `q` parts ways with every `raw` field still to be written from position `i` on. */
  predicate AvoidsRaws(ps: seq<Path>, i: nat, q: Path)
  {
    forall k :: i <= k < |ps| ==> Diverge(Mangle.RawPath(TreeIndex.DropLast(ps[k])), q)
  }

  lemma AvoidsRawsStep(ps: seq<Path>, i: nat)
    requires i < |ps|
    ensures forall q :: AvoidsRaws(ps, i, q) ==>
      AvoidsRaws(ps, i + 1, q) && Diverge(Mangle.RawPath(TreeIndex.DropLast(ps[i])), q)
  {
  }

  /** One sampled literal, whose parent node was found at `q`: read its `raw`,
      and unless it decodes to nothing, write the call text over it. The pool
      stays a reordering of the 61 characters, and nothing outside the `raw`
      field changes. */
  function EncryptAt(t: Value, q: Path, node: Value, pool: string, draw: Cipher.LiteralDraw,
                     decryptor: string, fixed: bool): (r: Result<(Value, string)>)
    requires |pool| == 61 && multiset(pool) == multiset(Cipher.Pool)
    ensures r.Ok? ==> |r.value.1| == 61 && multiset(r.value.1) == multiset(Cipher.Pool)
    ensures r.Ok? ==> forall p :: Diverge(Mangle.RawPath(q), p) ==> GetKey(r.value.0, p) == GetKey(t, p)
    // the literal's `raw` decodes; a literal of no bytes is left alone
    ensures r.Ok? ==> EncryptRaw(Get(node, Name("raw")), pool, draw, fixed).Ok?
    ensures r.Ok? && EncryptRaw(Get(node, Name("raw")), pool, draw, fixed).value.None? ==> r.value == (t, pool)
    // any other is overwritten by the call on its encryption, whose pool is passed on
    ensures (r.Ok? && GetKey(t, q) == Found(node) && EncryptRaw(Get(node, Name("raw")), pool, draw, fixed).value.Some?) ==>
      (r.value.1 == EncryptRaw(Get(node, Name("raw")), pool, draw, fixed).value.value.pool
       && GetKey(r.value.0, Mangle.RawPath(q)) == Found(Str(CallText(decryptor, EncryptRaw(Get(node, Name("raw")), pool, draw, fixed).value.value))))
  {
    if node.Null? then Err("TypeError: Cannot read properties of null (reading 'raw')")
    else
      var e :- EncryptRaw(Get(node, Name("raw")), pool, draw, fixed);
      if e.None? then Ok((t, pool))
      else
        var x := Str(CallText(decryptor, e.value));
        var t' :- Put(t, Mangle.RawPath(q), x);
        PutFrameAll(t, Mangle.RawPath(q), x);
        if GetKey(t, q) == Found(node) then
          RawOnlyOnObjects(node);
          RawLands(t, q, node, x);
          Ok((t', e.value.pool))
        else Ok((t', e.value.pool))
  }

  /** Only objects answer `raw`. */
  lemma RawOnlyOnObjects(v: Value)
    requires Get(v, Name("raw")).Defined?
    ensures v.Obj?
  {
    assert !IsCanonicalIndex("raw") by {
      assert !Text.IsDigit("raw"[0]);
    }
  }

  /** Writing the `raw` field of an object found at `q` lands there. */
  lemma RawLands(t: Value, q: Path, node: Value, x: Value)
    requires GetKey(t, q) == Found(node) && node.Obj?
    ensures Put(t, Mangle.RawPath(q), x).Ok?
    ensures GetKey(Put(t, Mangle.RawPath(q), x).value, Mangle.RawPath(q)) == Found(x)
  {
    var p := Mangle.RawPath(q);
    assert p[..|p| - 1] == q;
    PutThenGet(t, p, x);
  }

  /** The loop over the sampled literals from position `i`, with the shared
      character pool threaded through. The pool stays a reordering of the 61
      characters, and every path apart from the `raw` fields written reads as
      before. */
  function EncryptRaws(t: Value, ps: seq<Path>, i: nat, pool: string, draws: nat -> Cipher.LiteralDraw,
                       decryptor: string, fixed: bool): (r: Result<(Value, string)>)
    requires |pool| == 61 && multiset(pool) == multiset(Cipher.Pool)
    ensures r.Ok? ==> |r.value.1| == 61 && multiset(r.value.1) == multiset(Cipher.Pool)
    ensures r.Ok? ==> forall q :: AvoidsRaws(ps, i, q) ==> GetKey(r.value.0, q) == GetKey(t, q)
    decreases |ps| - i
  {
    if i >= |ps| then Ok((t, pool))
    else
      AvoidsRawsStep(ps, i);
      var q := TreeIndex.DropLast(ps[i]);
      match GetKey(t, q)
      case Found(node) =>
        var s := EncryptAt(t, q, node, pool, draws(i), decryptor, fixed);
        if s.Err? then Err(s.error)
        else EncryptRaws(s.value.0, ps, i + 1, s.value.1, draws, decryptor, fixed)
      case Missing => Err("TypeError: Cannot read properties of undefined (reading 'raw')")
      case Thrown => Err("TypeError: Cannot read properties of undefined")
  }

  /** `EncryptStrings(AST, Percentage)` up to its final print and re-parse
      (EncryptStrings.js:193-194, not modelled): sample the string
      literals and encrypt each in turn, starting from the pool in its
      written order. `fixed` selects the corrected decoding of escapes and
      long brackets and the sentinel byte. */
  function EncryptStrings(t: Value, pct: nat, pick: nat -> nat, draws: nat -> Cipher.LiteralDraw,
                          decryptor: string, fixed: bool): (r: Result<(Value, string)>)
    ensures r.Ok? ==> |r.value.1| == 61 && multiset(r.value.1) == multiset(Cipher.Pool)
    // every path apart from the sampled literals' `raw` fields reads as before
    ensures r.Ok? ==> forall q :: AvoidsRaws(Sampled(t, pct, pick), 0, q) ==> GetKey(r.value.0, q) == GetKey(t, q)
  {
    EncryptRaws(t, Sampled(t, pct, pick), 0, Cipher.Pool, draws, decryptor, fixed)
  }

  /** The string literals `EncryptStrings` picks: a random sample of every
      node whose `type` is `StringLiteral`. */
  function Sampled(t: Value, pct: nat, pick: nat -> nat): seq<Path>
  {
    Utils.GetRandomSample(TreeIndex.FindAllInstances(t, "type", "StringLiteral"), pct, pick)
  }

  /** Text Lua reads back unchanged between double quotes: no quote, no
      backslash, no line break. */
  predicate Quotable(s: string)
  {
    forall i :: 0 <= i < |s| ==> s[i] != '"' && s[i] != '\\' && s[i] != '\n'
  }

  lemma PoolTextQuotable(s: string)
    requires Cipher.PoolText(s)
    ensures Quotable(s)
  {
    forall i | 0 <= i < |s| ensures s[i] != '"' && s[i] != '\\' && s[i] != '\n' {
      Cipher.PoolCharPlain(s[i]);
    }
  }

  lemma QuotableAppend(a: string, b: string)
    requires Quotable(a) && Quotable(b)
    ensures Quotable(a + b)
  {
    forall i | 0 <= i < |a + b| ensures (a + b)[i] != '"' && (a + b)[i] != '\\' && (a + b)[i] != '\n' {
      if i >= |a| {
        assert (a + b)[i] == b[i - |a|];
      }
    }
  }

  /** A payload is quotable: the delimiter's letter, the alphabet, and the
      encoded digits drawn from it. */
  lemma PayloadQuotable(d: string, alphabet: string, encoded: string)
    requires Cipher.IsDelimiter(d) && Cipher.PoolText(alphabet)
    requires forall j :: 0 <= j < |encoded| ==> encoded[j] in alphabet
    ensures Quotable(Cipher.Payload(d, alphabet, encoded))
  {
    PoolTextQuotable(alphabet);
    PoolTextQuotable(d[..4]);
    assert Quotable(d) by {
      assert forall j :: 0 <= j < 4 ==> d[j] == d[..4][j];
    }
    assert Cipher.PoolText(encoded) by {
      forall j | 0 <= j < |encoded| ensures Cipher.IsPoolChar(encoded[j]) {
        var k :| 0 <= k < |alphabet| && alphabet[k] == encoded[j];
      }
    }
    PoolTextQuotable(encoded);
    QuotableAppend(d, alphabet);
    QuotableAppend(d + alphabet, d);
    QuotableAppend(d + alphabet + d, encoded);
  }

  /** The payload and the key of an encrypted literal are quotable. */
  lemma EncryptedQuotable(input: seq<Cipher.Byte>, pool: string, draw: Cipher.LiteralDraw, sentinel: bool)
    requires |pool| == 61 && multiset(pool) == multiset(Cipher.Pool)
    ensures var e := Cipher.EncryptLiteral(input, pool, draw, sentinel);
      Quotable(e.payload) && Quotable(e.key)
  {
    var e := Cipher.EncryptLiteral(input, pool, draw, sentinel);
    var encoded := Cipher.BaseStarEncode(Cipher.Framed(input, Cipher.KeyBytes(e.key), sentinel), e.alphabet);
    PoolTextQuotable(e.key);
    PayloadQuotable(e.delimiter, e.alphabet, encoded);
  }

  /** Quotable text reads back as exactly its own characters. */
  lemma QuotableReadsBack(s: string, bell: bool)
    requires Quotable(s)
    ensures Escapes.LiteralBytes("\"" + s + "\"", bell) == Ok(Escapes.Utf8String(s))
  {
    var raw := "\"" + s + "\"";
    assert raw[0] == '"' && raw[1..|raw| - 1] == s;
    Escapes.UnescapePlain(s, bell);
  }

  /** Corrected, one literal at a time: the two string arguments of the call
      read back as the payload and the key, and decrypting them gives the bytes
      the original literal denotes. */
  lemma EncryptRawRoundTrip(s: string, pool: string, draw: Cipher.LiteralDraw)
    requires |pool| == 61 && multiset(pool) == multiset(Cipher.Pool)
    requires EncryptRaw(Defined(Str(s)), pool, draw, true).Ok?
    requires EncryptRaw(Defined(Str(s)), pool, draw, true).value.Some?
    ensures var e := EncryptRaw(Defined(Str(s)), pool, draw, true).value.value;
      Escapes.LiteralBytes("\"" + e.payload + "\"", true) == Ok(Escapes.Utf8String(e.payload))
      && Escapes.LiteralBytes("\"" + e.key + "\"", true) == Ok(Escapes.Utf8String(e.key))
      && Cipher.DecryptSentinel(e.payload, Cipher.KeyBytes(e.key)) == Escapes.LiteralBytes(s, true).value
  {
    var bytes := Escapes.LiteralBytes(s, true).value;
    var e := Cipher.EncryptLiteral(bytes, pool, draw, true);
    EncryptedQuotable(bytes, pool, draw, true);
    QuotableReadsBack(e.payload, true);
    QuotableReadsBack(e.key, true);
    Cipher.EncryptLiteralSentinelRoundTrip(bytes, pool, draw);
  }
}
