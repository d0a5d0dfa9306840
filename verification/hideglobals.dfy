/** `HideGlobals.js`: every identifier that no enclosing scope binds is read
    through an environment proxy (`Proxy["name"]`), and the proxy itself is
    smuggled in as one of a dozen or more arguments that a seeded shuffle
    moves at run time to a slot predicted at compile time. */
module HideGlobals {
  import opened Wrappers
  import opened Json
  import Utils
  import Text
  import Arith
  import Shuffle

  // ---------------------------------------------------------------------------
  // The scope stack

  /** One set of names per open scope, innermost last. A name is whatever the
      `name` field reads, compared by value. */
  type Stack = seq<set<Access>>

  function PushScope(s: Stack): Stack
  {
    s + [{}]
  }

  function PopScope(s: Stack): Stack
    requires |s| >= 1
  {
    s[..|s| - 1]
  }

  function AddToScope(s: Stack, name: Access): Stack
    requires |s| >= 1
  {
    s[|s| - 1 := s[|s| - 1] + {name}]
  }

  /** Some open scope holds `name`. */
  predicate Bound(s: Stack, name: Access)
  {
    exists k :: 0 <= k < |s| && name in s[k]
  }

  /** `isLocal`: the scan from the innermost scope outwards, over the first `i`
      scopes. It answers yes exactly when one of them holds the name. */
  function IsLocalFrom(s: Stack, i: nat, name: Access): (b: bool)
    requires i <= |s|
    ensures b <==> exists k :: 0 <= k < i && name in s[k]
    decreases i
  {
    if i == 0 then false
    else if name in s[i - 1] then true
    else IsLocalFrom(s, i - 1, name)
  }

  function IsLocal(s: Stack, name: Access): bool
  {
    IsLocalFrom(s, |s|, name)
  }

  /** What one walk may do to the stack: the scopes below the current one are
      as they were, and the current one has only gained names. */
  predicate Grows(s: Stack, s': Stack)
  {
    |s| >= 1 && |s'| == |s| && s'[..|s| - 1] == s[..|s| - 1] && s[|s| - 1] <= s'[|s| - 1]
  }

  lemma GrowsTrans(s: Stack, s': Stack, s'': Stack)
    requires Grows(s, s') && Grows(s', s'')
    ensures Grows(s, s'')
  {
  }

  /** Opening a scope, walking, and closing it again leaves the stack as it was. */
  lemma PushGrowPop(s: Stack, s': Stack)
    requires |s| >= 1 && Grows(PushScope(s), s')
    ensures PopScope(s') == s
  {
    assert PushScope(s)[..|s|] == s;
  }

  lemma AddGrows(s: Stack, name: Access)
    requires |s| >= 1
    ensures Grows(s, AddToScope(s, name))
  {
    assert AddToScope(s, name)[..|s| - 1] == s[..|s| - 1];
  }

  // ---------------------------------------------------------------------------
  // The walk

  predicate IsKind(v: Value, kind: string)
  {
    v.Obj? && Own(v.fields, "type") == Defined(Str(kind))
  }

  /** `{type: "Identifier", name: ProxyName}`. */
  function ProxyBase(proxy: string): Value
  {
    Obj([Member("type", Str("Identifier")), Member("name", Str(proxy))])
  }

  /** `{type: "StringLiteral", value: originalName, raw: "\"originalName\""}`;
      a `value` that reads `undefined` is left out. */
  function NameLiteral(name: Access, text: string): Value
  {
    Obj([Member("type", Str("StringLiteral"))]
        + (if name.Defined? then [Member("value", name.value)] else [])
        + [Member("raw", Str("\"" + text + "\""))])
  }

  /** The identifier object turned in place into `Proxy["name"]`: `type` and the
      three member fields written, `name` deleted, every other field kept. */
  ghost predicate IsProxied(fs: seq<Member>, r: Value, proxy: string)
  {
    r.Obj? && Own(r.fields, "type") == Defined(Str("MemberExpression"))
    && Own(r.fields, "indexer") == Defined(Str("["))
    && Own(r.fields, "base") == Defined(ProxyBase(proxy))
    && JsText(Own(fs, "name")).Some?
    && Own(r.fields, "identifier") == Defined(NameLiteral(Own(fs, "name"), JsText(Own(fs, "name")).value))
    && Own(r.fields, "name") == Undefined
    && forall m :: m !in {"type", "indexer", "base", "identifier", "name"} ==> Own(r.fields, m) == Own(fs, m)
  }

  function Proxied(fs: seq<Member>, proxy: string): (r: Result<Value>)
    ensures r.Ok? <==> JsText(Own(fs, "name")).Some?
    ensures r.Ok? ==> IsProxied(fs, r.value, proxy)
  {
    var name := Own(fs, "name");
    match JsText(name)
    case None => Err("array names are not modelled")
    case Some(text) =>
      Ok(Obj(DeleteOwn(SetOwn(SetOwn(SetOwn(SetOwn(fs, "type", Str("MemberExpression")),
        "indexer", Str("[")), "base", ProxyBase(proxy)), "identifier", NameLiteral(name, text)), "name")))
  }

  /** Writes back a walked field, when there was one to walk. */
  function Write(fs: seq<Member>, n: string, a: Access): seq<Member>
  {
    if a.Defined? then SetOwn(fs, n, a.value) else fs
  }

  /** `forEach` over a declaration list, adding each entry's `name` (only of
      `Identifier` entries when `identifiersOnly`). The list must be an array,
      and reading `type` or `name` of a `null` entry throws. */
  function Declare(list: Access, s: Stack, identifiersOnly: bool): (r: Result<Stack>)
    requires |s| >= 1
    ensures r.Ok? <==> list.Defined? && list.value.Arr? && forall k :: 0 <= k < |list.value.items| ==> !list.value.items[k].Null?
    ensures r.Ok? ==> Grows(s, r.value)
    ensures r.Ok? ==> forall k :: 0 <= k < |list.value.items| ==>
      (!identifiersOnly || IsKind(list.value.items[k], "Identifier")) ==> GetProp(list.value.items[k], "name") in r.value[|s| - 1]
  {
    if !(list.Defined? && list.value.Arr?) then Err("TypeError: forEach of a value that is not an array")
    else DeclareItems(list.value.items, 0, s, identifiersOnly)
  }

  function DeclareItems(items: seq<Value>, i: nat, s: Stack, identifiersOnly: bool): (r: Result<Stack>)
    requires |s| >= 1 && i <= |items|
    ensures r.Ok? <==> forall k :: i <= k < |items| ==> !items[k].Null?
    ensures r.Ok? ==> Grows(s, r.value)
    ensures r.Ok? ==> forall k :: i <= k < |items| ==>
      (!identifiersOnly || IsKind(items[k], "Identifier")) ==> GetProp(items[k], "name") in r.value[|s| - 1]
    decreases |items| - i
  {
    if i == |items| then Ok(s)
    else if items[i].Null? then Err("TypeError: Cannot read properties of null")
    else
      var s1 := if !identifiersOnly || GetProp(items[i], "type") == Defined(Str("Identifier"))
                then AddToScope(s, GetProp(items[i], "name")) else s;
      AddGrows(s, GetProp(items[i], "name"));
      var r :- DeclareItems(items, i + 1, s1, identifiersOnly);
      GrowsTrans(s, s1, r);
      Ok(r)
  }

  /** `Process(Node)`: the walk over a subtree with the scope stack `s`. It
      returns the rewritten subtree and the stack after it. */
  function Process(v: Value, proxy: string, s: Stack): (r: Result<(Value, Stack)>)
    requires |s| >= 1
    ensures r.Ok? ==> Grows(s, r.value.1)
    // an identifier is rewritten exactly when no open scope binds it
    ensures r.Ok? && IsKind(v, "Identifier") ==>
      r.value.1 == s
      && (Bound(s, Own(v.fields, "name")) ==> r.value.0 == v)
      && (!Bound(s, Own(v.fields, "name")) ==> IsProxied(v.fields, r.value.0, proxy))
    // dot and colon field names, table keys and function names are never walked
    ensures r.Ok? && IsKind(v, "MemberExpression") && Own(v.fields, "indexer") != Defined(Str("[")) ==>
      IsKind(r.value.0, "MemberExpression") && Own(r.value.0.fields, "identifier") == Own(v.fields, "identifier")
    ensures r.Ok? && IsKind(v, "TableKeyString") ==>
      IsKind(r.value.0, "TableKeyString") && Own(r.value.0.fields, "key") == Own(v.fields, "key")
    ensures r.Ok? && IsKind(v, "FunctionDeclaration") ==>
      IsKind(r.value.0, "FunctionDeclaration") && Own(r.value.0.fields, "identifier") == Own(v.fields, "identifier")
    // only blocks, functions and loops open scopes, and they close them again
    ensures r.Ok? && (IsKind(v, "DoStatement") || IsKind(v, "ForGenericStatement") || IsKind(v, "ForNumericStatement")) ==>
      r.value.1 == s
    ensures r.Ok? && IsKind(v, "FunctionDeclaration") ==>
      r.value.1 == if Truthy(Own(v.fields, "isLocal")) && Truthy(Own(v.fields, "identifier"))
                   then AddToScope(s, GetProp(Own(v.fields, "identifier").value, "name")) else s
    ensures r.Ok? && IsKind(v, "LocalStatement") ==>
      (IsKind(r.value.0, "LocalStatement") && Own(r.value.0.fields, "variables") == Own(v.fields, "variables")
      && Own(v.fields, "variables").Defined? && Own(v.fields, "variables").value.Arr?
      && var vars := Own(v.fields, "variables").value.items;
         forall k :: 0 <= k < |vars| && IsKind(vars[k], "Identifier") ==>
           GetProp(vars[k], "name") in r.value.1[|s| - 1])
    // its initialisers are walked with the stack from before the statement
    ensures r.Ok? && IsKind(v, "LocalStatement") ==>
      (ProcessAt(v.fields, "init", proxy, s).Ok?
      && Own(r.value.0.fields, "init") == ProcessAt(v.fields, "init", proxy, s).value.0)
    // a numeric loop's start is walked with its control variable in scope
    ensures r.Ok? && IsKind(v, "ForNumericStatement") ==>
      (r.value.0.Obj? && Own(v.fields, "variable").Defined? && !Own(v.fields, "variable").value.Null?
      && var s1 := AddToScope(PushScope(s), GetProp(Own(v.fields, "variable").value, "name"));
         ProcessAt(v.fields, "start", proxy, s1).Ok?
         && Own(r.value.0.fields, "start") == ProcessAt(v.fields, "start", proxy, s1).value.0)
    // values that are not objects or arrays are left alone
    ensures !v.Obj? && !v.Arr? ==> r == Ok((v, s))
    decreases v, 3
  {
    match v
    case Arr(items) =>
      var (items', s') :- ProcessItems(items, 0, proxy, s);
      Ok((Arr(items'), s'))
    case Obj(fs) =>
      var kind := Own(fs, "type");
      if kind == Defined(Str("DoStatement")) then WalkDo(fs, proxy, s)
      else if kind == Defined(Str("LocalStatement")) then WalkLocal(fs, proxy, s)
      else if kind == Defined(Str("FunctionDeclaration")) then WalkFunction(fs, proxy, s)
      else if kind == Defined(Str("ForGenericStatement")) then WalkForGeneric(fs, proxy, s)
      else if kind == Defined(Str("ForNumericStatement")) then WalkForNumeric(fs, proxy, s)
      else if kind == Defined(Str("Identifier")) then
        var x :- WalkIdentifier(fs, proxy, s);
        Ok((x, s))
      else if kind == Defined(Str("MemberExpression")) then WalkMember(fs, proxy, s)
      else WalkOther(fs, kind, proxy, s)
    case _ => Ok((v, s))
  }

  /** `DoStatement`: the body in a scope of its own. */
  function WalkDo(fs: seq<Member>, proxy: string, s: Stack): (r: Result<(Value, Stack)>)
    requires |s| >= 1 && Own(fs, "type") == Defined(Str("DoStatement"))
    ensures r.Ok? ==> r.value.1 == s && IsKind(r.value.0, "DoStatement")
    decreases fs, 2
  {
    var (b, s1) :- ProcessAt(fs, "body", proxy, PushScope(s));
    PushGrowPop(s, s1);
    OwnAfterWrite(fs, "body", b, "type");
    Ok((Obj(Write(fs, "body", b)), PopScope(s1)))
  }

  /** `LocalStatement`: the initialisers first, then the declared identifiers
      join the current scope. */
  function WalkLocal(fs: seq<Member>, proxy: string, s: Stack): (r: Result<(Value, Stack)>)
    requires |s| >= 1
    ensures r.Ok? ==> Grows(s, r.value.1)
    // the declared names are left as they are and bound in the current scope
    ensures r.Ok? ==> (r.value.0.Obj? && Own(r.value.0.fields, "type") == Own(fs, "type")
      && Own(r.value.0.fields, "variables") == Own(fs, "variables"))
    ensures r.Ok? ==> (Own(fs, "variables").Defined? && Own(fs, "variables").value.Arr?
      && var vars := Own(fs, "variables").value.items;
         forall k :: 0 <= k < |vars| && IsKind(vars[k], "Identifier") ==>
           GetProp(vars[k], "name") in r.value.1[|s| - 1])
    // the initialisers are walked before the declared names enter the scope
    ensures r.Ok? ==> (ProcessAt(fs, "init", proxy, s).Ok?
      && Own(r.value.0.fields, "init") == ProcessAt(fs, "init", proxy, s).value.0)
    decreases fs, 2
  {
    var (init, s1) :- ProcessAt(fs, "init", proxy, s);
    var s2 :- Declare(Own(fs, "variables"), s1, true);
    GrowsTrans(s, s1, s2);
    OwnAfterWriteSame(fs, "init", init);
    Ok((Obj(Write(fs, "init", init)), s2))
  }

  /** `FunctionDeclaration`: a local function's name joins the current scope;
      the parameters and the body get a new scope. The name itself is not walked. */
  function WalkFunction(fs: seq<Member>, proxy: string, s: Stack): (r: Result<(Value, Stack)>)
    requires |s| >= 1 && Own(fs, "type") == Defined(Str("FunctionDeclaration"))
    ensures r.Ok? ==> (IsKind(r.value.0, "FunctionDeclaration")
      && Own(r.value.0.fields, "identifier") == Own(fs, "identifier"))
    ensures r.Ok? ==>
      r.value.1 == if Truthy(Own(fs, "isLocal")) && Truthy(Own(fs, "identifier"))
                   then AddToScope(s, GetProp(Own(fs, "identifier").value, "name")) else s
    decreases fs, 2
  {
    var ident := Own(fs, "identifier");
    var s0 := if Truthy(Own(fs, "isLocal")) && Truthy(ident) then AddToScope(s, GetProp(ident.value, "name")) else s;
    var s1 :- Declare(Own(fs, "parameters"), PushScope(s0), true);
    var (b, s2) :- ProcessAt(fs, "body", proxy, s1);
    GrowsTrans(PushScope(s0), s1, s2);
    PushGrowPop(s0, s2);
    OwnAfterWrite(fs, "body", b, "type");
    OwnAfterWrite(fs, "body", b, "identifier");
    Ok((Obj(Write(fs, "body", b)), PopScope(s2)))
  }

  /** `ForGenericStatement`: a new scope, the loop variables enter it, then the
      iterators and the body are walked. */
  function WalkForGeneric(fs: seq<Member>, proxy: string, s: Stack): (r: Result<(Value, Stack)>)
    requires |s| >= 1
    ensures r.Ok? ==> r.value.1 == s
    // the iterators are walked in the loop's scope, the loop variables already in it
    ensures r.Ok? ==> (r.value.0.Obj? && Declare(Own(fs, "variables"), PushScope(s), false).Ok?
      && var s1 := Declare(Own(fs, "variables"), PushScope(s), false).value;
         ProcessAt(fs, "iterators", proxy, s1).Ok?
         && Own(r.value.0.fields, "iterators") == ProcessAt(fs, "iterators", proxy, s1).value.0)
    decreases fs, 2
  {
    var s1 :- Declare(Own(fs, "variables"), PushScope(s), false);
    var (it, s2) :- ProcessAt(fs, "iterators", proxy, s1);
    var (b, s3) :- ProcessAt(fs, "body", proxy, s2);
    GrowsTrans(PushScope(s), s1, s2);
    GrowsTrans(PushScope(s), s2, s3);
    PushGrowPop(s, s3);
    OwnAfterWriteSame(fs, "iterators", it);
    OwnAfterWrite(Write(fs, "iterators", it), "body", b, "iterators");
    Ok((Obj(Write(Write(fs, "iterators", it), "body", b)), PopScope(s3)))
  }

  /** `ForNumericStatement`: a new scope, the control variable enters it, then
      the start, end, step (when truthy) and body are walked. */
  function WalkForNumeric(fs: seq<Member>, proxy: string, s: Stack): (r: Result<(Value, Stack)>)
    requires |s| >= 1
    ensures r.Ok? ==> r.value.1 == s
    // the start and end are walked in the loop's scope, the control variable already in it
    ensures r.Ok? ==> (r.value.0.Obj? && Own(fs, "variable").Defined? && !Own(fs, "variable").value.Null?
      && var s1 := AddToScope(PushScope(s), GetProp(Own(fs, "variable").value, "name"));
         ProcessAt(fs, "start", proxy, s1).Ok?
         && Own(r.value.0.fields, "start") == ProcessAt(fs, "start", proxy, s1).value.0
         && ProcessAt(fs, "end", proxy, ProcessAt(fs, "start", proxy, s1).value.1).Ok?
         && Own(r.value.0.fields, "end") == ProcessAt(fs, "end", proxy, ProcessAt(fs, "start", proxy, s1).value.1).value.0)
    decreases fs, 2
  {
    var variable := Own(fs, "variable");
    if variable.Undefined? || variable.value.Null? then Err("TypeError: Cannot read properties of a missing variable")
    else
      var s1 := AddToScope(PushScope(s), GetProp(variable.value, "name"));
      AddGrows(PushScope(s), GetProp(variable.value, "name"));
      var (st, s2) :- ProcessAt(fs, "start", proxy, s1);
      var (en, s3) :- ProcessAt(fs, "end", proxy, s2);
      var (sp, s4) :- if Truthy(Own(fs, "step")) then ProcessAt(fs, "step", proxy, s3) else Ok((Undefined, s3));
      var (b, s5) :- ProcessAt(fs, "body", proxy, s4);
      GrowsTrans(PushScope(s), s1, s2);
      GrowsTrans(PushScope(s), s2, s3);
      GrowsTrans(PushScope(s), s3, s4);
      GrowsTrans(PushScope(s), s4, s5);
      PushGrowPop(s, s5);
      NumericWrites(fs, st, en, sp, b);
      Ok((Obj(Write(Write(Write(Write(fs, "start", st), "end", en), "step", sp), "body", b)), PopScope(s5)))
  }

  /** `Identifier`: left alone when bound, otherwise turned into `Proxy["name"]`. */
  function WalkIdentifier(fs: seq<Member>, proxy: string, s: Stack): (r: Result<Value>)
    requires |s| >= 1
    ensures r.Ok? && Bound(s, Own(fs, "name")) ==> r.value == Obj(fs)
    ensures r.Ok? && !Bound(s, Own(fs, "name")) ==> IsProxied(fs, r.value, proxy)
  {
    if IsLocal(s, Own(fs, "name")) then Ok(Obj(fs)) else Proxied(fs, proxy)
  }

  /** `MemberExpression`: the base is walked; the field name only for a `[`
      access, which only this pass itself creates. */
  function WalkMember(fs: seq<Member>, proxy: string, s: Stack): (r: Result<(Value, Stack)>)
    requires |s| >= 1 && Own(fs, "type") == Defined(Str("MemberExpression"))
    ensures r.Ok? ==> Grows(s, r.value.1) && IsKind(r.value.0, "MemberExpression")
    ensures r.Ok? && Own(fs, "indexer") != Defined(Str("[")) ==> Own(r.value.0.fields, "identifier") == Own(fs, "identifier")
    decreases fs, 2
  {
    var (b, s1) :- ProcessAt(fs, "base", proxy, s);
    OwnAfterWrite(fs, "base", b, "type");
    if Own(fs, "indexer") == Defined(Str("[")) then
      var (id, s2) :- ProcessAt(fs, "identifier", proxy, s1);
      GrowsTrans(s, s1, s2);
      OwnAfterWrite(Write(fs, "base", b), "identifier", id, "type");
      Ok((Obj(Write(Write(fs, "base", b), "identifier", id)), s2))
    else
      OwnAfterWrite(fs, "base", b, "identifier");
      Ok((Obj(Write(fs, "base", b)), s1))
  }

  /** Every other kind: each field in turn (`Object.keys(Node).forEach`). */
  function WalkOther(fs: seq<Member>, kind: Access, proxy: string, s: Stack): (r: Result<(Value, Stack)>)
    requires |s| >= 1 && kind == Own(fs, "type")
    ensures r.Ok? ==> Grows(s, r.value.1)
    ensures r.Ok? && kind == Defined(Str("TableKeyString")) ==>
      IsKind(r.value.0, "TableKeyString") && Own(r.value.0.fields, "key") == Own(fs, "key")
    decreases fs, |fs| + 1
  {
    var (fs', s') :- ProcessFields(fs, 0, kind, proxy, s);
    if kind == Defined(Str("TableKeyString")) then
      OwnAgrees(fs, fs', "type");
      OwnAgrees(fs, fs', "key");
      Ok((Obj(fs'), s'))
    else Ok((Obj(fs'), s'))
  }

  lemma OwnAfterWrite(fs: seq<Member>, n: string, a: Access, m: string)
    requires m != n
    ensures Own(Write(fs, n, a), m) == Own(fs, m)
  {
  }

  /** Writing back a field read as `a`, which is defined exactly when the field
      exists, leaves `a` there. */
  lemma OwnAfterWriteSame(fs: seq<Member>, n: string, a: Access)
    requires a.Defined? <==> HasOwn(fs, n)
    ensures Own(Write(fs, n, a), n) == a
  {
  }

  /** The start and end a numeric loop writes back are the ones it walked. */
  lemma NumericWrites(fs: seq<Member>, st: Access, en: Access, sp: Access, b: Access)
    requires st.Defined? <==> HasOwn(fs, "start")
    requires en.Defined? <==> HasOwn(fs, "end")
    ensures var out := Write(Write(Write(Write(fs, "start", st), "end", en), "step", sp), "body", b);
            Own(out, "start") == st && Own(out, "end") == en
  {
    var f1 := Write(fs, "start", st);
    var f2 := Write(f1, "end", en);
    var f3 := Write(f2, "step", sp);
    OwnAfterWriteSame(fs, "start", st);
    OwnAfterWrite(fs, "start", st, "end");
    OwnAfterWriteSame(f1, "end", en);
    OwnAfterWrite(f1, "end", en, "start");
    OwnAfterWrite(f2, "step", sp, "start");
    OwnAfterWrite(f2, "step", sp, "end");
    OwnAfterWrite(f3, "body", b, "start");
    OwnAfterWrite(f3, "body", b, "end");
  }

  /** Two field lists with the same names in the same order, which agree on
      every field named `n`, read the same `n`. */
  lemma {:induction false} OwnAgrees(fs: seq<Member>, fs': seq<Member>, n: string)
    requires |fs'| == |fs| && forall k :: 0 <= k < |fs| ==> fs'[k].key == fs[k].key
    requires HasOwn(fs, n) ==> fs'[OwnIndex(fs, n)] == fs[OwnIndex(fs, n)]
    ensures Own(fs', n) == Own(fs, n)
  {
    if fs != [] && fs[0].key != n {
      OwnAgrees(fs[1..], fs'[1..], n);
    }
  }

  /** `Process(Node[n])`: walks the first own property `n`, if there is one. */
  function ProcessAt(fs: seq<Member>, n: string, proxy: string, s: Stack): (r: Result<(Access, Stack)>)
    requires |s| >= 1
    ensures r.Ok? ==> Grows(s, r.value.1)
    ensures r.Ok? ==> (r.value.0.Defined? <==> HasOwn(fs, n))
    decreases fs, 1
  {
    if !HasOwn(fs, n) then Ok((Undefined, s))
    else
      var k := OwnIndex(fs, n);
      var (x, s') :- Process(fs[k].val, proxy, s);
      Ok((Defined(x), s'))
  }

  /** `ProcessAt` on a field that exists is `Process` of its value. */
  lemma ProcessAtOwn(fs: seq<Member>, n: string, proxy: string, s: Stack)
    requires |s| >= 1 && HasOwn(fs, n)
    ensures ProcessAt(fs, n, proxy, s).Ok? <==> Process(Own(fs, n).value, proxy, s).Ok?
    ensures ProcessAt(fs, n, proxy, s).Ok? ==>
      ProcessAt(fs, n, proxy, s).value
        == (Defined(Process(Own(fs, n).value, proxy, s).value.0), Process(Own(fs, n).value, proxy, s).value.1)
  {
  }

  /** A one-element array is walked as its element. */
  lemma ProcessSingleton(x: Value, proxy: string, s: Stack)
    requires |s| >= 1
    ensures Process(Arr([x]), proxy, s).Ok? <==> Process(x, proxy, s).Ok?
    ensures Process(Arr([x]), proxy, s).Ok? ==>
      Process(Arr([x]), proxy, s).value == (Arr([Process(x, proxy, s).value.0]), Process(x, proxy, s).value.1)
  {
    var items := [x];
    assert ProcessItems(items, 1, proxy, s) == Ok(([], s));
    if Process(x, proxy, s).Ok? {
      var s1 := Process(x, proxy, s).value.1;
      assert ProcessItems(items, 1, proxy, s1) == Ok(([], s1));
      assert [Process(x, proxy, s).value.0] + [] == [Process(x, proxy, s).value.0];
    }
  }

  /** `local x = x` with `x` bound nowhere: the `x` on the right is read
      through the proxy, because the new local joins the scope only after its
      initialiser has been walked; the `x` on the left is bound afterwards. */
  lemma LocalInitSeesOuterScope(fs: seq<Member>, x: Value, proxy: string, s: Stack)
    requires |s| >= 1 && IsKind(x, "Identifier") && !Bound(s, Own(x.fields, "name"))
    requires Own(fs, "type") == Defined(Str("LocalStatement"))
    requires Own(fs, "variables") == Defined(Arr([x])) && Own(fs, "init") == Defined(Arr([x]))
    requires Process(Obj(fs), proxy, s).Ok?
    ensures var r := Process(Obj(fs), proxy, s).value;
      r.0.Obj? && Own(r.0.fields, "init").Defined? && Own(r.0.fields, "init").value.Arr?
      && |Own(r.0.fields, "init").value.items| == 1
      && IsProxied(x.fields, Own(r.0.fields, "init").value.items[0], proxy)
      && Own(x.fields, "name") in r.1[|s| - 1]
  {
    var v := Obj(fs);
    assert IsKind(v, "LocalStatement");
    ProcessAtOwn(fs, "init", proxy, s);
    ProcessSingleton(x, proxy, s);
    var vars := Own(fs, "variables").value.items;
    assert vars[0] == x;
  }

  /** `for i = i, n do end`: the control variable is in scope when the start is
      walked, so the `i` of the start is left as it is. */
  lemma NumericStartSeesLoopVariable(fs: seq<Member>, x: Value, proxy: string, s: Stack)
    requires |s| >= 1 && IsKind(x, "Identifier")
    requires Own(fs, "type") == Defined(Str("ForNumericStatement"))
    requires Own(fs, "variable") == Defined(x) && Own(fs, "start") == Defined(x)
    requires Process(Obj(fs), proxy, s).Ok?
    ensures var r := Process(Obj(fs), proxy, s).value;
      r.0.Obj? && Own(r.0.fields, "start") == Defined(x)
  {
    var v := Obj(fs);
    assert IsKind(v, "ForNumericStatement");
    var s1 := AddToScope(PushScope(s), GetProp(x, "name"));
    assert Bound(s1, Own(x.fields, "name")) by {
      assert Own(x.fields, "name") in s1[|s1| - 1];
    }
    ProcessAtOwn(fs, "start", proxy, s1);
  }

  /** `Node.forEach(N => Process(N))` from position `i`: the walked suffix. */
  function ProcessItems(items: seq<Value>, i: nat, proxy: string, s: Stack): (r: Result<(seq<Value>, Stack)>)
    requires |s| >= 1 && i <= |items|
    ensures r.Ok? ==> Grows(s, r.value.1) && |r.value.0| == |items| - i
    decreases items, |items| - i
  {
    if i == |items| then Ok(([], s))
    else
      var (x, s1) :- Process(items[i], proxy, s);
      var (rest, s2) :- ProcessItems(items, i + 1, proxy, s1);
      GrowsTrans(s, s1, s2);
      Ok(([x] + rest, s2))
  }

  /** The default case's `Object.keys(Node).forEach`, from field `i`: walk every
      field holding an object, an array or `null`, except a table key
      (and a dot access's field name, which the member-expression case has
      already taken). */
  function ProcessFields(fs: seq<Member>, i: nat, kind: Access, proxy: string, s: Stack): (r: Result<(seq<Member>, Stack)>)
    requires |s| >= 1 && i <= |fs|
    ensures r.Ok? ==> Grows(s, r.value.1) && |r.value.0| == |fs| - i
    ensures r.Ok? ==> forall k :: 0 <= k < |r.value.0| ==> r.value.0[k].key == fs[i + k].key
    ensures r.Ok? ==> forall k :: 0 <= k < |r.value.0| ==>
      !(fs[i + k].val.Obj? || fs[i + k].val.Arr? || fs[i + k].val.Null?) ==> r.value.0[k] == fs[i + k]
    ensures r.Ok? && kind == Defined(Str("TableKeyString")) ==>
      forall k :: 0 <= k < |r.value.0| ==> fs[i + k].key == "key" ==> r.value.0[k] == fs[i + k]
    decreases fs, |fs| - i
  {
    if i == |fs| then Ok(([], s))
    else
      var skip := (kind == Defined(Str("MemberExpression")) && fs[i].key == "identifier")
                  || (kind == Defined(Str("TableKeyString")) && fs[i].key == "key");
      var (m, s1) :-
        if skip || !(fs[i].val.Obj? || fs[i].val.Arr? || fs[i].val.Null?) then Ok((fs[i], s))
        else
          var (x, s1) :- Process(fs[i].val, proxy, s);
          Ok((Member(fs[i].key, x), s1));
      var (rest, s2) :- ProcessFields(fs, i + 1, kind, proxy, s1);
      GrowsTrans(s, s1, s2);
      Ok(([m] + rest, s2))
  }

  // ---------------------------------------------------------------------------
  // Argument packing

  /** The argument that carries the environment. */
  const EnvArg := "(_ENV or getfenv())"

  /** `getConst()`: a hexadecimal or a decimal constant, from draws `k` and `k + 1`. */
  function Const(u: nat -> nat, k: nat): (c: string)
    ensures |c| >= 1 && Text.IsDigit(c[0])
  {
    if Utils.Random(0, 1, u(k)) > 0 then "0x" + Arith.HexString(Utils.Random(0x100, 0xFFFFFF, u(k + 1)))
    else
      var n := Utils.Random(1000, 9999999, u(k + 1));
      assert Text.IntToString(n) == Text.NatToString(n);
      Text.IntToString(n)
  }

  /** `Math.pow(2, n)`. */
  function Pow2(n: nat): nat
  {
    if n == 0 then 1 else 2 * Pow2(n - 1)
  }

  function ArithOp(u: nat): string
  {
    ["+", "-", "*", "%"][Utils.Random(0, 3, u)]
  }

  function Comparison(u: nat): string
  {
    [">", "<", "==", "~="][Utils.Random(0, 3, u)]
  }

  /** `length` letters `A`..`Z`, from draws `k` on. */
  function Shouting(u: nat -> nat, k: nat, length: nat): (r: string)
    ensures |r| == length
    decreases length
  {
    if length == 0 then [] else [(Utils.Random(65, 90, u(k)) as char)] + Shouting(u, k + 1, length - 1)
  }

  /** `GenerateDeadCode()`: one of the four decoy shapes, with the draws consumed
      in the order the template evaluates them. Every decoy opens with `(` and
      then a `(`, a digit or `#`. */
  function GenerateDeadCode(u: nat -> nat): (r: string)
    ensures |r| >= 2 && r[0] == '(' && (r[1] == '(' || r[1] == '#' || Text.IsDigit(r[1]))
  {
    match Utils.Random(0, 3, u(0))
    case 0 =>
      "((" + (Const(u, 1) + " " + ArithOp(u(3)) + " " + Const(u, 4) + ") " + ArithOp(u(6)) + " ("
              + Const(u, 7) + " " + ArithOp(u(9)) + " " + Const(u, 10) + "))")
    case 1 =>
      var c := Const(u, 1);
      "(" + (c + (" " + Comparison(u(5)) + " " + Const(u, 3) + " and " + Const(u, 6) + " or " + Const(u, 8) + ")"))
    case 2 =>
      var shift := Utils.Random(2, 8, u(2));
      "((" + (Text.IntToString(Utils.Random(1000000, 9999999, u(1))) + " / " + Text.IntToString(Pow2(shift))
              + ") % " + Text.IntToString(Utils.Random(128, 255, u(3))) + ")")
    case _ =>
      var length := Utils.Random(5, 15, u(1));
      "(#" + ("(\"" + Shouting(u, 2, length) + "\") * " + Const(u, 2 + length) + ")")
  }

  /** No decoy is the environment argument. */
  lemma DeadCodeIsNotEnv(u: nat -> nat)
    ensures GenerateDeadCode(u) != EnvArg
  {
    assert EnvArg[1] == '_';
  }

  /** `for (i = 0; i <= ArgsAmt; i++) Args.push(i === r ? env : GenerateDeadCode())`.
      Exactly one argument, the one at `r`, carries the environment. */
  function Pack(amt: nat, r: nat, decoys: nat -> nat -> nat): (args: seq<string>)
    requires r <= amt
    ensures |args| == amt + 1
    ensures forall i :: 0 <= i < |args| ==> (args[i] == EnvArg <==> i == r)
  {
    var args := seq(amt + 1, i requires 0 <= i <= amt => if i == r then EnvArg else GenerateDeadCode(decoys(i)));
    assert forall i :: 0 <= i < |args| && i != r ==> args[i] != EnvArg by {
      forall i | 0 <= i < |args| && i != r ensures args[i] != EnvArg {
        DeadCodeIsNotEnv(decoys(i));
      }
    }
    args
  }

  // ---------------------------------------------------------------------------
  // The pass

  /** The pass's random draws: the argument count, the environment's slot,
      the seed, and the draws of each decoy. */
  datatype HideDraw = HideDraw(amt: nat, slot: nat, seed: nat, decoys: nat -> nat -> nat)

  /** The walked tree and what the preamble is built from: the packed
      arguments, the seed, the slot the environment was packed at and the
      0-based slot it is predicted to land at. */
  datatype Hidden = Hidden(tree: Value, args: seq<string>, seed: nat, slot: nat, envIndex: nat)

  /** `Process(Ast.body || Ast)` with a stack holding one empty scope. */
  function ProcessRoot(ast: Value, proxy: string): (r: Result<Value>)
    ensures ast.Null? ==> r.Err?
  {
    match ast
    case Null => Err("TypeError: Cannot read properties of null (reading 'body')")
    case Obj(fs) =>
      if Truthy(Own(fs, "body")) then
        var (b, _) :- Process(Own(fs, "body").value, proxy, [{}]);
        Ok(Obj(SetOwn(fs, "body", b)))
      else
        var (t, _) :- Process(ast, proxy, [{}]);
        Ok(t)
    case _ =>
      var (t, _) :- Process(ast, proxy, [{}]);
      Ok(t)
  }

  /** The packing half of the pass: between 11 and 26 arguments, the
      environment at exactly one of them, and after the preamble's shuffle
      with the drawn seed the predicted slot holds the environment. */
  function Packing(d: HideDraw): (r: (seq<string>, nat, nat, nat))
    ensures var (args, seed, slot, envIndex) := r;
      11 <= |args| <= 26 && seed <= 9000000000 && slot < |args|
      && (forall i :: 0 <= i < |args| ==> (args[i] == EnvArg <==> i == slot))
      && envIndex < |args| && Shuffle.RuntimeShuffle(args, seed)[envIndex] == EnvArg
  {
    var amt := Utils.Random(10, 25, d.amt);
    var slot := Utils.Random(0, amt, d.slot);
    var args := Pack(amt, slot, d.decoys);
    var seed := Utils.Random(0, 9000000000, d.seed);
    Shuffle.PredictionAgrees(args, seed, slot);
    (args, seed, slot, Shuffle.PredictShuffle(seed, |args|)[slot])
  }

  /** `HideGlobals(Ast)` up to the text it hands to the parser. A null tree is
      an error; otherwise the packing properties hold of the result. */
  function HideGlobals(ast: Value, names: seq<string>, d: HideDraw): (r: Result<Hidden>)
    requires |names| == 5
    ensures ast.Null? ==> r.Err?
    ensures r.Ok? ==> (11 <= |r.value.args| <= 26 && r.value.slot < |r.value.args|
      && (forall i :: 0 <= i < |r.value.args| ==> (r.value.args[i] == EnvArg <==> i == r.value.slot)))
    ensures r.Ok? ==> (r.value.envIndex < |r.value.args|
      && Shuffle.RuntimeShuffle(r.value.args, r.value.seed)[r.value.envIndex] == EnvArg)
  {
    var (args, seed, slot, envIndex) := Packing(d);
    var tree :- ProcessRoot(ast, names[3]);
    Ok(Hidden(tree, args, seed, slot, envIndex))
  }

  /** The program text the pass hands to the parser, around the emitted body. */
  function Program(names: seq<string>, h: Hidden, body: string): string
    requires |names| == 5
  {
    "\n    return (function(...)\n"
    + "        local " + names[0] + " = {...}\n"
    + "        local " + names[1] + " = " + Text.IntToString(h.seed) + "\n"
    + "        local function " + names[4] + "(limit)\n"
    + "            " + names[1] + " = (1103515245 * " + names[1] + " + 12345) % 2147483648\n"
    + "            return (" + names[1] + " % limit) + 1\n"
    + "        end\n\n"
    + "        local " + names[2] + " = #" + names[0] + "\n"
    + "        for i = " + names[2] + ", 2, -1 do\n"
    + "            local j = " + names[4] + "(i)\n"
    + "            local temp = " + names[0] + "[i]\n"
    + "            " + names[0] + "[i] = " + names[0] + "[j]\n"
    + "            " + names[0] + "[j] = temp\n"
    + "        end\n\n"
    + "        local " + names[3] + " = " + names[0] + "[" + Text.IntToString(h.envIndex + 1) + "]\n"
    + "        \n"
    + "        " + body + "\n"
    + "    end)(" + Text.Join(h.args, ", ") + ")\n    "
  }
}
