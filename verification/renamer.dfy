/** `VariableRenamer.js`: `CollectVariables` gathers, over the whole tree and
    without regard to scope, every name some declaration introduces, then
    sorts every `Identifier` object into a declared use or an external one;
    `RenameVariables` gives each declared name one generated alias and writes
    it into every declared use.

    The generated names are a parameter: `gen(k)` is what the `k`-th call of
    `GenerateVariable()` returns. `fixed` selects the corrected renaming
    table, which answers only for names it holds itself. */
module Renamer {
  import opened Wrappers
  import opened Json
  import TreeIndex

  // ---------------------------------------------------------------------------
  // Declared names

  /** The statement kinds whose nodes introduce names. */
  const DeclarationKinds: seq<string> :=
    ["LocalStatement", "AssignmentStatement", "FunctionDeclaration", "ForNumericStatement", "ForGenericStatement"]

  /** `v && v.type === "Identifier"`. */
  predicate IsIdentifier(v: Value)
  {
    Truthy(Defined(v)) && GetProp(v, "type") == Defined(Str("Identifier"))
  }

  /** The names a list adds when it is an array: the `name` of every
      identifier in it. */
  function ListNames(list: Access): set<Access>
  {
    match list
    case Defined(Arr(vs)) => set i | 0 <= i < |vs| && IsIdentifier(vs[i]) :: GetProp(vs[i], "name")
    case _ => {}
  }

  /** The names one declaration node of the given kind adds: its `variables`;
      for a function, the `name` of a truthy `identifier` (whatever it is)
      and its identifier `parameters`; for a numeric `for`, its identifier
      `variable`. */
  function DeclaredBy(node: Value, kind: string): set<Access>
  {
    ListNames(GetProp(node, "variables"))
    + (if kind == "FunctionDeclaration" then
         (if Truthy(GetProp(node, "identifier")) then {GetProp(GetProp(node, "identifier").value, "name")} else {})
         + ListNames(GetProp(node, "parameters"))
       else {})
    + (if kind == "ForNumericStatement" && Truthy(GetProp(node, "variable"))
          && GetProp(GetProp(node, "variable").value, "type") == Defined(Str("Identifier"))
       then {GetProp(GetProp(node, "variable").value, "name")}
       else {})
  }

  /** `GetNodeInternal(AST, path)` when what it finds is truthy. */
  function NodeAt(t: Value, p: Path): (r: Option<Value>)
    ensures r.Some? ==> GetNodeInternal(t, p) == Found(r.value) && Truthy(Defined(r.value))
  {
    match GetNodeInternal(t, p)
    case Found(v) => if Truthy(Defined(v)) then Some(v) else None
    case _ => None
  }

  function DeclaredAt(t: Value, p: Path, kind: string): set<Access>
  {
    match NodeAt(t, p)
    case Some(node) => DeclaredBy(node, kind)
    case None => {}
  }

  /** `definedNames`: what every declaration found by `type` adds. */
  function DefinedNames(t: Value): set<Access>
  {
    set kind, p, a | kind in DeclarationKinds && p in TreeIndex.ObjectInstances(t, "type", kind) && a in DeclaredAt(t, p, kind) :: a
  }

  /** Some declaration anywhere in the tree introduces `a`. */
  ghost predicate Declares(t: Value, a: Access)
  {
    exists q, kind :: kind in DeclarationKinds && TreeIndex.ObjectHolding(t, q, "type", kind)
      && a in DeclaredBy(GetKey(t, q).value, kind)
  }

  /** The collection is whole-program and blind to scope: a name counts as
      defined exactly when a declaration somewhere in the tree introduces it. */
  lemma DefinedNamesWholeProgram(t: Value, a: Access)
    requires WellFormed(t)
    ensures a in DefinedNames(t) <==> Declares(t, a)
  {
    if a in DefinedNames(t) {
      DefinedIsDeclared(t, a);
    }
    if Declares(t, a) {
      DeclaredIsDefined(t, a);
    }
  }

  lemma DefinedIsDeclared(t: Value, a: Access)
    requires WellFormed(t) && a in DefinedNames(t)
    ensures Declares(t, a)
  {
    var kind, p :| kind in DeclarationKinds && p in TreeIndex.ObjectInstances(t, "type", kind) && a in DeclaredAt(t, p, kind);
    TreeIndex.ObjectInstancesSpec(t, "type", kind, p);
    GetNodeInternalAgrees(t, p);
    assert TreeIndex.ObjectHolding(t, p, "type", kind);
  }

  lemma DeclaredIsDefined(t: Value, a: Access)
    requires WellFormed(t) && Declares(t, a)
    ensures a in DefinedNames(t)
  {
    var q, kind :| kind in DeclarationKinds && TreeIndex.ObjectHolding(t, q, "type", kind)
      && a in DeclaredBy(GetKey(t, q).value, kind);
    TreeIndex.ObjectInstancesSpec(t, "type", kind, q);
    GetNodeInternalAgrees(t, q);
    assert a in DeclaredAt(t, q, kind);
  }

  // ---------------------------------------------------------------------------
  // Sorting the identifiers

  /** An identifier found at `path`, as the pass keeps it: `[path, node]`. */
  datatype Occurrence = Occurrence(path: Path, node: Value)

  /** `{Defined, ExternalAPIs}`. */
  datatype Analysis = Analysis(defined: seq<Occurrence>, external: seq<Occurrence>)

  /** `path[path.length - 1]`: `undefined` for the root. */
  function LastStep(p: Path): Option<Key>
  {
    if p == [] then None else Some(p[|p| - 1])
  }

  /** An identifier that names a field rather than a variable: the `identifier`
      of a dot access, or the `key` of a `{ key = value }` entry. */
  predicate FieldName(parent: Value, field: Option<Key>)
  {
    (GetProp(parent, "type") == Defined(Str("MemberExpression")) && field == Some(Name("identifier")))
    || (GetProp(parent, "type") == Defined(Str("TableKeyString")) && field == Some(Name("key")))
  }

  datatype Category = Skipped | DeclaredUse | ExternalUse

  /** Where the identifier found at `p` goes: skipped when the node or its
      `name` or its parent is falsy, or when it names a field; otherwise
      declared or external by whether its name was collected. */
  function CategoryOf(t: Value, names: set<Access>, p: Path): Category
  {
    match NodeAt(t, p)
    case None => Skipped
    case Some(node) =>
      if !Truthy(GetProp(node, "name")) then Skipped
      else match NodeAt(t, TreeIndex.DropLast(p))
        case None => Skipped
        case Some(parent) =>
          if FieldName(parent, LastStep(p)) then Skipped
          else if GetProp(node, "name") in names then DeclaredUse
          else ExternalUse
  }

  /** The identifiers found at `paths`, each pushed onto its list in order. */
  function Classify(t: Value, names: set<Access>, paths: seq<Path>): (r: Analysis)
    ensures |r.defined| + |r.external| <= |paths|
    ensures forall o :: o in r.defined ==> o.path in paths && CategoryOf(t, names, o.path) == DeclaredUse && NodeAt(t, o.path) == Some(o.node)
    ensures forall o :: o in r.external ==> o.path in paths && CategoryOf(t, names, o.path) == ExternalUse && NodeAt(t, o.path) == Some(o.node)
    ensures forall p :: p in paths && CategoryOf(t, names, p) == DeclaredUse ==> Occurrence(p, NodeAt(t, p).value) in r.defined
    ensures forall p :: p in paths && CategoryOf(t, names, p) == ExternalUse ==> Occurrence(p, NodeAt(t, p).value) in r.external
  {
    if paths == [] then Analysis([], [])
    else
      var p := paths[0];
      var rest := Classify(t, names, paths[1..]);
      assert forall q :: q in paths ==> q == p || q in paths[1..];
      match CategoryOf(t, names, p)
      case DeclaredUse => Analysis([Occurrence(p, NodeAt(t, p).value)] + rest.defined, rest.external)
      case ExternalUse => Analysis(rest.defined, [Occurrence(p, NodeAt(t, p).value)] + rest.external)
      case Skipped => rest
  }

  /** `CollectVariables(AST)`. */
  function CollectVariables(t: Value): (r: Analysis)
    ensures forall o :: o in r.defined ==>
      NodeAt(t, o.path) == Some(o.node) && Truthy(GetProp(o.node, "name")) && GetProp(o.node, "name") in DefinedNames(t)
    ensures forall o :: o in r.external ==>
      NodeAt(t, o.path) == Some(o.node) && Truthy(GetProp(o.node, "name")) && GetProp(o.node, "name") !in DefinedNames(t)
  {
    Classify(t, DefinedNames(t), TreeIndex.ObjectInstances(t, "type", "Identifier"))
  }

  /** Whole-program sorting: on a well-formed tree, an identifier object at
      any position lands in the declared list exactly when its name is
      truthy, some declaration anywhere introduces that name, and it is not a
      field name; and it is never in both lists. */
  lemma CollectVariablesSorts(t: Value, q: Path)
    requires WellFormed(t)
    requires TreeIndex.ObjectHolding(t, q, "type", "Identifier")
    ensures var a := CollectVariables(t);
      var node := GetKey(t, q).value;
      (Occurrence(q, node) in a.defined <==> CategoryOf(t, DefinedNames(t), q) == DeclaredUse)
      && (Occurrence(q, node) in a.external <==> CategoryOf(t, DefinedNames(t), q) == ExternalUse)
      && (CategoryOf(t, DefinedNames(t), q) == DeclaredUse <==>
            Truthy(GetProp(node, "name")) && Declares(t, GetProp(node, "name"))
            && match NodeAt(t, TreeIndex.DropLast(q)) { case Some(parent) => !FieldName(parent, LastStep(q)) case None => false })
  {
    var names := DefinedNames(t);
    TreeIndex.ObjectInstancesSpec(t, "type", "Identifier", q);
    GetNodeInternalAgrees(t, q);
    var node := GetKey(t, q).value;
    assert NodeAt(t, q) == Some(node);
    DefinedNamesWholeProgram(t, GetProp(node, "name"));
  }

  // ---------------------------------------------------------------------------
  // Writing by reference

  /** `Node.name = alias` on the node found at `path`, as one write of the tree. */
  datatype Write = Write(path: Path, value: Value)

  function Parent(p: Path): Path
    requires p != []
  {
    p[..|p| - 1]
  }

  /** The writes in order; each is a functional update of the tree. */
  function ApplyWrites(t: Value, ws: seq<Write>): Result<Value>
    requires forall i :: 0 <= i < |ws| ==> ws[i].path != []
    decreases |ws|
  {
    if ws == [] then Ok(t)
    else
      var t' :- Put(t, ws[0].path, ws[0].value);
      ApplyWrites(t', ws[1..])
  }

  /** A write that sets a primitive into a primitive field of an object. */
  predicate Fits(t: Value, w: Write)
  {
    w.path != [] && GetKey(t, Parent(w.path)).Found? && GetKey(t, Parent(w.path)).value.Obj?
    && Leaf(GetKey(t, w.path)) && !IsContainer(w.value)
  }

  /** Two writes that name the same place are the same write. */
  predicate Consistent(ws: seq<Write>)
  {
    forall i, j :: 0 <= i < |ws| && 0 <= j < |ws| && SameNames(ws[i].path, ws[j].path) ==> ws[i] == ws[j]
  }

  /** Writes that behave like assignments to fields of distinct live objects. */
  predicate Writable(t: Value, ws: seq<Write>)
  {
    (forall i :: 0 <= i < |ws| ==> Fits(t, ws[i])) && Consistent(ws)
  }

  /** A write that fits still fits after another one, unless the other one
      already put the same value in the same place. */
  lemma FitsAfter(t: Value, w: Write, v: Write)
    requires Fits(t, w) && Fits(t, v)
    requires SameNames(w.path, v.path) ==> v == w
    ensures Put(t, w.path, w.value).Ok?
    ensures Fits(Put(t, w.path, w.value).value, v)
  {
    var p, x, r := w.path, w.value, v.path;
    PutThenGet(t, p, x);
    var t' := Put(t, p, x).value;
    var q := Parent(r);
    KeepObject(t, p, x, q);
    assert GetKey(t', q).Found? && GetKey(t', q).value.Obj?;
    if SameNames(p, r) {
      assert GetKey(t', r) == Found(x);
    } else {
      KeepLeaf(t, p, x, r);
      assert GetKey(t', r) == GetKey(t, r);
    }
  }

  /** The first write succeeds and leaves the rest writable. */
  lemma WritableStep(t: Value, ws: seq<Write>)
    requires Writable(t, ws) && ws != []
    ensures Put(t, ws[0].path, ws[0].value).Ok?
    ensures GetKey(Put(t, ws[0].path, ws[0].value).value, ws[0].path) == Found(ws[0].value)
    ensures Writable(Put(t, ws[0].path, ws[0].value).value, ws[1..])
  {
    PutThenGet(t, ws[0].path, ws[0].value);
    var t' := Put(t, ws[0].path, ws[0].value).value;
    var rest := ws[1..];
    forall i | 0 <= i < |rest| ensures Fits(t', rest[i]) {
      assert rest[i] == ws[i + 1];
      FitsAfter(t, ws[0], rest[i]);
    }
    forall i, j | 0 <= i < |rest| && 0 <= j < |rest| && SameNames(rest[i].path, rest[j].path)
      ensures rest[i] == rest[j]
    {
      assert rest[i] == ws[i + 1] && rest[j] == ws[j + 1];
    }
  }

  /** A primitive field of an object that no write names keeps its value. */
  lemma {:induction false} ApplyWritesKeeps(t: Value, ws: seq<Write>, r: Path)
    requires Writable(t, ws)
    requires Fits(t, Write(r, Null))
    requires forall j :: 0 <= j < |ws| ==> !SameNames(ws[j].path, r)
    ensures ApplyWrites(t, ws).Ok?
    ensures GetKey(ApplyWrites(t, ws).value, r) == GetKey(t, r)
    decreases |ws|
  {
    if ws != [] {
      KeepsStep(t, ws, r);
      ApplyWritesKeeps(Put(t, ws[0].path, ws[0].value).value, ws[1..], r);
    }
  }

  /** One step of `ApplyWritesKeeps`: the first write leaves `r` alone and the
      remaining writes still avoid it. */
  lemma KeepsStep(t: Value, ws: seq<Write>, r: Path)
    requires Writable(t, ws) && ws != []
    requires Fits(t, Write(r, Null))
    requires forall j :: 0 <= j < |ws| ==> !SameNames(ws[j].path, r)
    ensures Put(t, ws[0].path, ws[0].value).Ok?
    ensures Writable(Put(t, ws[0].path, ws[0].value).value, ws[1..])
    ensures Fits(Put(t, ws[0].path, ws[0].value).value, Write(r, Null))
    ensures GetKey(Put(t, ws[0].path, ws[0].value).value, r) == GetKey(t, r)
    ensures forall j :: 0 <= j < |ws[1..]| ==> !SameNames(ws[1..][j].path, r)
  {
    var p, x := ws[0].path, ws[0].value;
    WritableStep(t, ws);
    FitsAfter(t, ws[0], Write(r, Null));
    assert Fits(t, ws[0]) && !SameNames(p, r);
    KeepLeaf(t, p, x, r);
    var rest := ws[1..];
    forall j | 0 <= j < |rest| ensures !SameNames(rest[j].path, r) {
      assert rest[j] == ws[j + 1];
    }
  }

  /** Every write lands: after all of them, each place reads what was written there. */
  lemma {:induction false} ApplyWritesLands(t: Value, ws: seq<Write>, j: nat)
    requires Writable(t, ws) && j < |ws|
    ensures ApplyWrites(t, ws).Ok?
    ensures GetKey(ApplyWrites(t, ws).value, ws[j].path) == Found(ws[j].value)
    decreases |ws|
  {
    if j == 0 && !(exists k :: 0 <= k < |ws[1..]| && SameNames(ws[1..][k].path, ws[0].path)) {
      LandsLast(t, ws);
    } else {
      var i := LaterIndex(ws, j);
      WritableStep(t, ws);
      ApplyWritesUnfold(t, ws);
      ApplyWritesLands(Put(t, ws[0].path, ws[0].value).value, ws[1..], i);
    }
  }

  /** Where write `j` reappears among the writes after the first, unless it
      is the first one and no later write repeats it. */
  lemma LaterIndex(ws: seq<Write>, j: nat) returns (i: nat)
    requires Consistent(ws) && j < |ws|
    requires j > 0 || exists k :: 0 <= k < |ws[1..]| && SameNames(ws[1..][k].path, ws[0].path)
    ensures i < |ws| - 1 && ws[1..][i] == ws[j]
  {
    var rest := ws[1..];
    if j > 0 {
      i := j - 1;
      assert rest[i] == ws[j];
    } else {
      var k :| 0 <= k < |rest| && SameNames(rest[k].path, ws[0].path);
      assert rest[k] == ws[k + 1];
      i := k;
    }
  }

  lemma ApplyWritesUnfold(t: Value, ws: seq<Write>)
    requires ws != [] && forall i :: 0 <= i < |ws| ==> ws[i].path != []
    requires Put(t, ws[0].path, ws[0].value).Ok?
    ensures ApplyWrites(t, ws) == ApplyWrites(Put(t, ws[0].path, ws[0].value).value, ws[1..])
  {
  }

  /** A write that no later write names is what the place holds at the end. */
  lemma LandsLast(t: Value, ws: seq<Write>)
    requires Writable(t, ws) && ws != []
    requires forall k :: 0 <= k < |ws[1..]| ==> !SameNames(ws[1..][k].path, ws[0].path)
    ensures ApplyWrites(t, ws).Ok?
    ensures GetKey(ApplyWrites(t, ws).value, ws[0].path) == Found(ws[0].value)
  {
    WritableStep(t, ws);
    var t' := Put(t, ws[0].path, ws[0].value).value;
    FitsAfter(t, ws[0], ws[0]);
    ApplyWritesKeeps(t', ws[1..], ws[0].path);
  }

  /** Nothing off the written paths changes. */
  lemma {:induction false} ApplyWritesFrame(t: Value, ws: seq<Write>, q: Path)
    requires forall i :: 0 <= i < |ws| ==> ws[i].path != []
    requires ApplyWrites(t, ws).Ok?
    requires forall j :: 0 <= j < |ws| ==> Diverge(ws[j].path, q)
    ensures GetKey(ApplyWrites(t, ws).value, q) == GetKey(t, q)
    decreases |ws|
  {
    if ws != [] {
      PutFrame(t, ws[0].path, ws[0].value, q);
      var rest := ws[1..];
      assert forall j :: 0 <= j < |rest| ==> rest[j] == ws[j + 1];
      ApplyWritesFrame(Put(t, ws[0].path, ws[0].value).value, rest, q);
    }
  }

  // ---------------------------------------------------------------------------
  // The renaming table

  /** The property names every plain JavaScript object answers through its
      prototype. */
  const InheritedMembers: set<string> :=
    {"constructor", "hasOwnProperty", "isPrototypeOf", "propertyIsEnumerable", "toString",
     "toLocaleString", "valueOf", "__proto__", "__defineGetter__", "__defineSetter__",
     "__lookupGetter__", "__lookupSetter__"}

  /** What an inherited member reads as in the tree: a function or the
      prototype, an object with no own enumerable fields. */
  const Inherited: Value := Obj([])

  /** `RenameDict` (its own entries) and how many names have been generated so far. */
  datatype Table = Table(aliases: map<string, string>, drawn: nat)

  /** `RenameDict[key]`. As written the table is a plain object and also
      answers for the members it inherits; the corrected table answers only
      for its own entries. */
  function Lookup(tab: Table, key: string, fixed: bool): Access
  {
    if key in tab.aliases then Defined(Str(tab.aliases[key]))
    else if !fixed && key in InheritedMembers then Defined(Inherited)
    else Undefined
  }

  /** One occurrence: draw a fresh name when the entry is falsy, then read
      the entry back as the new name. */
  function Rename1(tab: Table, key: string, gen: nat -> string, fixed: bool): (Value, Table)
  {
    var current := Lookup(tab, key, fixed);
    if Truthy(current) then (current.value, tab)
    else (Str(gen(tab.drawn)), Table(tab.aliases[key := gen(tab.drawn)], tab.drawn + 1))
  }

  /** The new names of a run of occurrences whose names read as `keys`. */
  function Aliases(keys: seq<string>, tab: Table, gen: nat -> string, fixed: bool): (al: seq<Value>)
    ensures |al| == |keys|
  {
    if keys == [] then []
    else
      var (x, tab') := Rename1(tab, keys[0], gen, fixed);
      [x] + Aliases(keys[1..], tab', gen, fixed)
  }

  predicate Distinct(s: seq<string>)
  {
    forall i, j :: 0 <= i < j < |s| ==> s[i] != s[j]
  }

  /** `seen` followed by the keys it lacks, in the order they first appear. */
  function Extend(seen: seq<string>, keys: seq<string>): (r: seq<string>)
    ensures |seen| <= |r| && r[..|seen|] == seen
    ensures Distinct(seen) ==> Distinct(r)
    ensures forall k :: k in keys ==> k in r
    decreases |keys|
  {
    if keys == [] then seen
    else if keys[0] in seen then
      var r := Extend(seen, keys[1..]);
      assert r[IndexIn(seen, keys[0])] == keys[0];
      r
    else
      var r := Extend(seen + [keys[0]], keys[1..]);
      assert r[..|seen|] == (seen + [keys[0]])[..|seen|] by {
        assert r[..|seen|] == r[..|seen| + 1][..|seen|];
      }
      assert r[|seen|] == keys[0];
      r
  }

  /** The distinct keys in the order they first appear. */
  function Firsts(keys: seq<string>): seq<string>
  {
    Extend([], keys)
  }

  /** Position of `k` in `s`. */
  function IndexIn(s: seq<string>, k: string): (i: nat)
    requires k in s
    ensures i < |s| && s[i] == k
  {
    if s[0] == k then 0 else 1 + IndexIn(s[1..], k)
  }

  /** Which generated name the `j`-th occurrence should receive: the rank of
      its key among the distinct keys in order of first appearance. */
  function Rank(keys: seq<string>, j: nat): nat
    requires j < |keys|
  {
    IndexIn(Firsts(keys), keys[j])
  }

  /** A key keeps its position when the list grows at the end. */
  lemma IndexInPrefix(small: seq<string>, big: seq<string>, k: string)
    requires Distinct(big) && |small| <= |big| && big[..|small|] == small && k in small
    ensures IndexIn(big, k) == IndexIn(small, k)
  {
    var i := IndexIn(small, k);
    assert big[i] == small[i];
  }

  /** A table built from the distinct keys `seen`, the `i`-th holding the
      `i`-th generated name. */
  predicate Built(tab: Table, seen: seq<string>, gen: nat -> string)
  {
    Distinct(seen) && tab.drawn == |seen|
    && tab.aliases.Keys == (set i | 0 <= i < |seen| :: seen[i])
    && (forall i :: 0 <= i < |seen| ==> tab.aliases[seen[i]] == gen(i))
  }

  /** One occurrence against a built table: a key seen before reads its
      entry back, a new key draws the next name and joins the table. */
  lemma RenameStep(tab: Table, seen: seq<string>, k: string, gen: nat -> string)
    requires Built(tab, seen, gen)
    requires forall k :: gen(k) != ""
    ensures var (x, tab') := Rename1(tab, k, gen, true);
      if k in seen then x == Str(gen(IndexIn(seen, k))) && tab' == tab
      else x == Str(gen(|seen|)) && Built(tab', seen + [k], gen)
  {
    var (x, tab') := Rename1(tab, k, gen, true);
    if k in seen {
      var i := IndexIn(seen, k);
      assert tab.aliases[seen[i]] == gen(i);
    } else {
      var seen' := seen + [k];
      assert k !in tab.aliases;
      forall i | 0 <= i < |seen'| ensures tab'.aliases[seen'[i]] == gen(i) {
        if i < |seen| {
          assert seen'[i] == seen[i] != k;
        }
      }
      assert tab'.aliases.Keys == (set i | 0 <= i < |seen'| :: seen'[i]) by {
        assert forall i :: 0 <= i < |seen| ==> seen'[i] == seen[i];
        assert seen'[|seen|] == k;
      }
    }
  }

  lemma {:induction false} AliasesFrom(keys: seq<string>, tab: Table, seen: seq<string>, gen: nat -> string, j: nat)
    requires Built(tab, seen, gen) && j < |keys|
    requires forall k :: gen(k) != ""
    ensures Aliases(keys, tab, gen, true)[j] == Str(gen(IndexIn(Extend(seen, keys), keys[j])))
    decreases |keys|
  {
    var k := keys[0];
    var (x, tab') := Rename1(tab, k, gen, true);
    var rest := keys[1..];
    var full := Extend(seen, keys);
    RenameStep(tab, seen, k, gen);
    var seen' := if k in seen then seen else seen + [k];
    assert Built(tab', seen', gen);
    assert full == Extend(seen', rest);
    if j == 0 {
      assert IndexIn(seen', k) == if k in seen then IndexIn(seen, k) else |seen|;
      IndexInPrefix(seen', full, k);
    } else {
      assert keys[j] == rest[j - 1];
      AliasesFrom(rest, tab', seen', gen, j - 1);
    }
  }

  /** Corrected renaming: every occurrence gets the generated name its key
      was first given, and two occurrences share a generated name exactly
      when their names agree. With `GenerateVariable` every name is
      non-empty, so no entry is ever falsy and redrawn. */
  lemma AliasesShareByName(keys: seq<string>, gen: nat -> string)
    requires forall k :: gen(k) != ""
    ensures var al := Aliases(keys, Table(map[], 0), gen, true);
      (forall j :: 0 <= j < |keys| ==> al[j] == Str(gen(Rank(keys, j))) && Rank(keys, j) < |Firsts(keys)|)
      && (forall i, j :: 0 <= i < |keys| && 0 <= j < |keys| ==> (Rank(keys, i) == Rank(keys, j) <==> keys[i] == keys[j]))
  {
    forall j | 0 <= j < |keys|
      ensures Aliases(keys, Table(map[], 0), gen, true)[j] == Str(gen(Rank(keys, j)))
    {
      AliasesFrom(keys, Table(map[], 0), [], gen, j);
    }
  }

  /** As written, a declared name that an object inherits (`toString`,
      `constructor`, ...) finds a truthy entry before any is made, so every
      occurrence of it is set to that inherited member rather than to a
      generated name. */
  lemma {:induction false} AliasesAsWrittenInherited(keys: seq<string>, tab: Table, gen: nat -> string, j: nat)
    requires j < |keys| && keys[j] in InheritedMembers
    requires forall k :: k in tab.aliases ==> k !in InheritedMembers
    ensures Aliases(keys, tab, gen, false)[j] == Inherited
    decreases |keys|
  {
    var (x, tab') := Rename1(tab, keys[0], gen, false);
    if j > 0 {
      assert keys[j] == keys[1..][j - 1];
      AliasesAsWrittenInherited(keys[1..], tab', gen, j - 1);
    }
  }

  /** `local toString = 1`: as written the local is renamed to the inherited
      method; corrected it receives the first generated name. */
  lemma InheritedNameCounterexample(gen: nat -> string)
    ensures Aliases(["toString"], Table(map[], 0), gen, false) == [Inherited]
    ensures Aliases(["toString"], Table(map[], 0), gen, true) == [Str(gen(0))]
  {
    AliasesAsWrittenInherited(["toString"], Table(map[], 0), gen, 0);
  }

  // ---------------------------------------------------------------------------
  // RenameVariables

  /** Where `Node.name = ...` writes for an occurrence. */
  function NamePath(o: Occurrence): Path
  {
    o.path + [Name("name")]
  }

  /** `RenameDict[OriginalName]` turns the name into a property key. Array
      names are not modelled. */
  function NameKeys(occs: seq<Occurrence>): (r: Result<seq<string>>)
    ensures r.Ok? ==> |r.value| == |occs|
    ensures r.Ok? ==> forall j :: 0 <= j < |occs| ==> JsText(GetProp(occs[j].node, "name")) == Some(r.value[j])
  {
    if occs == [] then Ok([])
    else
      var rest :- NameKeys(occs[1..]);
      match JsText(GetProp(occs[0].node, "name"))
      case None => Err("array names are not modelled")
      case Some(k) => Ok([k] + rest)
  }

  function NameWrites(occs: seq<Occurrence>, al: seq<Value>): (ws: seq<Write>)
    requires |al| == |occs|
    ensures |ws| == |occs|
    ensures forall j :: 0 <= j < |ws| ==> ws[j] == Write(NamePath(occs[j]), al[j])
  {
    seq(|occs|, j requires 0 <= j < |occs| => Write(NamePath(occs[j]), al[j]))
  }

  /** `RenameVariables(AST)`: every declared use, in the order the search
      found it, has its `name` replaced through the table. */
  function RenameVariables(t: Value, gen: nat -> string, fixed: bool): (r: Result<Value>)
    ensures r.Ok? ==> NameKeys(CollectVariables(t).defined).Ok?
    ensures r.Ok? ==> forall q :: (forall o :: o in CollectVariables(t).defined ==> Diverge(NamePath(o), q))
                                  ==> GetKey(r.value, q) == GetKey(t, q)
  {
    var a := CollectVariables(t);
    var keys :- NameKeys(a.defined);
    var al := Aliases(keys, Table(map[], 0), gen, fixed);
    NameWritesFrame(t, a.defined, al);
    ApplyWrites(t, NameWrites(a.defined, al))
  }

  /** Writing the aliases into the `name` fields leaves every path that
      parts ways with all of them as it was. */
  lemma NameWritesFrame(t: Value, occs: seq<Occurrence>, al: seq<Value>)
    requires |al| == |occs|
    ensures ApplyWrites(t, NameWrites(occs, al)).Ok? ==>
      forall q :: (forall o :: o in occs ==> Diverge(NamePath(o), q))
                  ==> GetKey(ApplyWrites(t, NameWrites(occs, al)).value, q) == GetKey(t, q)
  {
    var ws := NameWrites(occs, al);
    if ApplyWrites(t, ws).Ok? {
      forall q | forall o :: o in occs ==> Diverge(NamePath(o), q)
        ensures GetKey(ApplyWrites(t, ws).value, q) == GetKey(t, q)
      {
        forall j | 0 <= j < |ws|
          ensures Diverge(ws[j].path, q)
        {
          assert occs[j] in occs;
        }
        ApplyWritesFrame(t, ws, q);
      }
    }
  }

  /** Away from the inherited member names the table as written and the
      corrected one behave alike. */
  lemma {:induction false} AliasesAgreeOffInherited(keys: seq<string>, tab: Table, gen: nat -> string)
    requires forall i :: 0 <= i < |keys| ==> keys[i] !in InheritedMembers
    ensures Aliases(keys, tab, gen, false) == Aliases(keys, tab, gen, true)
    decreases |keys|
  {
    if keys != [] {
      assert Lookup(tab, keys[0], false) == Lookup(tab, keys[0], true);
      var (x, tab') := Rename1(tab, keys[0], gen, true);
      AliasesAgreeOffInherited(keys[1..], tab', gen);
    }
  }

  /** The pass as written renames exactly like the corrected one when no
      declared name is an inherited member name. */
  lemma RenameVariablesAsWrittenAgrees(t: Value, gen: nat -> string)
    requires NameKeys(CollectVariables(t).defined).Ok?
    requires var keys := NameKeys(CollectVariables(t).defined).value;
      forall i :: 0 <= i < |keys| ==> keys[i] !in InheritedMembers
    ensures RenameVariables(t, gen, false) == RenameVariables(t, gen, true)
  {
    AliasesAgreeOffInherited(NameKeys(CollectVariables(t).defined).value, Table(map[], 0), gen);
  }

  /** Every identifier the parser produces has a string `name`. */
  predicate StringNames(a: Analysis)
  {
    (forall o :: o in a.defined ==> GetProp(o.node, "name").Defined? && GetProp(o.node, "name").value.Str?)
    && (forall o :: o in a.external ==> GetProp(o.node, "name").Defined? && GetProp(o.node, "name").value.Str?)
  }

  /** Two positions of a well-formed tree that read the same property names are one position. */
  lemma {:induction false} SamePosition(t: Value, a: Path, b: Path)
    requires WellFormed(t) && TreeIndex.Position(t, a) && TreeIndex.Position(t, b) && SameNames(a, b)
    ensures a == b
    decreases |a|
  {
    if a != [] {
      assert PropName(a[0]) == PropName(b[0]);
      assert SameNames(a[1..], b[1..]) by {
        forall i | 0 <= i < |a[1..]| ensures PropName(a[1..][i]) == PropName(b[1..][i]) {
          assert a[1..][i] == a[i + 1] && b[1..][i] == b[i + 1];
        }
      }
      match t
      case Obj(fs) =>
        var i :| 0 <= i < |fs| && a[0] == Name(fs[i].key) && TreeIndex.Position(fs[i].val, a[1..]);
        var j :| 0 <= j < |fs| && b[0] == Name(fs[j].key) && TreeIndex.Position(fs[j].val, b[1..]);
        assert i == j;
        SamePosition(fs[i].val, a[1..], b[1..]);
      case Arr(items) =>
        IndexNameIsCanonical(a[0].index);
        IndexNameIsCanonical(b[0].index);
        SamePosition(items[a[0].index], a[1..], b[1..]);
      assert a == [a[0]] + a[1..] && b == [b[0]] + b[1..];
    }
  }

  /** What the search guarantees about an occurrence it kept. */
  lemma OccurrenceAt(t: Value, o: Occurrence)
    requires WellFormed(t)
    requires o in CollectVariables(t).defined || o in CollectVariables(t).external
    ensures TreeIndex.Position(t, o.path) && GetKey(t, o.path) == Found(o.node) && o.node.Obj?
  {
    TreeIndex.ObjectInstancesSpec(t, "type", "Identifier", o.path);
    GetNodeInternalAgrees(t, o.path);
  }

  /** The `name` field of an occurrence is a primitive field of an object. */
  lemma NameFits(t: Value, o: Occurrence, x: Value)
    requires WellFormed(t) && StringNames(CollectVariables(t))
    requires o in CollectVariables(t).defined || o in CollectVariables(t).external
    requires !IsContainer(x)
    ensures Fits(t, Write(NamePath(o), x))
  {
    OccurrenceAt(t, o);
    assert Parent(NamePath(o)) == o.path;
    FieldRead(t, o.path, "name");
  }

  /** Two occurrences whose `name` paths read alike are one occurrence. */
  lemma SameNamePath(t: Value, o: Occurrence, v: Occurrence)
    requires WellFormed(t)
    requires o in CollectVariables(t).defined || o in CollectVariables(t).external
    requires v in CollectVariables(t).defined || v in CollectVariables(t).external
    requires SameNames(NamePath(o), NamePath(v))
    ensures o == v
  {
    OccurrenceAt(t, o);
    OccurrenceAt(t, v);
    assert SameNames(o.path, v.path) by {
      forall i | 0 <= i < |o.path| ensures PropName(o.path[i]) == PropName(v.path[i]) {
        assert NamePath(o)[i] == o.path[i] && NamePath(v)[i] == v.path[i];
      }
    }
    SamePosition(t, o.path, v.path);
  }

  /** With string names and the corrected table, the writes the pass makes
      are writable. */
  lemma RenameWritable(t: Value, gen: nat -> string)
    requires WellFormed(t) && StringNames(CollectVariables(t))
    requires forall k :: gen(k) != ""
    ensures NameKeys(CollectVariables(t).defined).Ok?
    ensures var d := CollectVariables(t).defined;
      var keys := NameKeys(d).value;
      Writable(t, NameWrites(d, Aliases(keys, Table(map[], 0), gen, true)))
  {
    var d := CollectVariables(t).defined;
    NameKeysOfStrings(d);
    var keys := NameKeys(d).value;
    var al := Aliases(keys, Table(map[], 0), gen, true);
    var ws := NameWrites(d, al);
    AliasesShareByName(keys, gen);
    forall i | 0 <= i < |ws| ensures Fits(t, ws[i]) {
      NameFits(t, d[i], al[i]);
    }
    forall i, j | 0 <= i < |ws| && 0 <= j < |ws| && SameNames(ws[i].path, ws[j].path)
      ensures ws[i] == ws[j]
    {
      SameNamePath(t, d[i], d[j]);
    }
  }

  lemma {:induction false} NameKeysOfStrings(occs: seq<Occurrence>)
    requires forall o :: o in occs ==> GetProp(o.node, "name").Defined? && GetProp(o.node, "name").value.Str?
    ensures NameKeys(occs).Ok?
  {
    if occs != [] {
      assert forall o :: o in occs[1..] ==> o in occs;
      NameKeysOfStrings(occs[1..]);
    }
  }

  /** Every declared use is renamed: after the pass, the `name` of the
      `j`-th declared use reads the generated name ranked by the first
      appearance of its original name, so equal names share an alias and
      different names get different draws. */
  lemma RenameVariablesRenames(t: Value, gen: nat -> string, j: nat)
    requires WellFormed(t) && StringNames(CollectVariables(t))
    requires forall k :: gen(k) != ""
    requires j < |CollectVariables(t).defined|
    ensures NameKeys(CollectVariables(t).defined).Ok?
    ensures RenameVariables(t, gen, true).Ok?
    ensures var d := CollectVariables(t).defined;
      GetKey(RenameVariables(t, gen, true).value, NamePath(d[j]))
        == Found(Str(gen(Rank(NameKeys(d).value, j))))
  {
    var d := CollectVariables(t).defined;
    RenameWritable(t, gen);
    var keys := NameKeys(d).value;
    AliasesShareByName(keys, gen);
    ApplyWritesLands(t, NameWrites(d, Aliases(keys, Table(map[], 0), gen, true)), j);
  }

  /** External uses keep their names. */
  lemma RenameVariablesKeepsExternals(t: Value, gen: nat -> string, e: Occurrence)
    requires WellFormed(t) && StringNames(CollectVariables(t))
    requires forall k :: gen(k) != ""
    requires e in CollectVariables(t).external
    ensures RenameVariables(t, gen, true).Ok?
    ensures GetKey(RenameVariables(t, gen, true).value, NamePath(e)) == GetKey(t, NamePath(e))
  {
    var a := CollectVariables(t);
    var d := a.defined;
    RenameWritable(t, gen);
    var keys := NameKeys(d).value;
    var ws := NameWrites(d, Aliases(keys, Table(map[], 0), gen, true));
    NameFits(t, e, Null);
    forall j | 0 <= j < |ws| ensures !SameNames(ws[j].path, NamePath(e)) {
      if SameNames(ws[j].path, NamePath(e)) {
        SameNamePath(t, d[j], e);
        assert false;
      }
    }
    ApplyWritesKeeps(t, ws, NamePath(e));
  }

  /** Nothing that parts ways with every declared use's `name` changes, as
      written or corrected. */
  lemma RenameVariablesFrame(t: Value, gen: nat -> string, fixed: bool, q: Path)
    requires RenameVariables(t, gen, fixed).Ok?
    requires forall o :: o in CollectVariables(t).defined ==> Diverge(NamePath(o), q)
    ensures GetKey(RenameVariables(t, gen, fixed).value, q) == GetKey(t, q)
  {
    var d := CollectVariables(t).defined;
    var keys := NameKeys(d).value;
    var ws := NameWrites(d, Aliases(keys, Table(map[], 0), gen, fixed));
    ApplyWritesFrame(t, ws, q);
  }
}
