/** Path search over the generic tree (`Utils.FindAllInstances`, the renaming
    pass's object-path variant, the depth-bounded body search of the two
    lowering passes) and the deepest-first batch replacement they feed. */
module TreeIndex {
  import opened Wrappers
  import opened Json

  /** Positions reachable by actual field names and array indices. */
  predicate Position(t: Value, q: Path)
    decreases |q|
  {
    q == [] ||
    match t
    case Obj(fs) => exists i :: 0 <= i < |fs| && q[0] == Name(fs[i].key) && Position(fs[i].val, q[1..])
    case Arr(items) => q[0].Index? && q[0].index < |items| && Position(items[q[0].index], q[1..])
    case _ => false
  }

  // ---------------------------------------------------------------------------
  // Utils.FindAllInstances

  /** `Utils.FindAllInstances(tree, key, target)`: in pre-order, the path to the
      `key` field of every object whose own `key` is the string `target`. */
  function FindAllInstances(t: Value, key: string, target: string): seq<Path>
  {
    Search(t, key, target, [])
  }

  function Search(t: Value, key: string, target: string, path: Path): seq<Path>
    decreases t, 1
  {
    match t
    case Obj(fs) =>
      (if Own(fs, key) == Defined(Str(target)) then [path + [Name(key)]] else [])
      + SearchFields(fs, 0, key, target, path)
    case Arr(items) => SearchItems(items, 0, key, target, path)
    case _ => []
  }

  function SearchFields(fs: seq<Member>, i: nat, key: string, target: string, path: Path): seq<Path>
    decreases fs, |fs| - i
  {
    if i >= |fs| then []
    else Search(fs[i].val, key, target, path + [Name(fs[i].key)]) + SearchFields(fs, i + 1, key, target, path)
  }

  function SearchItems(items: seq<Value>, i: nat, key: string, target: string, path: Path): seq<Path>
    decreases items, |items| - i
  {
    if i >= |items| then []
    else Search(items[i], key, target, path + [Index(i)]) + SearchItems(items, i + 1, key, target, path)
  }

  /** A relative path `s` to a `key` field holding `target` inside an object. */
  predicate MatchAt(t: Value, s: Path, key: string, target: string)
  {
    |s| >= 1 && s[|s| - 1] == Name(key) && GetKey(t, s) == Found(Str(target))
    && GetKey(t, s[..|s| - 1]).Found? && GetKey(t, s[..|s| - 1]).value.Obj?
  }

  /** What a match looks like below `path`: it extends `path` by a relative match. */
  predicate IsMatchBelow(t: Value, path: Path, r: Path, key: string, target: string)
  {
    |r| > |path| && r[..|path|] == path && MatchAt(t, r[|path|..], key, target)
  }

  /** A relative match in a child is one in its parent, one step longer. */
  lemma MatchCons(t: Value, k: Key, child: Value, s: Path, key: string, target: string)
    requires !t.Null? && Get(t, k) == Defined(child)
    requires MatchAt(child, s, key, target)
    ensures MatchAt(t, [k] + s, key, target)
  {
    GetKeyCons(t, k, child, s);
    GetKeyCons(t, k, child, s[..|s| - 1]);
    assert ([k] + s)[..|[k] + s| - 1] == [k] + s[..|s| - 1];
  }

  /** Soundness: every path found points at a `key` field holding `target` inside an object. */
  lemma {:induction false} SearchSound(t: Value, key: string, target: string, path: Path)
    requires WellFormed(t)
    ensures forall r :: r in Search(t, key, target, path) ==> IsMatchBelow(t, path, r, key, target)
    decreases t, 1
  {
    match t
    case Obj(fs) =>
      if Own(fs, key) == Defined(Str(target)) {
        var r := path + [Name(key)];
        assert r[|path|..] == [Name(key)] && r[|path|..|r| - 1] == [];
        assert r[..|path|] == path;
      }
      SearchFieldsSound(t, fs, 0, key, target, path);
    case Arr(items) =>
      SearchItemsSound(items, 0, key, target, path);
    case _ =>
  }

  lemma {:induction false} SearchFieldsSound(t: Value, fs: seq<Member>, i: nat, key: string, target: string, path: Path)
    requires t == Obj(fs) && WellFormed(t)
    ensures forall r :: r in SearchFields(fs, i, key, target, path) ==> IsMatchBelow(t, path, r, key, target)
    decreases fs, |fs| - i
  {
    if i < |fs| {
      var child := fs[i].val;
      var cp := path + [Name(fs[i].key)];
      SearchSound(child, key, target, cp);
      SearchFieldsSound(t, fs, i + 1, key, target, path);
      OwnOfDistinct(fs, i);
      forall r | r in Search(child, key, target, cp) ensures IsMatchBelow(t, path, r, key, target) {
        assert IsMatchBelow(child, cp, r, key, target);
        LiftMatch(t, Name(fs[i].key), child, path, r, key, target);
      }
    }
  }

  lemma {:induction false} SearchItemsSound(items: seq<Value>, i: nat, key: string, target: string, path: Path)
    requires WellFormed(Arr(items))
    ensures forall r :: r in SearchItems(items, i, key, target, path) ==> IsMatchBelow(Arr(items), path, r, key, target)
    decreases items, |items| - i
  {
    if i < |items| {
      var child := items[i];
      var cp := path + [Index(i)];
      SearchSound(child, key, target, cp);
      SearchItemsSound(items, i + 1, key, target, path);
      GetIndex(items, i);
      forall r | r in Search(child, key, target, cp) ensures IsMatchBelow(Arr(items), path, r, key, target) {
        LiftMatch(Arr(items), Index(i), child, path, r, key, target);
      }
    }
  }

  /** A path that extends `path + [k]` extends `path`, by `k` and the rest. */
  lemma StepBelow(r: Path, path: Path, k: Key)
    requires |r| > |path| && r[..|path| + 1] == path + [k]
    ensures r[..|path|] == path && r[|path|..] == [k] + r[|path| + 1..]
  {
    var n := |path|;
    assert r[n] == (path + [k])[n];
    forall i | 0 <= i < n ensures r[i] == path[i] {
      assert r[i] == r[..n + 1][i];
    }
  }

  /** A match below a child is a match below its parent. */
  lemma LiftMatch(t: Value, k: Key, child: Value, path: Path, r: Path, key: string, target: string)
    requires !t.Null? && Get(t, k) == Defined(child)
    requires IsMatchBelow(child, path + [k], r, key, target)
    ensures IsMatchBelow(t, path, r, key, target)
  {
    var n := |path|;
    StepBelow(r, path, k);
    MatchCons(t, k, child, r[n + 1..], key, target);
  }

  /** `q` is a real position of an object whose own `key` is the string `target`. */
  predicate ObjectHolding(t: Value, q: Path, key: string, target: string)
  {
    Position(t, q) && GetKey(t, q).Found? && GetKey(t, q).value.Obj?
    && Own(GetKey(t, q).value.fields, key) == Defined(Str(target))
  }

  /** Completeness: every object position whose own `key` reads `target` is found. */
  lemma {:induction false} SearchComplete(t: Value, key: string, target: string, path: Path, q: Path)
    requires WellFormed(t) && ObjectHolding(t, q, key, target)
    ensures path + q + [Name(key)] in Search(t, key, target, path)
    decreases t, 1
  {
    if q == [] {
      assert path + q + [Name(key)] == path + [Name(key)];
    } else {
      match t
      case Obj(fs) =>
        var i :| 0 <= i < |fs| && q[0] == Name(fs[i].key) && Position(fs[i].val, q[1..]);
        SearchCompleteField(t, fs, i, key, target, path, q);
      case Arr(items) =>
        SearchCompleteItem(items, key, target, path, q);
    }
  }

  lemma {:induction false} SearchCompleteField(t: Value, fs: seq<Member>, i: nat, key: string, target: string, path: Path, q: Path)
    requires t == Obj(fs) && WellFormed(t) && ObjectHolding(t, q, key, target)
    requires q != [] && i < |fs| && q[0] == Name(fs[i].key) && Position(fs[i].val, q[1..])
    ensures path + q + [Name(key)] in Search(t, key, target, path)
    decreases t, 0
  {
    var child := fs[i].val;
    var x := path + q + [Name(key)];
    assert x in Search(child, key, target, path + [Name(fs[i].key)]) by {
      FieldHolding(fs, i, key, target, q);
      SearchComplete(child, key, target, path + [Name(fs[i].key)], q[1..]);
      ConsPath(path, q, Name(key));
    }
    assert x in SearchFields(fs, 0, key, target, path) by {
      SearchFieldsIncludes(fs, 0, i, key, target, path);
    }
    FieldsInSearch(fs, key, target, path, x);
  }

  /** The object the path reaches through field `i` is held by that field's value. */
  lemma FieldHolding(fs: seq<Member>, i: nat, key: string, target: string, q: Path)
    requires WellFormed(Obj(fs)) && ObjectHolding(Obj(fs), q, key, target)
    requires q != [] && i < |fs| && q[0] == Name(fs[i].key) && Position(fs[i].val, q[1..])
    ensures ObjectHolding(fs[i].val, q[1..], key, target)
  {
    assert q == [q[0]] + q[1..];
    OwnOfDistinct(fs, i);
    GetKeyCons(Obj(fs), q[0], fs[i].val, q[1..]);
  }

  lemma ConsPath(path: Path, q: Path, last: Key)
    requires q != []
    ensures path + [q[0]] + q[1..] + [last] == path + q + [last]
  {
    assert q == [q[0]] + q[1..];
  }

  lemma FieldsInSearch(fs: seq<Member>, key: string, target: string, path: Path, x: Path)
    requires x in SearchFields(fs, 0, key, target, path)
    ensures x in Search(Obj(fs), key, target, path)
  {
  }

  lemma {:induction false} SearchCompleteItem(items: seq<Value>, key: string, target: string, path: Path, q: Path)
    requires WellFormed(Arr(items)) && ObjectHolding(Arr(items), q, key, target) && q != []
    ensures path + q + [Name(key)] in Search(Arr(items), key, target, path)
    decreases Arr(items), 0
  {
    var i := q[0].index;
    var child := items[i];
    assert ObjectHolding(child, q[1..], key, target) by {
      assert q == [q[0]] + q[1..];
      GetIndex(items, i);
      GetKeyCons(Arr(items), q[0], child, q[1..]);
    }
    SearchComplete(child, key, target, path + [Index(i)], q[1..]);
    ConsPath(path, q, Name(key));
    SearchItemsIncludes(items, 0, i, key, target, path);
  }

  lemma {:induction false} SearchFieldsIncludes(fs: seq<Member>, j: nat, i: nat, key: string, target: string, path: Path)
    requires j <= i < |fs|
    ensures forall r :: r in Search(fs[i].val, key, target, path + [Name(fs[i].key)]) ==> r in SearchFields(fs, j, key, target, path)
    decreases i - j
  {
    if j < i {
      SearchFieldsIncludes(fs, j + 1, i, key, target, path);
    }
  }

  lemma {:induction false} SearchItemsIncludes(items: seq<Value>, j: nat, i: nat, key: string, target: string, path: Path)
    requires j <= i < |items|
    ensures forall r :: r in Search(items[i], key, target, path + [Index(i)]) ==> r in SearchItems(items, j, key, target, path)
    decreases i - j
  {
    if j < i {
      SearchItemsIncludes(items, j + 1, i, key, target, path);
    }
  }

  /** Both directions of the search contract, from the root. */
  lemma FindAllInstancesSpec(t: Value, key: string, target: string)
    requires WellFormed(t)
    ensures forall r :: r in FindAllInstances(t, key, target) ==> MatchAt(t, r, key, target)
    ensures forall q :: ObjectHolding(t, q, key, target) ==> q + [Name(key)] in FindAllInstances(t, key, target)
  {
    SearchSound(t, key, target, []);
    forall r | r in FindAllInstances(t, key, target) ensures MatchAt(t, r, key, target) {
      assert IsMatchBelow(t, [], r, key, target);
      assert r[0..] == r;
    }
    forall q | ObjectHolding(t, q, key, target)
      ensures q + [Name(key)] in FindAllInstances(t, key, target)
    {
      SearchComplete(t, key, target, [], q);
      assert [] + q + [Name(key)] == q + [Name(key)];
    }
  }

  // ---------------------------------------------------------------------------
  // VariableRenamer's FindAllInstances: the path to the object itself

  /** The renaming pass's `FindAllInstances`: like the shared one, but each
      result is the path of the matching object rather than of its key. */
  function ObjectInstances(t: Value, key: string, target: string): seq<Path>
  {
    ObjSearch(t, key, target, [])
  }

  function ObjSearch(t: Value, key: string, target: string, path: Path): seq<Path>
    decreases t, 1
  {
    match t
    case Obj(fs) =>
      (if Own(fs, key) == Defined(Str(target)) then [path] else [])
      + ObjSearchFields(fs, 0, key, target, path)
    case Arr(items) => ObjSearchItems(items, 0, key, target, path)
    case _ => []
  }

  function ObjSearchFields(fs: seq<Member>, i: nat, key: string, target: string, path: Path): seq<Path>
    decreases fs, |fs| - i
  {
    if i >= |fs| then []
    else ObjSearch(fs[i].val, key, target, path + [Name(fs[i].key)]) + ObjSearchFields(fs, i + 1, key, target, path)
  }

  function ObjSearchItems(items: seq<Value>, i: nat, key: string, target: string, path: Path): seq<Path>
    decreases items, |items| - i
  {
    if i >= |items| then []
    else ObjSearch(items[i], key, target, path + [Index(i)]) + ObjSearchItems(items, i + 1, key, target, path)
  }

  /** `path.slice(0, -1)`. */
  function DropLast(p: Path): (r: Path)
    ensures p != [] ==> r == p[..|p| - 1]
  {
    if p == [] then [] else p[..|p| - 1]
  }

  /** Every path with its last step removed. */
  function Parents(ps: seq<Path>): (r: seq<Path>)
    ensures |r| == |ps|
    ensures forall i :: 0 <= i < |ps| ==> r[i] == DropLast(ps[i])
  {
    if ps == [] then [] else [DropLast(ps[0])] + Parents(ps[1..])
  }

  lemma ParentsCons(p: Path, rest: seq<Path>)
    ensures Parents([p] + rest) == [DropLast(p)] + Parents(rest)
  {
    assert ([p] + rest)[0] == p && ([p] + rest)[1..] == rest;
  }

  lemma {:induction false} ParentsAppend(a: seq<Path>, b: seq<Path>)
    ensures Parents(a + b) == Parents(a) + Parents(b)
  {
    if a != [] {
      var p, rest := a[0], a[1..];
      assert a == [p] + rest && a + b == [p] + (rest + b);
      ParentsCons(p, rest + b);
      ParentsCons(p, rest);
      ParentsAppend(rest, b);
    } else {
      assert a + b == b;
    }
  }

  /** The renaming pass's search returns exactly the shared search's results
      with the trailing key dropped, in the same order. */
  lemma {:induction false} ObjSearchIsParents(t: Value, key: string, target: string, path: Path)
    ensures ObjSearch(t, key, target, path) == Parents(Search(t, key, target, path))
    decreases t, 1
  {
    match t
    case Obj(fs) =>
      var own: seq<Path> := if Own(fs, key) == Defined(Str(target)) then [path + [Name(key)]] else [];
      ObjSearchFieldsIsParents(fs, 0, key, target, path);
      ParentsAppend(own, SearchFields(fs, 0, key, target, path));
      assert (path + [Name(key)])[..|path|] == path;
    case Arr(items) =>
      ObjSearchItemsIsParents(items, 0, key, target, path);
    case _ =>
  }

  lemma {:induction false} ObjSearchFieldsIsParents(fs: seq<Member>, i: nat, key: string, target: string, path: Path)
    ensures ObjSearchFields(fs, i, key, target, path) == Parents(SearchFields(fs, i, key, target, path))
    decreases fs, |fs| - i
  {
    if i < |fs| {
      var cp := path + [Name(fs[i].key)];
      ObjSearchIsParents(fs[i].val, key, target, cp);
      ObjSearchFieldsIsParents(fs, i + 1, key, target, path);
      ParentsAppend(Search(fs[i].val, key, target, cp), SearchFields(fs, i + 1, key, target, path));
    }
  }

  lemma {:induction false} ObjSearchItemsIsParents(items: seq<Value>, i: nat, key: string, target: string, path: Path)
    ensures ObjSearchItems(items, i, key, target, path) == Parents(SearchItems(items, i, key, target, path))
    decreases items, |items| - i
  {
    if i < |items| {
      var cp := path + [Index(i)];
      ObjSearchIsParents(items[i], key, target, cp);
      ObjSearchItemsIsParents(items, i + 1, key, target, path);
      ParentsAppend(Search(items[i], key, target, cp), SearchItems(items, i + 1, key, target, path));
    }
  }

  /** The object a relative match ends in owns `key`, and it is `target`. */
  lemma MatchOwner(t: Value, r: Path, key: string, target: string)
    requires MatchAt(t, r, key, target)
    ensures GetKey(t, r[..|r| - 1]).Found? && GetKey(t, r[..|r| - 1]).value.Obj?
    ensures Own(GetKey(t, r[..|r| - 1]).value.fields, key) == Defined(Str(target))
  {
    var q := r[..|r| - 1];
    assert r == q + [Name(key)];
    GetKeyAppend(t, q, [Name(key)]);
    var o := GetKey(t, q).value;
    assert GetKey(o, [Name(key)]) == Found(Str(target));
    OwnRead(o, key);
  }

  /** Reading one name off an object reads its own property. */
  lemma OwnRead(o: Value, key: string)
    requires o.Obj?
    ensures GetKey(o, [Name(key)]) == if Own(o.fields, key).Defined? then Found(Own(o.fields, key).value) else Missing
  {
    var p := [Name(key)];
    assert p[0] == Name(key) && p[1..] == [];
  }

  /** `r` extends `path` by a real position of `t`. */
  predicate PositionBelow(t: Value, path: Path, r: Path)
  {
    |path| <= |r| && r[..|path|] == path && Position(t, r[|path|..])
  }

  /** Every path the renaming pass's search returns is a real position. */
  lemma {:induction false} ObjSearchPositions(t: Value, key: string, target: string, path: Path)
    ensures forall r :: r in ObjSearch(t, key, target, path) ==> PositionBelow(t, path, r)
    decreases t, 1
  {
    match t
    case Obj(fs) =>
      assert path[|path|..] == [] && path[..|path|] == path;
      ObjSearchFieldsPositions(fs, 0, key, target, path);
    case Arr(items) =>
      ObjSearchItemsPositions(items, 0, key, target, path);
    case _ =>
  }

  lemma {:induction false} ObjSearchFieldsPositions(fs: seq<Member>, i: nat, key: string, target: string, path: Path)
    ensures forall r :: r in ObjSearchFields(fs, i, key, target, path) ==> PositionBelow(Obj(fs), path, r)
    decreases fs, |fs| - i
  {
    if i < |fs| {
      var cp := path + [Name(fs[i].key)];
      ObjSearchPositions(fs[i].val, key, target, cp);
      ObjSearchFieldsPositions(fs, i + 1, key, target, path);
      forall r | r in ObjSearch(fs[i].val, key, target, cp) ensures PositionBelow(Obj(fs), path, r) {
        var q := r[|path|..];
        assert r[..|cp|][..|path|] == path;
        assert q[0] == Name(fs[i].key) && q[1..] == r[|cp|..];
      }
    }
  }

  lemma {:induction false} ObjSearchItemsPositions(items: seq<Value>, i: nat, key: string, target: string, path: Path)
    ensures forall r :: r in ObjSearchItems(items, i, key, target, path) ==> PositionBelow(Arr(items), path, r)
    decreases items, |items| - i
  {
    if i < |items| {
      var cp := path + [Index(i)];
      ObjSearchPositions(items[i], key, target, cp);
      ObjSearchItemsPositions(items, i + 1, key, target, path);
      forall r | r in ObjSearch(items[i], key, target, cp) ensures PositionBelow(Arr(items), path, r) {
        var q := r[|path|..];
        assert r[..|cp|][..|path|] == path;
        assert q[0] == Index(i) && q[1..] == r[|cp|..];
      }
    }
  }

  /** Both directions for the renaming pass's search: on a well-formed tree it
      returns exactly the positions of the objects whose own `key` is `target`. */
  lemma ObjectInstancesSpec(t: Value, key: string, target: string, q: Path)
    requires WellFormed(t)
    ensures q in ObjectInstances(t, key, target) <==> ObjectHolding(t, q, key, target)
  {
    if q in ObjectInstances(t, key, target) {
      MatchParentIsMatchedObject(t, key, target, q);
      ObjSearchPositions(t, key, target, []);
      assert PositionBelow(t, [], q);
      assert q[0..] == q;
    }
    if ObjectHolding(t, q, key, target) {
      FindAllInstancesSpec(t, key, target);
      ObjSearchIsParents(t, key, target, []);
      var found := FindAllInstances(t, key, target);
      var i :| 0 <= i < |found| && found[i] == q + [Name(key)];
      assert DropLast(found[i]) == q;
    }
  }

  /** `GetKey(tree, match minus its last step)` is the matched object, whose own `key` is `target`. */
  lemma MatchParentIsMatchedObject(t: Value, key: string, target: string, q: Path)
    requires WellFormed(t)
    requires q in ObjectInstances(t, key, target)
    ensures GetKey(t, q).Found? && GetKey(t, q).value.Obj?
    ensures Own(GetKey(t, q).value.fields, key) == Defined(Str(target))
  {
    FindAllInstancesSpec(t, key, target);
    ObjSearchIsParents(t, key, target, []);
    var found := FindAllInstances(t, key, target);
    var i :| 0 <= i < |found| && Parents(found)[i] == q;
    MatchOwner(t, found[i], key, target);
  }

  /** Pre-order: no path is preceded by one it is a prefix of (or names the same as). */
  predicate PreOrdered(ps: seq<Path>)
  {
    forall a, b :: 0 <= a < b < |ps| ==> !PrefixOf(ps[b], ps[a])
  }

  lemma PreOrderedAppend(xs: seq<Path>, ys: seq<Path>)
    requires PreOrdered(xs) && PreOrdered(ys)
    requires forall x, y :: x in xs && y in ys ==> !PrefixOf(y, x)
    ensures PreOrdered(xs + ys)
  {
    var zs := xs + ys;
    forall a, b | 0 <= a < b < |zs| ensures !PrefixOf(zs[b], zs[a]) {
      if b < |xs| {
        assert zs[a] == xs[a] && zs[b] == xs[b];
      } else if a >= |xs| {
        assert zs[a] == ys[a - |xs|] && zs[b] == ys[b - |xs|];
      } else {
        assert zs[a] in xs && zs[b] in ys;
      }
    }
  }

  /** Everything the search finds from field `i` on leaves `path` through one of those fields. */
  lemma {:induction false} ObjSearchFieldsFrom(fs: seq<Member>, i: nat, key: string, target: string, path: Path)
    ensures forall r :: r in ObjSearchFields(fs, i, key, target, path) ==>
      |r| > |path| && exists m :: i <= m < |fs| && r[|path|] == Name(fs[m].key)
    decreases |fs| - i
  {
    if i < |fs| {
      var cp := path + [Name(fs[i].key)];
      ObjSearchPositions(fs[i].val, key, target, cp);
      ObjSearchFieldsFrom(fs, i + 1, key, target, path);
      forall r | r in ObjSearch(fs[i].val, key, target, cp)
        ensures |r| > |path| && r[|path|] == Name(fs[i].key)
      {
        assert r[..|cp|][|path|] == cp[|path|];
      }
    }
  }

  /** Everything the search finds from item `i` on leaves `path` through one of those items. */
  lemma {:induction false} ObjSearchItemsFrom(items: seq<Value>, i: nat, key: string, target: string, path: Path)
    ensures forall r :: r in ObjSearchItems(items, i, key, target, path) ==>
      |r| > |path| && exists m :: i <= m < |items| && r[|path|] == Index(m)
    decreases |items| - i
  {
    if i < |items| {
      var cp := path + [Index(i)];
      ObjSearchPositions(items[i], key, target, cp);
      ObjSearchItemsFrom(items, i + 1, key, target, path);
      forall r | r in ObjSearch(items[i], key, target, cp)
        ensures |r| > |path| && r[|path|] == Index(i)
      {
        assert r[..|cp|][|path|] == cp[|path|];
      }
    }
  }

  /** The renaming pass's search lists an object before anything inside it. */
  lemma {:induction false} ObjSearchPreOrder(t: Value, key: string, target: string, path: Path)
    requires WellFormed(t)
    ensures PreOrdered(ObjSearch(t, key, target, path))
    decreases t, 1
  {
    match t
    case Obj(fs) =>
      var own: seq<Path> := if Own(fs, key) == Defined(Str(target)) then [path] else [];
      ObjSearchFieldsPreOrder(fs, 0, key, target, path);
      ObjSearchFieldsFrom(fs, 0, key, target, path);
      PreOrderedAppend(own, ObjSearchFields(fs, 0, key, target, path));
    case Arr(items) =>
      ObjSearchItemsPreOrder(items, 0, key, target, path);
    case _ =>
  }

  lemma {:induction false} ObjSearchFieldsPreOrder(fs: seq<Member>, i: nat, key: string, target: string, path: Path)
    requires WellFormed(Obj(fs))
    ensures PreOrdered(ObjSearchFields(fs, i, key, target, path))
    decreases fs, |fs| - i
  {
    if i < |fs| {
      var cp := path + [Name(fs[i].key)];
      var xs, ys := ObjSearch(fs[i].val, key, target, cp), ObjSearchFields(fs, i + 1, key, target, path);
      ObjSearchPreOrder(fs[i].val, key, target, cp);
      ObjSearchFieldsPreOrder(fs, i + 1, key, target, path);
      ObjSearchFieldsFrom(fs, i + 1, key, target, path);
      ObjSearchPositions(fs[i].val, key, target, cp);
      forall x, y | x in xs && y in ys ensures !PrefixOf(y, x) {
        var m :| i < m < |fs| && y[|path|] == Name(fs[m].key);
        assert x[..|cp|][|path|] == cp[|path|];
        assert fs[i].key != fs[m].key;
      }
      PreOrderedAppend(xs, ys);
    }
  }

  lemma {:induction false} ObjSearchItemsPreOrder(items: seq<Value>, i: nat, key: string, target: string, path: Path)
    requires WellFormed(Arr(items))
    ensures PreOrdered(ObjSearchItems(items, i, key, target, path))
    decreases items, |items| - i
  {
    if i < |items| {
      var cp := path + [Index(i)];
      var xs, ys := ObjSearch(items[i], key, target, cp), ObjSearchItems(items, i + 1, key, target, path);
      ObjSearchPreOrder(items[i], key, target, cp);
      ObjSearchItemsPreOrder(items, i + 1, key, target, path);
      ObjSearchItemsFrom(items, i + 1, key, target, path);
      ObjSearchPositions(items[i], key, target, cp);
      forall x, y | x in xs && y in ys ensures !PrefixOf(y, x) {
        var m :| i < m < |items| && y[|path|] == Index(m);
        assert x[..|cp|][|path|] == cp[|path|];
        IndexNameIsCanonical(i);
        IndexNameIsCanonical(m);
      }
      PreOrderedAppend(xs, ys);
    }
  }

  // ---------------------------------------------------------------------------
  // FindAllBodies (ControlFlow.js and DecomposeExpressions.js)

  /** `FindAllBodies` with its depth cut-off (`Depth > limit` returns nothing):
      the path to every `body` array, objects first, then their fields in order. */
  function FindAllBodies(t: Value, limit: nat): seq<Path>
  {
    Bodies(t, [], 0, limit)
  }

  function Bodies(t: Value, path: Path, depth: nat, limit: nat): seq<Path>
    decreases t, 1
  {
    if depth > limit then []
    else match t
      case Obj(fs) =>
        (if Own(fs, "body").Defined? && Own(fs, "body").value.Arr? then [path + [Name("body")]] else [])
        + BodiesFields(fs, 0, path, depth, limit)
      case Arr(items) => BodiesItems(items, 0, path, depth, limit)
      case _ => []
  }

  function BodiesFields(fs: seq<Member>, i: nat, path: Path, depth: nat, limit: nat): seq<Path>
    decreases fs, |fs| - i
  {
    if i >= |fs| then []
    else Bodies(fs[i].val, path + [Name(fs[i].key)], depth + 1, limit) + BodiesFields(fs, i + 1, path, depth, limit)
  }

  function BodiesItems(items: seq<Value>, i: nat, path: Path, depth: nat, limit: nat): seq<Path>
    decreases items, |items| - i
  {
    if i >= |items| then []
    else Bodies(items[i], path + [Index(i)], depth + 1, limit) + BodiesItems(items, i + 1, path, depth, limit)
  }

  /** A relative path `s` to a `body` array owned by an object. */
  predicate BodyPath(t: Value, s: Path)
  {
    |s| >= 1 && s[|s| - 1] == Name("body")
    && GetKey(t, s).Found? && GetKey(t, s).value.Arr?
    && GetKey(t, s[..|s| - 1]).Found? && GetKey(t, s[..|s| - 1]).value.Obj?
  }

  /** What a found body looks like below `path`: a relative body path, no deeper
      than the cut-off allows. */
  predicate IsBodyBelow(t: Value, path: Path, r: Path, limit: nat)
  {
    |path| < |r| <= limit + 1 && r[..|path|] == path && BodyPath(t, r[|path|..])
  }

  lemma BodyCons(t: Value, k: Key, child: Value, s: Path)
    requires !t.Null? && Get(t, k) == Defined(child)
    requires BodyPath(child, s)
    ensures BodyPath(t, [k] + s)
  {
    GetKeyCons(t, k, child, s);
    GetKeyCons(t, k, child, s[..|s| - 1]);
    assert ([k] + s)[..|[k] + s| - 1] == [k] + s[..|s| - 1];
  }

  lemma LiftBody(t: Value, k: Key, child: Value, path: Path, r: Path, limit: nat)
    requires !t.Null? && Get(t, k) == Defined(child)
    requires IsBodyBelow(child, path + [k], r, limit)
    ensures IsBodyBelow(t, path, r, limit)
  {
    var n := |path|;
    StepBelow(r, path, k);
    BodyCons(t, k, child, r[n + 1..]);
  }

  lemma {:induction false} BodiesSound(t: Value, path: Path, depth: nat, limit: nat)
    requires WellFormed(t) && |path| == depth
    ensures forall r :: r in Bodies(t, path, depth, limit) ==> IsBodyBelow(t, path, r, limit)
    decreases t, 1
  {
    if depth <= limit {
      match t
      case Obj(fs) =>
        if Own(fs, "body").Defined? && Own(fs, "body").value.Arr? {
          var r := path + [Name("body")];
          assert r[|path|..] == [Name("body")] && r[|path|..|r| - 1] == [];
          assert r[..|path|] == path;
        }
        BodiesFieldsSound(fs, 0, path, depth, limit);
      case Arr(items) =>
        BodiesItemsSound(items, 0, path, depth, limit);
      case _ =>
    }
  }

  lemma {:induction false} BodiesFieldsSound(fs: seq<Member>, i: nat, path: Path, depth: nat, limit: nat)
    requires WellFormed(Obj(fs)) && |path| == depth
    ensures forall r :: r in BodiesFields(fs, i, path, depth, limit) ==> IsBodyBelow(Obj(fs), path, r, limit)
    decreases fs, |fs| - i
  {
    if i < |fs| {
      var cp := path + [Name(fs[i].key)];
      BodiesSound(fs[i].val, cp, depth + 1, limit);
      BodiesFieldsSound(fs, i + 1, path, depth, limit);
      OwnOfDistinct(fs, i);
      forall r | r in Bodies(fs[i].val, cp, depth + 1, limit) ensures IsBodyBelow(Obj(fs), path, r, limit) {
        LiftBody(Obj(fs), Name(fs[i].key), fs[i].val, path, r, limit);
      }
    }
  }

  lemma {:induction false} BodiesItemsSound(items: seq<Value>, i: nat, path: Path, depth: nat, limit: nat)
    requires WellFormed(Arr(items)) && |path| == depth
    ensures forall r :: r in BodiesItems(items, i, path, depth, limit) ==> IsBodyBelow(Arr(items), path, r, limit)
    decreases items, |items| - i
  {
    if i < |items| {
      var cp := path + [Index(i)];
      BodiesSound(items[i], cp, depth + 1, limit);
      BodiesItemsSound(items, i + 1, path, depth, limit);
      GetIndex(items, i);
      forall r | r in Bodies(items[i], cp, depth + 1, limit) ensures IsBodyBelow(Arr(items), path, r, limit) {
        LiftBody(Arr(items), Index(i), items[i], path, r, limit);
      }
    }
  }

  /** Every path `FindAllBodies` returns reads a `body` array whose parent is an
      object, and none is longer than the cut-off depth plus one. */
  lemma FindAllBodiesSound(t: Value, limit: nat)
    requires WellFormed(t)
    ensures forall r :: r in FindAllBodies(t, limit) ==> BodyPath(t, r) && |r| <= limit + 1
  {
    BodiesSound(t, [], 0, limit);
    forall r | r in FindAllBodies(t, limit) ensures BodyPath(t, r) && |r| <= limit + 1 {
      assert IsBodyBelow(t, [], r, limit);
      assert r[0..] == r;
    }
  }


  /** An object position whose own `body` field is an array. */
  predicate BodyOwner(t: Value, q: Path)
  {
    Position(t, q) && GetKey(t, q).Found? && GetKey(t, q).value.Obj?
    && Own(GetKey(t, q).value.fields, "body").Defined? && Own(GetKey(t, q).value.fields, "body").value.Arr?
  }

  /** Completeness: every object within the cut-off that owns a `body` array is found. */
  lemma {:induction false} BodiesComplete(t: Value, path: Path, depth: nat, limit: nat, q: Path)
    requires WellFormed(t) && BodyOwner(t, q) && depth + |q| <= limit
    ensures path + q + [Name("body")] in Bodies(t, path, depth, limit)
    decreases t, 1
  {
    if q == [] {
      assert path + q + [Name("body")] == path + [Name("body")];
    } else {
      match t
      case Obj(fs) =>
        var i :| 0 <= i < |fs| && q[0] == Name(fs[i].key) && Position(fs[i].val, q[1..]);
        BodiesCompleteField(fs, i, path, depth, limit, q);
      case Arr(items) =>
        BodiesCompleteItem(items, path, depth, limit, q);
    }
  }

  lemma {:induction false} BodiesCompleteField(fs: seq<Member>, i: nat, path: Path, depth: nat, limit: nat, q: Path)
    requires WellFormed(Obj(fs)) && BodyOwner(Obj(fs), q) && depth + |q| <= limit
    requires q != [] && i < |fs| && q[0] == Name(fs[i].key) && Position(fs[i].val, q[1..])
    ensures path + q + [Name("body")] in Bodies(Obj(fs), path, depth, limit)
    decreases Obj(fs), 0
  {
    var x := path + q + [Name("body")];
    assert x in Bodies(fs[i].val, path + [Name(fs[i].key)], depth + 1, limit) by {
      FieldOwner(fs, i, q);
      BodiesComplete(fs[i].val, path + [Name(fs[i].key)], depth + 1, limit, q[1..]);
      ConsPath(path, q, Name("body"));
    }
    assert x in BodiesFields(fs, 0, path, depth, limit) by {
      BodiesFieldsIncludes(fs, 0, i, path, depth, limit);
    }
    FieldsInBodies(fs, path, depth, limit, x);
  }

  lemma FieldOwner(fs: seq<Member>, i: nat, q: Path)
    requires WellFormed(Obj(fs)) && BodyOwner(Obj(fs), q)
    requires q != [] && i < |fs| && q[0] == Name(fs[i].key) && Position(fs[i].val, q[1..])
    ensures BodyOwner(fs[i].val, q[1..])
  {
    assert q == [q[0]] + q[1..];
    OwnOfDistinct(fs, i);
    GetKeyCons(Obj(fs), q[0], fs[i].val, q[1..]);
  }

  lemma FieldsInBodies(fs: seq<Member>, path: Path, depth: nat, limit: nat, x: Path)
    requires depth <= limit && x in BodiesFields(fs, 0, path, depth, limit)
    ensures x in Bodies(Obj(fs), path, depth, limit)
  {
  }

  lemma {:induction false} BodiesCompleteItem(items: seq<Value>, path: Path, depth: nat, limit: nat, q: Path)
    requires WellFormed(Arr(items)) && BodyOwner(Arr(items), q) && depth + |q| <= limit && q != []
    ensures path + q + [Name("body")] in Bodies(Arr(items), path, depth, limit)
    decreases Arr(items), 0
  {
    var i := q[0].index;
    assert BodyOwner(items[i], q[1..]) by {
      assert q == [q[0]] + q[1..];
      GetIndex(items, i);
      GetKeyCons(Arr(items), q[0], items[i], q[1..]);
    }
    BodiesComplete(items[i], path + [Index(i)], depth + 1, limit, q[1..]);
    ConsPath(path, q, Name("body"));
    BodiesItemsIncludes(items, 0, i, path, depth, limit);
  }

  lemma {:induction false} BodiesFieldsIncludes(fs: seq<Member>, j: nat, i: nat, path: Path, depth: nat, limit: nat)
    requires j <= i < |fs|
    ensures forall r :: r in Bodies(fs[i].val, path + [Name(fs[i].key)], depth + 1, limit) ==> r in BodiesFields(fs, j, path, depth, limit)
    decreases i - j
  {
    if j < i {
      BodiesFieldsIncludes(fs, j + 1, i, path, depth, limit);
    }
  }

  lemma {:induction false} BodiesItemsIncludes(items: seq<Value>, j: nat, i: nat, path: Path, depth: nat, limit: nat)
    requires j <= i < |items|
    ensures forall r :: r in Bodies(items[i], path + [Index(i)], depth + 1, limit) ==> r in BodiesItems(items, j, path, depth, limit)
    decreases i - j
  {
    if j < i {
      BodiesItemsIncludes(items, j + 1, i, path, depth, limit);
    }
  }

  /** Both directions of `FindAllBodies`: everything found is a `body` array of an
      object no deeper than the cut-off, and every such object's body is found. */
  lemma FindAllBodiesSpec(t: Value, limit: nat)
    requires WellFormed(t)
    ensures forall r :: r in FindAllBodies(t, limit) ==> BodyPath(t, r) && |r| <= limit + 1
    ensures forall q :: BodyOwner(t, q) && |q| <= limit ==> q + [Name("body")] in FindAllBodies(t, limit)
  {
    FindAllBodiesSound(t, limit);
    FindAllBodiesComplete(t, limit);
  }

  /** Every body of an object no deeper than the cut-off is found. */
  lemma FindAllBodiesComplete(t: Value, limit: nat)
    requires WellFormed(t)
    ensures forall q :: BodyOwner(t, q) && |q| <= limit ==> q + [Name("body")] in FindAllBodies(t, limit)
  {
    forall q | BodyOwner(t, q) && |q| <= limit ensures q + [Name("body")] in FindAllBodies(t, limit) {
      BodyFound(t, limit, q);
    }
  }

  /** One body of an object no deeper than the cut-off is found. */
  lemma BodyFound(t: Value, limit: nat, q: Path)
    requires WellFormed(t) && BodyOwner(t, q) && |q| <= limit
    ensures q + [Name("body")] in FindAllBodies(t, limit)
  {
    BodiesComplete(t, [], 0, limit, q);
    assert [] + q + [Name("body")] == q + [Name("body")];
  }

  // ---------------------------------------------------------------------------
  // Bodies.sort((a, b) => b.length - a.length) and the replacement loop

  predicate LongestFirst(ps: seq<Path>)
  {
    forall i, j :: 0 <= i < j < |ps| ==> |ps[i]| >= |ps[j]|
  }

  function InsertByLength(p: Path, ps: seq<Path>): (r: seq<Path>)
    requires LongestFirst(ps)
    ensures LongestFirst(r)
    ensures multiset(r) == multiset(ps) + multiset{p}
    ensures |r| == |ps| + 1
  {
    if ps == [] || |p| >= |ps[0]| then [p] + ps
    else
      var rest := InsertByLength(p, ps[1..]);
      InsertBehind(p, ps, rest);
      [ps[0]] + rest
  }

  /** The head of the list stays in front of the insertion into its tail. */
  lemma InsertBehind(p: Path, ps: seq<Path>, rest: seq<Path>)
    requires ps != [] && |p| < |ps[0]| && LongestFirst(ps) && LongestFirst(rest)
    requires multiset(rest) == multiset(ps[1..]) + multiset{p}
    ensures LongestFirst([ps[0]] + rest)
    ensures multiset([ps[0]] + rest) == multiset(ps) + multiset{p}
  {
    assert ps == [ps[0]] + ps[1..];
    forall j | 0 <= j < |rest| ensures |rest[j]| <= |ps[0]| {
      assert rest[j] in multiset(rest);
      if rest[j] != p {
        assert rest[j] in multiset(ps[1..]);
        var k :| 0 <= k < |ps[1..]| && ps[1..][k] == rest[j];
        assert ps[k + 1] == rest[j];
      }
    }
    var r := [ps[0]] + rest;
    forall i, j | 0 <= i < j < |r| ensures |r[i]| >= |r[j]| {
      assert r[j] == rest[j - 1];
      if i > 0 {
        assert r[i] == rest[i - 1];
      }
    }
  }

  /** The sort by descending path length; it is stable, as `Array.prototype.sort` is
      (`SortByLengthDescStable`). */
  function SortByLengthDesc(ps: seq<Path>): (r: seq<Path>)
    ensures LongestFirst(r)
    ensures multiset(r) == multiset(ps)
  {
    if ps == [] then []
    else
      var r := InsertByLength(ps[0], SortByLengthDesc(ps[1..]));
      assert ps == [ps[0]] + ps[1..];
      r
  }

  /** The paths of length `n`, in the order they appear. */
  function OfLength(ps: seq<Path>, n: nat): seq<Path>
  {
    if ps == [] then [] else (if |ps[0]| == n then [ps[0]] else []) + OfLength(ps[1..], n)
  }

  /** Inserting `p` puts it in front of the paths of its own length and
      leaves every other length's order alone. */
  lemma {:induction false} InsertKeepsOrder(p: Path, ps: seq<Path>, n: nat)
    requires LongestFirst(ps)
    ensures OfLength(InsertByLength(p, ps), n) == (if |p| == n then [p] else []) + OfLength(ps, n)
    decreases |ps|
  {
    var r := InsertByLength(p, ps);
    if ps == [] || |p| >= |ps[0]| {
      assert r[0] == p && r[1..] == ps;
    } else {
      var rest := InsertByLength(p, ps[1..]);
      assert r[0] == ps[0] && r[1..] == rest;
      InsertKeepsOrder(p, ps[1..], n);
    }
  }

  /** Paths of equal length keep their relative order. */
  lemma {:induction false} SortByLengthDescStable(ps: seq<Path>, n: nat)
    ensures OfLength(SortByLengthDesc(ps), n) == OfLength(ps, n)
    decreases |ps|
  {
    if ps != [] {
      SortByLengthDescStable(ps[1..], n);
      InsertKeepsOrder(ps[0], SortByLengthDesc(ps[1..]), n);
    }
  }

  /** In longest-first order a body comes after every body nested inside it:
      when one path is a proper prefix of another, the longer is rewritten first. */
  lemma NestedBodiesFirst(ps: seq<Path>, i: nat, j: nat)
    requires LongestFirst(ps) && i < |ps| && j < |ps|
    requires PrefixOf(ps[i], ps[j]) && |ps[i]| < |ps[j]|
    ensures j < i
  {
  }

  /** The replacement loop of both lowering passes: each path's parent is walked
      to, its current content read and handed to the `k`-th rewrite, and the
      result written back in place. Walking through a missing link throws, and
      so does a rewrite that throws. */
  function ReplaceAll(t: Value, paths: seq<Path>, k: nat, rewrite: (nat, Access) -> Result<Value>): Result<Value>
    decreases |paths|
  {
    if paths == [] then Ok(t)
    else
      var p := paths[0];
      if p == [] then Err("TypeError: empty path")
      else match GetKey(t, p[..|p| - 1])
        case Found(parent) =>
          if parent.Null? then Err("TypeError: cannot read properties of null")
          else
            var x :- rewrite(k, Get(parent, p[|p| - 1]));
            var t' :- Put(t, p, x);
            ReplaceAll(t', paths[1..], k + 1, rewrite)
        case _ => Err("TypeError: cannot read properties of undefined")
  }

  /** The parent of path `r` resolves to an object. */
  predicate ParentObject(t: Value, r: Path)
  {
    r != [] && GetKey(t, r[..|r| - 1]).Found? && GetKey(t, r[..|r| - 1]).value.Obj?
  }

  /** Path `r` reads an object or an array. */
  predicate ContainerAt(t: Value, r: Path)
  {
    GetKey(t, r).Found? && IsContainer(GetKey(t, r).value)
  }

  /** Parents of every listed path resolve to objects. */
  predicate ParentsAreObjects(t: Value, ps: seq<Path>)
  {
    forall i :: 0 <= i < |ps| ==> ParentObject(t, ps[i])
  }

  /** Every listed path reads a container. */
  predicate ContainersAt(t: Value, ps: seq<Path>)
  {
    forall i :: 0 <= i < |ps| ==> ContainerAt(t, ps[i])
  }

  /** One write keeps the parent of every path no longer than it resolving to an object. */
  lemma PutKeepsShorterParents(t: Value, p: Path, x: Value, r: Path)
    requires p != [] && Put(t, p, x).Ok?
    requires |r| <= |p| && ParentObject(t, r)
    ensures ParentObject(Put(t, p, x).value, r)
  {
    var q := r[..|r| - 1];
    DivergeOrPrefix(p, q);
    if Diverge(p, q) {
      PutFrame(t, p, x, q);
    } else {
      PutKeepsPrefixContainers(t, p, x, q);
    }
  }

  /** One write of a container keeps every path no longer than it reading a container. */
  lemma PutKeepsShorterContainers(t: Value, p: Path, x: Value, r: Path)
    requires p != [] && Put(t, p, x).Ok? && IsContainer(x) && GetKey(Put(t, p, x).value, p) == Found(x)
    requires |r| <= |p| && ContainerAt(t, r)
    ensures ContainerAt(Put(t, p, x).value, r)
  {
    DivergeOrPrefix(p, r);
    if Diverge(p, r) {
      PutFrame(t, p, x, r);
    } else if |r| < |p| {
      PutKeepsPrefixContainers(t, p, x, r);
    } else {
      SameNamesRead(Put(t, p, x).value, r, p);
    }
  }

  /** After the first write the rest of a longest-first list still has object parents. */
  lemma ReplaceStepParents(t: Value, ps: seq<Path>, x: Value)
    requires ps != [] && LongestFirst(ps) && ParentsAreObjects(t, ps)
    ensures Put(t, ps[0], x).Ok?
    ensures GetKey(Put(t, ps[0], x).value, ps[0]) == Found(x)
    ensures ParentsAreObjects(Put(t, ps[0], x).value, ps[1..])
  {
    var p := ps[0];
    assert ParentObject(t, p);
    PutThenGet(t, p, x);
    var t' := Put(t, p, x).value;
    var rest := ps[1..];
    forall i | 0 <= i < |rest| ensures ParentObject(t', rest[i]) {
      assert rest[i] == ps[i + 1] && ParentObject(t, ps[i + 1]) && |ps[i + 1]| <= |p|;
      PutKeepsShorterParents(t, p, x, rest[i]);
    }
  }

  /** ... and, when a container was written, container bodies. */
  lemma ReplaceStepContainers(t: Value, ps: seq<Path>, x: Value)
    requires ps != [] && LongestFirst(ps) && ParentsAreObjects(t, ps) && ContainersAt(t, ps) && IsContainer(x)
    ensures Put(t, ps[0], x).Ok?
    ensures ParentsAreObjects(Put(t, ps[0], x).value, ps[1..]) && ContainersAt(Put(t, ps[0], x).value, ps[1..])
  {
    var p := ps[0];
    ReplaceStepParents(t, ps, x);
    var t' := Put(t, p, x).value;
    var rest := ps[1..];
    forall i | 0 <= i < |rest| ensures ContainerAt(t', rest[i]) {
      assert rest[i] == ps[i + 1] && ContainerAt(t, ps[i + 1]) && |ps[i + 1]| <= |p|;
      PutKeepsShorterContainers(t, p, x, rest[i]);
    }
  }

  /** The first round of the loop, when the first path's parent is an object. */
  lemma ReplaceFirst(t: Value, ps: seq<Path>, k: nat, rewrite: (nat, Access) -> Result<Value>)
    requires ps != [] && ParentObject(t, ps[0])
    ensures var a := Get(GetKey(t, ps[0][..|ps[0]| - 1]).value, ps[0][|ps[0]| - 1]);
      (rewrite(k, a).Err? ==> ReplaceAll(t, ps, k, rewrite).Err?)
      && (rewrite(k, a).Ok? && Put(t, ps[0], rewrite(k, a).value).Ok? ==>
            ReplaceAll(t, ps, k, rewrite) == ReplaceAll(Put(t, ps[0], rewrite(k, a).value).value, ps[1..], k + 1, rewrite))
  {
  }

  /** A container at a path is the value its parent's last key reads. */
  lemma BodyRead(t: Value, p: Path)
    requires ParentObject(t, p) && ContainerAt(t, p)
    ensures Get(GetKey(t, p[..|p| - 1]).value, p[|p| - 1]) == Defined(GetKey(t, p).value)
  {
    GetKeyParent(t, p);
  }

  /** The tree after the first `i` rounds of the loop. */
  function Turn(t: Value, ps: seq<Path>, k: nat, rewrite: (nat, Access) -> Result<Value>, i: nat): Result<Value>
    requires i <= |ps|
  {
    ReplaceAll(t, ps[..i], k, rewrite)
  }

  /** What a round reads for path `p`: `parent[last]`, the parent walked to along the path. */
  function ReadAt(t: Value, p: Path): Access
    requires ParentObject(t, p)
  {
    Get(GetKey(t, p[..|p| - 1]).value, p[|p| - 1])
  }

  /** Round `i` is reached, its path still has an object parent, and the
      rewrite of what it reads there succeeds. */
  predicate RoundSucceeds(t: Value, ps: seq<Path>, k: nat, rewrite: (nat, Access) -> Result<Value>, i: int)
  {
    0 <= i < |ps| && Turn(t, ps, k, rewrite, i).Ok? && ParentObject(Turn(t, ps, k, rewrite, i).value, ps[i])
    && rewrite(k + i, ReadAt(Turn(t, ps, k, rewrite, i).value, ps[i])).Ok?
  }

  /** Round `i` is reached, finds a value at its path, and the rewrite of
      that value throws. */
  predicate RewriteFailsAt(t: Value, ps: seq<Path>, k: nat, rewrite: (nat, Access) -> Result<Value>, i: int)
  {
    0 <= i < |ps| && Turn(t, ps, k, rewrite, i).Ok? && GetKey(Turn(t, ps, k, rewrite, i).value, ps[i]).Found?
    && rewrite(k + i, Defined(GetKey(Turn(t, ps, k, rewrite, i).value, ps[i]).value)).Err?
  }

  /** A first round that succeeds hands the rest of the list the tree it wrote. */
  lemma ReplaceCons(t: Value, p: Path, rest: seq<Path>, k: nat, rewrite: (nat, Access) -> Result<Value>)
    requires ParentObject(t, p)
    requires rewrite(k, ReadAt(t, p)).Ok? && Put(t, p, rewrite(k, ReadAt(t, p)).value).Ok?
    ensures ReplaceAll(t, [p] + rest, k, rewrite) == ReplaceAll(Put(t, p, rewrite(k, ReadAt(t, p)).value).value, rest, k + 1, rewrite)
  {
    var q := [p] + rest;
    assert q[0] == p && q[1..] == rest;
  }

  /** After a first round that succeeds, round `i + 1` of the loop is round
      `i` of the loop over the remaining paths. */
  lemma TurnShift(t: Value, ps: seq<Path>, k: nat, rewrite: (nat, Access) -> Result<Value>, i: nat)
    requires ps != [] && ParentObject(t, ps[0]) && i < |ps|
    requires rewrite(k, ReadAt(t, ps[0])).Ok? && Put(t, ps[0], rewrite(k, ReadAt(t, ps[0])).value).Ok?
    ensures Turn(t, ps, k, rewrite, i + 1)
         == Turn(Put(t, ps[0], rewrite(k, ReadAt(t, ps[0])).value).value, ps[1..], k + 1, rewrite, i)
  {
    assert ps[..i + 1] == [ps[0]] + ps[1..][..i];
    ReplaceCons(t, ps[0], ps[1..][..i], k, rewrite);
  }

  /** The first round reads the first path in the original tree. */
  lemma FirstRound(t: Value, ps: seq<Path>, k: nat, rewrite: (nat, Access) -> Result<Value>)
    requires ps != [] && ParentObject(t, ps[0])
    ensures RoundSucceeds(t, ps, k, rewrite, 0) <==> rewrite(k, ReadAt(t, ps[0])).Ok?
    ensures ContainerAt(t, ps[0]) ==> (RewriteFailsAt(t, ps, k, rewrite, 0) <==> rewrite(k, ReadAt(t, ps[0])).Err?)
  {
    TurnZero(t, ps, k, rewrite);
    if ContainerAt(t, ps[0]) {
      BodyRead(t, ps[0]);
    }
  }

  /** No round has run yet. */
  lemma TurnZero(t: Value, ps: seq<Path>, k: nat, rewrite: (nat, Access) -> Result<Value>)
    ensures Turn(t, ps, k, rewrite, 0) == Ok(t)
  {
    assert ps[..0] == [];
  }

  /** After a first round that succeeds, round `i + 1` succeeds exactly when
      round `i` over the remaining paths does. */
  lemma RoundShift(t: Value, ps: seq<Path>, k: nat, rewrite: (nat, Access) -> Result<Value>, i: nat)
    requires ps != [] && ParentObject(t, ps[0]) && i < |ps| - 1
    requires rewrite(k, ReadAt(t, ps[0])).Ok? && Put(t, ps[0], rewrite(k, ReadAt(t, ps[0])).value).Ok?
    ensures RoundSucceeds(t, ps, k, rewrite, i + 1)
        <==> RoundSucceeds(Put(t, ps[0], rewrite(k, ReadAt(t, ps[0])).value).value, ps[1..], k + 1, rewrite, i)
  {
    TurnShift(t, ps, k, rewrite, i);
    assert ps[i + 1] == ps[1..][i];
  }

  /** After a first round that succeeds, round `i + 1` finds its body and
      fails exactly when round `i` over the remaining paths does. */
  lemma FailShift(t: Value, ps: seq<Path>, k: nat, rewrite: (nat, Access) -> Result<Value>, i: nat)
    requires ps != [] && ParentObject(t, ps[0]) && i < |ps| - 1
    requires rewrite(k, ReadAt(t, ps[0])).Ok? && Put(t, ps[0], rewrite(k, ReadAt(t, ps[0])).value).Ok?
    ensures RewriteFailsAt(t, ps, k, rewrite, i + 1)
        <==> RewriteFailsAt(Put(t, ps[0], rewrite(k, ReadAt(t, ps[0])).value).value, ps[1..], k + 1, rewrite, i)
  {
    TurnShift(t, ps, k, rewrite, i);
    assert ps[i + 1] == ps[1..][i];
  }

  /** After a first round that succeeds, every round succeeds exactly when
      every round over the remaining paths does. */
  lemma AllRoundsShift(t: Value, ps: seq<Path>, k: nat, rewrite: (nat, Access) -> Result<Value>, t': Value, rest: seq<Path>, k': nat)
    requires ps != [] && ParentObject(t, ps[0])
    requires rewrite(k, ReadAt(t, ps[0])).Ok? && Put(t, ps[0], rewrite(k, ReadAt(t, ps[0])).value).Ok?
    requires t' == Put(t, ps[0], rewrite(k, ReadAt(t, ps[0])).value).value && rest == ps[1..] && k' == k + 1
    ensures (forall i :: 0 <= i < |ps| ==> RoundSucceeds(t, ps, k, rewrite, i))
        <==> (forall i :: 0 <= i < |rest| ==> RoundSucceeds(t', rest, k', rewrite, i))
  {
    FirstRound(t, ps, k, rewrite);
    forall i | 0 <= i < |rest|
      ensures RoundSucceeds(t, ps, k, rewrite, i + 1) <==> RoundSucceeds(t', rest, k', rewrite, i)
    {
      RoundShift(t, ps, k, rewrite, i);
    }
    if forall i :: 0 <= i < |rest| ==> RoundSucceeds(t', rest, k', rewrite, i) {
      forall i | 0 <= i < |ps| ensures RoundSucceeds(t, ps, k, rewrite, i) {
        if i > 0 {
          assert RoundSucceeds(t', rest, k', rewrite, i - 1);
        }
      }
    }
  }

  /** After a first round that finds its body and succeeds, some round fails
      exactly when some round over the remaining paths does. */
  lemma SomeRoundShift(t: Value, ps: seq<Path>, k: nat, rewrite: (nat, Access) -> Result<Value>, t': Value, rest: seq<Path>, k': nat)
    requires ps != [] && ParentObject(t, ps[0]) && ContainerAt(t, ps[0])
    requires rewrite(k, ReadAt(t, ps[0])).Ok? && Put(t, ps[0], rewrite(k, ReadAt(t, ps[0])).value).Ok?
    requires t' == Put(t, ps[0], rewrite(k, ReadAt(t, ps[0])).value).value && rest == ps[1..] && k' == k + 1
    ensures (exists i :: RewriteFailsAt(t, ps, k, rewrite, i)) <==> (exists i :: RewriteFailsAt(t', rest, k', rewrite, i))
  {
    if exists i :: RewriteFailsAt(t', rest, k', rewrite, i) {
      var i :| RewriteFailsAt(t', rest, k', rewrite, i);
      FailShift(t, ps, k, rewrite, i);
    }
    if exists i :: RewriteFailsAt(t, ps, k, rewrite, i) {
      var i :| RewriteFailsAt(t, ps, k, rewrite, i);
      FirstRound(t, ps, k, rewrite);
      FailShift(t, ps, k, rewrite, i - 1);
    }
  }

  /** Deepest-first is what makes the batch safe: whatever each rewrite
      returns, no later path's parent has been disturbed, so the loop runs to
      the end exactly when every round's rewrite succeeds. */
  lemma {:induction false} ReplaceAllSucceeds(t: Value, ps: seq<Path>, k: nat, rewrite: (nat, Access) -> Result<Value>)
    requires LongestFirst(ps)
    requires ParentsAreObjects(t, ps)
    ensures ReplaceAll(t, ps, k, rewrite).Ok? <==> forall i :: 0 <= i < |ps| ==> RoundSucceeds(t, ps, k, rewrite, i)
    decreases |ps|
  {
    if ps != [] {
      assert ParentObject(t, ps[0]);
      ReplaceFirst(t, ps, k, rewrite);
      FirstRound(t, ps, k, rewrite);
      if rewrite(k, ReadAt(t, ps[0])).Ok? {
        var x := rewrite(k, ReadAt(t, ps[0])).value;
        ReplaceStepParents(t, ps, x);
        var t', rest, k' := Put(t, ps[0], x).value, ps[1..], k + 1;
        ReplaceAllSucceeds(t', rest, k', rewrite);
        AllRoundsShift(t, ps, k, rewrite, t', rest, k');
      }
    }
  }

  /** Deepest-first, with rewrites that return containers, the loop throws
      exactly when some round finds its body still there and the rewrite of
      that body throws: no body has gone missing by the time its turn comes. */
  lemma {:induction false} ReplaceAllFailsOnlyInRewrite(t: Value, ps: seq<Path>, k: nat, rewrite: (nat, Access) -> Result<Value>)
    requires LongestFirst(ps)
    requires ParentsAreObjects(t, ps) && ContainersAt(t, ps)
    requires forall j, a :: rewrite(j, a).Ok? ==> IsContainer(rewrite(j, a).value)
    ensures ReplaceAll(t, ps, k, rewrite).Err? <==> exists i :: RewriteFailsAt(t, ps, k, rewrite, i)
    decreases |ps|
  {
    if ps != [] {
      assert ParentObject(t, ps[0]) && ContainerAt(t, ps[0]);
      ReplaceFirst(t, ps, k, rewrite);
      FirstRound(t, ps, k, rewrite);
      if rewrite(k, ReadAt(t, ps[0])).Err? {
        assert RewriteFailsAt(t, ps, k, rewrite, 0);
      } else {
        var x := rewrite(k, ReadAt(t, ps[0])).value;
        ReplaceStepContainers(t, ps, x);
        var t', rest, k' := Put(t, ps[0], x).value, ps[1..], k + 1;
        ReplaceAllFailsOnlyInRewrite(t', rest, k', rewrite);
        SomeRoundShift(t, ps, k, rewrite, t', rest, k');
      }
    }
  }

  /** Both lowering passes: on a well-formed tree the sorted body list is
      replaced in full exactly when every round's rewrite succeeds. */
  lemma SortedBodiesReplaced(t: Value, limit: nat, rewrite: (nat, Access) -> Result<Value>)
    requires WellFormed(t)
    ensures var ps := SortByLengthDesc(FindAllBodies(t, limit));
      ReplaceAll(t, ps, 0, rewrite).Ok? <==> forall i :: 0 <= i < |ps| ==> RoundSucceeds(t, ps, 0, rewrite, i)
  {
    var ps := SortedBodiesShape(t, limit);
    ReplaceAllSucceeds(t, ps, 0, rewrite);
  }


  /** The sorted body list of a well-formed tree: as many paths as were
      found, each with an object parent and an array body. */
  lemma SortedBodiesShape(t: Value, limit: nat) returns (ps: seq<Path>)
    requires WellFormed(t)
    ensures ps == SortByLengthDesc(FindAllBodies(t, limit)) && |ps| == |FindAllBodies(t, limit)|
    ensures LongestFirst(ps) && ParentsAreObjects(t, ps) && ContainersAt(t, ps)
  {
    var found := FindAllBodies(t, limit);
    ps := SortByLengthDesc(found);
    FindAllBodiesSound(t, limit);
    assert |multiset(ps)| == |multiset(found)|;
    forall i | 0 <= i < |ps| ensures ParentObject(t, ps[i]) && ContainerAt(t, ps[i]) {
      assert ps[i] in multiset(ps);
      assert ps[i] in found;
    }
  }


  /** With rewrites that return containers, replacing the sorted bodies of a
      well-formed tree throws exactly when some round's body is there and its
      rewrite throws. */
  lemma SortedBodiesFailOnlyInRewrite(t: Value, limit: nat, rewrite: (nat, Access) -> Result<Value>)
    requires WellFormed(t)
    requires forall j, a :: rewrite(j, a).Ok? ==> IsContainer(rewrite(j, a).value)
    ensures var ps := SortByLengthDesc(FindAllBodies(t, limit));
      ReplaceAll(t, ps, 0, rewrite).Err? <==> exists i :: RewriteFailsAt(t, ps, 0, rewrite, i)
  {
    var ps := SortedBodiesShape(t, limit);
    ReplaceAllFailsOnlyInRewrite(t, ps, 0, rewrite);
  }

}
