/** The parser's output as the generic tree walkers see it: plain objects with
    ordered own properties, arrays, strings, numbers, booleans and `null`.
    Property reads follow JavaScript: a missing property reads as `undefined`,
    and reading any property of `null` or `undefined` throws a TypeError. */
module Json {
  import opened Wrappers
  import Text

  /** One step of a path: an object field name, or an array index. */
  datatype Key = Name(name: string) | Index(index: nat)

  type Path = seq<Key>

  datatype Member = Member(key: string, val: Value)

  datatype Value =
    | Null
    | Bool(b: bool)
    | Num(n: int)
    | Str(s: string)
    | Arr(items: seq<Value>)
    | Obj(fields: seq<Member>)

  /** The result of one property read. */
  datatype Access = Defined(value: Value) | Undefined

  /** The result of walking a whole path. */
  datatype Reading = Found(value: Value) | Missing | Thrown

  /** The property name JavaScript converts a key to (`obj[0]` reads `obj["0"]`). */
  function PropName(k: Key): string
  {
    match k
    case Name(n) => n
    case Index(i) => Text.NatToString(i)
  }

  /** A property name that denotes an array index: digits in canonical form. */
  predicate IsCanonicalIndex(n: string)
  {
    n != [] && Text.AllDigits(n) && Text.NatToString(Text.ParseNat(n)) == n
  }

  lemma IndexNameIsCanonical(i: nat)
    ensures IsCanonicalIndex(Text.NatToString(i))
    ensures Text.ParseNat(Text.NatToString(i)) == i
  {
    Text.ParseNatToString(i);
  }

  predicate HasOwn(fields: seq<Member>, n: string)
  {
    exists i :: 0 <= i < |fields| && fields[i].key == n
  }

  /** The first own property named `n`. */
  function Own(fields: seq<Member>, n: string): (r: Access)
    ensures r.Defined? <==> HasOwn(fields, n)
  {
    if fields == [] then Undefined
    else if fields[0].key == n then Defined(fields[0].val)
    else
      var r := Own(fields[1..], n);
      assert HasOwn(fields, n) <==> HasOwn(fields[1..], n) by {
        if HasOwn(fields, n) {
          var i :| 0 <= i < |fields| && fields[i].key == n;
          assert fields[1..][i - 1].key == n;
        }
        if HasOwn(fields[1..], n) {
          var i :| 0 <= i < |fields[1..]| && fields[1..][i].key == n;
          assert fields[i + 1].key == n;
        }
      }
      r
  }

  /** Where the first own property named `n` sits. */
  function OwnIndex(fields: seq<Member>, n: string): (k: nat)
    requires HasOwn(fields, n)
    ensures k < |fields| && fields[k].key == n && Own(fields, n) == Defined(fields[k].val)
  {
    if fields[0].key == n then 0 else 1 + OwnIndex(fields[1..], n)
  }

  /** `delete obj[n]`: no own property `n` is left, every other one stays. */
  function DeleteOwn(fields: seq<Member>, n: string): (r: seq<Member>)
    ensures Own(r, n) == Undefined
    ensures forall m :: m != n ==> Own(r, m) == Own(fields, m)
  {
    if fields == [] then []
    else if fields[0].key == n then DeleteOwn(fields[1..], n)
    else [fields[0]] + DeleteOwn(fields[1..], n)
  }

  /** A template literal's `${v}` for the values the parser produces. Arrays
      are not modelled (`None`). */
  function JsText(a: Access): Option<string>
  {
    match a
    case Undefined => Some("undefined")
    case Defined(Null) => Some("null")
    case Defined(Bool(b)) => Some(if b then "true" else "false")
    case Defined(Num(n)) => Some(Text.IntToString(n))
    case Defined(Str(s)) => Some(s)
    case Defined(Obj(_)) => Some("[object Object]")
    case Defined(Arr(_)) => None
  }

  /** JavaScript truthiness for the values a tree holds (`if (x)`, `x || y`). */
  predicate Truthy(a: Access)
  {
    match a
    case Undefined => false
    case Defined(Null) => false
    case Defined(Bool(b)) => b
    case Defined(Num(n)) => n != 0
    case Defined(Str(s)) => s != []
    case Defined(_) => true
  }

  /** `v[n]` for a value that is not `null`. */
  function GetProp(v: Value, n: string): Access
  {
    match v
    case Obj(fs) => Own(fs, n)
    case Arr(items) =>
      if n == "length" then Defined(Num(|items|))
      else if IsCanonicalIndex(n) && Text.ParseNat(n) < |items| then Defined(items[Text.ParseNat(n)])
      else Undefined
    case Str(s) =>
      if n == "length" then Defined(Num(|s|))
      else if IsCanonicalIndex(n) && Text.ParseNat(n) < |s| then Defined(Str([s[Text.ParseNat(n)]]))
      else Undefined
    case _ => Undefined
  }

  function Get(v: Value, k: Key): Access
  {
    GetProp(v, PropName(k))
  }

  /** `Utils.GetKey`: follows the path one property at a time; reading through
      `null` or `undefined` throws, a missing last property reads as `undefined`. */
  function GetKey(v: Value, p: Path): (r: Reading)
    ensures p == [] ==> r == Found(v)
    decreases |p|
  {
    if p == [] then Found(v)
    else if v.Null? then Thrown
    else match Get(v, p[0])
      case Defined(c) => GetKey(c, p[1..])
      case Undefined => if |p| == 1 then Missing else Thrown
  }

  /** `GetNodeInternal` of the renaming pass: like `GetKey`, but it answers
      `undefined` as soon as the walk reaches `null` or `undefined`. */
  function GetNodeInternal(v: Value, p: Path): (r: Reading)
    ensures !r.Thrown?
    decreases |p|
  {
    if p == [] then Found(v)
    else if v.Null? then Missing
    else match Get(v, p[0])
      case Defined(c) => GetNodeInternal(c, p[1..])
      case Undefined => Missing
  }

  /** Wherever `GetKey` succeeds, `GetNodeInternal` finds the same value, and
      wherever `GetKey` throws, `GetNodeInternal` answers `undefined` instead. */
  lemma {:induction false} GetNodeInternalAgrees(v: Value, p: Path)
    ensures GetKey(v, p).Thrown? ==> GetNodeInternal(v, p) == Missing
    ensures !GetKey(v, p).Thrown? ==> GetNodeInternal(v, p) == GetKey(v, p)
    decreases |p|
  {
    if p != [] && !v.Null? {
      match Get(v, p[0])
      case Defined(c) => GetNodeInternalAgrees(c, p[1..]);
      case Undefined =>
    }
  }

  /** Once the walk meets `null` before the path ends, `GetNodeInternal` answers `undefined`. */
  lemma {:induction false} GetNodeInternalThroughNull(v: Value, p: Path, i: nat)
    requires i < |p|
    requires GetNodeInternal(v, p[..i]) == Found(Null)
    ensures GetNodeInternal(v, p) == Missing
    decreases i
  {
    if i == 0 {
    } else {
      assert !v.Null?;
      match Get(v, p[0])
      case Defined(c) =>
        assert p[..i][1..] == p[1..][..i - 1];
        GetNodeInternalThroughNull(c, p[1..], i - 1);
      case Undefined =>
    }
  }

  /** Sets own property `n`: the first field of that name is overwritten, otherwise a new field is appended. */
  function SetOwn(fields: seq<Member>, n: string, x: Value): (r: seq<Member>)
    ensures Own(r, n) == Defined(x)
    ensures forall m :: m != n ==> Own(r, m) == Own(fields, m)
    ensures forall i :: 0 <= i < |r| ==> HasOwn(fields, r[i].key) || r[i].key == n
    ensures forall m :: HasOwn(fields, m) ==> HasOwn(r, m)
  {
    if fields == [] then [Member(n, x)]
    else if fields[0].key == n then
      var r := [Member(n, x)] + fields[1..];
      assert forall i :: 0 <= i < |r| ==> r[i].key == fields[i].key;
      assert forall m :: HasOwn(fields, m) ==> HasOwn(r, m) by {
        forall m | HasOwn(fields, m) ensures HasOwn(r, m) {
          var i :| 0 <= i < |fields| && fields[i].key == m;
          assert r[i].key == m;
        }
      }
      r
    else
      var r := [fields[0]] + SetOwn(fields[1..], n, x);
      assert forall m :: HasOwn(fields, m) ==> HasOwn(r, m) by {
        forall m | HasOwn(fields, m) ensures HasOwn(r, m) {
          if fields[0].key == m {
            assert r[0].key == m;
          } else {
            var i :| 0 <= i < |fields| && fields[i].key == m;
            assert fields[1..][i - 1].key == m;
            var tail := SetOwn(fields[1..], n, x);
            assert HasOwn(tail, m);
            var j :| 0 <= j < |tail| && tail[j].key == m;
            assert r[j + 1].key == m;
          }
        }
      }
      assert forall i :: 0 <= i < |r| ==> HasOwn(fields, r[i].key) || r[i].key == n by {
        forall i | 0 <= i < |r| ensures HasOwn(fields, r[i].key) || r[i].key == n {
          if i == 0 {
            assert fields[0].key == r[0].key;
          } else if r[i].key != n {
            var m := r[i].key;
            assert HasOwn(fields[1..], m);
            var j :| 0 <= j < |fields[1..]| && fields[1..][j].key == m;
            assert fields[j + 1].key == m;
          }
        }
      }
      r
  }

  /** `v[n] = x` for a value that is not `null`: objects gain or overwrite the
      property, arrays overwrite an existing index, and writes to a string,
      number or boolean are silently dropped. Growing an array is outside the model. */
  function SetProp(v: Value, n: string, x: Value): Result<Value>
  {
    match v
    case Null => Err("TypeError: cannot set properties of null")
    case Obj(fs) => Ok(Obj(SetOwn(fs, n, x)))
    case Arr(items) =>
      if IsCanonicalIndex(n) && Text.ParseNat(n) < |items| then Ok(Arr(items[Text.ParseNat(n) := x]))
      else Err("array write outside the modelled indices")
    case _ => Ok(v)
  }

  /** `ParentNode = root; for (k of p.slice(0, -1)) ParentNode = ParentNode[k]; ParentNode[p.at(-1)] = x`:
      the in-place replacement used by every pass, as a functional update of the tree. */
  function Put(v: Value, p: Path, x: Value): Result<Value>
    requires p != []
    decreases |p|
  {
    if |p| == 1 then SetProp(v, PropName(p[0]), x)
    else if v.Null? then Err("TypeError: cannot read properties of null")
    else match Get(v, p[0])
      case Undefined => Err("TypeError: cannot read properties of undefined")
      case Defined(c) =>
        var c' :- Put(c, p[1..], x);
        SetProp(v, PropName(p[0]), c')
  }

  /** A container: a value whose properties can be written. */
  predicate IsContainer(v: Value)
  {
    v.Obj? || v.Arr?
  }

  /** Two paths part ways: at some common position they name different properties. */
  predicate Diverge(p: Path, q: Path)
    decreases |p|
  {
    |p| > 0 && |q| > 0 && (PropName(p[0]) != PropName(q[0]) || Diverge(p[1..], q[1..]))
  }

  /** `q` names the same properties as a prefix of `p`. */
  predicate PrefixOf(q: Path, p: Path)
  {
    |q| <= |p| && forall i :: 0 <= i < |q| ==> PropName(q[i]) == PropName(p[i])
  }

  /** Any two paths either part ways or one is a prefix of the other. */
  lemma {:induction false} DivergeOrPrefix(p: Path, q: Path)
    requires |q| <= |p|
    ensures Diverge(p, q) || PrefixOf(q, p)
    decreases |q|
  {
    if |q| > 0 && PropName(p[0]) == PropName(q[0]) {
      DivergeOrPrefix(p[1..], q[1..]);
      if PrefixOf(q[1..], p[1..]) {
        assert forall i :: 1 <= i < |q| ==> PropName(q[i]) == PropName(p[i]) by {
          forall i | 1 <= i < |q| ensures PropName(q[i]) == PropName(p[i]) {
            assert q[1..][i - 1] == q[i] && p[1..][i - 1] == p[i];
          }
        }
      }
    }
  }

  lemma GetPropAfterSet(v: Value, n: string, x: Value, m: string)
    requires SetProp(v, n, x).Ok?
    requires v.Obj? || v.Arr?
    ensures m != n ==> GetProp(SetProp(v, n, x).value, m) == GetProp(v, m)
    ensures GetProp(SetProp(v, n, x).value, n) == Defined(x)
  {
    if v.Arr? && m != n && IsCanonicalIndex(m) {
      assert Text.NatToString(Text.ParseNat(m)) != Text.NatToString(Text.ParseNat(n));
    }
  }

  /** Writing at `p` leaves every path that parts ways with `p` reading exactly as before. */
  lemma {:induction false} PutFrame(v: Value, p: Path, x: Value, q: Path)
    requires p != []
    requires Put(v, p, x).Ok?
    requires Diverge(p, q)
    ensures GetKey(Put(v, p, x).value, q) == GetKey(v, q)
    decreases |p|
  {
    var t := Put(v, p, x).value;
    if |p| == 1 {
      assert PropName(p[0]) != PropName(q[0]);
      if v.Obj? || v.Arr? {
        GetPropAfterSet(v, PropName(p[0]), x, PropName(q[0]));
      }
    } else {
      var c := Get(v, p[0]).value;
      var c' := Put(c, p[1..], x).value;
      if v.Obj? || v.Arr? {
        GetPropAfterSet(v, PropName(p[0]), c', PropName(q[0]));
        if PropName(p[0]) == PropName(q[0]) {
          assert Diverge(p[1..], q[1..]);
          PutFrame(c, p[1..], x, q[1..]);
        }
      }
    }
  }

  /** `PutFrame` for every path at once. */
  lemma PutFrameAll(t: Value, p: Path, x: Value)
    requires p != [] && Put(t, p, x).Ok?
    ensures forall q :: Diverge(p, q) ==> GetKey(Put(t, p, x).value, q) == GetKey(t, q)
  {
    forall q | Diverge(p, q) ensures GetKey(Put(t, p, x).value, q) == GetKey(t, q) {
      PutFrame(t, p, x, q);
    }
  }

  /** Walking from a string, number, boolean or `null` never reaches an object. */
  lemma {:induction false} PrimitiveReachesNoObject(v: Value, q: Path)
    requires !IsContainer(v)
    requires GetKey(v, q).Found?
    ensures !IsContainer(GetKey(v, q).value)
    decreases |q|
  {
    if q != [] {
      match Get(v, q[0])
      case Defined(c) => PrimitiveReachesNoObject(c, q[1..]);
      case Undefined =>
    }
  }

  /** Writing at `p` keeps every shorter prefix of `p` resolving to a container of the same kind. */
  lemma {:induction false} PutKeepsPrefixContainers(v: Value, p: Path, x: Value, q: Path)
    requires p != []
    requires Put(v, p, x).Ok?
    requires PrefixOf(q, p) && |q| < |p|
    requires GetKey(v, q).Found? && IsContainer(GetKey(v, q).value)
    ensures GetKey(Put(v, p, x).value, q).Found?
    ensures GetKey(Put(v, p, x).value, q).value.Obj? == GetKey(v, q).value.Obj?
    ensures GetKey(Put(v, p, x).value, q).value.Arr? == GetKey(v, q).value.Arr?
    decreases |p|
  {
    var t := Put(v, p, x).value;
    if q == [] {
      if |p| == 1 {
        assert t == SetProp(v, PropName(p[0]), x).value;
      } else {
        var c := Get(v, p[0]).value;
        var c' := Put(c, p[1..], x).value;
        assert t == SetProp(v, PropName(p[0]), c').value;
      }
    } else {
      var n := PropName(p[0]);
      assert PropName(q[0]) == n;
      assert |p| > 1;
      assert !v.Null?;
      var c := Get(v, p[0]).value;
      var c' := Put(c, p[1..], x).value;
      assert t == SetProp(v, n, c').value;
      assert Get(v, q[0]) == Defined(c);
      assert GetKey(v, q) == GetKey(c, q[1..]);
      if !IsContainer(v) {
        PrimitiveReachesNoObject(v, q);
        assert false;
      }
      GetPropAfterSet(v, n, c', n);
      assert Get(t, q[0]) == Defined(c');
      assert GetKey(t, q) == GetKey(c', q[1..]);
      assert PrefixOf(q[1..], p[1..]) by {
        forall i | 0 <= i < |q[1..]| ensures PropName(q[1..][i]) == PropName(p[1..][i]) {
          assert q[1..][i] == q[i + 1] && p[1..][i] == p[i + 1];
        }
      }
      PutKeepsPrefixContainers(c, p[1..], x, q[1..]);
    }
  }

  /** The replacement lands where the path points when the parent is an object. */
  lemma {:induction false} PutThenGet(v: Value, p: Path, x: Value)
    requires p != []
    requires GetKey(v, p[..|p| - 1]).Found? && GetKey(v, p[..|p| - 1]).value.Obj?
    ensures Put(v, p, x).Ok?
    ensures GetKey(Put(v, p, x).value, p) == Found(x)
    decreases |p|
  {
    var n := PropName(p[0]);
    if |p| == 1 {
      assert v.Obj?;
      GetPropAfterSet(v, n, x, n);
    } else {
      var parent := p[..|p| - 1];
      assert parent[0] == p[0];
      assert !v.Null?;
      var c := Get(v, p[0]).value;
      assert GetKey(v, parent) == GetKey(c, parent[1..]);
      assert p[1..][..|p[1..]| - 1] == parent[1..];
      if !IsContainer(v) {
        PrimitiveReachesNoObject(v, parent);
        assert false;
      }
      PutThenGet(c, p[1..], x);
      var c' := Put(c, p[1..], x).value;
      GetPropAfterSet(v, n, c', n);
      var t := Put(v, p, x).value;
      assert t == SetProp(v, n, c').value;
      assert GetKey(t, p) == GetKey(c', p[1..]);
    }
  }

  /** One step of a walk. */
  lemma GetKeyCons(v: Value, k: Key, c: Value, rest: Path)
    requires !v.Null? && Get(v, k) == Defined(c)
    ensures GetKey(v, [k] + rest) == GetKey(c, rest)
  {
    var p := [k] + rest;
    assert p[0] == k && p[1..] == rest;
  }

  /** Every object in the tree has pairwise distinct field names, as JavaScript objects do. */
  predicate WellFormed(v: Value)
  {
    match v
    case Arr(items) => forall i :: 0 <= i < |items| ==> WellFormed(items[i])
    case Obj(fs) =>
      (forall i, j :: 0 <= i < j < |fs| ==> fs[i].key != fs[j].key)
      && (forall i :: 0 <= i < |fs| ==> WellFormed(fs[i].val))
    case _ => true
  }

  /** In a well-formed object every field is what its own name reads. */
  lemma OwnOfDistinct(fs: seq<Member>, i: nat)
    requires i < |fs|
    requires forall a, b :: 0 <= a < b < |fs| ==> fs[a].key != fs[b].key
    ensures Own(fs, fs[i].key) == Defined(fs[i].val)
  {
    if i > 0 {
      assert fs[0].key != fs[i].key;
      OwnOfDistinct(fs[1..], i - 1);
    }
  }

  /** Reading an array through its index key gives the element. */
  lemma GetIndex(items: seq<Value>, i: nat)
    requires i < |items|
    ensures Get(Arr(items), Index(i)) == Defined(items[i])
  {
    IndexNameIsCanonical(i);
  }

  /** A walk splits at any point of the path. */
  lemma {:induction false} GetKeyAppend(v: Value, p: Path, q: Path)
    requires GetKey(v, p).Found?
    ensures GetKey(v, p + q) == GetKey(GetKey(v, p).value, q)
    decreases |p|
  {
    if p != [] {
      assert (p + q)[0] == p[0];
      assert (p + q)[1..] == p[1..] + q;
      assert !v.Null?;
      match Get(v, p[0])
      case Defined(c) =>
        assert GetKey(v, p) == GetKey(c, p[1..]);
        assert GetKey(v, p + q) == GetKey(c, p[1..] + q);
        GetKeyAppend(c, p[1..], q);
      case Undefined =>
        assert false;
    } else {
      assert p + q == q;
    }
  }
  // ---------------------------------------------------------------------------
  // What one write leaves in place

  /** Two paths that name the same properties throughout. */
  predicate SameNames(a: Path, b: Path)
  {
    |a| == |b| && PrefixOf(a, b)
  }

  /** A read that did not end at an object or array. */
  predicate Leaf(r: Reading)
  {
    !(r.Found? && IsContainer(r.value))
  }

  /** A property read as a walk result. */
  function AsReading(a: Access): Reading
  {
    match a
    case Defined(x) => Found(x)
    case Undefined => Missing
  }

  lemma {:induction false} SameNamesRead(v: Value, a: Path, b: Path)
    requires SameNames(a, b)
    ensures GetKey(v, a) == GetKey(v, b)
    decreases |a|
  {
    if a != [] && !v.Null? {
      assert Get(v, a[0]) == Get(v, b[0]);
      match Get(v, a[0])
      case Defined(c) =>
        assert SameNames(a[1..], b[1..]) by {
          forall i | 0 <= i < |a[1..]| ensures PropName(a[1..][i]) == PropName(b[1..][i]) {
            assert a[1..][i] == a[i + 1] && b[1..][i] == b[i + 1];
          }
        }
        SameNamesRead(c, a[1..], b[1..]);
      case Undefined =>
    }
  }

  /** A walk that stopped short of a container cannot reach one further on. */
  lemma {:induction false} NoContainerBeyond(v: Value, a: Path, b: Path)
    requires PrefixOf(a, b) && |a| < |b|
    requires Leaf(GetKey(v, a))
    ensures Leaf(GetKey(v, b))
    decreases |a|
  {
    if a == [] {
      if GetKey(v, b).Found? {
        PrimitiveReachesNoObject(v, b);
      }
    } else if !v.Null? {
      assert Get(v, a[0]) == Get(v, b[0]);
      match Get(v, a[0])
      case Defined(c) =>
        assert PrefixOf(a[1..], b[1..]) by {
          forall i | 0 <= i < |a[1..]| ensures PropName(a[1..][i]) == PropName(b[1..][i]) {
            assert a[1..][i] == a[i + 1] && b[1..][i] == b[i + 1];
          }
        }
        NoContainerBeyond(c, a[1..], b[1..]);
      case Undefined =>
    }
  }

  lemma {:induction false} DivergeSymmetric(p: Path, q: Path)
    requires Diverge(p, q)
    ensures Diverge(q, p)
    decreases |p|
  {
    if PropName(p[0]) == PropName(q[0]) {
      DivergeSymmetric(p[1..], q[1..]);
    }
  }

  lemma PrefixOfParent(r: Path, p: Path)
    requires PrefixOf(r, p) && |r| < |p|
    ensures PrefixOf(r, p[..|p| - 1])
  {
    assert forall i :: 0 <= i < |r| ==> p[..|p| - 1][i] == p[i];
  }

  /** Writing a leaf under an object keeps every object of the tree an object. */
  lemma KeepObject(v: Value, p: Path, x: Value, q: Path)
    requires p != [] && Put(v, p, x).Ok?
    requires Leaf(GetKey(v, p))
    requires GetKey(v, q).Found? && GetKey(v, q).value.Obj?
    ensures GetKey(Put(v, p, x).value, q).Found? && GetKey(Put(v, p, x).value, q).value.Obj?
  {
    if |q| < |p| {
      DivergeOrPrefix(p, q);
      if Diverge(p, q) {
        PutFrame(v, p, x, q);
      } else {
        PutKeepsPrefixContainers(v, p, x, q);
      }
    } else {
      DivergeOrPrefix(q, p);
      if Diverge(q, p) {
        DivergeSymmetric(q, p);
        PutFrame(v, p, x, q);
      } else if |p| == |q| {
        SameNamesRead(v, p, q);
      } else {
        NoContainerBeyond(v, p, q);
      }
    }
  }

  /** Writing a leaf under an object leaves every other leaf under an object
      reading as before. */
  lemma KeepLeaf(v: Value, p: Path, x: Value, r: Path)
    requires p != [] && Put(v, p, x).Ok?
    requires GetKey(v, p[..|p| - 1]).Found? && GetKey(v, p[..|p| - 1]).value.Obj?
    requires Leaf(GetKey(v, p))
    requires r != [] && GetKey(v, r[..|r| - 1]).Found? && GetKey(v, r[..|r| - 1]).value.Obj?
    requires Leaf(GetKey(v, r))
    requires !SameNames(p, r)
    ensures GetKey(Put(v, p, x).value, r) == GetKey(v, r)
  {
    if |r| <= |p| {
      DivergeOrPrefix(p, r);
      if Diverge(p, r) {
        PutFrame(v, p, x, r);
      } else {
        PrefixOfParent(r, p);
        if |r| == |p| - 1 {
          SameNamesRead(v, r, p[..|p| - 1]);
        } else {
          NoContainerBeyond(v, r, p[..|p| - 1]);
        }
      }
    } else {
      DivergeOrPrefix(r, p);
      if Diverge(r, p) {
        DivergeSymmetric(r, p);
        PutFrame(v, p, x, r);
      } else {
        PrefixOfParent(p, r);
        if |p| == |r| - 1 {
          SameNamesRead(v, p, r[..|r| - 1]);
        } else {
          NoContainerBeyond(v, p, r[..|r| - 1]);
        }
      }
    }
  }

  /** Reading field `n` of the object at `q`, as one walk. */
  lemma FieldRead(v: Value, q: Path, n: string)
    requires GetKey(v, q).Found? && GetKey(v, q).value.Obj?
    ensures GetKey(v, q + [Name(n)]) == AsReading(Get(GetKey(v, q).value, Name(n)))
  {
    GetKeyAppend(v, q, [Name(n)]);
    assert [Name(n)][1..] == [];
  }

  /** A walk that ends in a value passed through a parent that is not `null`,
      and its last step is a plain property read. */
  lemma {:induction false} GetKeyLast(v: Value, p: Path, k: Key)
    requires GetKey(v, p + [k]).Found?
    ensures GetKey(v, p).Found? && !GetKey(v, p).value.Null?
    ensures GetKey(v, p + [k]) == AsReading(Get(GetKey(v, p).value, k))
    decreases |p|
  {
    if p == [] {
      assert p + [k] == [k];
      assert [k][1..] == [];
    } else {
      assert (p + [k])[0] == p[0] && (p + [k])[1..] == p[1..] + [k];
      var c := Get(v, p[0]).value;
      GetKeyLast(c, p[1..], k);
    }
  }

  /** `GetKeyLast` for a path split at its last key. */
  lemma GetKeyParent(v: Value, q: Path)
    requires q != [] && GetKey(v, q).Found?
    ensures GetKey(v, q[..|q| - 1]).Found? && !GetKey(v, q[..|q| - 1]).value.Null?
    ensures GetProp(GetKey(v, q[..|q| - 1]).value, PropName(q[|q| - 1])) == Defined(GetKey(v, q).value)
  {
    var n := |q| - 1;
    assert q[n..] == [q[n]];
    assert q[..n] + q[n..] == q;
    GetKeyLast(v, q[..n], q[n]);
  }

  /** One more plain property read at the end of a walk that reached a
      value other than `null`. */
  lemma GetKeySnoc(v: Value, p: Path, k: Key)
    requires GetKey(v, p).Found? && !GetKey(v, p).value.Null?
    ensures GetKey(v, p + [k]) == AsReading(Get(GetKey(v, p).value, k))
  {
    GetKeyAppend(v, p, [k]);
    assert [k][1..] == [];
  }

  /** Overwriting an object found at `p`, whatever holds it, succeeds and the
      new value is what `p` then reads. */
  lemma {:induction false} PutThenGetObj(v: Value, p: Path, x: Value)
    requires p != [] && GetKey(v, p).Found? && GetKey(v, p).value.Obj?
    ensures Put(v, p, x).Ok?
    ensures GetKey(Put(v, p, x).value, p) == Found(x)
    decreases |p|
  {
    var n := PropName(p[0]);
    assert !v.Null?;
    var c := Get(v, p[0]).value;
    assert GetKey(v, p) == GetKey(c, p[1..]);
    if !IsContainer(v) {
      PrimitiveReachesNoObject(v, p);
      assert false;
    }
    if v.Arr? && !(IsCanonicalIndex(n) && Text.ParseNat(n) < |v.items|) {
      assert false;
    }
    if |p| == 1 {
      GetPropAfterSet(v, n, x, n);
    } else {
      PutThenGetObj(c, p[1..], x);
      var c' := Put(c, p[1..], x).value;
      GetPropAfterSet(v, n, c', n);
      assert GetKey(Put(v, p, x).value, p) == GetKey(c', p[1..]);
    }
  }

  /** Paths that part ways keep doing so however one of them is extended. */
  lemma {:induction false} DivergeAppend(p: Path, q: Path, s: Path)
    requires Diverge(p, q)
    ensures Diverge(p + s, q)
    decreases |p|
  {
    assert (p + s)[0] == p[0];
    if PropName(p[0]) == PropName(q[0]) {
      assert (p + s)[1..] == p[1..] + s;
      DivergeAppend(p[1..], q[1..], s);
    }
  }

  /** A path that leaves `p` through a property other than `f` parts ways
      with `p`'s field `f`. */
  lemma {:induction false} FieldApart(p: Path, q: Path, f: string)
    requires |p| < |q| && PrefixOf(p, q) && PropName(q[|p|]) != f
    ensures Diverge(q, p + [Name(f)])
    decreases |p|
  {
    if p != [] {
      assert (p + [Name(f)])[0] == p[0] && (p + [Name(f)])[1..] == p[1..] + [Name(f)];
      assert PrefixOf(p[1..], q[1..]) by {
        forall i | 0 <= i < |p[1..]| ensures PropName(p[1..][i]) == PropName(q[1..][i]) {
          assert p[1..][i] == p[i + 1] && q[1..][i] == q[i + 1];
        }
      }
      FieldApart(p[1..], q[1..], f);
    }
  }

  /** Replacing the object at `p` by one whose field `f` is unchanged keeps
      every path through that field reading as before. */
  lemma PutKeepsField(v: Value, p: Path, x: Value, q: Path, f: string)
    requires p != [] && GetKey(v, p).Found? && GetKey(v, p).value.Obj? && x.Obj?
    requires GetProp(x, f) == GetProp(GetKey(v, p).value, f)
    requires |p| < |q| && PrefixOf(p, q) && PropName(q[|p|]) == f
    ensures Put(v, p, x).Ok?
    ensures GetKey(Put(v, p, x).value, q) == GetKey(v, q)
  {
    PutThenGetObj(v, p, x);
    var t := Put(v, p, x).value;
    var node := GetKey(v, p).value;
    var q1, q2 := q[..|p|], q[|p|..];
    assert q == q1 + q2;
    assert SameNames(p, q1);
    SameNamesRead(v, p, q1);
    SameNamesRead(t, p, q1);
    GetKeyAppend(v, q1, q2);
    GetKeyAppend(t, q1, q2);
    assert Get(x, q2[0]) == Get(node, q2[0]);
  }
}
