/** The random helpers every pass draws from (`Math.Random`, `Utils.GenerateVariable`,
    `Utils.GetRandomSample`). Each random source becomes an explicit argument: a
    natural number per draw, which the helper reduces into its range exactly as
    `Math.floor(Math.random() * n)` or `crypto.randomInt` would pick one value. */
module Utils {
  import opened Wrappers

  // ---------------------------------------------------------------------------
  // Math.Random

  /** `Random(Min, Max)`: the draw `u` picks one integer of the inclusive range.
      `crypto.randomInt` raises when the range is empty; every caller passes a
      non-empty constant range. */
  function Random(lo: int, hi: int, u: nat): (r: int)
    requires lo <= hi
    ensures lo <= r <= hi
  {
    lo + u % (hi - lo + 1)
  }

  /** Every value of the range is drawn by some `u`: the model loses no outcome. */
  lemma RandomReachesAll(lo: int, hi: int, r: int)
    requires lo <= r <= hi
    ensures Random(lo, hi, (r - lo) as nat) == r
  {
  }

  /** `Math.floor(Math.random() * n)` for a draw `u`. */
  function Below(n: nat, u: nat): (r: nat)
    requires n > 0
    ensures r < n
    ensures u < n ==> r == u
  {
    u % n
  }

  // ---------------------------------------------------------------------------
  // Utils.GenerateVariable

  /** `"abcdefghijklmnopqrstuvwxyz"`, `"ABCDEFGHIJKLMNOPQRSTUVWXYZ"` and `"0123456789"`. */
  const Lower: string := CharRange('a', 26)
  const Upper: string := CharRange('A', 26)
  const Type1Letters := Lower + Upper
  const Type1Numbers: string := CharRange('0', 10)

  /** The `n` consecutive characters starting at `first`. */
  function CharRange(first: char, n: nat): (r: string)
    requires first as int + n <= 0xD800
    ensures |r| == n && forall i :: 0 <= i < n ==> r[i] as int == first as int + i
  {
    if n == 0 then "" else CharRange(first, n - 1) + [(first as int + n - 1) as char]
  }
  const Type2Letters := "lIjJi"
  const Type2Numbers := "1"

  predicate IsLetter(c: char)
  {
    ('a' <= c <= 'z') || ('A' <= c <= 'Z')
  }

  predicate IsAlphanumeric(c: char)
  {
    IsLetter(c) || ('0' <= c <= '9')
  }

  /** The letters and digits the generator uses for a style. */
  function Letters(kind: int): string
    requires kind == 1 || kind == 2
  {
    if kind == 1 then Type1Letters else Type2Letters
  }

  function Alphabet(kind: int): string
    requires kind == 1 || kind == 2
  {
    if kind == 1 then Type1Letters + Type1Numbers else Type2Letters + Type2Numbers
  }

  /** The length the generator produces: Type 2 forces 15 characters, and the
      first character is written whatever `Length` is. */
  function NameLength(length: int, kind: int): nat
  {
    if kind == 2 then 15 else if length < 1 then 1 else length
  }

  /** `GenerateVariable(Length, Type)` with `draw(i)` the draw for character `i`.
      Any style other than 1 and 2 leaves the alphabets undefined, and reading
      `Letters.length` raises. */
  function GenerateVariable(length: int, kind: int, draw: nat -> nat): (r: Result<string>)
    ensures r.Ok? <==> kind == 1 || kind == 2
    ensures r.Ok? ==> |r.value| == NameLength(length, kind)
    ensures r.Ok? ==> r.value[0] in Letters(kind)
    ensures r.Ok? ==> forall i :: 1 <= i < |r.value| ==> r.value[i] in Alphabet(kind)
  {
    if kind != 1 && kind != 2 then Err("Cannot read properties of undefined (reading 'length')")
    else
      Ok(Spell(Letters(kind), Alphabet(kind), NameLength(length, kind), draw))
  }

  /** A name of `n >= 1` characters: the first drawn from `letters`, the rest from `all`. */
  function Spell(letters: string, all: string, n: nat, draw: nat -> nat): (r: string)
    requires letters != [] && all != [] && n >= 1
    ensures |r| == n && r[0] in letters
    ensures forall i :: 1 <= i < |r| ==> r[i] in all
  {
    [letters[Below(|letters|, draw(0))]] + Tail(all, 1, n, draw)
  }

  /** Characters `i .. n - 1` of the name, each drawn from the whole alphabet. */
  function Tail(all: string, i: nat, n: nat, draw: nat -> nat): (r: string)
    requires all != []
    ensures |r| == if i < n then n - i else 0
    ensures forall k :: 0 <= k < |r| ==> r[k] == all[Below(|all|, draw(i + k))]
    decreases n - i
  {
    if i >= n then "" else [all[Below(|all|, draw(i))]] + Tail(all, i + 1, n, draw)
  }

  lemma LettersShape(k: nat)
    requires k < |Type1Letters|
    ensures IsLetter(Type1Letters[k])
  {
    if k < 26 {
      assert Type1Letters[k] == Lower[k];
    } else {
      assert Type1Letters[k] == Upper[k - 26];
    }
  }

  /** The names of the default style are identifiers: a letter, then letters and digits. */
  lemma GeneratedNameIsIdentifier(length: int, draw: nat -> nat)
    ensures var r := GenerateVariable(length, 1, draw);
      r.Ok? && IsLetter(r.value[0]) && forall i :: 0 <= i < |r.value| ==> IsAlphanumeric(r.value[i])
  {
    var r := GenerateVariable(length, 1, draw).value;
    forall i | 0 <= i < |r| ensures IsAlphanumeric(r[i]) {
      if i == 0 {
        DefaultLetter(r[0]);
      } else {
        DefaultCharacter(r[i]);
      }
    }
    DefaultLetter(r[0]);
  }

  lemma DefaultLetter(c: char)
    requires c in Type1Letters
    ensures IsLetter(c)
  {
    LettersShape(IndexOf(Type1Letters, c));
  }

  lemma DefaultCharacter(c: char)
    requires c in Type1Letters + Type1Numbers
    ensures IsAlphanumeric(c)
  {
    var all := Type1Letters + Type1Numbers;
    var k := IndexOf(all, c);
    if k >= |Type1Letters| {
      var m := k - |Type1Letters|;
      assert all[k] == Type1Numbers[m];
      assert Type1Numbers[m] as int == '0' as int + m;
    } else {
      assert all[k] == Type1Letters[k];
      LettersShape(k);
    }
  }

  /** Position of `c` in `s`. */
  function IndexOf(s: string, c: char): (i: nat)
    requires c in s
    ensures i < |s| && s[i] == c
  {
    if s[0] == c then 0 else 1 + IndexOf(s[1..], c)
  }

  /** Draws that pick the alphabet positions of `name[i .. n - 1]` rebuild it. */
  lemma {:induction false} TailReaches(all: string, i: nat, n: nat, draw: nat -> nat, name: string)
    requires all != [] && i <= n <= |name|
    requires forall k :: i <= k < n ==> all[Below(|all|, draw(k))] == name[k]
    ensures Tail(all, i, n, draw) == name[i..n]
    decreases n - i
  {
    if i < n {
      TailReaches(all, i + 1, n, draw, name);
      assert name[i..n] == [name[i]] + name[i + 1..n];
    }
  }

  /** The draw that picks character `i` of `name` from its alphabet. */
  function SpellingDraw(letters: string, all: string, name: string, i: nat): (d: nat)
    ensures i == 0 && |name| > 0 && name[0] in letters ==> d < |letters| && letters[d] == name[0]
    ensures 0 < i < |name| && name[i] in all ==> d < |all| && all[d] == name[i]
  {
    if i == 0 && |name| > 0 && name[0] in letters then IndexOf(letters, name[0])
    else if 0 < i < |name| && name[i] in all then IndexOf(all, name[i])
    else 0
  }

  /** Draws that pick the positions of `name`'s characters spell `name`. */
  lemma SpellReachesAll(letters: string, all: string, name: string) returns (draw: nat -> nat)
    requires |name| >= 1 && name[0] in letters && all != []
    requires forall i :: 1 <= i < |name| ==> name[i] in all
    ensures Spell(letters, all, |name|, draw) == name
  {
    draw := (i: nat) => SpellingDraw(letters, all, name, i);
    assert Tail(all, 1, |name|, draw) == name[1..|name|] by {
      TailDrawsPick(letters, all, name, draw);
      TailReaches(all, 1, |name|, draw, name);
    }
    assert letters[Below(|letters|, draw(0))] == name[0] by {
      var d := SpellingDraw(letters, all, name, 0);
      assert Below(|letters|, d) == d;
    }
    assert name == [name[0]] + name[1..|name|];
  }

  lemma TailDrawsPick(letters: string, all: string, name: string, draw: nat -> nat)
    requires all != []
    requires forall i :: 1 <= i < |name| ==> name[i] in all
    requires forall i :: draw(i) == SpellingDraw(letters, all, name, i)
    ensures forall k :: 1 <= k < |name| ==> all[Below(|all|, draw(k))] == name[k]
  {
    forall k | 1 <= k < |name| ensures all[Below(|all|, draw(k))] == name[k] {
      var d := SpellingDraw(letters, all, name, k);
      assert Below(|all|, d) == d;
    }
  }

  /** Conversely, every name of the right length and shape is produced by some draws. */
  lemma GenerateVariableReachesAll(length: int, kind: int, name: string)
    requires kind == 1 || kind == 2
    requires |name| == NameLength(length, kind) && name[0] in Letters(kind)
    requires forall i :: 1 <= i < |name| ==> name[i] in Alphabet(kind)
    ensures exists draw: nat -> nat :: GenerateVariable(length, kind, draw) == Ok(name)
  {
    var draw := SpellReachesAll(Letters(kind), Alphabet(kind), name);
    assert GenerateVariable(length, kind, draw) == Ok(name);
  }

  // ---------------------------------------------------------------------------
  // Utils.GetRandomSample

  /** `Math.ceil(len * (pct / 100))` over the integers. */
  function SampleSize(len: nat, pct: nat): (k: nat)
    ensures k * 100 >= len * pct
    ensures k == 0 || (k - 1) * 100 < len * pct
  {
    (len * pct + 99) / 100
  }

  /** A percentage of at most 100 never asks for more elements than the list has. */
  lemma SampleSizeAtMost(len: nat, pct: nat)
    requires pct <= 100
    ensures SampleSize(len, pct) <= len
  {
    var k := SampleSize(len, pct);
    if k > 0 {
      assert len * pct <= len * 100;
      assert (k - 1) * 100 < len * 100;
    }
  }

  predicate Distinct<T(==)>(s: seq<T>)
  {
    forall i, j :: 0 <= i < j < |s| ==> s[i] != s[j]
  }

  /** `s` lists each of `0 .. n - 1` exactly once. */
  predicate IsPermutation(s: seq<nat>, n: nat)
  {
    |s| == n && Distinct(s) && forall i :: 0 <= i < |s| ==> s[i] < n
  }

  function Identity(n: nat): (r: seq<nat>)
    ensures IsPermutation(r, n)
    ensures forall i :: 0 <= i < n ==> r[i] == i
  {
    seq(n, i requires 0 <= i => i as nat)
  }

  /** `[Result[I], Result[J]] = [Result[J], Result[I]]`. */
  function Swap<T>(a: seq<T>, i: nat, j: nat): (r: seq<T>)
    requires i < |a| && j < |a|
    ensures |r| == |a| && r[i] == a[j] && r[j] == a[i]
    ensures forall k :: 0 <= k < |a| && k != i && k != j ==> r[k] == a[k]
  {
    a[i := a[j]][j := a[i]]
  }

  lemma SwapKeepsPermutation(a: seq<nat>, n: nat, i: nat, j: nat)
    requires IsPermutation(a, n) && i < n && j < n
    ensures IsPermutation(Swap(a, i, j), n)
  {
    var r := Swap(a, i, j);
    forall x, y | 0 <= x < y < n ensures r[x] != r[y] {
      var sx := if x == i then j else if x == j then i else x;
      var sy := if y == i then j else if y == j then i else y;
      assert r[x] == a[sx] && r[y] == a[sy] && sx != sy;
    }
  }

  /** The shuffle loop from `I = i` down to 1, with `pick(I)` the draw for `J`. */
  function ShuffleDown<T>(a: seq<T>, i: nat, pick: nat -> nat): (r: seq<T>)
    requires i < |a|
    ensures |r| == |a|
    decreases i
  {
    if i == 0 then a else ShuffleDown(Swap(a, i, Below(i + 1, pick(i))), i - 1, pick)
  }

  lemma {:induction false} ShuffleDownPermutes(a: seq<nat>, n: nat, i: nat, pick: nat -> nat)
    requires IsPermutation(a, n) && i < n
    ensures IsPermutation(ShuffleDown(a, i, pick), n)
    decreases i
  {
    if i > 0 {
      var j := Below(i + 1, pick(i));
      SwapKeepsPermutation(a, n, i, j);
      ShuffleDownPermutes(Swap(a, i, j), n, i - 1, pick);
    }
  }

  /** Shuffling only moves elements. */
  lemma {:induction false} ShuffleDownMultiset<T>(a: seq<T>, i: nat, pick: nat -> nat)
    requires i < |a|
    ensures multiset(ShuffleDown(a, i, pick)) == multiset(a)
    decreases i
  {
    if i > 0 {
      var j := Below(i + 1, pick(i));
      assert multiset(Swap(a, i, j)) == multiset(a);
      ShuffleDownMultiset(Swap(a, i, j), i - 1, pick);
    }
  }

  /** Every entry of `p` is below `n`. */
  predicate Bounded(p: seq<nat>, n: nat)
  {
    forall k :: 0 <= k < |p| ==> p[k] < n
  }

  /** The elements of `a` at the positions `p`, in that order. */
  function Reorder<T>(a: seq<T>, p: seq<nat>): (r: seq<T>)
    requires Bounded(p, |a|)
    ensures |r| == |p| && forall k :: 0 <= k < |p| ==> r[k] == a[p[k]]
  {
    seq(|p|, k requires 0 <= k < |p| => a[p[k]])
  }

  lemma {:induction false} ShuffleDownBounded(p: seq<nat>, n: nat, i: nat, pick: nat -> nat)
    requires i < |p| && Bounded(p, n)
    ensures Bounded(ShuffleDown(p, i, pick), n)
    decreases i
  {
    if i > 0 {
      ShuffleDownBounded(Swap(p, i, Below(i + 1, pick(i))), n, i - 1, pick);
    }
  }

  /** Shuffling a list moves its elements as shuffling their positions does. */
  lemma {:induction false} ShuffleDownReorder<T>(a: seq<T>, p: seq<nat>, i: nat, pick: nat -> nat)
    requires i < |p| && Bounded(p, |a|)
    ensures Bounded(ShuffleDown(p, i, pick), |a|)
    ensures ShuffleDown(Reorder(a, p), i, pick) == Reorder(a, ShuffleDown(p, i, pick))
    decreases i
  {
    ShuffleDownBounded(p, |a|, i, pick);
    if i > 0 {
      var j := Below(i + 1, pick(i));
      assert Swap(Reorder(a, p), i, j) == Reorder(a, Swap(p, i, j));
      ShuffleDownReorder(a, Swap(p, i, j), i - 1, pick);
    }
  }

  /** The positions a sample takes: a prefix of a Fisher–Yates permutation. */
  function SamplePositions(len: nat, pct: nat, pick: nat -> nat): (r: seq<nat>)
    ensures |r| == Min(SampleSize(len, pct), len)
    ensures Distinct(r) && Bounded(r, len)
  {
    if len == 0 then []
    else
      var perm := ShuffleDown(Identity(len), len - 1, pick);
      ShuffleDownPermutes(Identity(len), len, len - 1, pick);
      perm[..Min(SampleSize(len, pct), len)]
  }

  function Min(a: nat, b: nat): nat
  {
    if a < b then a else b
  }

  /** `GetRandomSample(List, Percentage)`: shuffle a copy, keep the first
      `ceil(len * pct / 100)` elements (all of them when that exceeds the length). */
  function GetRandomSample<T>(list: seq<T>, pct: nat, pick: nat -> nat): (r: seq<T>)
    ensures |r| == Min(SampleSize(|list|, pct), |list|)
  {
    if list == [] then []
    else ShuffleDown(list, |list| - 1, pick)[..Min(SampleSize(|list|, pct), |list|)]
  }

  /** The sample is the list read at the sampled positions, which are pairwise
      distinct, so no element is taken twice. */
  lemma SampleAtPositions<T>(list: seq<T>, pct: nat, pick: nat -> nat)
    ensures GetRandomSample(list, pct, pick) == Reorder(list, SamplePositions(|list|, pct, pick))
  {
    var n := |list|;
    if n > 0 {
      var id := Identity(n);
      assert Reorder(list, id) == list;
      ShuffleDownReorder(list, id, n - 1, pick);
      var perm := ShuffleDown(id, n - 1, pick);
      var shuffled := ShuffleDown(list, n - 1, pick);
      assert shuffled == Reorder(list, perm);
      var k := Min(SampleSize(n, pct), n);
      assert GetRandomSample(list, pct, pick) == shuffled[..k];
      assert SamplePositions(n, pct, pick) == perm[..k];
      ReorderPrefix(list, perm, k);
    }
  }

  lemma ReorderPrefix<T>(a: seq<T>, p: seq<nat>, k: nat)
    requires Bounded(p, |a|) && k <= |p|
    ensures Bounded(p[..k], |a|) && Reorder(a, p)[..k] == Reorder(a, p[..k])
  {
  }

  /** No element of the list is sampled twice, and every sampled element is in the list. */
  lemma SampleIsSubMultiset<T>(list: seq<T>, pct: nat, pick: nat -> nat)
    ensures multiset(GetRandomSample(list, pct, pick)) <= multiset(list)
  {
    SampleAtPositions(list, pct, pick);
    DistinctPositionsSubMultiset(list, SamplePositions(|list|, pct, pick));
  }

  lemma {:induction false} DistinctPositionsSubMultiset<T>(a: seq<T>, p: seq<nat>)
    requires Distinct(p) && Bounded(p, |a|)
    ensures multiset(Reorder(a, p)) <= multiset(a)
    decreases |p|
  {
    if p != [] {
      var last := p[|p| - 1];
      var front := p[..|p| - 1];
      assert Reorder(a, p) == Reorder(a, front) + [a[last]];
      var rest := a[..last] + a[last + 1..];
      assert a == a[..last] + [a[last]] + a[last + 1..];
      var shifted := SkipPosition(a, p);
      DistinctPositionsSubMultiset(rest, shifted);
      assert multiset(a) == multiset(rest) + multiset{a[last]};
    }
  }

  /** The positions before the last one select the same elements from `a`
      with the last position's element removed. */
  lemma SkipPosition<T>(a: seq<T>, p: seq<nat>) returns (shifted: seq<nat>)
    requires Distinct(p) && Bounded(p, |a|) && p != []
    ensures var last := p[|p| - 1];
      var rest := a[..last] + a[last + 1..];
      Distinct(shifted) && Bounded(shifted, |rest|) && Reorder(rest, shifted) == Reorder(a, p[..|p| - 1])
  {
    var last := p[|p| - 1];
    var front := p[..|p| - 1];
    var rest := a[..last] + a[last + 1..];
    shifted := seq(|front|, k requires 0 <= k < |front| => if front[k] < last then front[k] else front[k] - 1);
    forall k | 0 <= k < |front| ensures shifted[k] < |rest| && rest[shifted[k]] == a[front[k]] {
      assert front[k] == p[k] != last;
    }
    forall x, y | 0 <= x < y < |shifted| ensures shifted[x] != shifted[y] {
      assert front[x] == p[x] && front[y] == p[y];
    }
  }
}
