/** The seeded shuffle of `HideGlobals.js`: the pass packs the environment among
    decoy arguments, shuffles them at run time with a linear congruential
    generator, and predicts at compile time where the environment lands. The
    prediction (`PredictShuffle`) and the Lua preamble's loop run the same
    recurrence; here both are over mathematical integers. */
module Shuffle {
  import Utils

  const Multiplier := 1103515245
  const Increment := 12345
  const Modulus := 2147483648

  /** `state = (1103515245 * state + 12345) % 2147483648` for a non-negative state. */
  function Lcg(s: nat): (r: nat)
    ensures r < Modulus
  {
    (Multiplier * s + Increment) % Modulus
  }

  /** `j = state % i + 1`: the 1-based slot swapped with slot `i`. */
  function SwapIndex(s: nat, i: nat): (j: nat)
    requires i >= 1
    ensures 1 <= j <= i
  {
    s % i + 1
  }

  /** The loop `for i = n, 2, -1` from `i` down: advance the state, then swap
      the 1-based slots `i` and `j`. Both the prediction (on its index map) and
      the Lua preamble (on the packed arguments) run exactly this. */
  function LcgShuffle<T>(a: seq<T>, i: nat, s: nat): (r: seq<T>)
    requires i <= |a|
    ensures |r| == |a| && multiset(r) == multiset(a)
    decreases i
  {
    if i < 2 then a
    else
      var s' := Lcg(s);
      var j := SwapIndex(s', i);
      assert multiset(Utils.Swap(a, i - 1, j - 1)) == multiset(a);
      LcgShuffle(Utils.Swap(a, i - 1, j - 1), i - 1, s')
  }

  // ---------------------------------------------------------------------------
  // Tracking positions

  /** `q` undoes `p` from both sides on `0 .. n - 1`. */
  predicate Inverse(p: seq<nat>, q: seq<nat>, n: nat)
  {
    Utils.IsPermutation(p, n) && Utils.IsPermutation(q, n)
    && (forall c :: 0 <= c < n ==> q[p[c]] == c)
    && (forall x :: 0 <= x < n ==> p[q[x]] == x)
  }

  /** Swapping two entries of `p` is undone by swapping the two values in `q`. */
  lemma SwapInverse(p: seq<nat>, q: seq<nat>, n: nat, i: nat, j: nat)
    requires Inverse(p, q, n) && i < n && j < n
    ensures Inverse(Utils.Swap(p, i, j), Utils.Swap(q, p[i], p[j]), n)
  {
    var p' := Utils.Swap(p, i, j);
    var q' := Utils.Swap(q, p[i], p[j]);
    Utils.SwapKeepsPermutation(p, n, i, j);
    Utils.SwapKeepsPermutation(q, n, p[i], p[j]);
    forall c | 0 <= c < n ensures q'[p'[c]] == c {
      if c == i {
      } else if c == j {
      } else {
        assert p[c] != p[i] && p[c] != p[j];
      }
    }
    forall x | 0 <= x < n ensures p'[q'[x]] == x {
      if x == p[i] {
      } else if x == p[j] {
      } else {
        assert q[x] != i && q[x] != j;
      }
    }
  }

  /** The index map after the loop, together with its inverse, which the same
      swaps applied to values keep up to date. */
  function Track(p: seq<nat>, q: seq<nat>, n: nat, i: nat, s: nat): (r: (seq<nat>, seq<nat>))
    requires Inverse(p, q, n) && i <= n
    ensures Inverse(r.0, r.1, n)
    ensures r.0 == LcgShuffle(p, i, s)
    decreases i
  {
    if i < 2 then (p, q)
    else
      var s' := Lcg(s);
      var j := SwapIndex(s', i);
      TrackStep(p, q, n, i, s);
      Track(Utils.Swap(p, i - 1, j - 1), Utils.Swap(q, p[i - 1], p[j - 1]), n, i - 1, s')
  }

  /** One turn of `Track`: the swapped pair stays inverse, and the index map
      is one turn further through the loop. */
  lemma TrackStep(p: seq<nat>, q: seq<nat>, n: nat, i: nat, s: nat)
    requires Inverse(p, q, n) && 2 <= i <= n
    ensures Inverse(Utils.Swap(p, i - 1, SwapIndex(Lcg(s), i) - 1),
                    Utils.Swap(q, p[i - 1], p[SwapIndex(Lcg(s), i) - 1]), n)
    ensures LcgShuffle(p, i, s) == LcgShuffle(Utils.Swap(p, i - 1, SwapIndex(Lcg(s), i) - 1), i - 1, Lcg(s))
  {
    SwapInverse(p, q, n, i - 1, SwapIndex(Lcg(s), i) - 1);
    LcgShuffleStep(p, i, s);
  }

  /** `indexMap.forEach((originalIndex, currentIndex) => result[originalIndex] = currentIndex)`
      from position `c` on, over a result that starts as `acc`. */
  function Scatter(p: seq<nat>, c: nat, acc: seq<nat>): (r: seq<nat>)
    requires Utils.Bounded(p, |acc|)
    ensures |r| == |acc|
    decreases |p| - c
  {
    if c >= |p| then acc else Scatter(p, c + 1, acc[p[c] := c])
  }

  /** Once every position of `p` is scattered, the result sends each `p[c]` back to `c`. */
  lemma {:induction false} ScatterInverts(p: seq<nat>, n: nat, c: nat, acc: seq<nat>)
    requires Utils.IsPermutation(p, n) && |acc| == n && c <= n
    requires forall d :: 0 <= d < c ==> acc[p[d]] == d
    ensures forall d :: 0 <= d < n ==> Scatter(p, c, acc)[p[d]] == d
    decreases n - c
  {
    if c < n {
      var acc' := acc[p[c] := c];
      forall d | 0 <= d < c + 1 ensures acc'[p[d]] == d {
        if d < c {
          assert p[d] != p[c];
        }
      }
      ScatterInverts(p, n, c + 1, acc');
    }
  }

  /** Reordering keeps every entry below `n`. */
  lemma SameMultisetBounded(p: seq<nat>, p': seq<nat>, n: nat)
    requires Utils.Bounded(p, n) && multiset(p') == multiset(p)
    ensures Utils.Bounded(p', n)
  {
    forall k | 0 <= k < |p'| ensures p'[k] < n {
      assert p'[k] in multiset(p);
    }
  }

  /** `PredictShuffle(seed, args)`: for each original index, the 0-based slot
      the run-time shuffle moves it to. */
  function PredictShuffle(seed: nat, n: nat): (r: seq<nat>)
    ensures |r| == n
  {
    SameMultisetBounded(Utils.Identity(n), LcgShuffle(Utils.Identity(n), n, seed), n);
    Scatter(LcgShuffle(Utils.Identity(n), n, seed), 0, seq(n, _ => 0))
  }

  /** The prediction is the inverse of the index map, and so a bijection on
      `0 .. n - 1`: distinct arguments are predicted to distinct slots. */
  lemma PredictionIsInverse(seed: nat, n: nat)
    ensures Inverse(LcgShuffle(Utils.Identity(n), n, seed), PredictShuffle(seed, n), n)
    ensures Utils.IsPermutation(PredictShuffle(seed, n), n)
  {
    var id := Utils.Identity(n);
    var (p, q) := Track(id, id, n, n, seed);
    ScatterInverts(p, n, 0, seq(n, _ => 0));
    var r := PredictShuffle(seed, n);
    forall x | 0 <= x < n ensures r[x] == q[x] {
      assert r[p[q[x]]] == q[x];
    }
    assert r == q;
  }

  /** The Lua preamble's loop over the packed arguments `{...}`. */
  function RuntimeShuffle<T>(args: seq<T>, seed: nat): (r: seq<T>)
    ensures |r| == |args| && multiset(r) == multiset(args)
  {
    LcgShuffle(args, |args|, seed)
  }

  /** Shuffling a list moves its elements as shuffling their positions does. */
  lemma {:induction false} LcgShuffleReorder<T>(a: seq<T>, p: seq<nat>, i: nat, s: nat)
    requires i <= |p| && Utils.Bounded(p, |a|)
    ensures Utils.Bounded(LcgShuffle(p, i, s), |a|)
    ensures LcgShuffle(Utils.Reorder(a, p), i, s) == Utils.Reorder(a, LcgShuffle(p, i, s))
    decreases i
  {
    if i >= 2 {
      var p' := Utils.Swap(p, i - 1, SwapIndex(Lcg(s), i) - 1);
      ReorderStep(a, p, i, s);
      LcgShuffleReorder(a, p', i - 1, Lcg(s));
    }
  }

  /** One turn of the loop on a list and on its index map: both swap the same
      two slots. */
  lemma ReorderStep<T>(a: seq<T>, p: seq<nat>, i: nat, s: nat)
    requires 2 <= i <= |p| && Utils.Bounded(p, |a|)
    ensures Utils.Bounded(Utils.Swap(p, i - 1, SwapIndex(Lcg(s), i) - 1), |a|)
    ensures LcgShuffle(p, i, s) == LcgShuffle(Utils.Swap(p, i - 1, SwapIndex(Lcg(s), i) - 1), i - 1, Lcg(s))
    ensures LcgShuffle(Utils.Reorder(a, p), i, s)
         == LcgShuffle(Utils.Reorder(a, Utils.Swap(p, i - 1, SwapIndex(Lcg(s), i) - 1)), i - 1, Lcg(s))
  {
    StepBoth(a, p, i, s);
    SwapReorder(a, p, i - 1, SwapIndex(Lcg(s), i) - 1);
  }

  /** One turn of the loop, unrolled on an index map and on the list it picks. */
  lemma StepBoth<T>(a: seq<T>, p: seq<nat>, i: nat, s: nat)
    requires 2 <= i <= |p| && Utils.Bounded(p, |a|)
    ensures LcgShuffle(p, i, s) == LcgShuffle(Utils.Swap(p, i - 1, SwapIndex(Lcg(s), i) - 1), i - 1, Lcg(s))
    ensures LcgShuffle(Utils.Reorder(a, p), i, s)
         == LcgShuffle(Utils.Swap(Utils.Reorder(a, p), i - 1, SwapIndex(Lcg(s), i) - 1), i - 1, Lcg(s))
  {
    LcgShuffleStep(Utils.Reorder(a, p), i, s);
    LcgShuffleStep(p, i, s);
  }

  /** One turn of the loop, unrolled. */
  lemma LcgShuffleStep<T>(a: seq<T>, i: nat, s: nat)
    requires 2 <= i <= |a|
    ensures LcgShuffle(a, i, s) == LcgShuffle(Utils.Swap(a, i - 1, SwapIndex(Lcg(s), i) - 1), i - 1, Lcg(s))
  {
  }

  /** Swapping two positions of a list is swapping them in its index map. */
  lemma SwapReorder<T>(a: seq<T>, p: seq<nat>, i: nat, j: nat)
    requires Utils.Bounded(p, |a|) && i < |p| && j < |p|
    ensures Utils.Bounded(Utils.Swap(p, i, j), |a|)
    ensures Utils.Swap(Utils.Reorder(a, p), i, j) == Utils.Reorder(a, Utils.Swap(p, i, j))
  {
    var sp := Utils.Swap(p, i, j);
    forall k | 0 <= k < |sp| ensures sp[k] < |a| {
      if k != i && k != j {
        assert sp[k] == p[k];
      }
    }
    var l := Utils.Swap(Utils.Reorder(a, p), i, j);
    var m := Utils.Reorder(a, sp);
    forall k | 0 <= k < |l| ensures l[k] == m[k] {
      if k != i && k != j {
        assert l[k] == a[p[k]];
      }
    }
  }

  /** The key property: after the run-time shuffle with the same seed, slot
      `PredictShuffle(seed, n)[r]` (1-based `ENV_Index + 1`, which the
      preamble reads) holds the argument packed at index `r`. */
  lemma PredictionAgrees<T>(args: seq<T>, seed: nat, r: nat)
    requires r < |args|
    ensures PredictShuffle(seed, |args|)[r] < |args|
    ensures RuntimeShuffle(args, seed)[PredictShuffle(seed, |args|)[r]] == args[r]
  {
    var n := |args|;
    var id := Utils.Identity(n);
    PredictionIsInverse(seed, n);
    assert Utils.Reorder(args, id) == args;
    LcgShuffleReorder(args, id, n, seed);
    var p := LcgShuffle(id, n, seed);
    var q := PredictShuffle(seed, n);
    assert RuntimeShuffle(args, seed) == Utils.Reorder(args, p);
    assert p[q[r]] == r;
  }
}
