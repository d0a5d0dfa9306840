/** What the loop of `EncryptStrings.js` leaves in the tree: every sampled
    literal is either left alone or carries the decryptor call on its
    encrypted bytes, and, with the corrected decoding, that call decrypts
    back to the bytes the literal denoted. */
module EncryptLoop {
  import opened Wrappers
  import opened Json
  import TreeIndex
  import Cipher
  import Escapes
  import Mangle
  import Strings

  /** The literals from position `i` on sit apart: no literal's `raw` field
      lies on the path to another literal, or below it. */
  predicate RawsApart(ps: seq<Path>, i: nat)
  {
    forall j, k :: i <= j < |ps| && i <= k < |ps| && j != k ==>
      Diverge(Mangle.RawPath(TreeIndex.DropLast(ps[j])), TreeIndex.DropLast(ps[k]))
  }

  /** The bytes the `raw` text of a node denotes, when the node is found and
      its `raw` is a string that decodes. */
  function LiteralOf(node: Reading, fixed: bool): (r: Option<seq<Cipher.Byte>>)
    ensures r.Some? <==> (node.Found? && Get(node.value, Name("raw")).Defined? && Get(node.value, Name("raw")).value.Str?
                          && Escapes.LiteralBytes(Get(node.value, Name("raw")).value.s, fixed).Ok?)
    ensures r.Some? ==> r.value == Escapes.LiteralBytes(Get(node.value, Name("raw")).value.s, fixed).value
  {
    if !node.Found? then None
    else
      var raw := Get(node.value, Name("raw"));
      if raw.Defined? && raw.value.Str? && Escapes.LiteralBytes(raw.value.s, fixed).Ok?
      then Some(Escapes.LiteralBytes(raw.value.s, fixed).value)
      else None
  }

  /** `x` is the decryptor call on `bytes`, encrypted under `draw` and some
      ordering of the 61 pool characters. */
  ghost predicate CallFor(x: Reading, decryptor: string, bytes: seq<Cipher.Byte>, draw: Cipher.LiteralDraw, fixed: bool)
  {
    exists pool :: CallUnder(x, decryptor, bytes, draw, fixed, pool)
  }

  /** `CallFor` with the pool ordering named. */
  predicate CallUnder(x: Reading, decryptor: string, bytes: seq<Cipher.Byte>, draw: Cipher.LiteralDraw, fixed: bool, pool: string)
  {
    |pool| == 61 && multiset(pool) == multiset(Cipher.Pool)
    && x == Found(Str(Strings.CallText(decryptor, Cipher.EncryptLiteral(bytes, pool, draw, fixed))))
  }

  /** The literal found at `q` in `t` has been handled in `r`: its `raw` text
      decodes; when it denotes no bytes it is left as it was, and otherwise it
      now reads as the decryptor call on its encrypted bytes. */
  ghost predicate EncryptedAt(t: Value, r: Value, q: Path, draw: Cipher.LiteralDraw, decryptor: string, fixed: bool)
  {
    Handled(GetKey(t, q), GetKey(t, Mangle.RawPath(q)), GetKey(r, Mangle.RawPath(q)), draw, decryptor, fixed)
  }

  /** `EncryptedAt` in terms of what the node, its `raw` before and its
      `raw` after read. */
  ghost predicate Handled(node: Reading, before: Reading, after: Reading, draw: Cipher.LiteralDraw, decryptor: string, fixed: bool)
  {
    LiteralOf(node, fixed).Some?
    && if LiteralOf(node, fixed).value == [] then after == before
       else CallFor(after, decryptor, LiteralOf(node, fixed).value, draw, fixed)
  }

  /** A literal's `raw` field parts ways with every other literal's `raw` field. */
  lemma RawsPartWays(q: Path, q': Path)
    requires Diverge(Mangle.RawPath(q), q')
    ensures Diverge(Mangle.RawPath(q), Mangle.RawPath(q'))
  {
    DivergeSymmetric(Mangle.RawPath(q), q');
    DivergeAppend(q', Mangle.RawPath(q), [Name("raw")]);
    DivergeSymmetric(Mangle.RawPath(q'), Mangle.RawPath(q));
  }

  lemma RawsApartStep(ps: seq<Path>, i: nat)
    requires i < |ps| && RawsApart(ps, i)
    ensures RawsApart(ps, i + 1)
    ensures Strings.AvoidsRaws(ps, i + 1, Mangle.RawPath(TreeIndex.DropLast(ps[i])))
    ensures forall k :: i < k < |ps| ==> Diverge(Mangle.RawPath(TreeIndex.DropLast(ps[i])), TreeIndex.DropLast(ps[k]))
    ensures forall k :: i < k < |ps| ==>
      Diverge(Mangle.RawPath(TreeIndex.DropLast(ps[i])), Mangle.RawPath(TreeIndex.DropLast(ps[k])))
  {
    forall k | i < k < |ps|
      ensures Diverge(Mangle.RawPath(TreeIndex.DropLast(ps[k])), Mangle.RawPath(TreeIndex.DropLast(ps[i])))
      ensures Diverge(Mangle.RawPath(TreeIndex.DropLast(ps[i])), Mangle.RawPath(TreeIndex.DropLast(ps[k])))
    {
      RawsPartWays(TreeIndex.DropLast(ps[k]), TreeIndex.DropLast(ps[i]));
      RawsPartWays(TreeIndex.DropLast(ps[i]), TreeIndex.DropLast(ps[k]));
    }
  }

  /** Handling a literal stays true while other fields are written. */
  lemma EncryptedAtKept(t: Value, t': Value, r: Value, q: Path, draw: Cipher.LiteralDraw, decryptor: string, fixed: bool)
    requires GetKey(t', q) == GetKey(t, q) && GetKey(t', Mangle.RawPath(q)) == GetKey(t, Mangle.RawPath(q))
    requires EncryptedAt(t', r, q, draw, decryptor, fixed)
    ensures EncryptedAt(t, r, q, draw, decryptor, fixed)
  {
  }

  /** One turn of the loop: the node is found, its step succeeds, and the
      rest of the loop runs on what the step gives. */
  lemma EncryptRawsStep(t: Value, ps: seq<Path>, i: nat, pool: string, draws: nat -> Cipher.LiteralDraw,
                        decryptor: string, fixed: bool)
    requires |pool| == 61 && multiset(pool) == multiset(Cipher.Pool)
    requires i < |ps| && Strings.EncryptRaws(t, ps, i, pool, draws, decryptor, fixed).Ok?
    ensures GetKey(t, TreeIndex.DropLast(ps[i])).Found?
    ensures Strings.EncryptAt(t, TreeIndex.DropLast(ps[i]), GetKey(t, TreeIndex.DropLast(ps[i])).value, pool, draws(i), decryptor, fixed).Ok?
    ensures var s := Strings.EncryptAt(t, TreeIndex.DropLast(ps[i]), GetKey(t, TreeIndex.DropLast(ps[i])).value, pool, draws(i), decryptor, fixed);
      Strings.EncryptRaws(t, ps, i, pool, draws, decryptor, fixed) == Strings.EncryptRaws(s.value.0, ps, i + 1, s.value.1, draws, decryptor, fixed)
  {
    StepFound(t, ps, i, pool, draws, decryptor, fixed);
    StepOk(t, ps, i, pool, draws, decryptor, fixed);
    StepRest(t, ps, i, pool, draws, decryptor, fixed);
  }

  lemma StepFound(t: Value, ps: seq<Path>, i: nat, pool: string, draws: nat -> Cipher.LiteralDraw, decryptor: string, fixed: bool)
    requires |pool| == 61 && multiset(pool) == multiset(Cipher.Pool)
    requires i < |ps| && Strings.EncryptRaws(t, ps, i, pool, draws, decryptor, fixed).Ok?
    ensures GetKey(t, TreeIndex.DropLast(ps[i])).Found?
  {
  }

  lemma StepOk(t: Value, ps: seq<Path>, i: nat, pool: string, draws: nat -> Cipher.LiteralDraw, decryptor: string, fixed: bool)
    requires |pool| == 61 && multiset(pool) == multiset(Cipher.Pool)
    requires i < |ps| && Strings.EncryptRaws(t, ps, i, pool, draws, decryptor, fixed).Ok?
    requires GetKey(t, TreeIndex.DropLast(ps[i])).Found?
    ensures Strings.EncryptAt(t, TreeIndex.DropLast(ps[i]), GetKey(t, TreeIndex.DropLast(ps[i])).value, pool, draws(i), decryptor, fixed).Ok?
  {
  }

  lemma StepRest(t: Value, ps: seq<Path>, i: nat, pool: string, draws: nat -> Cipher.LiteralDraw, decryptor: string, fixed: bool)
    requires |pool| == 61 && multiset(pool) == multiset(Cipher.Pool)
    requires i < |ps| && GetKey(t, TreeIndex.DropLast(ps[i])).Found?
    requires Strings.EncryptAt(t, TreeIndex.DropLast(ps[i]), GetKey(t, TreeIndex.DropLast(ps[i])).value, pool, draws(i), decryptor, fixed).Ok?
    ensures var s := Strings.EncryptAt(t, TreeIndex.DropLast(ps[i]), GetKey(t, TreeIndex.DropLast(ps[i])).value, pool, draws(i), decryptor, fixed);
      Strings.EncryptRaws(t, ps, i, pool, draws, decryptor, fixed) == Strings.EncryptRaws(s.value.0, ps, i + 1, s.value.1, draws, decryptor, fixed)
  {
  }

  /** A step handles its own literal. */
  lemma StepHandles(t: Value, q: Path, node: Value, pool: string, draw: Cipher.LiteralDraw, decryptor: string, fixed: bool)
    requires |pool| == 61 && multiset(pool) == multiset(Cipher.Pool)
    requires GetKey(t, q) == Found(node) && Strings.EncryptAt(t, q, node, pool, draw, decryptor, fixed).Ok?
    ensures Handled(GetKey(t, q), GetKey(t, Mangle.RawPath(q)),
                    GetKey(Strings.EncryptAt(t, q, node, pool, draw, decryptor, fixed).value.0, Mangle.RawPath(q)), draw, decryptor, fixed)
  {
    var e := Strings.EncryptRaw(Get(node, Name("raw")), pool, draw, fixed);
    var after := GetKey(Strings.EncryptAt(t, q, node, pool, draw, decryptor, fixed).value.0, Mangle.RawPath(q));
    var bytes := LiteralOf(GetKey(t, q), fixed).value;
    if bytes != [] {
      assert e.value == Some(Cipher.EncryptLiteral(bytes, pool, draw, fixed));
      assert CallUnder(after, decryptor, bytes, draw, fixed, pool);
    }
  }

  /** The first literal of the loop is handled by its own step and never written again. */
  lemma EncryptedFirst(t: Value, ps: seq<Path>, i: nat, pool: string, draws: nat -> Cipher.LiteralDraw,
                       decryptor: string, fixed: bool)
    requires |pool| == 61 && multiset(pool) == multiset(Cipher.Pool)
    requires i < |ps| && RawsApart(ps, i)
    requires Strings.EncryptRaws(t, ps, i, pool, draws, decryptor, fixed).Ok?
    ensures EncryptedAt(t, Strings.EncryptRaws(t, ps, i, pool, draws, decryptor, fixed).value.0, TreeIndex.DropLast(ps[i]), draws(i), decryptor, fixed)
  {
    EncryptRawsStep(t, ps, i, pool, draws, decryptor, fixed);
    RawsApartStep(ps, i);
    var q := TreeIndex.DropLast(ps[i]);
    var node := GetKey(t, q).value;
    var s := Strings.EncryptAt(t, q, node, pool, draws(i), decryptor, fixed);
    StepHandles(t, q, node, pool, draws(i), decryptor, fixed);
    var r := Strings.EncryptRaws(s.value.0, ps, i + 1, s.value.1, draws, decryptor, fixed);
    assert GetKey(r.value.0, Mangle.RawPath(q)) == GetKey(s.value.0, Mangle.RawPath(q));
  }

  /** A step leaves a later literal, and its `raw` field, as it was. */
  lemma StepKeepsLater(t: Value, ps: seq<Path>, i: nat, node: Value, pool: string, draw: Cipher.LiteralDraw,
                       decryptor: string, fixed: bool, k: nat)
    requires |pool| == 61 && multiset(pool) == multiset(Cipher.Pool)
    requires i < k < |ps| && RawsApart(ps, i)
    requires Strings.EncryptAt(t, TreeIndex.DropLast(ps[i]), node, pool, draw, decryptor, fixed).Ok?
    ensures var t' := Strings.EncryptAt(t, TreeIndex.DropLast(ps[i]), node, pool, draw, decryptor, fixed).value.0;
      GetKey(t', TreeIndex.DropLast(ps[k])) == GetKey(t, TreeIndex.DropLast(ps[k]))
      && GetKey(t', Mangle.RawPath(TreeIndex.DropLast(ps[k]))) == GetKey(t, Mangle.RawPath(TreeIndex.DropLast(ps[k])))
  {
    var q := TreeIndex.DropLast(ps[i]);
    var qk := TreeIndex.DropLast(ps[k]);
    assert Diverge(Mangle.RawPath(q), qk);
    RawsPartWays(q, qk);
  }

  /** Lifted through the loop: every sampled literal from position `i` on is
      handled, provided the literals sit apart. */
  lemma {:induction false} EncryptRawsWrites(t: Value, ps: seq<Path>, i: nat, pool: string, draws: nat -> Cipher.LiteralDraw,
                                             decryptor: string, fixed: bool, k: nat)
    requires |pool| == 61 && multiset(pool) == multiset(Cipher.Pool)
    requires RawsApart(ps, i) && i <= k < |ps|
    ensures Strings.EncryptRaws(t, ps, i, pool, draws, decryptor, fixed).Ok? ==>
      EncryptedAt(t, Strings.EncryptRaws(t, ps, i, pool, draws, decryptor, fixed).value.0, TreeIndex.DropLast(ps[k]), draws(k), decryptor, fixed)
    decreases |ps| - i
  {
    var r := Strings.EncryptRaws(t, ps, i, pool, draws, decryptor, fixed);
    if r.Ok? {
      if k == i {
        EncryptedFirst(t, ps, i, pool, draws, decryptor, fixed);
      } else {
        EncryptRawsStep(t, ps, i, pool, draws, decryptor, fixed);
        RawsApartStep(ps, i);
        var q := TreeIndex.DropLast(ps[i]);
        var node := GetKey(t, q).value;
        var s := Strings.EncryptAt(t, q, node, pool, draws(i), decryptor, fixed);
        var rest := Strings.EncryptRaws(s.value.0, ps, i + 1, s.value.1, draws, decryptor, fixed);
        EncryptRawsWrites(s.value.0, ps, i + 1, s.value.1, draws, decryptor, fixed, k);
        StepKeepsLater(t, ps, i, node, pool, draws(i), decryptor, fixed, k);
        EncryptedAtKept(t, s.value.0, rest.value.0, TreeIndex.DropLast(ps[k]), draws(k), decryptor, fixed);
      }
    }
  }

  /** The pass as a whole: every sampled literal is handled, provided the
      sampled literals sit apart. */
  lemma EncryptStringsWrites(t: Value, pct: nat, pick: nat -> nat, draws: nat -> Cipher.LiteralDraw,
                             decryptor: string, fixed: bool)
    requires RawsApart(Strings.Sampled(t, pct, pick), 0)
    ensures var r := Strings.EncryptStrings(t, pct, pick, draws, decryptor, fixed);
      r.Ok? ==> forall k :: 0 <= k < |Strings.Sampled(t, pct, pick)| ==>
        EncryptedAt(t, r.value.0, TreeIndex.DropLast(Strings.Sampled(t, pct, pick)[k]), draws(k), decryptor, fixed)
  {
    var r := Strings.EncryptStrings(t, pct, pick, draws, decryptor, fixed);
    if r.Ok? {
      forall k | 0 <= k < |Strings.Sampled(t, pct, pick)|
        ensures EncryptedAt(t, r.value.0, TreeIndex.DropLast(Strings.Sampled(t, pct, pick)[k]), draws(k), decryptor, fixed)
      {
        EncryptRawsWrites(t, Strings.Sampled(t, pct, pick), 0, Cipher.Pool, draws, decryptor, fixed, k);
      }
    }
  }

  /** `x` is a decryptor call whose two arguments read back as the payload
      and the key, and decrypting them gives `bytes`. */
  ghost predicate DecryptingCall(x: Reading, decryptor: string, bytes: seq<Cipher.Byte>)
  {
    exists e :: DecryptsTo(x, decryptor, bytes, e)
  }

  /** `DecryptingCall` with the encryption named. */
  predicate DecryptsTo(x: Reading, decryptor: string, bytes: seq<Cipher.Byte>, e: Cipher.Encrypted)
  {
    x == Found(Str(Strings.CallText(decryptor, e)))
    && Escapes.LiteralBytes("\"" + e.payload + "\"", true) == Ok(Escapes.Utf8String(e.payload))
    && Escapes.LiteralBytes("\"" + e.key + "\"", true) == Ok(Escapes.Utf8String(e.key))
    && Cipher.PoolText(e.key) && Cipher.DecryptSentinel(e.payload, Cipher.KeyBytes(e.key)) == bytes
  }

  /** Corrected, the literal found at `q` in `t` reads back in `r`: it is
      left alone when it denotes no bytes, and otherwise it is a decrypting
      call giving its bytes. */
  ghost predicate DecryptsAt(t: Value, r: Value, q: Path, decryptor: string)
  {
    Decrypted(GetKey(t, q), GetKey(t, Mangle.RawPath(q)), GetKey(r, Mangle.RawPath(q)), decryptor)
  }

  /** `DecryptsAt` in terms of what the node, its `raw` before and its `raw`
      after read. */
  ghost predicate Decrypted(node: Reading, before: Reading, after: Reading, decryptor: string)
  {
    LiteralOf(node, true).Some?
    && if LiteralOf(node, true).value == [] then after == before
       else DecryptingCall(after, decryptor, LiteralOf(node, true).value)
  }

  /** The call written for a literal's bytes, when they decode under the
      corrected reading, decrypts back to them. */
  lemma CallDecrypts(s: string, pool: string, draw: Cipher.LiteralDraw, x: Reading, decryptor: string)
    requires |pool| == 61 && multiset(pool) == multiset(Cipher.Pool)
    requires Escapes.LiteralBytes(s, true).Ok? && Escapes.LiteralBytes(s, true).value != []
    requires x == Found(Str(Strings.CallText(decryptor, Cipher.EncryptLiteral(Escapes.LiteralBytes(s, true).value, pool, draw, true))))
    ensures DecryptingCall(x, decryptor, Escapes.LiteralBytes(s, true).value)
  {
    var bytes := Escapes.LiteralBytes(s, true).value;
    var e := Cipher.EncryptLiteral(bytes, pool, draw, true);
    assert Strings.EncryptRaw(Defined(Str(s)), pool, draw, true) == Ok(Some(e));
    Strings.EncryptRawRoundTrip(s, pool, draw);
    assert DecryptsTo(x, decryptor, bytes, e);
  }

  lemma HandledDecrypts(node: Reading, before: Reading, after: Reading, draw: Cipher.LiteralDraw, decryptor: string)
    requires Handled(node, before, after, draw, decryptor, true)
    ensures Decrypted(node, before, after, decryptor)
  {
    var raw := Get(node.value, Name("raw")).value.s;
    var bytes := Escapes.LiteralBytes(raw, true).value;
    assert LiteralOf(node, true) == Some(bytes);
    if bytes != [] {
      var pool :| CallUnder(after, decryptor, bytes, draw, true, pool);
      CallDecrypts(raw, pool, draw, after, decryptor);
    }
  }

  /** Corrected, the whole pass round-trips: every sampled literal is either
      left alone or replaced by a call that decrypts to exactly the bytes it
      denoted, provided the sampled literals sit apart. */
  lemma EncryptStringsDecrypts(t: Value, pct: nat, pick: nat -> nat, draws: nat -> Cipher.LiteralDraw, decryptor: string)
    requires RawsApart(Strings.Sampled(t, pct, pick), 0)
    ensures var r := Strings.EncryptStrings(t, pct, pick, draws, decryptor, true);
      r.Ok? ==> forall k :: 0 <= k < |Strings.Sampled(t, pct, pick)| ==>
        DecryptsAt(t, r.value.0, TreeIndex.DropLast(Strings.Sampled(t, pct, pick)[k]), decryptor)
  {
    var r := Strings.EncryptStrings(t, pct, pick, draws, decryptor, true);
    EncryptStringsWrites(t, pct, pick, draws, decryptor, true);
    if r.Ok? {
      forall k | 0 <= k < |Strings.Sampled(t, pct, pick)|
        ensures DecryptsAt(t, r.value.0, TreeIndex.DropLast(Strings.Sampled(t, pct, pick)[k]), decryptor)
      {
        var q := TreeIndex.DropLast(Strings.Sampled(t, pct, pick)[k]);
        HandledDecrypts(GetKey(t, q), GetKey(t, Mangle.RawPath(q)), GetKey(r.value.0, Mangle.RawPath(q)), draws(k), decryptor);
      }
    }
  }
}
