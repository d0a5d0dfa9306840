/** The byte layer of `EncryptStrings`: the repeating-key XOR, the base-N text
    encoding of its result (`BaseStarEncode`), the payload layout, and the Lua
    decoder the pass prepends to the program, each decoder loop written as the
    emitted Lua computes it. */
module Cipher {
  import opened Wrappers
  import Utils

  type Byte = b: nat | b < 256

  // ---------------------------------------------------------------------------
  // XOR

  function Pow(b: nat, n: nat): (p: nat)
    ensures b >= 1 ==> p >= 1
  {
    if n == 0 then 1 else b * Pow(b, n - 1)
  }

  /** The decoder's bit loop `for _bit = 1, 8`: `s` gains `t = 2^k` exactly
      where bit `k` of `q` and of `r` differ. */
  function BitXor(q: nat, r: nat, bits: nat): (s: nat)
    ensures s < Pow(2, bits)
  {
    if bits == 0 then 0
    else (if q % 2 != r % 2 then 1 else 0) + 2 * BitXor(q / 2, r / 2, bits - 1)
  }

  /** XOR of two bytes: JavaScript's `^` on buffer bytes, and the Lua bit loop. */
  function Xor(a: Byte, b: Byte): Byte
  {
    assert Pow(2, 8) == 256;
    BitXor(a, b, 8)
  }

  lemma HalfBelow(a: nat, n: nat)
    requires n > 0 && a < Pow(2, n)
    ensures a / 2 < Pow(2, n - 1)
  {
    assert Pow(2, n) == 2 * Pow(2, n - 1);
  }

  lemma {:induction false} BitXorTwice(a: nat, k: nat, n: nat)
    requires a < Pow(2, n)
    ensures BitXor(BitXor(a, k, n), k, n) == a
  {
    if n > 0 {
      var x := BitXor(a, k, n);
      var low := if a % 2 != k % 2 then 1 else 0;
      assert x == low + 2 * BitXor(a / 2, k / 2, n - 1);
      assert x % 2 == low && x / 2 == BitXor(a / 2, k / 2, n - 1);
      HalfBelow(a, n);
      BitXorTwice(a / 2, k / 2, n - 1);
    }
  }

  /** Byte `i` of the data XOR byte `i % |key|` of the key: `EncryptToBuffer`,
      and the decoder's final loop, which reads key byte `(j - 1) % p + 1`.
      JavaScript reads an empty key as `undefined`, which `^` treats as 0. */
  function XorWithKey(data: seq<Byte>, key: seq<Byte>): (out: seq<Byte>)
    ensures |out| == |data|
    ensures key != [] ==> forall i :: 0 <= i < |data| ==> out[i] == Xor(data[i], key[i % |key|])
    ensures key == [] ==> out == data
  {
    if key == [] then data
    else seq(|data|, i requires 0 <= i < |data| => Xor(data[i], key[i % |key|]))
  }

  /** Decrypting with the key that encrypted gives the plaintext back. */
  lemma XorWithKeyTwice(data: seq<Byte>, key: seq<Byte>)
    ensures XorWithKey(XorWithKey(data, key), key) == data
  {
    if key != [] {
      forall i | 0 <= i < |data|
        ensures XorWithKey(XorWithKey(data, key), key)[i] == data[i]
      {
        assert Pow(2, 8) == 256;
        BitXorTwice(data[i], key[i % |key|], 8);
      }
    }
  }

  // ---------------------------------------------------------------------------
  // Positional values

  /** The number whose base-`b` digits, most significant first, are `ds`
      (for bytes, `BigInt('0x' + buffer.toString('hex'))`). */
  function Value(ds: seq<nat>, b: nat): nat
  {
    if ds == [] then 0 else Value(ds[..|ds| - 1], b) * b + ds[|ds| - 1]
  }

  predicate IsDigits(ds: seq<nat>, b: nat)
  {
    forall i :: 0 <= i < |ds| ==> ds[i] < b
  }

  /** No leading zero, except the single digit 0. */
  predicate Canonical(ds: seq<nat>)
  {
    |ds| >= 1 && (|ds| == 1 || ds[0] != 0)
  }

  lemma MulMono(a: nat, b: nat, c: nat)
    requires a <= b
    ensures a * c <= b * c
  {
  }

  lemma MulDistrib(u: nat, v: nat, c: nat)
    ensures (u + v) * c == u * c + v * c
  {
  }

  lemma MulShift(x: nat, p: nat, b: nat)
    ensures (x * p) * b == x * (b * p)
  {
  }

  /** One more digit: below `p` before, below `b * p` after. */
  lemma DigitStepBelow(v: nat, d: nat, p: nat, b: nat)
    requires v < p && d < b
    ensures v * b + d < b * p
  {
    MulMono(v + 1, p, b);
    MulDistrib(v, 1, b);
  }

  lemma {:induction false} ValueBelow(ds: seq<nat>, b: nat)
    requires IsDigits(ds, b)
    ensures Value(ds, b) < Pow(b, |ds|)
  {
    if ds != [] {
      var front := ds[..|ds| - 1];
      ValueBelow(front, b);
      DigitStepBelow(Value(front, b), ds[|ds| - 1], Pow(b, |front|), b);
    }
  }

  /** Reading the leading digit off the front. */
  lemma {:induction false} ValueCons(x: nat, ds: seq<nat>, b: nat)
    ensures Value([x] + ds, b) == x * Pow(b, |ds|) + Value(ds, b)
    decreases |ds|
  {
    if ds != [] {
      var front := ds[..|ds| - 1];
      var p, v := Pow(b, |front|), Value(front, b);
      assert ([x] + ds)[..|ds|] == [x] + front;
      ValueCons(x, front, b);
      assert Value([x] + ds, b) == (x * p + v) * b + ds[|ds| - 1];
      MulDistrib(x * p, v, b);
      MulShift(x, p, b);
      assert Pow(b, |ds|) == b * p;
    }
  }

  lemma {:induction false} PowMonotone(b: nat, m: nat, n: nat)
    requires b >= 1 && m <= n
    ensures Pow(b, m) <= Pow(b, n)
    decreases n
  {
    if m < n {
      PowMonotone(b, m, n - 1);
      MulMono(1, b, Pow(b, n - 1));
    }
  }

  /** A canonical numeral of two or more digits is at least `b^(n-1)`. */
  lemma LeadingDigitBound(ds: seq<nat>, b: nat)
    requires IsDigits(ds, b) && |ds| >= 2
    ensures ds[0] != 0 <==> Value(ds, b) >= Pow(b, |ds| - 1)
  {
    var rest := ds[1..];
    assert [ds[0]] + rest == ds;
    ValueCons(ds[0], rest, b);
    ValueBelow(rest, b);
    if ds[0] != 0 {
      MulMono(1, ds[0], Pow(b, |rest|));
    } else {
      assert ds[0] * Pow(b, |rest|) == 0;
    }
  }

  lemma MulCancel(x: nat, y: nat, b: nat)
    requires x * b < y * b
    ensures x < y
  {
  }

  /** Quotient and remainder are unique. */
  lemma DivModUnique(q1: nat, r1: nat, q2: nat, r2: nat, b: nat)
    requires r1 < b && r2 < b && q1 * b + r1 == q2 * b + r2
    ensures q1 == q2 && r1 == r2
  {
    assert (q2 + 1) * b == q2 * b + b;
    MulCancel(q1, q2 + 1, b);
    assert (q1 + 1) * b == q1 * b + b;
    MulCancel(q2, q1 + 1, b);
  }

  /** Two numerals of one length and one value are equal. */
  lemma {:induction false} SameLengthSameValue(x: seq<nat>, y: seq<nat>, b: nat)
    requires IsDigits(x, b) && IsDigits(y, b) && |x| == |y|
    requires Value(x, b) == Value(y, b)
    ensures x == y
  {
    if x != [] {
      var n := |x| - 1;
      var vx, vy := Value(x[..n], b), Value(y[..n], b);
      assert vx * b + x[n] == vy * b + y[n];
      DivModUnique(vx, x[n], vy, y[n], b);
      SameLengthSameValue(x[..n], y[..n], b);
      assert x == x[..n] + [x[n]] && y == y[..n] + [y[n]];
    }
  }

  /** Canonical numerals are determined by their value. */
  lemma CanonicalUnique(x: seq<nat>, y: seq<nat>, b: nat)
    requires b >= 2 && IsDigits(x, b) && IsDigits(y, b)
    requires Canonical(x) && Canonical(y) && Value(x, b) == Value(y, b)
    ensures x == y
  {
    if |x| < |y| {
      LeadingDigitBound(y, b);
      ValueBelow(x, b);
      PowMonotone(b, |x|, |y| - 1);
    } else if |y| < |x| {
      LeadingDigitBound(x, b);
      ValueBelow(y, b);
      PowMonotone(b, |y|, |x| - 1);
    }
    SameLengthSameValue(x, y, b);
  }

  // ---------------------------------------------------------------------------
  // BaseStarEncode

  /** The digits `BaseStarEncode` prepends while `num > 0`, most significant
      first; zero is the single digit 0 (`alphabet[0]`). */
  function Digits(n: nat, b: nat): (ds: seq<nat>)
    requires b >= 2
    ensures IsDigits(ds, b) && Canonical(ds) && (n > 0 ==> ds[0] != 0)
    decreases n
  {
    if n < b then [n]
    else
      DivStep(n, b);
      Digits(n / b, b) + [n % b]
  }

  /** One division step of the digit loop. */
  lemma DivStep(n: nat, b: nat)
    requires b >= 2 && n >= b
    ensures 1 <= n / b < n && n % b < b && n == (n / b) * b + n % b
  {
  }

  lemma {:induction false} DigitsValue(n: nat, b: nat)
    requires b >= 2
    ensures Value(Digits(n, b), b) == n
    decreases n
  {
    if n >= b {
      DivStep(n, b);
      DigitsValue(n / b, b);
      assert Digits(n, b)[..|Digits(n, b)| - 1] == Digits(n / b, b);
    }
  }

  /** Digit `d` written as `alphabet[d]`. */
  function Spell(ds: seq<nat>, alphabet: string): (s: string)
    requires IsDigits(ds, |alphabet|)
    ensures |s| == |ds| && forall i :: 0 <= i < |ds| ==> s[i] == alphabet[ds[i]]
  {
    seq(|ds|, i requires 0 <= i < |ds| => alphabet[ds[i]])
  }

  /** `BaseStarEncode(dataBuffer, alphabet)`. */
  function BaseStarEncode(data: seq<Byte>, alphabet: string): (s: string)
    requires |alphabet| >= 2
    ensures s != [] && forall i :: 0 <= i < |s| ==> s[i] in alphabet
  {
    Spell(Digits(Value(data, 256), |alphabet|), alphabet)
  }

  // ---------------------------------------------------------------------------
  // The Lua decoder's big-number loop

  /** `for m = #k, 1, -1 do n = k[m] * #g + l; k[m] = n % 256; l = floor(n / 256) end`:
      the rewritten bytes and the carry left in `l`. */
  function CarryLoop(k: seq<Byte>, base: nat, l: nat): (r: (seq<Byte>, nat))
    ensures |r.0| == |k|
    decreases |k|
  {
    if k == [] then (k, l)
    else
      var n := k[|k| - 1] * base + l;
      var (front, carry) := CarryLoop(k[..|k| - 1], base, n / 256);
      (front + [n % 256], carry)
  }

  /** `while l > 0 do table.insert(k, 1, l % 256); l = floor(l / 256) end`. */
  function PrependLoop(k: seq<Byte>, l: nat): (r: seq<Byte>)
    decreases l
  {
    if l == 0 then k else PrependLoop([l % 256] + k, l / 256)
  }

  /** One alphabet character of the payload: `k := k * #g + l`. */
  function MulAdd(k: seq<Byte>, base: nat, l: nat): seq<Byte>
  {
    var (front, carry) := CarryLoop(k, base, l);
    PrependLoop(front, carry)
  }

  /** Bytes are base-256 digits. */
  lemma BytesAreDigits(k: seq<Byte>)
    ensures IsDigits(k, 256)
  {
  }

  /** The arithmetic of one carry step: `n = last * base + l` splits into the
      byte `n % 256` and the carry `n / 256`. */
  lemma CarryArith(front: nat, carry: nat, p: nat, rest: nat, base: nat, last: nat, l: nat)
    requires front + carry * p == rest * base + (last * base + l) / 256
    ensures front * 256 + (last * base + l) % 256 + carry * (256 * p) == (rest * 256 + last) * base + l
  {
    var n := last * base + l;
    assert n == (n / 256) * 256 + n % 256;
    assert carry * (256 * p) == (carry * p) * 256;
    assert front * 256 + (carry * p) * 256 == (front + carry * p) * 256;
    assert (rest * base + n / 256) * 256 == rest * base * 256 + (n / 256) * 256;
    assert (rest * 256 + last) * base == rest * base * 256 + last * base;
  }

  lemma {:induction false} CarryLoopValue(k: seq<Byte>, base: nat, l: nat)
    ensures Value(CarryLoop(k, base, l).0, 256) + CarryLoop(k, base, l).1 * Pow(256, |k|)
            == Value(k, 256) * base + l
    decreases |k|
  {
    if k != [] {
      var last := k[|k| - 1];
      var n := last * base + l;
      var rest := k[..|k| - 1];
      var (front, carry) := CarryLoop(rest, base, n / 256);
      CarryLoopValue(rest, base, n / 256);
      assert (front + [n % 256])[..|k| - 1] == front;
      assert Value(front + [n % 256], 256) == Value(front, 256) * 256 + n % 256;
      CarryArith(Value(front, 256), carry, Pow(256, |rest|), Value(rest, 256), base, last, l);
    }
  }

  lemma PrependArith(l: nat, p: nat)
    ensures (l / 256) * (256 * p) + (l % 256) * p == l * p
  {
    assert l == (l / 256) * 256 + l % 256;
    assert (l / 256) * (256 * p) == ((l / 256) * 256) * p;
    assert ((l / 256) * 256) * p + (l % 256) * p == ((l / 256) * 256 + l % 256) * p;
  }

  lemma {:induction false} PrependLoopValue(k: seq<Byte>, l: nat)
    ensures Value(PrependLoop(k, l), 256) == l * Pow(256, |k|) + Value(k, 256)
    ensures l > 0 ==> |PrependLoop(k, l)| > |k| && PrependLoop(k, l)[0] != 0
    ensures l == 0 ==> PrependLoop(k, l) == k
    decreases l
  {
    if l > 0 {
      var k' := [(l % 256) as Byte] + k;
      PrependLoopValue(k', l / 256);
      ValueCons(l % 256, k, 256);
      assert Pow(256, |k'|) == 256 * Pow(256, |k|);
      PrependArith(l, Pow(256, |k|));
    }
  }

  /** One digit step multiplies by the base and adds the digit, and keeps the
      numeral canonical. */
  lemma MulAddValue(k: seq<Byte>, base: nat, l: nat)
    requires base >= 1 && Canonical(k)
    ensures Value(MulAdd(k, base, l), 256) == Value(k, 256) * base + l
    ensures Canonical(MulAdd(k, base, l))
  {
    var r := CarryLoop(k, base, l);
    CarryLoopValue(k, base, l);
    PrependLoopValue(r.0, r.1);
    if r.1 == 0 && |k| >= 2 {
      CarryKeepsLead(k, base, l);
    }
  }

  /** Without a final carry, a canonical numeral stays canonical. */
  lemma CarryKeepsLead(k: seq<Byte>, base: nat, l: nat)
    requires base >= 1 && Canonical(k) && |k| >= 2
    requires Value(CarryLoop(k, base, l).0, 256) == Value(k, 256) * base + l
    ensures CarryLoop(k, base, l).0[0] != 0
  {
    var front := CarryLoop(k, base, l).0;
    BytesAreDigits(k);
    BytesAreDigits(front);
    MulGrows(Value(k, 256), base);
    LeadPreserved(k, front, 256);
  }

  lemma MulGrows(v: nat, base: nat)
    requires base >= 1
    ensures v * base >= v
  {
    assert v * base == v + v * (base - 1);
  }

  /** A numeral of the same length and no smaller value keeps a non-zero lead. */
  lemma LeadPreserved(x: seq<nat>, y: seq<nat>, b: nat)
    requires IsDigits(x, b) && IsDigits(y, b) && |x| == |y| >= 2
    requires x[0] != 0 && Value(y, b) >= Value(x, b)
    ensures y[0] != 0
  {
    LeadingDigitBound(x, b);
    LeadingDigitBound(y, b);
  }

  /** The decoder's loop over the digits of `h`, from `k = {0}`. */
  function DecodeDigits(ds: seq<nat>, base: nat): (k: seq<Byte>)
  {
    if ds == [] then [0] else MulAdd(DecodeDigits(ds[..|ds| - 1], base), base, ds[|ds| - 1])
  }

  lemma {:induction false} DecodeDigitsValue(ds: seq<nat>, base: nat)
    requires base >= 1
    ensures Value(DecodeDigits(ds, base), 256) == Value(ds, base)
    ensures Canonical(DecodeDigits(ds, base))
  {
    if ds != [] {
      DecodeDigitsValue(ds[..|ds| - 1], base);
      MulAddValue(DecodeDigits(ds[..|ds| - 1], base), base, ds[|ds| - 1]);
    }
  }

  /** Decoding the digits of a buffer gives back the buffer's canonical form:
      the same number, with leading zero bytes dropped. */
  lemma DecodeEncodedDigits(data: seq<Byte>, base: nat)
    requires base >= 2
    ensures Canonical(DecodeDigits(Digits(Value(data, 256), base), base))
    ensures Value(DecodeDigits(Digits(Value(data, 256), base), base), 256) == Value(data, 256)
  {
    DigitsValue(Value(data, 256), base);
    DecodeDigitsValue(Digits(Value(data, 256), base), base);
  }

  /** The base-N text round trip restores a buffer exactly when the buffer has
      no leading zero byte (or is the single byte 0). */
  lemma DigitsRoundTripIff(data: seq<Byte>, base: nat)
    requires base >= 2
    ensures DecodeDigits(Digits(Value(data, 256), base), base) == data <==> Canonical(data)
  {
    DecodeEncodedDigits(data, base);
    if Canonical(data) {
      BytesAreDigits(data);
      BytesAreDigits(DecodeDigits(Digits(Value(data, 256), base), base));
      CanonicalUnique(DecodeDigits(Digits(Value(data, 256), base), base), data, 256);
    }
  }

  // ---------------------------------------------------------------------------
  // The payload

  /** `PossibleChars`, `"!#$%&()*+,-.:;<=>?@[]^_{}~0123456789ABCDEFGHJKLMNOPQRSTUVWXYZ"`,
      written as its runs of consecutive characters: no letter `I`, no
      lower-case letter, no quote, no backslash. */
  const Pool: string :=
    Utils.CharRange('!', 1) + Utils.CharRange('#', 4) + Utils.CharRange('(', 7) + Utils.CharRange(':', 7)
    + Utils.CharRange('[', 1) + Utils.CharRange(']', 3) + Utils.CharRange('{', 1) + Utils.CharRange('}', 2)
    + Utils.CharRange('0', 10) + Utils.CharRange('A', 8) + Utils.CharRange('J', 17)

  predicate IsLower(c: char) { 'a' <= c <= 'z' }

  /** The character ranges the pool is made of. */
  predicate IsPoolChar(c: char)
  {
    c == '!' || '#' <= c <= '&' || '(' <= c <= '.' || ':' <= c <= '@' || c == '['
    || ']' <= c <= '_' || c == '{' || '}' <= c <= '~' || '0' <= c <= '9' || 'A' <= c <= 'H' || 'J' <= c <= 'Z'
  }

  /** Every character of `s` is a pool character. */
  predicate PoolText(s: string)
  {
    forall i :: 0 <= i < |s| ==> IsPoolChar(s[i])
  }

  /** The position of a pool character in the pool. */
  function Rank(c: char): int
  {
    if c == '!' then 0
    else if '#' <= c <= '&' then c as int - '#' as int + 1
    else if '(' <= c <= '.' then c as int - '(' as int + 5
    else if ':' <= c <= '@' then c as int - ':' as int + 12
    else if c == '[' then 19
    else if ']' <= c <= '_' then c as int - ']' as int + 20
    else if c == '{' then 23
    else if '}' <= c <= '~' then c as int - '}' as int + 24
    else if '0' <= c <= '9' then c as int - '0' as int + 26
    else if 'A' <= c <= 'H' then c as int - 'A' as int + 36
    else c as int - 'J' as int + 44
  }

  /** `s` is the stretch of the pool starting at position `o`. */
  predicate Ranked(s: string, o: int)
  {
    forall i :: 0 <= i < |s| ==> IsPoolChar(s[i]) && Rank(s[i]) == o + i
  }

  lemma RankedConcat(a: string, b: string, o: int)
    requires Ranked(a, o) && Ranked(b, o + |a|)
    ensures Ranked(a + b, o)
  {
  }

  lemma RankedRun0() ensures Ranked(Utils.CharRange('!', 1), 0) {}
  lemma RankedRun1() ensures Ranked(Utils.CharRange('#', 4), 1) {}
  lemma RankedRun2() ensures Ranked(Utils.CharRange('(', 7), 5) {}
  lemma RankedRun3() ensures Ranked(Utils.CharRange(':', 7), 12) {}
  lemma RankedRun4() ensures Ranked(Utils.CharRange('[', 1), 19) {}
  lemma RankedRun5() ensures Ranked(Utils.CharRange(']', 3), 20) {}
  lemma RankedRun6() ensures Ranked(Utils.CharRange('{', 1), 23) {}
  lemma RankedRun7() ensures Ranked(Utils.CharRange('}', 2), 24) {}
  lemma RankedRun8() ensures Ranked(Utils.CharRange('0', 10), 26) {}
  lemma RankedRun9() ensures Ranked(Utils.CharRange('A', 8), 36) {}
  lemma RankedRun10() ensures Ranked(Utils.CharRange('J', 17), 44) {}

  lemma RankedPool()
    ensures |Pool| == 61 && Ranked(Pool, 0)
  {
    RankedRun0();
    RankedRun1();
    RankedConcat(Utils.CharRange('!', 1), Utils.CharRange('#', 4), 0);
    RankedRun2();
    RankedConcat(Utils.CharRange('!', 1) + Utils.CharRange('#', 4), Utils.CharRange('(', 7), 0);
    RankedRun3();
    RankedConcat(Utils.CharRange('!', 1) + Utils.CharRange('#', 4) + Utils.CharRange('(', 7), Utils.CharRange(':', 7), 0);
    RankedRun4();
    RankedConcat(Utils.CharRange('!', 1) + Utils.CharRange('#', 4) + Utils.CharRange('(', 7) + Utils.CharRange(':', 7), Utils.CharRange('[', 1), 0);
    RankedRun5();
    RankedConcat(Utils.CharRange('!', 1) + Utils.CharRange('#', 4) + Utils.CharRange('(', 7) + Utils.CharRange(':', 7) + Utils.CharRange('[', 1), Utils.CharRange(']', 3), 0);
    RankedRun6();
    RankedConcat(Utils.CharRange('!', 1) + Utils.CharRange('#', 4) + Utils.CharRange('(', 7) + Utils.CharRange(':', 7) + Utils.CharRange('[', 1) + Utils.CharRange(']', 3), Utils.CharRange('{', 1), 0);
    RankedRun7();
    RankedConcat(Utils.CharRange('!', 1) + Utils.CharRange('#', 4) + Utils.CharRange('(', 7) + Utils.CharRange(':', 7) + Utils.CharRange('[', 1) + Utils.CharRange(']', 3) + Utils.CharRange('{', 1), Utils.CharRange('}', 2), 0);
    RankedRun8();
    RankedConcat(Utils.CharRange('!', 1) + Utils.CharRange('#', 4) + Utils.CharRange('(', 7) + Utils.CharRange(':', 7) + Utils.CharRange('[', 1) + Utils.CharRange(']', 3) + Utils.CharRange('{', 1) + Utils.CharRange('}', 2), Utils.CharRange('0', 10), 0);
    RankedRun9();
    RankedConcat(Utils.CharRange('!', 1) + Utils.CharRange('#', 4) + Utils.CharRange('(', 7) + Utils.CharRange(':', 7) + Utils.CharRange('[', 1) + Utils.CharRange(']', 3) + Utils.CharRange('{', 1) + Utils.CharRange('}', 2) + Utils.CharRange('0', 10), Utils.CharRange('A', 8), 0);
    RankedRun10();
    RankedConcat(Utils.CharRange('!', 1) + Utils.CharRange('#', 4) + Utils.CharRange('(', 7) + Utils.CharRange(':', 7) + Utils.CharRange('[', 1) + Utils.CharRange(']', 3) + Utils.CharRange('{', 1) + Utils.CharRange('}', 2) + Utils.CharRange('0', 10) + Utils.CharRange('A', 8), Utils.CharRange('J', 17), 0);
  }

  lemma PoolShape()
    ensures |Pool| == 61 && Utils.Distinct(Pool)
    ensures PoolText(Pool)
  {
    RankedPool();
  }

  /** Pool characters need no escaping in a Lua string and are plain ASCII. */
  lemma PoolCharPlain(c: char)
    requires IsPoolChar(c)
    ensures !IsLower(c) && c != '"' && c != '\\' && c != '\n' && c as int < 128
  {
  }

  /** `Delimiter + Alphabet.join("") + Delimiter + Encoded`. */
  function Payload(delimiter: string, alphabet: string, encoded: string): string
  {
    delimiter + alphabet + delimiter + encoded
  }

  /** A delimiter is four pool characters and one lower-case letter. */
  predicate IsDelimiter(d: string)
  {
    |d| == 5 && (forall i :: 0 <= i < 4 ==> IsPoolChar(d[i])) && IsLower(d[4])
  }

  /** `d` occurs in `b` starting at position `j`. */
  predicate OccursAt(b: string, d: string, j: nat)
  {
    j + |d| <= |b| && b[j..j + |d|] == d
  }

  /** `b:find(d, from, true)`: the first plain occurrence of `d` at or after
      0-based position `from`. */
  function Find(b: string, d: string, from: nat): (r: Option<nat>)
    ensures r.Some? ==> from <= r.value && OccursAt(b, d, r.value)
    ensures r.Some? ==> forall j :: from <= j < r.value ==> !OccursAt(b, d, j)
    ensures r.None? ==> forall j :: from <= j ==> !OccursAt(b, d, j)
    decreases |b| - from
  {
    if from + |d| > |b| then None
    else if b[from..from + |d|] == d then Some(from)
    else Find(b, d, from + 1)
  }

  /** The alphabet position of each character of `h` (`i[h:sub(j, j)]`);
      characters outside the alphabet are skipped by `if l then`. */
  function CharDigits(h: string, alphabet: string): (ds: seq<nat>)
    ensures IsDigits(ds, |alphabet|)
  {
    if h == [] then []
    else
      var front := CharDigits(h[..|h| - 1], alphabet);
      var c := h[|h| - 1];
      if c in alphabet then front + [Utils.IndexOf(alphabet, c)] else front
  }

  /** The emitted decoder up to its XOR loop: split the payload at the two
      delimiters and rebuild the bytes from the digits in the embedded alphabet.
      A payload without a second delimiter decodes to nothing (`return ""`). */
  function DecodePayload(b: string): (r: seq<Byte>)
    ensures r != [] <==> |b| >= 5 && Find(b, b[..5], 5).Some?
    ensures r != [] ==> Canonical(r)
  {
    if |b| < 5 then []
    else
      match Find(b, b[..5], 5)
      case None => []
      case Some(e) =>
        var alphabet := b[5..e];
        var ds := CharDigits(b[e + 5..], alphabet);
        DecodedDigitsCanonical(ds, |alphabet|);
        DecodeDigits(ds, |alphabet|)
  }

  /** Whatever the digits, the decoder rebuilds at least one byte and no
      leading zero; with an empty alphabet there are no digits at all. */
  lemma DecodedDigitsCanonical(ds: seq<nat>, base: nat)
    requires IsDigits(ds, base)
    ensures Canonical(DecodeDigits(ds, base))
  {
    if base != 0 {
      DecodeDigitsValue(ds, base);
    }
  }

  /** The emitted decoder, `Decryptor(b, c)`; the pass always passes a key of
      5 to 40 characters. */
  function Decrypt(b: string, key: seq<Byte>): (r: seq<Byte>)
    ensures |r| == |DecodePayload(b)|
    ensures XorWithKey(r, key) == DecodePayload(b)
  {
    XorWithKeyTwice(DecodePayload(b), key);
    XorWithKey(DecodePayload(b), key)
  }

  /** The second delimiter is found where it was written: the lower-case letter
      closing a delimiter occurs nowhere in the alphabet. */
  lemma FindSecondDelimiter(d: string, alphabet: string, encoded: string)
    requires IsDelimiter(d) && PoolText(alphabet)
    ensures Payload(d, alphabet, encoded)[..5] == d
    ensures Find(Payload(d, alphabet, encoded), d, 5) == Some(5 + |alphabet|)
  {
    var b := Payload(d, alphabet, encoded);
    var e := 5 + |alphabet|;
    assert b[e..e + 5] == d;
    assert OccursAt(b, d, e);
    forall j | 5 <= j < e
      ensures !OccursAt(b, d, j)
    {
      if j + 4 < e {
        assert b[j + 4] == alphabet[j + 4 - 5];
      } else {
        assert b[j + 4] == d[j + 4 - e];
      }
      assert b[j..j + 5][4] == b[j + 4];
    }
  }

  lemma {:induction false} CharDigitsSpell(ds: seq<nat>, alphabet: string)
    requires IsDigits(ds, |alphabet|) && Utils.Distinct(alphabet)
    ensures CharDigits(Spell(ds, alphabet), alphabet) == ds
  {
    if ds != [] {
      var n := |ds| - 1;
      assert Spell(ds, alphabet)[..n] == Spell(ds[..n], alphabet);
      CharDigitsSpell(ds[..n], alphabet);
      var i := Utils.IndexOf(alphabet, alphabet[ds[n]]);
      assert alphabet[i] == alphabet[ds[n]];
      assert ds == ds[..n] + [ds[n]];
    }
  }

  /** The three parts of a payload, read back by position. */
  lemma PayloadParts(d: string, alphabet: string, encoded: string)
    requires |d| == 5
    ensures var b := Payload(d, alphabet, encoded);
      b[..5] == d && b[5..5 + |alphabet|] == alphabet && b[5 + |alphabet| + 5..] == encoded
  {
    var b := Payload(d, alphabet, encoded);
    assert b == (d + alphabet) + (d + encoded);
    assert (d + alphabet)[5..] == alphabet;
  }

  /** A payload whose second delimiter sits right after the alphabet decodes
      the digits of its tail. */
  lemma DecodePayloadParts(d: string, alphabet: string, encoded: string)
    requires IsDelimiter(d) && PoolText(alphabet)
    ensures DecodePayload(Payload(d, alphabet, encoded))
            == DecodeDigits(CharDigits(encoded, alphabet), |alphabet|)
  {
    PayloadParts(d, alphabet, encoded);
    FindSecondDelimiter(d, alphabet, encoded);
  }

  /** What the decoder rebuilds from a payload the pass wrote: the canonical
      form of the encoded buffer. */
  lemma DecodePayloadOf(d: string, alphabet: string, data: seq<Byte>)
    requires IsDelimiter(d) && PoolText(alphabet)
    requires |alphabet| >= 2 && Utils.Distinct(alphabet)
    ensures DecodePayload(Payload(d, alphabet, BaseStarEncode(data, alphabet)))
            == DecodeDigits(Digits(Value(data, 256), |alphabet|), |alphabet|)
  {
    DecodePayloadParts(d, alphabet, BaseStarEncode(data, alphabet));
    CharDigitsSpell(Digits(Value(data, 256), |alphabet|), alphabet);
  }

  /** A buffer with a leading byte other than zero survives the payload. */
  lemma DecodePayloadCanonical(d: string, alphabet: string, data: seq<Byte>)
    requires IsDelimiter(d) && PoolText(alphabet)
    requires |alphabet| >= 2 && Utils.Distinct(alphabet)
    ensures DecodePayload(Payload(d, alphabet, BaseStarEncode(data, alphabet))) == data <==> Canonical(data)
  {
    DecodePayloadOf(d, alphabet, data);
    DigitsRoundTripIff(data, |alphabet|);
  }

  // ---------------------------------------------------------------------------
  // Encryption of one literal

  /** The draws for one literal: three random sorts of the shared pool (key,
      alphabet, delimiter), the key length, the alphabet size and the
      delimiter's letter. */
  datatype LiteralDraw = LiteralDraw(
    keyOrder: nat -> nat, keyLength: nat,
    alphabetOrder: nat -> nat, size: nat,
    delimiterOrder: nat -> nat, letter: nat)

  /** The pool after one in-place random sort; a sort only moves characters. */
  function Shuffle(pool: string, order: nat -> nat): (r: string)
    requires |pool| == 61
    ensures multiset(r) == multiset(pool) && |r| == 61
  {
    Utils.ShuffleDownMultiset(pool, |pool| - 1, order);
    Utils.ShuffleDown(pool, |pool| - 1, order)
  }

  lemma {:induction false} CountAtMostOne(q: string, x: char)
    requires Utils.Distinct(q)
    ensures multiset(q)[x] <= 1
  {
    if q != [] {
      assert q == [q[0]] + q[1..];
      CountAtMostOne(q[1..], x);
    }
  }

  lemma TwoCopies(p: string, i: nat, j: nat)
    requires i < j < |p| && p[i] == p[j]
    ensures multiset(p)[p[i]] >= 2
  {
    assert p == p[..j] + p[j..];
    assert p[i] in p[..j] && p[j..][0] == p[j];
  }

  /** A reordering of the pool repeats no character. */
  lemma PoolOrderNoRepeat(p: string)
    requires multiset(p) == multiset(Pool)
    ensures Utils.Distinct(p)
  {
    PoolShape();
    forall i, j | 0 <= i < j < |p|
      ensures p[i] != p[j]
    {
      if p[i] == p[j] {
        TwoCopies(p, i, j);
        CountAtMostOne(Pool, p[i]);
      }
    }
  }

  /** Only pool characters are in the pool. */
  lemma PoolMember(c: char)
    requires c in multiset(Pool)
    ensures IsPoolChar(c)
  {
    PoolShape();
    assert c in Pool;
    var k := Utils.IndexOf(Pool, c);
  }

  /** A reordering of the pool holds only pool characters. */
  lemma PoolOrderText(p: string)
    requires multiset(p) == multiset(Pool)
    ensures PoolText(p)
  {
    forall i | 0 <= i < |p|
      ensures IsPoolChar(p[i])
    {
      assert p[i] in multiset(p);
      PoolMember(p[i]);
    }
  }

  /** A reordering of the pool, and every prefix of one, repeats no character. */
  lemma PoolOrderDistinct(p: string, n: nat)
    requires multiset(p) == multiset(Pool) && n <= |p|
    ensures Utils.Distinct(p[..n]) && PoolText(p[..n])
  {
    PoolOrderNoRepeat(p);
    PoolOrderText(p);
    PrefixKeeps(p, n);
  }

  /** Prefixes keep both properties. */
  lemma PrefixKeeps(p: string, n: nat)
    requires Utils.Distinct(p) && PoolText(p) && n <= |p|
    ensures Utils.Distinct(p[..n]) && PoolText(p[..n])
  {
  }

  /** The ASCII codes of a key (`Buffer.from(Key, 'binary')`, `c:byte(i)`). */
  function KeyBytes(key: string): (r: seq<Byte>)
    requires PoolText(key)
    ensures |r| == |key|
  {
    seq(|key|, i requires 0 <= i < |key| => key[i] as int as Byte)
  }

  /** What the pass writes for one literal: the key, the alphabet, the
      delimiter and the payload of the call text, plus the pool order left behind. */
  datatype Encrypted = Encrypted(key: string, alphabet: string, delimiter: string,
                                 payload: string, pool: string)

  /** A shuffle of an ordering of the pool is an ordering of the pool. */
  function ShufflePool(pool: string, order: nat -> nat): (r: string)
    requires |pool| == 61 && multiset(pool) == multiset(Pool)
    ensures |r| == 61 && multiset(r) == multiset(Pool)
  {
    Shuffle(pool, order)
  }

  /** `Key = Shuffled.slice(0, Random(5, 40))`. */
  function PickKey(pool: string, u: nat): (key: string)
    requires |pool| == 61 && multiset(pool) == multiset(Pool)
    ensures 5 <= |key| <= 40 && PoolText(key) && key == pool[..|key|]
  {
    var n := Utils.Random(5, 40, u);
    PoolOrderDistinct(pool, n);
    pool[..n]
  }

  /** `Alphabet = Shuffled.slice(0, Size)` with `Size = floor(random * 46) + 16`. */
  function PickAlphabet(pool: string, u: nat): (alphabet: string)
    requires |pool| == 61 && multiset(pool) == multiset(Pool)
    ensures 16 <= |alphabet| <= 61 && Utils.Distinct(alphabet) && PoolText(alphabet)
    ensures alphabet == pool[..|alphabet|]
  {
    var n := Utils.Below(46, u) + 16;
    PoolOrderDistinct(pool, n);
    pool[..n]
  }

  /** Four pool characters and one lower-case letter. */
  function PickDelimiter(pool: string, u: nat): (d: string)
    requires |pool| == 61 && multiset(pool) == multiset(Pool)
    ensures IsDelimiter(d) && d[..4] == pool[..4]
  {
    PoolOrderDistinct(pool, 4);
    var c := Utils.Lower[Utils.Random(0, 25, u)];
    DelimiterOf(pool[..4], c);
    pool[..4] + [c]
  }

  lemma DelimiterOf(p: string, c: char)
    requires |p| == 4 && PoolText(p) && IsLower(c)
    ensures IsDelimiter(p + [c]) && (p + [c])[..4] == p
  {
    var d := p + [c];
    assert forall i :: 0 <= i < 4 ==> d[i] == p[i];
  }

  /** The bytes the payload encodes: the XOR of the literal, behind a leading
      `1` byte when `sentinel` is set. */
  function Framed(input: seq<Byte>, key: seq<Byte>, sentinel: bool): seq<Byte>
  {
    if sentinel then [1] + XorWithKey(input, key) else XorWithKey(input, key)
  }

  /** Steps A and B of the main loop. `sentinel` selects the corrected encoding,
      which writes one extra leading byte 1 before the ciphertext. */
  function EncryptLiteral(input: seq<Byte>, pool: string, draw: LiteralDraw, sentinel: bool): (r: Encrypted)
    requires |pool| == 61 && multiset(pool) == multiset(Pool)
    ensures multiset(r.pool) == multiset(Pool) && |r.pool| == 61
    ensures 5 <= |r.key| <= 40 && PoolText(r.key)
    ensures 16 <= |r.alphabet| <= 61 && Utils.Distinct(r.alphabet) && PoolText(r.alphabet)
    ensures IsDelimiter(r.delimiter)
    ensures r.payload == Payload(r.delimiter, r.alphabet,
      BaseStarEncode(Framed(input, KeyBytes(r.key), sentinel), r.alphabet))
  {
    var pool1 := ShufflePool(pool, draw.keyOrder);
    var key := PickKey(pool1, draw.keyLength);
    var pool2 := ShufflePool(pool1, draw.alphabetOrder);
    var alphabet := PickAlphabet(pool2, draw.size);
    var pool3 := ShufflePool(pool2, draw.delimiterOrder);
    var delimiter := PickDelimiter(pool3, draw.letter);
    var encoded := BaseStarEncode(Framed(input, KeyBytes(key), sentinel), alphabet);
    Encrypted(key, alphabet, delimiter, Payload(delimiter, alphabet, encoded), pool3)
  }

  /** `a XOR k` is zero exactly when `a == k`. */
  lemma XorZero(a: Byte, k: Byte)
    ensures Xor(a, k) == 0 <==> a == k
  {
    assert Pow(2, 8) == 256;
    if Xor(a, k) == 0 {
      BitXorTwice(a, k, 8);
      BitXorZero(k, 8);
    }
    if a == k {
      BitXorSelf(k, 8);
    }
  }

  lemma {:induction false} BitXorSelf(k: nat, n: nat)
    ensures BitXor(k, k, n) == 0
  {
    if n > 0 {
      BitXorSelf(k / 2, n - 1);
    }
  }

  lemma {:induction false} BitXorZero(k: nat, n: nat)
    requires k < Pow(2, n)
    ensures BitXor(0, k, n) == k
  {
    if n > 0 {
      HalfBelow(k, n);
      BitXorZero(k / 2, n - 1);
    }
  }

  /** The ciphertext starts with a zero byte exactly when the plaintext starts
      with the first key byte. */
  lemma LeadingCipherByte(input: seq<Byte>, key: seq<Byte>)
    requires |input| >= 1 && |key| >= 1
    ensures Canonical(XorWithKey(input, key)) <==> (|input| == 1 || input[0] != key[0])
  {
    assert XorWithKey(input, key)[0] == Xor(input[0], key[0 % |key|]);
    XorZero(input[0], key[0]);
  }

  /** The decoder gives back `input` exactly when it rebuilds the ciphertext. */
  lemma DecryptIffCipher(k: seq<Byte>, input: seq<Byte>, key: seq<Byte>)
    ensures XorWithKey(k, key) == input <==> k == XorWithKey(input, key)
  {
    XorWithKeyTwice(input, key);
    XorWithKeyTwice(k, key);
  }

  /** As written: the emitted decoder restores a literal exactly when it is one
      byte long or its first byte differs from the first key character (a
      zero first byte of the ciphertext is lost in the base-N number). */
  lemma EncryptLiteralRoundTripIff(input: seq<Byte>, pool: string, draw: LiteralDraw)
    requires |pool| == 61 && multiset(pool) == multiset(Pool) && |input| >= 1
    ensures var r := EncryptLiteral(input, pool, draw, false);
      Decrypt(r.payload, KeyBytes(r.key)) == input
      <==> (|input| == 1 || input[0] != KeyBytes(r.key)[0])
  {
    var r := EncryptLiteral(input, pool, draw, false);
    var key := KeyBytes(r.key);
    var cipher := XorWithKey(input, key);
    assert r.payload == Payload(r.delimiter, r.alphabet, BaseStarEncode(cipher, r.alphabet));
    PayloadRoundTripIff(input, key, r.delimiter, r.alphabet);
  }

  /** The round trip through one payload, for any key, delimiter and alphabet
      the pass can draw. */
  lemma PayloadRoundTripIff(input: seq<Byte>, key: seq<Byte>, d: string, alphabet: string)
    requires IsDelimiter(d) && PoolText(alphabet) && |alphabet| >= 2 && Utils.Distinct(alphabet)
    requires |input| >= 1 && |key| >= 1
    ensures Decrypt(Payload(d, alphabet, BaseStarEncode(XorWithKey(input, key), alphabet)), key) == input
            <==> (|input| == 1 || input[0] != key[0])
  {
    var cipher := XorWithKey(input, key);
    DecodePayloadCanonical(d, alphabet, cipher);
    DecryptIffCipher(DecodePayload(Payload(d, alphabet, BaseStarEncode(cipher, alphabet))), input, key);
    LeadingCipherByte(input, key);
  }

  /** The decoder with the sentinel byte dropped before the XOR loop. */
  function DecryptSentinel(b: string, key: seq<Byte>): seq<Byte>
  {
    var k := DecodePayload(b);
    XorWithKey(if k == [] then [] else k[1..], key)
  }

  /** Corrected: with the sentinel byte every literal decrypts to itself. */
  lemma EncryptLiteralSentinelRoundTrip(input: seq<Byte>, pool: string, draw: LiteralDraw)
    requires |pool| == 61 && multiset(pool) == multiset(Pool)
    ensures var r := EncryptLiteral(input, pool, draw, true);
      DecryptSentinel(r.payload, KeyBytes(r.key)) == input
  {
    var r := EncryptLiteral(input, pool, draw, true);
    var key := KeyBytes(r.key);
    var cipher := XorWithKey(input, key);
    DecodePayloadCanonical(r.delimiter, r.alphabet, [1] + cipher);
    assert ([1] + cipher)[1..] == cipher;
    XorWithKeyTwice(input, key);
  }

  /** The counterexample: `"AB"` under the key `ACDEF`, five distinct pool
      characters as `PickKey` draws them, comes back as `"@"`. */
  lemma LeadingZeroLost()
    ensures PoolText("ACDEF") && Utils.Distinct("ACDEF")
    ensures XorWithKey([65, 66], KeyBytes("ACDEF")) == [0, 1]
    ensures DecodeDigits(Digits(Value([0, 1], 256), 16), 16) == [1]
    ensures XorWithKey([1], KeyBytes("ACDEF")) == [64]
  {
    KeyAcdef();
    XorAcdef();
    OneSurvives();
  }

  /** The three byte XORs of the counterexample. */
  lemma XorAcdef()
    ensures XorWithKey([65, 66], [65, 67, 68, 69, 70]) == [0, 1]
    ensures XorWithKey([1], [65, 67, 68, 69, 70]) == [64]
  {
    assert Xor(65, 65) == 0 by { XorByte(65, 65); }
    assert Xor(66, 67) == 1 by { XorByte(66, 67); }
    assert Xor(1, 65) == 64 by { XorByte(1, 65); }
  }

  lemma XorByte(a: Byte, b: Byte)
    ensures Xor(a, b) == BitXor(a, b, 8)
  {
    assert Pow(2, 8) == 256;
  }

  lemma KeyAcdef()
    ensures PoolText("ACDEF") && Utils.Distinct("ACDEF")
    ensures KeyBytes("ACDEF") == [65, 67, 68, 69, 70]
  {
  }

  /** The number 1 read back from its base-16 digits: one byte, no zero. */
  lemma OneSurvives()
    ensures DecodeDigits(Digits(Value([0, 1], 256), 16), 16) == [1]
  {
    var ds: seq<nat> := [0, 1];
    assert ds[..1] == [0] && Value(ds, 256) == 1;
    assert Digits(1, 16) == [1];
    var zero: seq<Byte> := [0];
    assert zero[..0] == [];
    assert CarryLoop(zero, 16, 1) == ([] + [1], 0);
    var one: seq<nat> := [1];
    assert one[..0] == [];
    assert DecodeDigits(one, 16) == MulAdd(zero, 16, 1);
  }
}
