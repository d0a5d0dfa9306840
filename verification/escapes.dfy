/** How `EncryptStrings` turns a string literal's `raw` text into the bytes it
    encrypts: `unescapeLuaString` for quoted literals, the two bracket regexes
    for long strings, and the UTF-8 encoding of every other character. */
module Escapes {
  import opened Wrappers
  import Text
  import Cipher

  type Byte = Cipher.Byte

  // ---------------------------------------------------------------------------
  // UTF-8 (section 3 of RFC 3629)

  /** `Buffer.from(c, 'utf8')` for one Unicode scalar value. */
  function Utf8(c: char): (bs: seq<Byte>)
    ensures 1 <= |bs| <= 4
    ensures |bs| == 1 <==> c as int < 0x80
    ensures |bs| == 2 <==> 0x80 <= c as int < 0x800
    ensures |bs| == 3 <==> 0x800 <= c as int < 0x10000
    ensures Width(bs[0]) == |bs|
    ensures forall i :: 1 <= i < |bs| ==> IsContinuation(bs[i])
  {
    var n := c as int;
    if n < 0x80 then [n]
    else if n < 0x800 then [0xC0 + n / 64, 0x80 + n % 64]
    else if n < 0x10000 then [0xE0 + n / 4096, 0x80 + (n / 64) % 64, 0x80 + n % 64]
    else [0xF0 + n / 262144, 0x80 + (n / 4096) % 64, 0x80 + (n / 64) % 64, 0x80 + n % 64]
  }

  predicate IsContinuation(b: Byte) { 0x80 <= b < 0xC0 }

  /** The sequence length a lead byte announces; 0 for a byte that cannot lead. */
  function Width(lead: Byte): nat
  {
    if lead < 0x80 then 1
    else if lead < 0xC0 then 0
    else if lead < 0xE0 then 2
    else if lead < 0xF0 then 3
    else if lead < 0xF8 then 4
    else 0
  }

  /** The code point of one well-formed sequence: the payload bits of the lead
      byte followed by six bits of every continuation byte. */
  function CodePoint(bs: seq<Byte>): int
    requires 1 <= |bs| <= 4
  {
    var b0 := bs[0] as int;
    var lead := if |bs| == 1 then b0 else if |bs| == 2 then b0 - 0xC0
                else if |bs| == 3 then b0 - 0xE0 else b0 - 0xF0;
    Tail(lead, bs[1..])
  }

  function Tail(acc: int, cs: seq<Byte>): int
    decreases |cs|
  {
    if cs == [] then acc else Tail(acc * 64 + (cs[0] as int - 0x80), cs[1..])
  }

  /** Decodes a byte stream sequence by sequence; `None` for a malformed one. */
  function DecodeUtf8(bs: seq<Byte>): Option<seq<int>>
    decreases |bs|
  {
    if bs == [] then Some([])
    else
      var w := Width(bs[0]);
      if w == 0 || w > |bs| then None
      else match DecodeUtf8(bs[w..])
        case None => None
        case Some(rest) => Some([CodePoint(bs[..w])] + rest)
  }

  /** `Buffer.from(s, 'utf8')`. */
  function Utf8String(s: string): (bs: seq<Byte>)
    ensures s == [] ==> bs == []
  {
    if s == [] then [] else Utf8(s[0]) + Utf8String(s[1..])
  }

  function CodePoints(s: string): (r: seq<int>)
    ensures |r| == |s| && forall i :: 0 <= i < |s| ==> r[i] == s[i] as int
  {
    seq(|s|, i requires 0 <= i < |s| => s[i] as int)
  }

  lemma TwoByteDigits(n: int)
    requires 0x80 <= n < 0x800
    ensures (n / 64) * 64 + n % 64 == n
  {
  }

  lemma ThreeByteDigits(n: int)
    requires 0x800 <= n < 0x10000
    ensures ((n / 4096) * 64 + (n / 64) % 64) * 64 + n % 64 == n
  {
    var q := n / 64;
    assert q / 64 == n / 4096;
    assert q == (q / 64) * 64 + q % 64;
  }

  lemma FourByteDigits(n: int)
    requires 0x10000 <= n < 0x110000
    ensures (((n / 262144) * 64 + (n / 4096) % 64) * 64 + (n / 64) % 64) * 64 + n % 64 == n
  {
    var q := n / 64;
    var q2 := q / 64;
    assert q2 == n / 4096;
    assert q2 / 64 == n / 262144;
    assert q2 == (q2 / 64) * 64 + q2 % 64;
    assert q == q2 * 64 + q % 64;
  }

  /** Each encoded character decodes to its own code point. */
  lemma Utf8CodePoint(c: char)
    ensures CodePoint(Utf8(c)) == c as int
  {
    var n := c as int;
    var bs := Utf8(c);
    if n < 0x80 {
      assert bs == [n];
      OneByte(n);
    } else if n < 0x800 {
      TwoByteDigits(n);
      TailStep(n / 64, bs[1], []);
      assert bs[1..] == [bs[1]] + [];
    } else if n < 0x10000 {
      ThreeByteDigits(n);
      TailStep(n / 4096, bs[1], [bs[2]]);
      TailStep((n / 4096) * 64 + (n / 64) % 64, bs[2], []);
      assert bs[1..] == [bs[1]] + [bs[2]] && [bs[2]] == [bs[2]] + [];
    } else {
      FourByteDigits(n);
      var a1 := n / 262144;
      var a2 := a1 * 64 + (n / 4096) % 64;
      var a3 := a2 * 64 + (n / 64) % 64;
      TailStep(a1, bs[1], [bs[2], bs[3]]);
      TailStep(a2, bs[2], [bs[3]]);
      TailStep(a3, bs[3], []);
      assert bs[1..] == [bs[1]] + [bs[2], bs[3]] && [bs[2], bs[3]] == [bs[2]] + [bs[3]] && [bs[3]] == [bs[3]] + [];
    }
  }

  lemma TailStep(acc: int, x: Byte, rest: seq<Byte>)
    ensures Tail(acc, [x] + rest) == Tail(acc * 64 + (x as int - 0x80), rest)
  {
    assert ([x] + rest)[1..] == rest;
  }

  lemma OneByte(n: Byte)
    ensures CodePoint([n]) == n
  {
    assert [n][1..] == [];
  }

  /** Decoding the UTF-8 of a string gives back its code points. */
  lemma {:induction false} Utf8StringRoundTrip(s: string)
    ensures DecodeUtf8(Utf8String(s)) == Some(CodePoints(s))
  {
    if s != [] {
      var head := Utf8(s[0]);
      var bs := Utf8String(s);
      assert bs == head + Utf8String(s[1..]);
      assert bs[..|head|] == head && bs[|head|..] == Utf8String(s[1..]);
      Utf8CodePoint(s[0]);
      Utf8StringRoundTrip(s[1..]);
      assert CodePoints(s) == [s[0] as int] + CodePoints(s[1..]);
    }
  }

  // ---------------------------------------------------------------------------
  // unescapeLuaString

  /** The character escapes Lua defines (section 3.1 of the Lua 5.4 reference
      manual): bell, backspace, form feed, newline, carriage return, the two
      tabs, backslash, and the two quotes. */
  function LuaEscape(c: char): Option<Byte>
  {
    if c == 'a' then Some(7)
    else if c == 'b' then Some(8)
    else if c == 'f' then Some(12)
    else if c == 'n' then Some(10)
    else if c == 'r' then Some(13)
    else if c == 't' then Some(9)
    else if c == 'v' then Some(11)
    else if c == '\\' then Some(92)
    else if c == '"' then Some(34)
    else if c == '\'' then Some(39)
    else None
  }

  /** `next.charCodeAt(0)` as a buffer byte: the first UTF-16 code unit, of
      which `Buffer.from` keeps the low eight bits. */
  function CodeUnitByte(c: char): Byte
  {
    var n := c as int;
    (if n < 0x10000 then n else 0xD800 + (n - 0x10000) / 0x400) % 256
  }

  /** `escapes[next] || next.charCodeAt(0)`. The table has no entry for `a`;
      `bell` adds the entry Lua defines. */
  function EscapeByte(c: char, bell: bool): Byte
  {
    if c == 'n' then 10
    else if c == 'r' then 13
    else if c == 't' then 9
    else if c == 'v' then 11
    else if c == 'b' then 8
    else if c == 'f' then 12
    else if c == '\\' then 92
    else if c == '"' then 34
    else if c == '\'' then 39
    else if bell && c == 'a' then 7
    else CodeUnitByte(c)
  }

  /** As written, every escape Lua defines except `\a` reads as Lua reads it;
      `\a` reads as the letter `a`. */
  lemma EscapeTableAsWritten(c: char)
    requires LuaEscape(c).Some?
    ensures EscapeByte(c, false) == LuaEscape(c).value <==> c != 'a'
    ensures c == 'a' ==> EscapeByte(c, false) == 97
  {
  }

  /** Corrected: with the bell entry every escape Lua defines reads as Lua reads it. */
  lemma EscapeTableCorrected(c: char)
    requires LuaEscape(c).Some?
    ensures EscapeByte(c, true) == LuaEscape(c).value
  {
  }

  /** `s.substr(0, 3).match(/^\d+/)[0].length`: the leading decimal digits, at most three. */
  function DigitRun(s: string): (n: nat)
    ensures n <= 3 && n <= |s|
    ensures forall i :: 0 <= i < n ==> Text.IsDigit(s[i])
    ensures n < 3 && n < |s| ==> !Text.IsDigit(s[n])
  {
    if |s| >= 1 && Text.IsDigit(s[0]) then
      if |s| >= 2 && Text.IsDigit(s[1]) then
        if |s| >= 3 && Text.IsDigit(s[2]) then 3 else 2
      else 1
    else 0
  }

  /** After `\` and a character above U+FFFF the loop steps over two UTF-16
      code units, the backslash and the high surrogate, and so lands on the low
      surrogate, which `Buffer.from(.., 'utf8')` turns into U+FFFD. */
  function LowSurrogateBytes(c: char): (r: seq<Byte>)
    ensures r == [] <==> c as int < 0x10000
  {
    if c as int < 0x10000 then [] else [0xEF, 0xBF, 0xBD]
  }

  /** `unescapeLuaString(s)` (as written when `bell` is false). A decimal escape
      keeps the low eight bits of its value, as `Buffer.from` does; a trailing
      lone backslash reads `undefined.charCodeAt` and throws. */
  function Unescape(s: string, bell: bool): (r: Result<seq<Byte>>)
    ensures r.Err? ==> s != [] && s[|s| - 1] == '\\'
    decreases |s|
  {
    if s == [] then Ok([])
    else if s[0] != '\\' then
      var rest :- Unescape(s[1..], bell);
      Ok(Utf8(s[0]) + rest)
    else if |s| == 1 then Err("TypeError: Cannot read properties of undefined (reading 'charCodeAt')")
    else if Text.IsDigit(s[1]) then
      var n := DigitRun(s[1..]);
      var rest :- Unescape(s[1 + n..], bell);
      var b: Byte := Text.ParseNat(s[1..1 + n]) % 256;
      Ok([b] + rest)
    else
      var rest :- Unescape(s[2..], bell);
      Ok([EscapeByte(s[1], bell)] + LowSurrogateBytes(s[1]) + rest)
  }

  /** One step of the loop over a character escape. */
  lemma EscapeStep(c: char, t: string, bell: bool)
    requires !Text.IsDigit(c)
    ensures Unescape(['\\', c] + t, bell)
            == (if Unescape(t, bell).Err? then Unescape(t, bell)
                else Ok([EscapeByte(c, bell)] + LowSurrogateBytes(c) + Unescape(t, bell).value))
  {
    var s := ['\\', c] + t;
    assert s[0] == '\\' && s[1] == c && s[2..] == t;
  }

  /** One step of the loop over a decimal escape. */
  lemma DigitStep(s: string, bell: bool)
    requires |s| >= 2 && s[0] == '\\' && Text.IsDigit(s[1])
    ensures var n := DigitRun(s[1..]);
            Unescape(s, bell)
            == (if Unescape(s[1 + n..], bell).Err? then Unescape(s[1 + n..], bell)
                else Ok([(Text.ParseNat(s[1..1 + n]) % 256) as Byte] + Unescape(s[1 + n..], bell).value))
  {
  }

  /** An escaped character above U+FFFF gives the low byte of its high
      surrogate, then the replacement character for the stranded low one:
      a backslash before U+1F600 reads as `3D EF BF BD`. */
  lemma EscapedAstral(c: char, bell: bool)
    requires c as int >= 0x10000
    ensures Unescape(['\\', c], bell) == Ok([CodeUnitByte(c), 0xEF, 0xBF, 0xBD])
  {
    assert !Text.IsDigit(c);
    EscapeStep(c, "", bell);
    assert ['\\', c] + "" == ['\\', c];
    assert Unescape("", bell) == Ok([]);
    assert LowSurrogateBytes(c) == [0xEF, 0xBF, 0xBD];
    assert [CodeUnitByte(c)] + [0xEF, 0xBF, 0xBD] + [] == [CodeUnitByte(c), 0xEF, 0xBF, 0xBD];
    assert EscapeByte(c, bell) == CodeUnitByte(c);
  }

  /** The example above, byte by byte. */
  lemma EscapedEmoji()
    ensures Unescape("\\\U{1F600}", false) == Ok([0x3D, 0xEF, 0xBF, 0xBD])
  {
    EscapedAstral('\U{1F600}', false);
    assert "\\\U{1F600}" == ['\\', '\U{1F600}'];
  }

  /** Text without a backslash is just its UTF-8 bytes. */
  lemma {:induction false} UnescapePlain(s: string, bell: bool)
    requires forall i :: 0 <= i < |s| ==> s[i] != '\\'
    ensures Unescape(s, bell) == Ok(Utf8String(s))
  {
    if s != [] {
      UnescapePlain(s[1..], bell);
    }
  }

  /** The three decimal digits of a byte, zero-padded. */
  function ThreeDigits(b: Byte): (s: string)
    ensures |s| == 3 && forall i :: 0 <= i < 3 ==> Text.IsDigit(s[i])
  {
    [Text.DigitChar(b / 100), Text.DigitChar(b / 10 % 10), Text.DigitChar(b % 10)]
  }

  lemma DigitBack(d: nat)
    requires d < 10
    ensures Text.DigitValue(Text.DigitChar(d)) == d
  {
  }

  lemma ThreeDigitsValue(b: Byte)
    ensures Text.ParseNat(ThreeDigits(b)) == b
  {
    var s := ThreeDigits(b);
    var x, y, z := b / 100, b / 10 % 10, b % 10;
    DigitBack(x);
    DigitBack(y);
    DigitBack(z);
    var one := [Text.DigitChar(x)];
    var two := one + [Text.DigitChar(y)];
    assert s == two + [Text.DigitChar(z)];
    assert one[..0] == [] && two[..1] == one && s[..2] == two;
    assert Text.ParseNat(one) == x;
    assert Text.ParseNat(two) == x * 10 + y;
    assert Text.ParseNat(s) == (x * 10 + y) * 10 + z;
  }

  /** Every byte as a `\ddd` escape: a spelling any byte sequence has. */
  function Quote(bs: seq<Byte>): (s: string)
    ensures |s| == 4 * |bs|
  {
    if bs == [] then "" else
      var rest := Quote(bs[1..]);
      assert |"\\"| == 1;
      "\\" + ThreeDigits(bs[0]) + rest
  }

  /** A backslash and three digits read as the number they spell, modulo 256. */
  lemma DecimalEscape(d: string, t: string, bell: bool)
    requires |d| == 3 && forall i :: 0 <= i < 3 ==> Text.IsDigit(d[i])
    ensures Unescape("\\" + d + t, bell)
            == (if Unescape(t, bell).Err? then Unescape(t, bell)
                else Ok([(Text.ParseNat(d) % 256) as Byte] + Unescape(t, bell).value))
  {
    var s := "\\" + d + t;
    assert s[1..4] == d && s[4..] == t;
    assert s[1..][..3] == d;
    assert DigitRun(s[1..]) == 3;
    DigitStep(s, bell);
  }

  /** One quoted byte reads back as itself. */
  lemma QuotedByte(b: Byte, t: string, bell: bool)
    ensures Unescape("\\" + ThreeDigits(b) + t, bell)
            == (if Unescape(t, bell).Err? then Unescape(t, bell) else Ok([b] + Unescape(t, bell).value))
  {
    ThreeDigitsValue(b);
    DecimalEscape(ThreeDigits(b), t, bell);
  }

  /** Decimal escapes read back the bytes they spell. */
  lemma {:induction false} UnescapeQuote(bs: seq<Byte>, bell: bool)
    ensures Unescape(Quote(bs), bell) == Ok(bs)
  {
    if bs != [] {
      var t := Quote(bs[1..]);
      assert Quote(bs) == "\\" + ThreeDigits(bs[0]) + t;
      UnescapeQuote(bs[1..], bell);
      QuotedByte(bs[0], t, bell);
      assert [bs[0]] + bs[1..] == bs;
    }
  }

  /** The `\a` counterexample: as written it yields the letter, corrected the bell. */
  lemma BellLost()
    ensures Unescape("\\a", false).Ok? && Unescape("\\a", false).value == [97]
    ensures Unescape("\\a", true).Ok? && Unescape("\\a", true).value == [7]
  {
    assert "\\a" == ['\\', 'a'] + "";
    assert !Text.IsDigit('a');
    EscapeStep('a', "", false);
    EscapeStep('a', "", true);
  }

  // ---------------------------------------------------------------------------
  // Long strings

  /** The number of `=` characters `s` starts with. */
  function LeadingEq(s: string): (n: nat)
    ensures n <= |s| && (forall i :: 0 <= i < n ==> s[i] == '=') && (n < |s| ==> s[n] != '=')
  {
    if s != [] && s[0] == '=' then 1 + LeadingEq(s[1..]) else 0
  }

  /** A run of `m` signs closed by another character is the leading run. */
  lemma {:induction false} LeadingEqIs(s: string, m: nat)
    requires m < |s| && s[m] != '=' && forall i :: 0 <= i < m ==> s[i] == '='
    ensures LeadingEq(s) == m
  {
    if m > 0 {
      LeadingEqIs(s[1..], m - 1);
    }
  }

  /** The number of `=` characters `s` ends with. */
  function TrailingEq(s: string): (n: nat)
    ensures n <= |s| && (forall i :: |s| - n <= i < |s| ==> s[i] == '=')
    ensures n < |s| ==> s[|s| - 1 - n] != '='
  {
    if s != [] && s[|s| - 1] == '=' then 1 + TrailingEq(s[..|s| - 1]) else 0
  }

  lemma {:induction false} TrailingEqIs(s: string, m: nat)
    requires m < |s| && s[|s| - 1 - m] != '=' && forall i :: |s| - m <= i < |s| ==> s[i] == '='
    ensures TrailingEq(s) == m
  {
    if m > 0 {
      TrailingEqIs(s[..|s| - 1], m - 1);
    }
  }

  function Eqs(n: nat): (s: string)
    ensures |s| == n && forall i :: 0 <= i < n ==> s[i] == '='
  {
    seq(n, _ => '=')
  }

  /** The optional newline `\n?` after the opening bracket. */
  function SkipNewline(s: string): string
  {
    if s != [] && s[0] == '\n' then s[1..] else s
  }

  /** The two characters Lua's lexer treats as line ends. */
  predicate IsBreakChar(c: char)
  {
    c == '\n' || c == '\r'
  }

  /** Lua's `inclinenumber`: one line break, where `\r\n` and `\n\r` count as
      one break and `\n\n` as two. Text that does not start with a break is
      left alone. */
  function SkipLineBreak(s: string): (r: string)
    ensures |s| - 2 <= |r| <= |s| && r == s[|s| - |r|..]
    ensures |r| < |s| <==> s != [] && IsBreakChar(s[0])
    ensures |r| == |s| - 2 <==> |s| >= 2 && IsBreakChar(s[0]) && IsBreakChar(s[1]) && s[0] != s[1]
  {
    if s != [] && IsBreakChar(s[0]) then
      if |s| >= 2 && IsBreakChar(s[1]) && s[1] != s[0] then s[2..] else s[1..]
    else s
  }

  /** Lua reads every line break inside a long string, whatever its spelling,
      as one `\n` (section 3.1 of the Lua 5.4 reference manual). */
  function NormalizeBreaks(s: string): (r: string)
    ensures '\r' !in r
    decreases |s|
  {
    if s == [] then []
    else if IsBreakChar(s[0]) then "\n" + NormalizeBreaks(SkipLineBreak(s))
    else [s[0]] + NormalizeBreaks(s[1..])
  }

  /** Text without a carriage return already has Lua's line breaks. */
  lemma {:induction false} NormalizeBreaksIdentity(s: string)
    requires '\r' !in s
    ensures NormalizeBreaks(s) == s
    decreases |s|
  {
    if s != [] {
      assert s[1..] == SkipLineBreak(s) || !IsBreakChar(s[0]);
      assert '\r' !in s[1..] by {
        forall i | 0 <= i < |s[1..]| ensures s[1..][i] != '\r' {
          assert s[1..][i] == s[i + 1];
        }
      }
      NormalizeBreaksIdentity(s[1..]);
      assert [s[0]] + s[1..] == s;
    }
  }

  /** `/^\[(=*)\[/` matches with `n` signs. */
  predicate OpenAt(raw: string, n: nat)
  {
    n + 2 <= |raw| && raw[0] == '[' && raw[n + 1] == '[' && forall k :: 1 <= k <= n ==> raw[k] == '='
  }

  /** `/\](=*)\]$/` matches at position `p`. */
  predicate CloseAt(s: string, p: nat)
  {
    p + 2 <= |s| && s[p] == ']' && s[|s| - 1] == ']' && forall k :: p < k < |s| - 1 ==> s[k] == '='
  }

  /** Greedy `=*` is the only way the opening bracket can match. */
  lemma OpenUnique(raw: string)
    requires raw != []
    ensures forall m: nat :: OpenAt(raw, m) ==> m == LeadingEq(raw[1..])
  {
    forall m: nat | OpenAt(raw, m)
      ensures m == LeadingEq(raw[1..])
    {
      LeadingEqIs(raw[1..], m);
    }
  }

  /** The closing bracket can match at one position only. */
  lemma CloseUnique(s: string)
    requires s != []
    ensures forall p: nat :: CloseAt(s, p) ==> p + 2 + TrailingEq(s[..|s| - 1]) == |s|
  {
    forall p: nat | CloseAt(s, p)
      ensures p + 2 + TrailingEq(s[..|s| - 1]) == |s|
    {
      TrailingEqIs(s[..|s| - 1], |s| - 2 - p);
    }
  }

  /** What follows the opening bracket is stripped of: a `\n` as written, a
      line break as Lua reads one when corrected. */
  function OpenBreak(s: string, keep: bool): string
  {
    if keep then SkipNewline(s) else SkipLineBreak(s)
  }

  /** `raw.replace(/^\[(=*)\[\n?/, "$1")` when `keep` is true; corrected, the
      signs are not put back and a first line break is skipped as Lua skips it. */
  function StripOpen(raw: string, keep: bool): (r: string)
    ensures forall n: nat :: OpenAt(raw, n) ==> r == (if keep then raw[1..n + 1] else "") + OpenBreak(raw[n + 2..], keep)
    ensures (forall n: nat :: !OpenAt(raw, n)) ==> r == raw
  {
    if raw != [] && raw[0] == '[' then
      OpenUnique(raw);
      var n := LeadingEq(raw[1..]);
      if n + 2 <= |raw| && raw[n + 1] == '[' then
        assert OpenAt(raw, n);
        (if keep then raw[1..n + 1] else "") + OpenBreak(raw[n + 2..], keep)
      else raw
    else raw
  }

  /** `s.replace(/\](=*)\]$/, "$1")`, or with `""` when `keep` is false. The
      match, when there is one, is unique. */
  function StripClose(s: string, keep: bool): (r: string)
    ensures forall p: nat :: CloseAt(s, p) ==> r == s[..p] + (if keep then s[p + 1..|s| - 1] else "")
    ensures (forall p: nat :: !CloseAt(s, p)) ==> r == s
  {
    if |s| >= 2 && s[|s| - 1] == ']' then
      CloseUnique(s);
      var n := TrailingEq(s[..|s| - 1]);
      if n + 2 <= |s| && s[|s| - 2 - n] == ']' then
        var p := |s| - 2 - n;
        assert CloseAt(s, p);
        s[..p] + (if keep then s[p + 1..|s| - 1] else "")
      else s
    else s
  }

  /** The content the pass reads from a long string's `raw` (as written when
      `keep` is true: the `$1` back-references put the level's signs back).
      Corrected, the inner line breaks are read as Lua reads them. */
  function LongContent(raw: string, keep: bool): string
  {
    if keep then StripClose(StripOpen(raw, true), true)
    else NormalizeBreaks(StripClose(StripOpen(raw, false), false))
  }

  /** A long string of the given level, as the parser's `raw` spells it. */
  function LongBracket(level: nat, body: string): string
  {
    "[" + Eqs(level) + "[" + body + "]" + Eqs(level) + "]"
  }

  /** What Lua reads from `LongBracket(level, body)`: the body with a first
      line break skipped and every other line break read as `\n`. */
  function LuaLongValue(body: string): string
  {
    NormalizeBreaks(SkipLineBreak(body))
  }

  /** Without a carriage return, Lua's value is the body less a first `\n`. */
  lemma LuaLongValuePlain(body: string)
    requires '\r' !in body
    ensures LuaLongValue(body) == SkipNewline(body)
  {
    var r := SkipLineBreak(body);
    assert r == SkipNewline(body);
    assert '\r' !in r by {
      forall i | 0 <= i < |r| ensures r[i] != '\r' {
        assert r[i] == body[|body| - |r| + i];
      }
    }
    NormalizeBreaksIdentity(r);
  }

  lemma OpenBreakAppend(body: string, tail: string, keep: bool)
    requires tail != [] && !IsBreakChar(tail[0])
    ensures OpenBreak(body + tail, keep) == OpenBreak(body, keep) + tail
  {
    var s := body + tail;
    if body == [] {
      assert s == tail;
    } else {
      assert s[0] == body[0];
      if |body| >= 2 {
        assert s[1] == body[1];
        assert s[2..] == body[2..] + tail;
      } else {
        assert s[1] == tail[0];
      }
      assert s[1..] == body[1..] + tail;
    }
  }

  /** The opening regex on an opening bracket of `level` signs. */
  lemma OpenShape(level: nat, rest: string, keep: bool)
    ensures StripOpen("[" + Eqs(level) + "[" + rest, keep) == (if keep then Eqs(level) else "") + OpenBreak(rest, keep)
  {
    var e := Eqs(level);
    var raw := "[" + e + "[" + rest;
    assert |raw| == level + 2 + |rest|;
    assert raw[0] == '[' && raw[level + 1] == '[';
    assert forall k :: 1 <= k <= level ==> raw[k] == e[k - 1];
    assert OpenAt(raw, level);
    assert raw[1..level + 1] == e;
    assert raw[level + 2..] == rest;
  }

  /** After the opening regex the text ends in the closing bracket. */
  lemma OpenLongBracket(level: nat, body: string, keep: bool)
    ensures StripOpen(LongBracket(level, body), keep)
            == (if keep then Eqs(level) else "") + (OpenBreak(body, keep) + ("]" + Eqs(level) + "]"))
  {
    var tail := "]" + Eqs(level) + "]";
    LongBracketSplit(level, body);
    OpenShape(level, body + tail, keep);
    OpenBreakAppend(body, tail, keep);
  }

  lemma LongBracketSplit(level: nat, body: string)
    ensures LongBracket(level, body) == "[" + Eqs(level) + "[" + (body + ("]" + Eqs(level) + "]"))
  {
  }

  /** The closing regex on a closing bracket of `level` signs. */
  lemma CloseShape(front: string, level: nat, keep: bool)
    ensures StripClose(front + ("]" + Eqs(level) + "]"), keep) == front + (if keep then Eqs(level) else "")
  {
    var e := Eqs(level);
    var s := front + ("]" + e + "]");
    var p := |front|;
    assert |s| == p + level + 2;
    assert s[p] == ']' && s[|s| - 1] == ']';
    assert forall k :: p < k < |s| - 1 ==> s[k] == e[k - p - 1];
    assert CloseAt(s, p);
    assert s[..p] == front;
    assert s[p + 1..|s| - 1] == e;
  }

  /** As written: a long string of level `n` is read with `n` signs on each
      side, a first `\n` alone skipped and every other character kept; without
      a carriage return that is Lua's value between the signs. */
  lemma LongContentAsWritten(level: nat, body: string)
    ensures LongContent(LongBracket(level, body), true) == Eqs(level) + SkipNewline(body) + Eqs(level)
    ensures '\r' !in body ==> LongContent(LongBracket(level, body), true) == Eqs(level) + LuaLongValue(body) + Eqs(level)
  {
    OpenLongBracket(level, body, true);
    var tail := "]" + Eqs(level) + "]";
    assert Eqs(level) + (SkipNewline(body) + tail) == (Eqs(level) + SkipNewline(body)) + tail;
    CloseShape(Eqs(level) + SkipNewline(body), level, true);
    if '\r' !in body {
      LuaLongValuePlain(body);
    }
  }

  /** Corrected: replacing both matches with nothing and reading line breaks
      as Lua does gives exactly what Lua reads. */
  lemma LongContentCorrected(level: nat, body: string)
    ensures LongContent(LongBracket(level, body), false) == LuaLongValue(body)
  {
    OpenLongBracket(level, body, false);
    var tail := "]" + Eqs(level) + "]";
    var front := SkipLineBreak(body);
    assert "" + (front + tail) == front + tail;
    CloseShape(front, level, false);
    assert front + "" == front;
  }

  /** The level-1 counterexample: `[=[x]=]` is read as `=x=`, for any
      character `x` other than a newline. */
  lemma LevelOneKeepsSigns(x: char)
    requires x != '\n'
    ensures LongBracket(1, [x]) == ['[', '=', '[', x, ']', '=', ']']
    ensures LongContent(LongBracket(1, [x]), true) == ['=', x, '=']
    ensures LongContent(LongBracket(1, [x]), false) == (if x == '\r' then "" else [x])
  {
    var e := Eqs(1);
    assert e == ['='];
    var b := "[" + e + "[" + [x] + "]" + e + "]";
    assert b == ['[', '=', '[', x, ']', '=', ']'];
    assert e + [x] + e == ['=', x, '='];
    LongContentAsWritten(1, [x]);
    LongContentCorrected(1, [x]);
    assert SkipNewline([x]) == [x];
    if x != '\r' {
      assert NormalizeBreaks([x]) == [x] + NormalizeBreaks([x][1..]);
    }
  }

  /** A long string whose first line ends in `\r\n`, as a file saved with
      Windows line ends spells it: `[[` CR LF `x]]` is read as CR LF `x`
      as written, where Lua reads `x`. */
  lemma CarriageReturnKept(x: char)
    requires !IsBreakChar(x)
    ensures LongContent(LongBracket(0, ['\r', '\n', x]), true) == ['\r', '\n', x]
    ensures LongContent(LongBracket(0, ['\r', '\n', x]), false) == [x]
  {
    var body := ['\r', '\n', x];
    LongContentAsWritten(0, body);
    LongContentCorrected(0, body);
    assert Eqs(0) == "";
    assert SkipNewline(body) == body;
    assert SkipLineBreak(body) == [x];
    assert NormalizeBreaks([x]) == [x] + NormalizeBreaks([x][1..]);
  }

  // ---------------------------------------------------------------------------
  // The bytes of one literal

  /** The bytes the pass encrypts for a `StringLiteral` whose `raw` is given
      (`fixed` selects the corrections). A raw text starting with `[` and
      ending with `]` is a long string; any other loses its two quotes. */
  function LiteralBytes(raw: string, fixed: bool): (r: Result<seq<Byte>>)
    ensures raw != [] && raw[0] == '[' && raw[|raw| - 1] == ']' ==> r.Ok?
    ensures r.Err? ==> |raw| >= 3 && raw[|raw| - 2] == '\\'
  {
    if raw != [] && raw[0] == '[' && raw[|raw| - 1] == ']' then Ok(Utf8String(LongContent(raw, !fixed)))
    else Unescape(if |raw| >= 2 then raw[1..|raw| - 1] else "", fixed)
  }

  /** A quoted literal spelled with decimal escapes yields exactly its bytes. */
  lemma LiteralBytesQuoted(bs: seq<Byte>, fixed: bool)
    ensures LiteralBytes("\"" + Quote(bs) + "\"", fixed) == Ok(bs)
  {
    var raw := "\"" + Quote(bs) + "\"";
    assert raw[0] == '"';
    assert raw[1..|raw| - 1] == Quote(bs);
    UnescapeQuote(bs, fixed);
  }

  /** A long literal yields the UTF-8 of what Lua reads, once corrected; as
      written, the level's signs surround the body less a first `\n`. */
  lemma LiteralBytesLong(level: nat, body: string)
    ensures LiteralBytes(LongBracket(level, body), true) == Ok(Utf8String(LuaLongValue(body)))
    ensures LiteralBytes(LongBracket(level, body), false)
            == Ok(Utf8String(Eqs(level) + SkipNewline(body) + Eqs(level)))
    ensures '\r' !in body ==>
              LiteralBytes(LongBracket(level, body), false) == Ok(Utf8String(Eqs(level) + LuaLongValue(body) + Eqs(level)))
  {
    var raw := LongBracket(level, body);
    assert raw[0] == '[' && raw[|raw| - 1] == ']';
    LongContentAsWritten(level, body);
    LongContentCorrected(level, body);
  }
}
