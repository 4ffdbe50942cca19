/**
 * The JavaScript built-ins the modelled code relies on, stated over Dafny
 * strings (`seq<char>`): the white-space set of `\s` and `trim`, ASCII case
 * mapping, `parseInt(s, 10)`, `String(n)` for integers, the truthiness of
 * JSON values and `Array.prototype.slice`.
 */
module Js {
  import opened Wrappers

  // ---------------------------------------------------------------------------
  // White space

  /** ECMAScript WhiteSpace and LineTerminator code points: what `\s` matches and what `trim` removes. */
  predicate IsWhitespace(c: char) {
    var k := c as int;
    k == 0x09 || k == 0x0A || k == 0x0B || k == 0x0C || k == 0x0D || k == 0x20 || k == 0xA0
    || k == 0x1680 || (0x2000 <= k <= 0x200A) || k == 0x2028 || k == 0x2029 || k == 0x202F
    || k == 0x205F || k == 0x3000 || k == 0xFEFF
  }

  /** ECMAScript LineTerminator: what `.` never matches and what `^`/`$` see as a line break in a multiline pattern. */
  predicate IsLineTerminator(c: char) {
    var k := c as int;
    k == 0x0A || k == 0x0D || k == 0x2028 || k == 0x2029
  }

  /** `s` is empty or white space only, so that `s.trim()` is empty. */
  predicate IsBlank(s: string) {
    forall i :: 0 <= i < |s| ==> IsWhitespace(s[i])
  }

  /** String.prototype.trimStart: the longest suffix of `s` that does not start with white space. */
  function TrimStart(s: string): (r: string)
    ensures |r| <= |s| && r == s[|s| - |r|..]
    ensures r == [] || !IsWhitespace(r[0])
    ensures forall i :: 0 <= i < |s| - |r| ==> IsWhitespace(s[i])
  {
    if s != [] && IsWhitespace(s[0]) then TrimStart(s[1..]) else s
  }

  /** String.prototype.trimEnd: the longest prefix of `s` that does not end with white space. */
  function TrimEnd(s: string): (r: string)
    ensures |r| <= |s| && r == s[..|r|]
    ensures r == [] || !IsWhitespace(r[|r| - 1])
    ensures forall i :: |r| <= i < |s| ==> IsWhitespace(s[i])
  {
    if s != [] && IsWhitespace(s[|s| - 1]) then TrimEnd(s[..|s| - 1]) else s
  }

  /** String.prototype.trim: `s` without its leading and trailing white space. */
  function Trim(s: string): (r: string)
    ensures |r| <= |s|
    ensures r == [] <==> IsBlank(s)
  {
    var t := TrimStart(s);
    var u := TrimEnd(t);
    assert t != [] ==> u != [] && u[0] == t[0];
    assert IsBlank(s) ==> t == [];
    u
  }

  /** `trim` leaves no white space at either end. */
  lemma TrimEnds(s: string)
    ensures Trim(s) == [] || (!IsWhitespace(Trim(s)[0]) && !IsWhitespace(Trim(s)[|Trim(s)| - 1]))
  {
    var t := TrimStart(s);
    var u := TrimEnd(t);
    assert t != [] ==> u != [] && u[0] == t[0];
  }

  /** Every character of `Trim(s)` is a character of `s`. */
  lemma TrimIsInfix(s: string)
    ensures forall k :: 0 <= k < |Trim(s)| ==> Trim(s)[k] in s
  {
    var t := TrimStart(s);
    var u := TrimEnd(t);
    forall k | 0 <= k < |u|
      ensures u[k] in s
    {
      assert u[k] == t[k];
      assert t[k] == s[|s| - |t| + k];
    }
  }

  /** Trimming a string that neither starts nor ends with white space changes nothing. */
  lemma TrimOfTrimmed(s: string)
    requires s == [] || (!IsWhitespace(s[0]) && !IsWhitespace(s[|s| - 1]))
    ensures Trim(s) == s
  {
  }

  /** `trim` is idempotent. */
  lemma TrimIdempotent(s: string)
    ensures Trim(Trim(s)) == Trim(s)
  {
    TrimEnds(s);
    TrimOfTrimmed(Trim(s));
  }

  /**
   * `r` is what is left of `s` once a prefix and a suffix of white space are
   * cut off, and `r` neither starts nor ends with white space.
   */
  predicate IsTrimOf(r: string, s: string) {
    exists a, b :: 0 <= a <= b <= |s| && r == s[a..b] && IsBlank(s[..a]) && IsBlank(s[b..])
      && (r == [] || (!IsWhitespace(r[0]) && !IsWhitespace(r[|r| - 1])))
  }

  /** Dropping a blank prefix that stops at a character other than white space is what trimStart does. */
  lemma {:induction false} TrimStartSkips(s: string, a: nat)
    requires a < |s| && IsBlank(s[..a]) && !IsWhitespace(s[a])
    ensures TrimStart(s) == s[a..]
  {
    if a > 0 {
      assert IsWhitespace(s[..a][0]);
      assert s[1..][..a - 1] == s[1..a];
      assert forall i :: 0 <= i < a - 1 ==> s[1..a][i] == s[..a][i + 1];
      assert s[1..][a - 1..] == s[a..];
      TrimStartSkips(s[1..], a - 1);
    }
  }

  /** Dropping a blank suffix that stops at a character other than white space is what trimEnd does. */
  lemma {:induction false} TrimEndSkips(t: string, b: nat)
    requires 0 < b <= |t| && IsBlank(t[b..]) && !IsWhitespace(t[b - 1])
    ensures TrimEnd(t) == t[..b]
    decreases |t| - b
  {
    if b < |t| {
      var t' := t[..|t| - 1];
      assert IsWhitespace(t[b..][|t| - 1 - b]);
      assert t'[b..] == t[b..|t| - 1];
      assert forall i :: 0 <= i < |t'| - b ==> t'[b..][i] == t[b..][i];
      assert t'[b - 1] == t[b - 1];
      TrimEndSkips(t', b);
      assert t'[..b] == t[..b];
    }
  }

  /** Trim(s) is related to `s` by IsTrimOf. */
  lemma TrimIsTrimOf(s: string)
    ensures IsTrimOf(Trim(s), s)
  {
    var t := TrimStart(s);
    var u := TrimEnd(t);
    var a := |s| - |t|;
    var b := a + |u|;
    assert u == s[a..b] by {
      assert u == t[..|u|];
      assert t == s[a..];
    }
    assert IsBlank(s[..a]);
    assert s[b..] == t[|u|..];
    assert IsBlank(s[b..]);
    TrimEnds(s);
  }

  /** A string IsTrimOf relates to `s` is Trim(s). */
  lemma TrimOfIsTrim(r: string, s: string)
    requires IsTrimOf(r, s)
    ensures r == Trim(s)
  {
    var a, b :| 0 <= a <= b <= |s| && r == s[a..b] && IsBlank(s[..a]) && IsBlank(s[b..])
      && (r == [] || (!IsWhitespace(r[0]) && !IsWhitespace(r[|r| - 1])));
    if r == [] {
      BlankAroundEmpty(s, a, b);
    } else {
      TrimOfCore(s, a, b);
    }
  }

  /** Blank on both sides of an empty middle: the whole string is blank. */
  lemma BlankAroundEmpty(s: string, a: nat, b: nat)
    requires a <= b <= |s| && s[a..b] == [] && IsBlank(s[..a]) && IsBlank(s[b..])
    ensures Trim(s) == []
  {
    forall i | 0 <= i < |s|
      ensures IsWhitespace(s[i])
    {
      if i < a {
        assert s[..a][i] == s[i];
      } else {
        assert s[b..][i - b] == s[i];
      }
    }
  }

  /** A middle piece that starts and ends with other than white space, with blank sides, is what trim leaves. */
  lemma TrimOfCore(s: string, a: nat, b: nat)
    requires a < b <= |s| && IsBlank(s[..a]) && IsBlank(s[b..])
    requires !IsWhitespace(s[a]) && !IsWhitespace(s[b - 1])
    ensures Trim(s) == s[a..b]
  {
    var t := s[a..];
    var n := b - a;
    assert t[n - 1] == s[b - 1];
    assert t[..n] == s[a..b];
    forall i | 0 <= i < |t| - n
      ensures IsWhitespace(t[n..][i])
    {
      assert t[n..][i] == s[b..][i];
    }
    TrimEndSkips(t, n);
    TrimStartSkips(s, a);
  }

  /** `trim` removes exactly the white space at both ends: Trim(s) is the one string IsTrimOf relates to `s`. */
  lemma TrimCharacterised(r: string, s: string)
    ensures r == Trim(s) <==> IsTrimOf(r, s)
  {
    TrimIsTrimOf(s);
    if IsTrimOf(r, s) {
      TrimOfIsTrim(r, s);
    }
  }

  // ---------------------------------------------------------------------------
  // Case mapping (ASCII letters only)

  function LowerChar(c: char): char {
    if 'A' <= c <= 'Z' then (c as int + 32) as char else c
  }

  function UpperChar(c: char): char {
    if 'a' <= c <= 'z' then (c as int - 32) as char else c
  }

  /** String.prototype.toLowerCase, restricted to ASCII letters. */
  function ToLower(s: string): (r: string)
    ensures |r| == |s|
    ensures forall i :: 0 <= i < |s| ==> r[i] == LowerChar(s[i])
  {
    seq(|s|, i requires 0 <= i < |s| => LowerChar(s[i]))
  }

  /** String.prototype.toUpperCase, restricted to ASCII letters. */
  function ToUpper(s: string): (r: string)
    ensures |r| == |s|
    ensures forall i :: 0 <= i < |s| ==> r[i] == UpperChar(s[i])
  {
    seq(|s|, i requires 0 <= i < |s| => UpperChar(s[i]))
  }

  /** `s` contains `t` as a contiguous piece (a regular expression without anchors or metacharacters). */
  predicate Contains(s: string, t: string) {
    exists i :: 0 <= i <= |s| - |t| && t <= s[i..]
  }

  // ---------------------------------------------------------------------------
  // Decimal integers: parseInt(s, 10) and String(n)

  predicate IsDigit(c: char) {
    '0' <= c <= '9'
  }

  predicate AllDigits(s: string) {
    forall i :: 0 <= i < |s| ==> IsDigit(s[i])
  }

  function DigitValue(c: char): nat
    requires IsDigit(c)
  {
    c as int - '0' as int
  }

  function DigitChar(d: nat): char
    requires d < 10
  {
    ('0' as int + d) as char
  }

  /** The value of a string of decimal digits, most significant first. */
  function DigitsValue(d: string): nat
    requires AllDigits(d)
  {
    if d == [] then 0 else 10 * DigitsValue(d[..|d| - 1]) + DigitValue(d[|d| - 1])
  }

  /** Length of the longest prefix of `s` made of decimal digits. */
  function DigitRun(s: string): (k: nat)
    ensures k <= |s| && AllDigits(s[..k])
    ensures k < |s| ==> !IsDigit(s[k])
  {
    if s != [] && IsDigit(s[0]) then 1 + DigitRun(s[1..]) else 0
  }

  /** Decimal notation of a natural number, without leading zeros. */
  function NatToString(n: nat): (r: string)
    ensures |r| >= 1 && AllDigits(r)
  {
    if n < 10 then [DigitChar(n)] else NatToString(n / 10) + [DigitChar(n % 10)]
  }

  /** String(n) for an integer-valued number: its decimal notation, with a leading '-' when negative. */
  function IntToString(n: int): (r: string)
    ensures |r| >= 1
    ensures n >= 0 ==> AllDigits(r)
    ensures n < 0 ==> r[0] == '-' && AllDigits(r[1..])
  {
    if n < 0 then "-" + NatToString(-n) else NatToString(n)
  }

  /**
   * parseInt(s, 10): skip leading white space, take an optional sign, then the
   * longest run of decimal digits; None stands for NaN (no digit there).
   */
  function ParseInt(s: string): (r: Option<int>)
    ensures r.None? <==> (var t := TrimStart(s); var b := if t != [] && (t[0] == '-' || t[0] == '+') then t[1..] else t; b == [] || !IsDigit(b[0]))
    ensures r.Some? && r.value < 0 ==> TrimStart(s)[0] == '-'
  {
    var t := TrimStart(s);
    var negative := t != [] && t[0] == '-';
    var body := if t != [] && (t[0] == '-' || t[0] == '+') then t[1..] else t;
    var k := DigitRun(body);
    var v: int := if k == 0 then 0 else DigitsValue(body[..k]);
    if k == 0 then None else Some(if negative then -v else v)
  }

  /** Reading back the decimal notation of a natural number gives the number. */
  lemma {:induction false} NatToStringValue(n: nat)
    ensures DigitsValue(NatToString(n)) == n
  {
    if n >= 10 {
      var d := NatToString(n);
      assert d[..|d| - 1] == NatToString(n / 10);
      NatToStringValue(n / 10);
    }
  }

  /** All of a string of digits is one digit run. */
  lemma {:induction false} DigitRunOfDigits(d: string)
    requires AllDigits(d)
    ensures DigitRun(d) == |d|
  {
    if d != [] {
      DigitRunOfDigits(d[1..]);
    }
  }

  /** Reading the digits of NatToString(m) back, as parseInt does after the sign. */
  lemma ReadNatToString(m: nat)
    ensures var d := NatToString(m); DigitRun(d) == |d| && DigitsValue(d[..DigitRun(d)]) == m
  {
    var d := NatToString(m);
    DigitRunOfDigits(d);
    assert d[..|d|] == d;
    NatToStringValue(m);
  }

  /** parseInt inverts String on integers: the round trip parseInt(String(n), 10) == n. */
  lemma IntToStringRoundTrip(n: int)
    ensures ParseInt(IntToString(n)) == Some(n)
  {
    var s := IntToString(n);
    assert TrimStart(s) == s;
    var m: nat := if n < 0 then -n else n;
    ReadNatToString(m);
    if n < 0 {
      assert s[1..] == NatToString(m);
    }
  }

  // ---------------------------------------------------------------------------
  // JSON values and truthiness

  /** A parsed JSON value; the contents of arrays and objects are left out, since every array and object is truthy. */
  datatype Json = JNull | JBool(b: bool) | JNumber(n: int) | JString(s: string) | JArray | JObject

  /** JavaScript truthiness of a JSON value. */
  predicate Truthy(v: Json) {
    match v
    case JNull => false
    case JBool(b) => b
    case JNumber(n) => n != 0
    case JString(s) => s != ""
    case JArray => true
    case JObject => true
  }

  /** Boolean(x) for a property that may be absent (`undefined` is falsy). */
  predicate BooleanOf(v: Option<Json>) {
    v.Some? && Truthy(v.value)
  }

  // ---------------------------------------------------------------------------
  // Array.prototype.slice

  /** The index rule of `slice`: a negative index counts from the end; the result is clamped into [0, len]. */
  function RelativeIndex(i: int, len: nat): (k: nat)
    ensures k <= len
    ensures 0 <= i ==> k == if i < len then i else len
    ensures i < 0 ==> k == if len + i < 0 then 0 else len + i
  {
    if i < 0 then (if len + i < 0 then 0 else len + i) else if i > len then len else i
  }

  /**
   * Array.prototype.slice(start, end): the elements from the start index up
   * to, not including, the end index, both indexes taken by RelativeIndex;
   * empty when the end index is not after the start index.
   */
  function Slice<T>(s: seq<T>, start: int, end: int): (r: seq<T>)
    ensures |r| <= |s|
    ensures r <= s[RelativeIndex(start, |s|)..]
    ensures |r| == if RelativeIndex(start, |s|) < RelativeIndex(end, |s|)
                   then RelativeIndex(end, |s|) - RelativeIndex(start, |s|) else 0
  {
    var a := RelativeIndex(start, |s|);
    var b := RelativeIndex(end, |s|);
    if a < b then s[a..b] else []
  }

  /** With a non-negative start and a length, `slice` is the window of at most `len` elements starting at `start`. */
  lemma SliceWindow<T>(s: seq<T>, start: nat, len: nat)
    ensures var a := if start < |s| then start else |s|;
            var b := if start + len < |s| then start + len else |s|;
            Slice(s, start, start + len) == s[a..b]
  {
  }
}
