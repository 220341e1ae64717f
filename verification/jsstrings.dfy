/** The two pieces of JavaScript string semantics the route handler relies
    on: `String.prototype.length`, which counts UTF-16 code units, and the
    decimal rendering of a status code inside a template literal. */
module JsStrings {

  /** High (leading) and low (trailing) surrogate code units. */
  predicate IsHighSurrogate(u: int) { 0xD800 <= u <= 0xDBFF }

  predicate IsLowSurrogate(u: int) { 0xDC00 <= u <= 0xDFFF }

  predicate IsCodeUnit(u: int) { 0 <= u <= 0xFFFF }

  /** The UTF-16 code units of one character: itself below U+10000, a
      surrogate pair above. */
  function EncodeChar(c: char): (units: seq<int>)
    ensures |units| == 1 || |units| == 2
    ensures forall k :: 0 <= k < |units| ==> IsCodeUnit(units[k])
    ensures |units| == 1 <==> c as int < 0x10000
    ensures |units| == 1 ==> !IsHighSurrogate(units[0]) && !IsLowSurrogate(units[0])
    ensures |units| == 2 ==> IsHighSurrogate(units[0]) && IsLowSurrogate(units[1])
  {
    if c as int < 0x10000 then [c as int]
    else
      var v := c as int - 0x10000;
      [0xD800 + v / 0x400, 0xDC00 + v % 0x400]
  }

  /** The UTF-16 form of a string, as a JavaScript engine stores it. */
  function Utf16(s: string): (units: seq<int>)
    ensures forall k :: 0 <= k < |units| ==> IsCodeUnit(units[k])
  {
    if |s| == 0 then [] else EncodeChar(s[0]) + Utf16(s[1..])
  }

  /** `s.length` in JavaScript: one unit per character, two for a character
      outside the Basic Multilingual Plane. */
  function Utf16Length(s: string): (n: nat)
    ensures |s| <= n <= 2 * |s|
  {
    if |s| == 0 then 0
    else (if s[0] as int < 0x10000 then 1 else 2) + Utf16Length(s[1..])
  }

  /** The length counts exactly the code units of the UTF-16 form. */
  lemma {:induction false} Utf16LengthCountsUnits(s: string)
    ensures |Utf16(s)| == Utf16Length(s)
    decreases |s|
  {
    if |s| > 0 {
      Utf16LengthCountsUnits(s[1..]);
    }
  }

  /** A string of Basic Multilingual Plane characters has as many code units
      as characters. */
  lemma {:induction false} Utf16LengthOfBmp(s: string)
    requires forall k :: 0 <= k < |s| ==> s[k] as int < 0x10000
    ensures Utf16Length(s) == |s|
    decreases |s|
  {
    if |s| > 0 {
      Utf16LengthOfBmp(s[1..]);
    }
  }

  /** Decoding UTF-16: a high surrogate followed by a low one is one
      character; a lone surrogate becomes U+FFFD. */
  function DecodeUtf16(units: seq<int>): (s: string)
    requires forall k :: 0 <= k < |units| ==> IsCodeUnit(units[k])
    decreases |units|
  {
    if |units| == 0 then []
    else if |units| >= 2 && IsHighSurrogate(units[0]) && IsLowSurrogate(units[1]) then
      [(0x10000 + (units[0] - 0xD800) * 0x400 + (units[1] - 0xDC00)) as char] + DecodeUtf16(units[2..])
    else if IsHighSurrogate(units[0]) || IsLowSurrogate(units[0]) then
      ['\U{FFFD}'] + DecodeUtf16(units[1..])
    else
      assert IsCodeUnit(units[0]);
      [units[0] as char] + DecodeUtf16(units[1..])
  }

  lemma DecodeEncodedChar(c: char, rest: seq<int>)
    requires forall k :: 0 <= k < |rest| ==> IsCodeUnit(rest[k])
    ensures forall k :: 0 <= k < |EncodeChar(c) + rest| ==> IsCodeUnit((EncodeChar(c) + rest)[k])
    ensures DecodeUtf16(EncodeChar(c) + rest) == [c] + DecodeUtf16(rest)
  {
    var u := EncodeChar(c) + rest;
    if c as int < 0x10000 {
      assert u[1..] == rest;
    } else {
      var v := c as int - 0x10000;
      assert v == (v / 0x400) * 0x400 + v % 0x400;
      assert u[2..] == rest;
    }
  }

  /** Decoding undoes encoding: the UTF-16 form loses nothing. */
  lemma {:induction false} Utf16RoundTrip(s: string)
    ensures DecodeUtf16(Utf16(s)) == s
    decreases |s|
  {
    if |s| > 0 {
      Utf16RoundTrip(s[1..]);
      DecodeEncodedChar(s[0], Utf16(s[1..]));
      assert [s[0]] + s[1..] == s;
    }
  }

  predicate IsDigit(c: char) { '0' <= c <= '9' }

  predicate AllDigits(s: string) {
    forall k :: 0 <= k < |s| ==> IsDigit(s[k])
  }

  function DigitChar(d: nat): (c: char)
    requires d < 10
    ensures IsDigit(c)
  {
    ('0' as int + d) as char
  }

  /** A status code inside a template literal: its decimal digits, with no
      leading zero. */
  function DecimalString(n: nat): (r: string)
    ensures |r| > 0 && AllDigits(r)
    ensures r[0] == '0' ==> n == 0
    decreases n
  {
    if n < 10 then [DigitChar(n)] else DecimalString(n / 10) + [DigitChar(n % 10)]
  }

  /** The value of a string of decimal digits. */
  function ParseDecimal(s: string): nat
    requires AllDigits(s)
    decreases |s|
  {
    if |s| == 0 then 0
    else 10 * ParseDecimal(s[..|s| - 1]) + (s[|s| - 1] as int - '0' as int)
  }

  /** Reading the digits back gives the number that was rendered. */
  lemma {:induction false} DecimalRoundTrip(n: nat)
    ensures ParseDecimal(DecimalString(n)) == n
    decreases n
  {
    var r := DecimalString(n);
    if n >= 10 {
      DecimalRoundTrip(n / 10);
      assert r[..|r| - 1] == DecimalString(n / 10);
    }
  }

  /** Different numbers render differently. */
  lemma DecimalInjective(m: nat, n: nat)
    requires DecimalString(m) == DecimalString(n)
    ensures m == n
  {
    DecimalRoundTrip(m);
    DecimalRoundTrip(n);
  }
}
