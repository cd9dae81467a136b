/**
 * The two pieces of JavaScript string behaviour the editor's handlers rely on:
 * `String.prototype.trim` (section 22.1.3.32 of the ECMAScript 2024 Language
 * Specification, which strips the WhiteSpace and LineTerminator code points of
 * sections 12.2 and 12.3) and the decimal rendering of a non-negative integer
 * that `Date.now().toString()` produces.
 */
module JsString {

  /** WhiteSpace (section 12.2, including every Unicode "Zs" code point) or LineTerminator (section 12.3). */
  predicate IsWhiteSpace(c: char) {
    var n := c as int;
    n == 0x09 || n == 0x0A || n == 0x0B || n == 0x0C || n == 0x0D || n == 0x20 || n == 0xA0 ||
    n == 0x1680 || (0x2000 <= n <= 0x200A) || n == 0x2028 || n == 0x2029 || n == 0x202F ||
    n == 0x205F || n == 0x3000 || n == 0xFEFF
  }

  /** The number of white-space characters `s` starts with. */
  function LeadingSpace(s: string): (k: nat)
    ensures k <= |s|
    ensures forall i :: 0 <= i < k ==> IsWhiteSpace(s[i])
    ensures k < |s| ==> !IsWhiteSpace(s[k])
  {
    if s != [] && IsWhiteSpace(s[0]) then
      var k := LeadingSpace(s[1..]);
      assert forall i :: 1 <= i < |s| ==> s[i] == s[1..][i - 1];
      1 + k
    else 0
  }

  /** The number of white-space characters `s` ends with. */
  function TrailingSpace(s: string): (k: nat)
    ensures k <= |s|
    ensures forall i :: |s| - k <= i < |s| ==> IsWhiteSpace(s[i])
    ensures k < |s| ==> !IsWhiteSpace(s[|s| - k - 1])
  {
    if s != [] && IsWhiteSpace(s[|s| - 1]) then
      var k := TrailingSpace(s[..|s| - 1]);
      assert forall i :: 0 <= i < |s| - 1 ==> s[i] == s[..|s| - 1][i];
      1 + k
    else 0
  }

  /** `s.trim()`: the result is empty exactly when `s` is all white space, and otherwise starts and ends with non-white space. */
  function Trim(s: string): (r: string)
    ensures r == [] || (!IsWhiteSpace(r[0]) && !IsWhiteSpace(r[|r| - 1]))
    ensures r == [] <==> forall i :: 0 <= i < |s| ==> IsWhiteSpace(s[i])
  {
    var a := LeadingSpace(s);
    if a == |s| then []
    else
      var b := |s| - TrailingSpace(s);
      assert a < b;
      s[a..b]
  }

  /** `Trim(s)` is the slice of `s` between a white-space prefix and a white-space suffix. */
  lemma TrimIsSlice(s: string)
    ensures exists a, b ::
      && 0 <= a <= b <= |s| && Trim(s) == s[a..b]
      && (forall i :: 0 <= i < a ==> IsWhiteSpace(s[i]))
      && (forall i :: b <= i < |s| ==> IsWhiteSpace(s[i]))
  {
    var a := LeadingSpace(s);
    var b := if a == |s| then a else |s| - TrailingSpace(s);
    assert Trim(s) == s[a..b];
  }

  /** Trimming twice is trimming once. */
  lemma TrimIdempotent(s: string)
    ensures Trim(Trim(s)) == Trim(s)
  {
    var r := Trim(s);
    if r != [] {
      assert LeadingSpace(r) == 0 && TrailingSpace(r) == 0;
      assert r[0..|r|] == r;
    }
  }

  /** The character of decimal digit `d`. */
  function DigitChar(d: nat): (c: char)
    requires d < 10
    ensures '0' <= c <= '9' && c as int - '0' as int == d
  {
    (48 + d) as char
  }

  /** The number a string of decimal digits denotes, most significant digit first. */
  function DigitsValue(s: string): int {
    if s == [] then 0 else 10 * DigitsValue(s[..|s| - 1]) + (s[|s| - 1] as int - '0' as int)
  }

  /** A decimal numeral without leading zeros: the form `Number.prototype.toString` gives a non-negative integer. */
  predicate Canonical(s: string) {
    && 1 <= |s|
    && (forall i :: 0 <= i < |s| ==> '0' <= s[i] <= '9')
    && (|s| > 1 ==> s[0] != '0')
  }

  /**
   * The decimal rendering of `n`, as `Number.prototype.toString` gives it for
   * an integer below 10^21: a canonical numeral that denotes `n`. Distinct
   * numbers therefore have distinct renderings.
   */
  function DecimalString(n: nat): (s: string)
    ensures Canonical(s) && DigitsValue(s) == n
    ensures |s| == 1 <==> n < 10
    ensures s[0] == '0' <==> n == 0
  {
    if n < 10 then
      var s := [DigitChar(n)];
      assert s[..0] == [];
      s
    else
      var p := DecimalString(n / 10);
      var s := p + [DigitChar(n % 10)];
      assert s[..|s| - 1] == p;
      s
  }

  /** For `v >= 1`, the numeral of `10 * v + d` is that of `v` followed by digit `d`. */
  lemma DecimalStringAppend(v: nat, d: nat)
    requires 1 <= v && d < 10
    ensures DecimalString(10 * v + d) == DecimalString(v) + [DigitChar(d)]
  {
    var n := 10 * v + d;
    assert n / 10 == v && n % 10 == d;
  }

  /** A digit character is the character of its own digit. */
  lemma DigitCharOf(c: char)
    requires '0' <= c <= '9'
    ensures DigitChar(c as int - '0' as int) == c
  {
  }

  /** A numeral minus its last digit is still canonical, with the same first digit. */
  lemma CanonicalPrefix(s: string)
    requires Canonical(s) && |s| > 1
    ensures Canonical(s[..|s| - 1]) && s[..|s| - 1][0] == s[0]
  {
    assert forall i :: 0 <= i < |s| - 1 ==> s[..|s| - 1][i] == s[i];
  }

  /** A numeral's value is ten times that of its prefix plus its last digit. */
  lemma DigitsValueLast(s: string)
    requires |s| >= 1
    ensures DigitsValue(s) == 10 * DigitsValue(s[..|s| - 1]) + (s[|s| - 1] as int - '0' as int)
  {
  }

  /** Conversely, every canonical numeral is the rendering of the number it denotes. */
  lemma {:induction false} DecimalStringOfDigits(s: string)
    requires Canonical(s)
    ensures DigitsValue(s) >= 0 && DecimalString(DigitsValue(s)) == s
  {
    var last := s[|s| - 1];
    var d := last as int - '0' as int;
    var p := s[..|s| - 1];
    assert s == p + [last];
    DigitCharOf(last);
    DigitsValueLast(s);
    if |s| == 1 {
      assert p == [];
      assert DecimalString(d) == [last];
    } else {
      CanonicalPrefix(s);
      DecimalStringOfDigits(p);
      var v, n := DigitsValue(p), DigitsValue(s);
      DecimalStringAppend(v, d);
      assert n == 10 * v + d;
      assert DecimalString(n) == p + [DigitChar(d)];
    }
  }
}
