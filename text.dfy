/** Character and string helpers shared by the puzzle reader, the encoder and
    the decoder: .NET white space, the `Trim` of a line, ASCII digits, the
    `c - '0'` conversion of a character, and the decimal rendering of an `int`
    inside an interpolated string such as `$"H{i}{j}{d}"`. */
module Text {

  /** `char.IsWhiteSpace`: the characters of the Unicode space, line and
      paragraph separator categories plus U+0009..U+000D and U+0085. */
  predicate IsWhiteSpace(c: char) {
    c == ' ' || ('\t' <= c <= '\r') || c == '\U{0085}' || c == '\U{00A0}'
    || c == '\U{1680}' || ('\U{2000}' <= c <= '\U{200A}') || c == '\U{2028}'
    || c == '\U{2029}' || c == '\U{202F}' || c == '\U{205F}' || c == '\U{3000}'
  }

  /** `String.TrimStart()`: drops the leading white space. */
  function TrimStart(s: string): (r: string)
    ensures |r| <= |s| && r == s[|s| - |r|..]
    ensures r == [] || !IsWhiteSpace(r[0])
    ensures forall k :: 0 <= k < |s| - |r| ==> IsWhiteSpace(s[k])
  {
    if s == [] || !IsWhiteSpace(s[0]) then s else TrimStart(s[1..])
  }

  /** `String.TrimEnd()`: drops the trailing white space. */
  function TrimEnd(s: string): (r: string)
    ensures |r| <= |s| && r == s[..|r|]
    ensures r == [] || !IsWhiteSpace(r[|r| - 1])
    ensures forall k :: |r| <= k < |s| ==> IsWhiteSpace(s[k])
  {
    if s == [] || !IsWhiteSpace(s[|s| - 1]) then s else TrimEnd(s[..|s| - 1])
  }

  /** `String.Trim()`. */
  function Trim(s: string): (r: string)
    ensures |r| <= |s|
    ensures r == [] || (!IsWhiteSpace(r[0]) && !IsWhiteSpace(r[|r| - 1]))
  {
    TrimEnd(TrimStart(s))
  }

  /** The ASCII digits '0'..'9' (what `\d` matches in this model). */
  predicate IsDigit(c: char) {
    '0' <= c <= '9'
  }

  /** `Regex("\\d+").IsMatch(s)`: some character of `s` is a digit. */
  predicate HasDigit(s: string) {
    exists k :: 0 <= k < |s| && IsDigit(s[k])
  }

  /** `c - '0'` in C#: the difference of the two character codes, so any
      character, not only a digit, gives a value (here a character is a
      Unicode scalar value). */
  function CharValue(c: char): int {
    c as int - '0' as int
  }

  /** The digit character of a value 0..9. */
  function DigitChar(n: int): (c: char)
    requires 0 <= n <= 9
    ensures IsDigit(c) && CharValue(c) == n
  {
    (n + '0' as int) as char
  }

  /** Decimal rendering of a natural number, most significant digit first. */
  function NatToString(n: nat): (r: string)
    ensures |r| >= 1
    ensures forall k :: 0 <= k < |r| ==> IsDigit(r[k])
    decreases n
  {
    if n < 10 then [DigitChar(n)] else NatToString(n / 10) + [DigitChar(n % 10)]
  }

  /** `n.ToString()` for an `int` in the invariant culture: a leading '-' for
      negative values, then the decimal digits. */
  function IntToString(n: int): (r: string)
    ensures |r| >= 1
    ensures r[0] == '-' <==> n < 0
    ensures forall k :: (if n < 0 then 1 else 0) <= k < |r| ==> IsDigit(r[k])
  {
    if n < 0 then "-" + NatToString(-n) else NatToString(n)
  }

  /** The value of a string of decimal digits, most significant first. */
  function ParseNat(s: string): nat
    requires forall k :: 0 <= k < |s| ==> IsDigit(s[k])
  {
    if s == [] then 0
    else
      assert IsDigit(s[|s| - 1]);
      10 * ParseNat(s[..|s| - 1]) + CharValue(s[|s| - 1])
  }

  /** The value of an optional '-' followed by decimal digits. */
  function ParseInt(s: string): int
    requires s != [] && forall k :: (if s[0] == '-' then 1 else 0) <= k < |s| ==> IsDigit(s[k])
  {
    if s[0] == '-' then -(ParseNat(s[1..]) as int) else ParseNat(s)
  }

  /** Reading the decimal rendering back gives the number. */
  lemma {:induction false} NatToStringParses(n: nat)
    ensures ParseNat(NatToString(n)) == n
    decreases n
  {
    var r := NatToString(n);
    if n >= 10 {
      NatToStringParses(n / 10);
      assert r[..|r| - 1] == NatToString(n / 10);
    }
  }

  /** Round trip of the rendering of any `int`, negative values included. */
  lemma IntToStringParses(n: int)
    ensures ParseInt(IntToString(n)) == n
  {
    if n < 0 {
      NatToStringParses(-n);
      assert IntToString(n)[1..] == NatToString(-n);
    } else {
      NatToStringParses(n);
    }
  }

  /** Distinct values render differently. */
  lemma IntToStringInjective(a: int, b: int)
    ensures IntToString(a) == IntToString(b) ==> a == b
  {
    IntToStringParses(a);
    IntToStringParses(b);
  }

  /** A value 0..9 renders as its single digit, which `c - '0'` reads back. */
  lemma SingleDigit(n: int)
    requires 0 <= n <= 9
    ensures IntToString(n) == [DigitChar(n)]
    ensures CharValue(IntToString(n)[0]) == n
  {
  }

  /** Distinct values 0..9 render as distinct characters. */
  lemma DigitCharInjective(a: int, b: int)
    requires 0 <= a <= 9 && 0 <= b <= 9
    ensures DigitChar(a) == DigitChar(b) <==> a == b
  {
  }
}
