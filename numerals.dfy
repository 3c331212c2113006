/** Decimal numerals: the integer and float literals an annotation token may be,
    the canonical spelling of an integer, and the value a literal denotes. */
module Numerals {

  predicate IsDigit(c: char) {
    '0' <= c <= '9'
  }

  predicate IsSign(c: char) {
    c == '-' || c == '+'
  }

  predicate AllDigits(s: string) {
    forall i :: 0 <= i < |s| ==> IsDigit(s[i])
  }

  function DigitValue(c: char): nat
    requires IsDigit(c)
  {
    c as int - '0' as int
  }

  function DigitChar(d: nat): (c: char)
    requires d < 10
    ensures IsDigit(c) && DigitValue(c) == d
  {
    (d + '0' as int) as char
  }

  /** The value of a string of decimal digits (most significant first). */
  function DigitsValue(s: string): nat
    requires AllDigits(s)
  {
    if s == [] then 0 else DigitsValue(s[..|s| - 1]) * 10 + DigitValue(s[|s| - 1])
  }

  /** A decimal spelling of a natural number; reading it back gives the number. */
  function NatToDigits(n: nat): (s: string)
    ensures s != [] && AllDigits(s)
    ensures DigitsValue(s) == n
  {
    if n < 10 then [DigitChar(n)]
    else
      var prefix := NatToDigits(n / 10);
      var s := prefix + [DigitChar(n % 10)];
      assert s[..|s| - 1] == prefix;
      s
  }

  /** An optional sign followed by at least one digit. */
  predicate IsIntLiteral(s: string) {
    if s != [] && IsSign(s[0]) then |s| >= 2 && AllDigits(s[1..]) else s != [] && AllDigits(s)
  }

  function IntLiteralValue(s: string): int
    requires IsIntLiteral(s)
  {
    if s[0] == '-' then -(DigitsValue(s[1..]) as int)
    else if s[0] == '+' then DigitsValue(s[1..])
    else DigitsValue(s)
  }

  /** Base-10 digits, with a leading `-` for a negative number. */
  function IntToLiteral(n: int): (s: string)
    ensures IsIntLiteral(s) && IntLiteralValue(s) == n
    ensures forall i :: 0 <= i < |s| ==> IsDigit(s[i]) || s[i] == '-'
  {
    if n < 0 then
      var digits := NatToDigits(-n);
      assert ("-" + digits)[1..] == digits;
      "-" + digits
    else NatToDigits(n)
  }

  /** The position of the first `c` in `s`, or `|s|` when there is none. */
  function IndexOf(s: string, c: char): (k: nat)
    ensures k <= |s|
    ensures forall j :: 0 <= j < k ==> s[j] != c
    ensures k < |s| ==> s[k] == c
  {
    if s == [] || s[0] == c then 0 else 1 + IndexOf(s[1..], c)
  }

  /** When `c` first occurs at position `n`, that is the position IndexOf finds. */
  lemma IndexOfAt(s: string, c: char, n: nat)
    requires n < |s| && s[n] == c
    requires forall j :: 0 <= j < n ==> s[j] != c
    ensures IndexOf(s, c) == n
  {
  }

  /** Digits, one decimal point, digits; at least one digit in all. */
  predicate IsDecimalBody(b: string) {
    var k := IndexOf(b, '.');
    2 <= |b| && k < |b| && AllDigits(b[..k]) && AllDigits(b[k + 1..])
  }

  /** An optional sign followed by a decimal with a point: `3.142`, `-0.5`, `7.`. */
  predicate IsFloatLiteral(s: string) {
    if s != [] && IsSign(s[0]) then IsDecimalBody(s[1..]) else IsDecimalBody(s)
  }

  /** A float literal is made of digits, signs and a point only. */
  lemma FloatLiteralChars(s: string)
    requires IsFloatLiteral(s)
    ensures s != []
    ensures forall i :: 0 <= i < |s| ==> IsDigit(s[i]) || IsSign(s[i]) || s[i] == '.'
  {
    var signed := s != [] && IsSign(s[0]);
    var b := if signed then s[1..] else s;
    var k := IndexOf(b, '.');
    forall j | 0 <= j < |b|
      ensures IsDigit(b[j]) || b[j] == '.'
    {
      if j < k {
        assert b[..k][j] == b[j];
      } else if j > k {
        assert b[k + 1..][j - k - 1] == b[j];
      }
    }
    forall i | 0 <= i < |s|
      ensures IsDigit(s[i]) || IsSign(s[i]) || s[i] == '.'
    {
      if signed && i > 0 {
        assert s[i] == b[i - 1];
      }
    }
  }

  /** No string is both an integer literal and a float literal: the decimal
      point decides between the two. */
  lemma IntAndFloatLiteralsDisjoint(s: string)
    ensures IsIntLiteral(s) ==> !IsFloatLiteral(s)
  {
    if IsIntLiteral(s) {
      var b := if IsSign(s[0]) then s[1..] else s;
      assert AllDigits(b);
      assert IndexOf(b, '.') == |b|;
    }
  }
}
