/**
 * Decimal numerals as the program writes and reads them: `str(n)` for the
 * answer buttons and `int(s)` for scoring an answer.  Python's `int` accepts
 * the decimal digits of every script; the program only ever produces ASCII
 * digits and the Persian/Arabic digits of its display table, so the model
 * knows those three Unicode blocks.
 */
module Numerals {
  import opened Wrappers

  /** The value `int` gives a single digit character, or None for a non-digit.
      Covers ASCII, Arabic-Indic (U+0660..U+0669) and Extended Arabic-Indic
      (U+06F0..U+06F9) digits. */
  function DigitValue(c: char): (r: Option<nat>)
    ensures r.Some? ==> r.value < 10
  {
    if '0' <= c <= '9' then Some(c as int - '0' as int)
    else if '\U{0660}' <= c <= '\U{0669}' then Some(c as int - 0x0660)
    else if '\U{06F0}' <= c <= '\U{06F9}' then Some(c as int - 0x06F0)
    else None
  }

  predicate IsDigit(c: char) {
    DigitValue(c).Some?
  }

  predicate IsAsciiDigit(c: char) {
    '0' <= c <= '9'
  }

  /** Every character is a digit of one of the known scripts, stated from the
      last character back as `DigitsValue` reads it. */
  predicate IsNumeral(s: string) {
    s == [] || (IsNumeral(s[..|s| - 1]) && IsDigit(s[|s| - 1]))
  }

  /** The character-by-character reading of `IsNumeral`. */
  lemma {:induction false} NumeralDigits(s: string)
    ensures IsNumeral(s) <==> forall i :: 0 <= i < |s| ==> IsDigit(s[i])
  {
    if s != [] {
      var init := s[..|s| - 1];
      NumeralDigits(init);
      assert forall i :: 0 <= i < |init| ==> init[i] == s[i];
    }
  }

  predicate IsAsciiNumeral(s: string) {
    forall i :: 0 <= i < |s| ==> IsAsciiDigit(s[i])
  }

  /** Value of a digit string read most significant digit first (0 when empty). */
  function DigitsValue(s: string): nat
    requires IsNumeral(s)
  {
    if s == [] then 0 else 10 * DigitsValue(s[..|s| - 1]) + DigitValue(s[|s| - 1]).value
  }

  /** `int(s)`; None where Python would raise (empty or non-digit text). */
  function ParseInt(s: string): Option<nat> {
    if s != [] && IsNumeral(s) then Some(DigitsValue(s)) else None
  }

  function AsciiDigit(d: nat): (c: char)
    requires d < 10
    ensures IsAsciiDigit(c) && DigitValue(c) == Some(d)
  {
    ('0' as int + d) as char
  }

  /** `str(n)` for a non-negative integer: its ASCII decimal digits. */
  function DecimalString(n: nat): (s: string)
    ensures s != [] && IsAsciiNumeral(s)
    ensures n < 10 <==> |s| == 1
  {
    if n < 10 then [AsciiDigit(n)] else DecimalString(n / 10) + [AsciiDigit(n % 10)]
  }

  /** Two strings whose characters are digits of equal values, position by
      position, denote the same number, whatever scripts they are written in. */
  lemma {:induction false} SameDigitsSameValue(s: string, t: string)
    requires IsNumeral(s) && |s| == |t|
    requires forall i :: 0 <= i < |s| ==> DigitValue(t[i]) == DigitValue(s[i])
    ensures IsNumeral(t) && ParseInt(t) == ParseInt(s)
  {
    if s != [] {
      var n := |s| - 1;
      SameDigitsSameValue(s[..n], t[..n]);
      assert DigitValue(t[n]) == DigitValue(s[n]);
      assert DigitsValue(s[..n]) == DigitsValue(t[..n]) by {
        if n > 0 { assert ParseInt(s[..n]) == ParseInt(t[..n]); }
      }
    }
  }

  /** Reading back what `str` wrote gives the number: `int(str(n)) == n`. */
  lemma {:induction false} ParseDecimalString(n: nat)
    ensures ParseInt(DecimalString(n)) == Some(n)
  {
    var s := DecimalString(n);
    if n >= 10 {
      ParseDecimalString(n / 10);
      assert s[..|s| - 1] == DecimalString(n / 10);
      assert IsDigit(s[|s| - 1]);
      assert DigitsValue(s) == 10 * (n / 10) + n % 10;
    } else {
      assert s[..0] == [] && IsDigit(s[0]);
      assert IsNumeral(s);
      assert DigitsValue(s) == 10 * DigitsValue([]) + n;
    }
  }
}
