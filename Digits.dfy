/** Decimal digit strings: reading them as numbers and writing numbers as
    them, the way Python's `int()`, `str()` and the `%Y`/`%m`/`%d` and
    `{:02d}` formats do for non-negative values. */
module Digits {

  predicate IsDigit(c: char) {
    '0' <= c <= '9'
  }

  predicate AllDigits(s: string) {
    forall i :: 0 <= i < |s| ==> IsDigit(s[i])
  }

  function DigitValue(c: char): (v: nat)
    requires IsDigit(c)
    ensures v < 10
  {
    c as int - '0' as int
  }

  function DigitChar(v: nat): (c: char)
    requires v < 10
    ensures IsDigit(c) && DigitValue(c) == v
  {
    ('0' as int + v) as char
  }

  function Pow10(n: nat): (r: nat)
    ensures r >= 1
  {
    if n == 0 then 1 else 10 * Pow10(n - 1)
  }

  /** The number a string of decimal digits denotes (leading zeros allowed). */
  function Value(s: string): (v: nat)
    requires AllDigits(s)
    ensures v < Pow10(|s|)
  {
    if s == [] then 0
    else
      var v' := Value(s[..|s| - 1]);
      assert (v' + 1) * 10 <= Pow10(|s| - 1) * 10;
      v' * 10 + DigitValue(s[|s| - 1])
  }

  lemma ValueSnoc(s: string, c: char)
    requires AllDigits(s) && IsDigit(c)
    ensures AllDigits(s + [c]) && Value(s + [c]) == Value(s) * 10 + DigitValue(c)
  {
    assert (s + [c])[..|s|] == s;
  }

  lemma ValueOfTwo(s: string)
    requires |s| == 2 && AllDigits(s)
    ensures Value(s) == 10 * DigitValue(s[0]) + DigitValue(s[1])
  {
    assert s[..1][..0] == [];
  }

  /** `n` written with exactly `width` digits, zero-padded on the left. */
  function Padded(n: nat, width: nat): (s: string)
    requires n < Pow10(width)
    ensures |s| == width && AllDigits(s) && Value(s) == n
  {
    if width == 0 then []
    else
      var p := Padded(n / 10, width - 1);
      ValueSnoc(p, DigitChar(n % 10));
      p + [DigitChar(n % 10)]
  }

  /** Writing back the value of a digit string at its own width gives the
      string again: a fixed-width digit field is read injectively. */
  lemma {:induction false} PaddedValue(s: string)
    requires AllDigits(s)
    ensures Padded(Value(s), |s|) == s
  {
    if s != [] {
      var init, last := s[..|s| - 1], s[|s| - 1];
      var v := Value(s);
      assert v == Value(init) * 10 + DigitValue(last);
      assert v / 10 == Value(init) && v % 10 == DigitValue(last);
      assert DigitChar(v % 10) == last;
      PaddedValue(init);
      assert s == init + [last];
    }
  }

  /** `n` in decimal without leading zeros, as Python's `str(n)`. */
  function Decimal(n: nat): (s: string)
    ensures s != [] && AllDigits(s) && Value(s) == n
    ensures |s| > 1 ==> s[0] != '0'
  {
    if n < 10 then [DigitChar(n)]
    else
      var p := Decimal(n / 10);
      ValueSnoc(p, DigitChar(n % 10));
      p + [DigitChar(n % 10)]
  }
}
