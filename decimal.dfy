/** The JavaScript number and string built-ins the duration encoding relies on,
    restricted to natural numbers and strings of decimal digits:
    `parseInt(s, 10)` on a digit string, `Number.prototype.toString()` on a
    non-negative integer, and `String.prototype.padStart`. */
module Decimal {

  predicate IsDigit(c: char) {
    '0' <= c <= '9'
  }

  predicate IsDigits(s: string) {
    forall i | 0 <= i < |s| :: IsDigit(s[i])
  }

  /** A text field that only ever holds decimal digits (possibly none). */
  type DigitString = s: string | IsDigits(s) witness ""

  function DigitValue(c: char): (d: nat)
    requires IsDigit(c)
    ensures d < 10
  {
    c as int - '0' as int
  }

  function DigitChar(d: nat): (c: char)
    requires d < 10
    ensures IsDigit(c) && DigitValue(c) == d
  {
    ('0' as int + d) as char
  }

  lemma DigitsPrefix(s: string, k: nat)
    requires IsDigits(s) && k <= |s|
    ensures IsDigits(s[..k]) && IsDigits(s[k..])
  {
    assert forall i | 0 <= i < k :: s[..k][i] == s[i];
    assert forall i | 0 <= i < |s| - k :: s[k..][i] == s[k + i];
  }

  /** Ten to the power `k`. */
  function Pow10(k: nat): (p: nat)
    ensures p >= 1
  {
    if k == 0 then 1 else 10 * Pow10(k - 1)
  }

  /** `parseInt(s, 10)` for a string made only of decimal digits: the number
      the digits denote, most significant first, which is below ten to the
      power of the number of digits. The empty string denotes 0 here; the
      callers never pass it. */
  function Value(s: string): (v: nat)
    requires IsDigits(s)
    ensures v < Pow10(|s|)
    decreases |s|
  {
    if s == [] then 0
    else
      DigitsPrefix(s, |s| - 1);
      10 * Value(s[..|s| - 1]) + DigitValue(s[|s| - 1])
  }

  /** A two-digit string denotes ten times its first digit plus its second. */
  lemma ValueOfTwoDigits(s: string)
    requires IsDigits(s) && |s| == 2
    ensures Value(s) == 10 * DigitValue(s[0]) + DigitValue(s[1])
    ensures Value(s) < 100
  {
    var p := s[..1];
    assert s[..|s| - 1] == p;
    assert Value(p) == DigitValue(s[0]) by {
      assert p[..|p| - 1] == [];
    }
  }

  /** `n.toString()` for a non-negative integer: its decimal digits, with no
      leading zero except for 0 itself. */
  function ToDecimal(n: nat): (s: string)
    ensures IsDigits(s) && |s| >= 1
    ensures (s[0] == '0') == (n == 0)
    decreases n
  {
    if n < 10 then [DigitChar(n)]
    else ToDecimal(n / 10) + [DigitChar(n % 10)]
  }

  /** `fill` repeated `k` times. */
  function Repeat(fill: char, k: nat): (r: string)
    ensures |r| == k
    ensures forall i | 0 <= i < k :: r[i] == fill
  {
    if k == 0 then [] else Repeat(fill, k - 1) + [fill]
  }

  /** `s.padStart(width, fill)` with a one-character fill: `s` itself when it
      is already `width` long or longer, otherwise `s` preceded by just
      enough copies of `fill` to reach `width`. */
  function PadStart(s: string, width: nat, fill: char): (r: string)
    ensures |r| == if |s| < width then width else |s|
    ensures r[|r| - |s|..] == s
    ensures forall i | 0 <= i < |r| - |s| :: r[i] == fill
  {
    if |s| < width then Repeat(fill, width - |s|) + s else s
  }

  /** Reading the decimal text of `n` back gives `n`. */
  lemma {:induction false} ValueOfToDecimal(n: nat)
    ensures Value(ToDecimal(n)) == n
    decreases n
  {
    var s := ToDecimal(n);
    if n < 10 {
      assert s[..|s| - 1] == [];
    } else {
      ValueOfToDecimal(n / 10);
      assert s[..|s| - 1] == ToDecimal(n / 10);
    }
  }

  /** The decimal text of `n` has at most two characters exactly when
      `n < 100`. */
  lemma ToDecimalAtMostTwo(n: nat)
    ensures |ToDecimal(n)| <= 2 <==> n < 100
  {
    if n >= 10 {
      assert |ToDecimal(n)| == |ToDecimal(n / 10)| + 1;
      if n >= 100 {
        assert |ToDecimal(n / 10)| == |ToDecimal(n / 100)| + 1;
      }
    }
  }

  /** A string of zeros has value 0. */
  lemma {:induction false} ValueOfZeros(k: nat)
    ensures IsDigits(Repeat('0', k)) && Value(Repeat('0', k)) == 0
    decreases k
  {
    if k > 0 {
      ValueOfZeros(k - 1);
      assert Repeat('0', k)[..k - 1] == Repeat('0', k - 1);
    }
  }

  /** Leading zeros do not change the value of a digit string. */
  lemma {:induction false} ValueIgnoresLeadingZeros(k: nat, s: string)
    requires IsDigits(s)
    ensures IsDigits(Repeat('0', k) + s)
    ensures Value(Repeat('0', k) + s) == Value(s)
    decreases |s|
  {
    var z := Repeat('0', k);
    assert forall i | 0 <= i < |z + s| :: (z + s)[i] == if i < k then z[i] else s[i - k];
    if s == [] {
      assert z + s == z;
      ValueOfZeros(k);
    } else {
      var p := s[..|s| - 1];
      DigitsPrefix(s, |s| - 1);
      ValueIgnoresLeadingZeros(k, p);
      assert (z + s)[..|z + s| - 1] == z + p;
    }
  }

  /** Padding a digit string with '0' keeps it a digit string with the same
      value. */
  lemma ValueOfZeroPadded(s: string, width: nat)
    requires IsDigits(s)
    ensures IsDigits(PadStart(s, width, '0'))
    ensures Value(PadStart(s, width, '0')) == Value(s)
  {
    if |s| < width {
      ValueIgnoresLeadingZeros(width - |s|, s);
    }
  }
}
