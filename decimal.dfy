/**
 * Decimal text for Go's 64-bit `int`: what `%d` prints, what the `0W` and `W`
 * width forms of `%0Wd` / `%Wd` print, and the value a run of digits denotes.
 */
module Decimal {

  /** Go's `int` on a 64-bit platform. */
  type int64 = x: int | -0x8000_0000_0000_0000 <= x < 0x8000_0000_0000_0000

  predicate IsInt64(x: int) {
    -0x8000_0000_0000_0000 <= x < 0x8000_0000_0000_0000
  }

  predicate IsDigit(c: char) {
    '0' <= c <= '9'
  }

  predicate AllDigits(s: string) {
    forall k :: 0 <= k < |s| ==> IsDigit(s[k])
  }

  function DigitChar(d: nat): (c: char)
    requires d < 10
    ensures IsDigit(c)
  {
    (48 + d) as char
  }

  function DigitValue(c: char): (d: nat)
    requires IsDigit(c)
    ensures d < 10 && DigitChar(d) == c
  {
    c as int - 48
  }

  /** The number a string of decimal digits denotes, most significant digit first. */
  function Value(s: string): (v: nat)
    requires AllDigits(s)
  {
    if s == [] then 0 else 10 * Value(s[..|s| - 1]) + DigitValue(s[|s| - 1])
  }

  /** The shortest decimal form of `n`: digits only, no leading zero. */
  function Digits(n: nat): (s: string)
    ensures |s| > 0 && AllDigits(s)
    ensures |s| > 1 ==> s[0] != '0'
    ensures n < 10 <==> |s| == 1
  {
    if n < 10 then [DigitChar(n)] else Digits(n / 10) + [DigitChar(n % 10)]
  }

  /** `fmt.Sprintf("%d", i)`. */
  function IntToString(i: int): (text: string) {
    if i < 0 then "-" + Digits(-i) else Digits(i)
  }

  function Repeat(c: char, k: nat): (s: string)
    ensures |s| == k && forall j :: 0 <= j < k ==> s[j] == c
  {
    seq(k, _ => c)
  }

  /**
   * `fmt.Sprintf("%0Wd", i)` when `zero` holds, `fmt.Sprintf("%Wd", i)` otherwise:
   * zeros go between the sign and the digits, spaces before the sign.
   */
  function PadInt(i: int, zero: bool, width: nat): (text: string) {
    var sign := if i < 0 then "-" else "";
    var digits := Digits(if i < 0 then -i else i);
    var fill := if width > |sign| + |digits| then width - |sign| - |digits| else 0;
    if zero then sign + Repeat('0', fill) + digits else Repeat(' ', fill) + sign + digits
  }

  /** Reading back the digits `%d` prints gives the number printed. */
  lemma {:induction false} ValueOfDigits(n: nat)
    ensures Value(Digits(n)) == n
  {
    if n >= 10 {
      var d := Digits(n);
      ValueOfDigits(n / 10);
      assert d[..|d| - 1] == Digits(n / 10);
    }
  }

  /** Leading zeros do not change the number a digit string denotes. */
  lemma {:induction false} ValueOfLeadingZeros(k: nat, s: string)
    requires AllDigits(s)
    ensures AllDigits(Repeat('0', k) + s) && Value(Repeat('0', k) + s) == Value(s)
    decreases |s|
  {
    var z := Repeat('0', k);
    if s == [] {
      assert z + s == z;
      ValueOfZeros(k);
    } else {
      var s' := s[..|s| - 1];
      assert (z + s)[..|z + s| - 1] == z + s';
      ValueOfLeadingZeros(k, s');
    }
  }

  lemma {:induction false} ValueOfZeros(k: nat)
    ensures AllDigits(Repeat('0', k)) && Value(Repeat('0', k)) == 0
  {
    if k > 0 {
      assert Repeat('0', k)[..k - 1] == Repeat('0', k - 1);
      ValueOfZeros(k - 1);
    }
  }

  /** The shape of the `0W` form: the sign, then `fill` zeros, then the digits of `|i|`. */
  lemma ZeroFill(i: int, width: nat) returns (fill: nat)
    ensures i >= 0 ==> PadInt(i, true, width) == Repeat('0', fill) + Digits(i)
    ensures i < 0 ==> PadInt(i, true, width) == "-" + (Repeat('0', fill) + Digits(-i))
    ensures |PadInt(i, true, width)| == Max(width, |IntToString(i)|)
  {
    if i < 0 {
      fill := ZeroFillNegative(i, width);
    } else {
      var digits := Digits(i);
      fill := if width > |digits| then width - |digits| else 0;
      assert "" + Repeat('0', fill) + digits == Repeat('0', fill) + digits;
    }
  }

  lemma ZeroFillNegative(i: int, width: nat) returns (fill: nat)
    requires i < 0
    ensures PadInt(i, true, width) == "-" + (Repeat('0', fill) + Digits(-i))
    ensures |PadInt(i, true, width)| == Max(width, |IntToString(i)|)
  {
    var digits := Digits(-i);
    fill := if width > 1 + |digits| then width - 1 - |digits| else 0;
    assert "-" + Repeat('0', fill) + digits == "-" + (Repeat('0', fill) + digits);
  }


  /** The shape of the `W` form: `fill` spaces, then the plain `%d` text. */
  lemma SpaceFill(i: int, width: nat) returns (fill: nat)
    ensures PadInt(i, false, width) == Repeat(' ', fill) + IntToString(i)
  {
    var digits := Digits(if i < 0 then -i else i);
    var sign := if i < 0 then "-" else "";
    fill := if width > |sign| + |digits| then width - |sign| - |digits| else 0;
    assert Repeat(' ', fill) + sign + digits == Repeat(' ', fill) + (sign + digits);
  }

  /** The `W` form: the plain `%d` text, right-aligned in a field of W spaces. */
  lemma SpacePadAligns(i: int, width: nat)
    ensures |PadInt(i, false, width)| == Max(width, |IntToString(i)|)
    ensures PadInt(i, false, width)[|PadInt(i, false, width)| - |IntToString(i)|..] == IntToString(i)
    ensures forall k :: 0 <= k < |PadInt(i, false, width)| - |IntToString(i)| ==> PadInt(i, false, width)[k] == ' '
  {
    var r := PadInt(i, false, width);
    var plain := IntToString(i);
    var sign := if i < 0 then "-" else "";
    var digits := Digits(if i < 0 then -i else i);
    var fill := if width > |sign| + |digits| then width - |sign| - |digits| else 0;
    assert plain == sign + digits;
    assert r == Repeat(' ', fill) + plain;
  }

  function Max(a: int, b: int): int {
    if a < b then b else a
  }
}
