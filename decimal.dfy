/** Zero-padded decimal rendering of numbers (the `{:02}`, `%Y`, `%m`, ... conversions) and its inverse. */
module Decimal {

  predicate IsDigit(c: char) { '0' <= c <= '9' }

  predicate AllDigits(s: string) { forall i :: 0 <= i < |s| ==> IsDigit(s[i]) }

  function DigitChar(d: nat): (c: char)
    requires d < 10
    ensures IsDigit(c)
  {
    ('0' as int + d) as char
  }

  function DigitValue(c: char): (d: nat)
    requires IsDigit(c)
    ensures d < 10 && DigitChar(d) == c
  {
    c as int - '0' as int
  }

  function Pow10(n: nat): (p: nat)
    ensures p >= 1
  {
    if n == 0 then 1 else 10 * Pow10(n - 1)
  }

  /** `n` in decimal, left-padded with zeros to at least `width` digits (at least one digit). */
  function Pad(n: nat, width: nat): (r: string)
    ensures AllDigits(r) && |r| >= 1 && |r| >= width
    decreases n + width
  {
    if n < 10 && width <= 1 then [DigitChar(n)]
    else Pad(n / 10, if width > 0 then width - 1 else 0) + [DigitChar(n % 10)]
  }

  /** The number a string of decimal digits denotes. */
  function Value(s: string): nat
    requires AllDigits(s)
  {
    if |s| == 0 then 0 else 10 * Value(s[..|s| - 1]) + DigitValue(s[|s| - 1])
  }

  /** Reading the padded rendering back gives the number. */
  lemma {:induction false} ValueOfPad(n: nat, width: nat)
    ensures Value(Pad(n, width)) == n
    decreases n + width
  {
    if !(n < 10 && width <= 1) {
      var w := if width > 0 then width - 1 else 0;
      ValueOfPad(n / 10, w);
      var r := Pad(n, width);
      assert r[..|r| - 1] == Pad(n / 10, w);
    }
  }

  /** A number below `10^width` is rendered in exactly `width` digits. */
  lemma {:induction false} PadLength(n: nat, width: nat)
    requires width >= 1 && n < Pow10(width)
    ensures |Pad(n, width)| == width
    decreases width
  {
    if !(n < 10 && width <= 1) {
      PadLength(n / 10, width - 1);
    }
  }

  /** The value of a digit string is below `10^|s|`. */
  lemma {:induction false} ValueBound(s: string)
    requires AllDigits(s)
    ensures Value(s) < Pow10(|s|)
    decreases |s|
  {
    if |s| > 0 {
      ValueBound(s[..|s| - 1]);
    }
  }

  /** Padding the value of a non-empty digit string to its own length gives the string back. */
  lemma {:induction false} PadOfValue(s: string)
    requires AllDigits(s) && |s| >= 1
    ensures Pad(Value(s), |s|) == s
    decreases |s|
  {
    var v := Value(s);
    if |s| == 1 {
      assert s == [s[0]];
    } else {
      var init := s[..|s| - 1];
      PadOfValue(init);
      assert v / 10 == Value(init) && v % 10 == DigitValue(s[|s| - 1]);
      assert s == init + [s[|s| - 1]];
    }
  }

  /** Two-digit rendering spelled out digit by digit. */
  lemma PadTwo(n: nat)
    requires n < 100
    ensures Pad(n, 2) == [DigitChar(n / 10), DigitChar(n % 10)]
  {
  }

  /** Padding to at most one digit writes no leading zero: the unpadded rendering is minimal. */
  lemma {:induction false} PadLeadingDigit(n: nat, width: nat)
    requires width <= 1
    ensures n > 0 ==> Pad(n, width)[0] != '0'
    decreases n
  {
    if n >= 10 {
      PadLeadingDigit(n / 10, 0);
      assert Pad(n, width)[0] == Pad(n / 10, 0)[0];
    }
  }

  /** A number of at least `width + 1` digits is written without a leading zero. */
  lemma {:induction false} PadWideLeadingDigit(n: nat, width: nat)
    requires n >= Pow10(width)
    ensures Pad(n, width)[0] != '0'
    decreases width
  {
    if width == 0 {
      PadLeadingDigit(n, 0);
    } else {
      PadWideLeadingDigit(n / 10, width - 1);
      assert Pad(n, width)[0] == Pad(n / 10, width - 1)[0];
    }
  }

  /** `i.to_string()`: minimal decimal digits, with a leading `-` for negative numbers. */
  function IntToString(i: int): (r: string)
    ensures |r| >= 1
    ensures i >= 0 ==> AllDigits(r) && Value(r) == i
    ensures i < 0 ==> r[0] == '-' && AllDigits(r[1..]) && Value(r[1..]) == -i
    ensures i == 0 ==> r == "0"
    ensures i > 0 ==> r[0] != '0'
    ensures i < 0 ==> |r| >= 2 && r[1] != '0'
  {
    ValueOfPad(if i >= 0 then i else -i, 1);
    PadLeadingDigit(if i >= 0 then i else -i, 1);
    if i >= 0 then Pad(i, 1) else "-" + Pad(-i, 1)
  }
}
