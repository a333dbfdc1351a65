/** Decimal numerals: Python's `str(n)` / f-string formatting of integers,
    `int(digits)` on ASCII digit strings, and zero padding (`:03d`). */
module Decimal {

  predicate IsDigit(c: char) {
    '0' <= c <= '9'
  }

  predicate AllDigits(s: string) {
    forall i :: 0 <= i < |s| ==> IsDigit(s[i])
  }

  function DigitValue(c: char): nat
    requires IsDigit(c)
  {
    c as int - '0' as int
  }

  function DigitChar(d: nat): (c: char)
    requires d < 10
    ensures IsDigit(c) && DigitValue(c) == d
  {
    ('0' as int + d) as char
  }

  /** Python's `str(n)` for a non-negative integer: no sign, no leading zero. */
  function NatToDecimal(n: nat): (r: string)
    ensures |r| >= 1 && AllDigits(r)
    ensures r[0] == '0' ==> n == 0
    decreases n
  {
    if n < 10 then [DigitChar(n)] else NatToDecimal(n / 10) + [DigitChar(n % 10)]
  }

  /** Python's `str(n)` for any integer. */
  function IntToDecimal(n: int): (r: string)
    ensures |r| >= 1
    ensures n >= 0 ==> AllDigits(r)
    ensures n < 0 ==> r[0] == '-' && AllDigits(r[1..])
  {
    if n < 0 then "-" + NatToDecimal(-n) else NatToDecimal(n)
  }

  /** Python's `int(s)` for a string of ASCII digits (leading zeros allowed). */
  function DigitsValue(s: string): nat
    requires AllDigits(s)
    decreases |s|
  {
    if s == [] then 0 else DigitsValue(s[..|s| - 1]) * 10 + DigitValue(s[|s| - 1])
  }

  /** Reading back a printed natural number gives the number. */
  lemma {:induction false} DecimalRoundTrip(n: nat)
    ensures DigitsValue(NatToDecimal(n)) == n
    decreases n
  {
    var r := NatToDecimal(n);
    if n >= 10 {
      DecimalRoundTrip(n / 10);
      assert r[..|r| - 1] == NatToDecimal(n / 10);
    }
  }

  /** Printing is injective, so distinct numbers have distinct numerals. */
  lemma DecimalInjective(m: nat, n: nat)
    requires NatToDecimal(m) == NatToDecimal(n)
    ensures m == n
  {
    DecimalRoundTrip(m);
    DecimalRoundTrip(n);
  }

  /** `width - |s|` copies of `'0'` in front of `s` (none if `s` is already that wide). */
  function ZeroPad(s: string, width: nat): (r: string)
    ensures |r| == if |s| < width then width else |s|
    ensures r[|r| - |s|..] == s
    ensures forall i :: 0 <= i < |r| - |s| ==> r[i] == '0'
  {
    if |s| < width then seq(width - |s|, _ => '0') + s else s
  }

  /** Python's `f"{n:03d}"` for a non-negative integer. */
  function Format03(n: nat): string {
    ZeroPad(NatToDecimal(n), 3)
  }

  /** A digit string of value zero consists of zeros only. */
  lemma {:induction false} ZeroValueAllZeros(s: string)
    requires AllDigits(s) && DigitsValue(s) == 0
    ensures forall i :: 0 <= i < |s| ==> s[i] == '0'
    decreases |s|
  {
    if s != [] {
      ZeroValueAllZeros(s[..|s| - 1]);
      assert forall i :: 0 <= i < |s| - 1 ==> s[i] == s[..|s| - 1][i];
    }
  }

  /** Printing the value of a digit string and padding it back to the
      string's width gives the string again: only leading zeros are lost. */
  lemma {:induction false} PadValueRestoresDigits(s: string)
    requires AllDigits(s) && |s| >= 1
    ensures ZeroPad(NatToDecimal(DigitsValue(s)), |s|) == s
    decreases |s|
  {
    var init := s[..|s| - 1];
    var c := s[|s| - 1];
    var v := DigitsValue(init);
    assert DigitsValue(s) == v * 10 + DigitValue(c);
    if v == 0 {
      calc {
        ZeroPad(NatToDecimal(DigitsValue(s)), |s|);
        ZeroPad(NatToDecimal(DigitValue(c)), |init| + 1);
        { PadZeroValue(init, c); }
        init + [c];
        s;
      }
    } else {
      assert init != [];
      PadValueRestoresDigits(init);
      calc {
        ZeroPad(NatToDecimal(DigitsValue(s)), |s|);
        ZeroPad(NatToDecimal(v * 10 + DigitValue(c)), |init| + 1);
        { NatToDecimalSnoc(v, c); }
        ZeroPad(NatToDecimal(v) + [c], |init| + 1);
        { PadSnoc(NatToDecimal(v), c, |init|); }
        ZeroPad(NatToDecimal(v), |init|) + [c];
        { PadValueRestoresDigits(init); }
        init + [c];
        s;
      }
    }
  }

  /** Zeros followed by one digit: the digit's numeral padded to full width. */
  lemma PadZeroValue(zeros: string, c: char)
    requires AllDigits(zeros) && DigitsValue(zeros) == 0 && IsDigit(c)
    ensures ZeroPad(NatToDecimal(DigitValue(c)), |zeros| + 1) == zeros + [c]
  {
    ZeroValueAllZeros(zeros);
    DigitCharOfValue(c);
    PadZeros(zeros, c);
  }

  /** Padding one character to full width in front of a run of zeros. */
  lemma PadZeros(zeros: string, c: char)
    requires forall i :: 0 <= i < |zeros| ==> zeros[i] == '0'
    ensures ZeroPad([c], |zeros| + 1) == zeros + [c]
  {
    var r := ZeroPad([c], |zeros| + 1);
    assert r[|zeros|..] == [c];
    forall i | 0 <= i < |zeros| + 1
      ensures r[i] == (zeros + [c])[i]
    {
      if i == |zeros| {
        assert r[i] == r[|zeros|..][0];
      }
    }
  }

  lemma DigitCharOfValue(c: char)
    requires IsDigit(c)
    ensures NatToDecimal(DigitValue(c)) == [c]
  {
    assert DigitChar(DigitValue(c)) == c;
  }

  /** Appending a digit to a positive number's numeral. */
  lemma NatToDecimalSnoc(v: nat, c: char)
    requires v > 0 && IsDigit(c)
    ensures NatToDecimal(v * 10 + DigitValue(c)) == NatToDecimal(v) + [c]
  {
    var n := v * 10 + DigitValue(c);
    assert n / 10 == v && n % 10 == DigitValue(c);
  }

  /** Padding commutes with appending a character. */
  lemma PadSnoc(d: string, c: char, w: nat)
    requires |d| <= w
    ensures ZeroPad(d + [c], w + 1) == ZeroPad(d, w) + [c]
  {
  }

  /** Padding in two steps to widths `k <= w` is padding once to `w`. */
  lemma PadTwice(x: string, k: nat, w: nat)
    requires |x| <= k <= w
    ensures ZeroPad(ZeroPad(x, k), w) == ZeroPad(x, w)
  {
    var a := ZeroPad(ZeroPad(x, k), w);
    var b := ZeroPad(x, w);
    assert |a| == |b| == w;
    forall i | 0 <= i < w
      ensures a[i] == b[i]
    {
      if i >= w - |x| {
        assert a[i] == a[|a| - |x|..][i - (w - |x|)];
        assert b[i] == b[|b| - |x|..][i - (w - |x|)];
      }
    }
  }

  /** For at most three digits, `f"{int(s):03d}"` is `s` padded with zeros to three characters. */
  lemma Format03OfDigits(s: string)
    requires AllDigits(s) && 1 <= |s| <= 3
    ensures Format03(DigitsValue(s)) == ZeroPad(s, 3)
  {
    PadValueRestoresDigits(s);
    var d := NatToDecimal(DigitsValue(s));
    assert |d| <= |s|;
    PadTwice(d, |s|, 3);
  }
}
