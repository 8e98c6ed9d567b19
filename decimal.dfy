/** Decimal text of integers as the event-display script produces and reads
    it: Python's `str(n)`, the zero-padded `f"{n:04}"`, and `int(s)` on a
    string of digits with an optional minus sign. Only the ASCII digits
    '0'..'9' are digits here. */
module Decimal {
  import opened Collections

  predicate IsDigit(ch: char)
  {
    '0' <= ch <= '9'
  }

  predicate AllDigits(s: string)
  {
    forall i :: 0 <= i < |s| ==> IsDigit(s[i])
  }

  /** The value of one digit character. */
  function DigitValue(ch: char): (d: nat)
    requires IsDigit(ch)
    ensures d < 10
  {
    (ch - '0') as nat
  }

  /** The character of one digit value. */
  function DigitChar(d: nat): (ch: char)
    requires d < 10
    ensures IsDigit(ch) && DigitValue(ch) == d
  {
    ('0' as int + d) as char
  }

  /** The value of a string of digits, most significant first; leading
      zeros are allowed, as Python's `int` allows them. */
  function DigitsValue(s: string): nat
    requires AllDigits(s)
    decreases |s|
  {
    if s == [] then 0
    else DigitsValue(s[..|s| - 1]) * 10 + DigitValue(s[|s| - 1])
  }

  /** Python's `str(n)` for a non-negative integer: its digits without
      leading zeros ("0" for zero). */
  function NatToString(n: nat): (s: string)
    ensures |s| > 0 && AllDigits(s)
    ensures n >= 10 <==> |s| > 1
    ensures |s| > 1 ==> s[0] != '0'
  {
    if n < 10 then [DigitChar(n)]
    else NatToString(n / 10) + [DigitChar(n % 10)]
  }

  /** Reading back the digits of `n` gives `n`. */
  lemma {:induction false} NatToStringValue(n: nat)
    ensures DigitsValue(NatToString(n)) == n
  {
    var s := NatToString(n);
    if n < 10 {
      assert s[..0] == [];
    } else {
      var init := NatToString(n / 10);
      assert s[..|s| - 1] == init;
      NatToStringValue(n / 10);
    }
  }

  function Pow10(k: nat): (p: nat)
    ensures p >= 1
  {
    if k == 0 then 1 else 10 * Pow10(k - 1)
  }

  /** A number below 10^k has at most k digits. */
  lemma {:induction false} NatToStringShort(n: nat, k: nat)
    requires k >= 1 && n < Pow10(k)
    ensures |NatToString(n)| <= k
  {
    if n >= 10 {
      NatToStringShort(n / 10, k - 1);
    }
  }

  /** A string of `k` digits is worth less than 10^k. */
  lemma {:induction false} DigitsBound(s: string)
    requires AllDigits(s)
    ensures DigitsValue(s) < Pow10(|s|)
    decreases |s|
  {
    if s != [] {
      DigitsBound(s[..|s| - 1]);
    }
  }

  /** Python's `str(x)` for any integer: a minus sign before the digits of
      a negative one. */
  function IntToString(x: int): (s: string)
    ensures |s| > 0
    ensures x < 0 <==> s[0] == '-'
    ensures x >= 0 ==> AllDigits(s)
    ensures x < 0 ==> AllDigits(s[1..]) && |s| > 1
  {
    if x < 0 then "-" + NatToString(-x) else NatToString(x)
  }

  /** Python's `int(s)` on an optionally signed string of digits: None where
      Python raises ValueError. */
  function ParseInt(s: string): (r: Option<int>)
    ensures r.Some? <==> (|s| > 0 && AllDigits(s)) || (|s| > 1 && s[0] == '-' && AllDigits(s[1..]))
  {
    if |s| > 0 && AllDigits(s) then Some(DigitsValue(s))
    else if |s| > 1 && s[0] == '-' && AllDigits(s[1..]) then Some(-(DigitsValue(s[1..]) as int))
    else None
  }

  /** `int(str(x)) == x`. */
  lemma IntToStringParse(x: int)
    ensures ParseInt(IntToString(x)) == Some(x)
  {
    if x < 0 {
      NatToStringValue(-x);
      assert IntToString(x)[1..] == NatToString(-x);
    } else {
      NatToStringValue(x);
    }
  }

  /** `k` zero characters. */
  function Zeros(k: nat): (z: string)
    ensures |z| == k && AllDigits(z)
    ensures forall i :: 0 <= i < k ==> z[i] == '0'
  {
    if k == 0 then [] else Zeros(k - 1) + ['0']
  }

  /** `s` left-padded with zeros to at least `width` characters. */
  function PadZeros(s: string, width: int): (r: string)
    ensures |r| == if |s| >= width then |s| else width
    ensures r[|r| - |s|..] == s
    ensures forall i :: 0 <= i < |r| - |s| ==> r[i] == '0'
  {
    if |s| >= width then s else Zeros(width - |s|) + s
  }

  /** Leading zeros do not change the value of a string of digits. */
  lemma {:induction false} LeadingZeros(k: nat, s: string)
    requires AllDigits(s)
    ensures AllDigits(Zeros(k) + s)
    ensures DigitsValue(Zeros(k) + s) == DigitsValue(s)
    decreases |s|
  {
    var t := Zeros(k) + s;
    if s == [] {
      assert t == Zeros(k);
      ZerosValue(k);
    } else {
      assert t[..|t| - 1] == Zeros(k) + s[..|s| - 1];
      LeadingZeros(k, s[..|s| - 1]);
    }
  }

  /** A string of zeros is worth zero. */
  lemma {:induction false} ZerosValue(k: nat)
    ensures DigitsValue(Zeros(k)) == 0
  {
    if k > 0 {
      assert Zeros(k)[..k - 1] == Zeros(k - 1);
      ZerosValue(k - 1);
    }
  }

  /** Padding a string of digits with zeros keeps it a string of digits
      with the same value. */
  lemma PadZerosValue(s: string, width: int)
    requires AllDigits(s)
    ensures AllDigits(PadZeros(s, width)) && DigitsValue(PadZeros(s, width)) == DigitsValue(s)
  {
    if |s| < width {
      LeadingZeros(width - |s|, s);
    }
  }

  /** The digits of `n` left-padded with zeros to at least `width`
      characters; exactly its digits when they are longer. They read back
      as `n`. */
  function PaddedDigits(n: nat, width: int): (p: string)
    ensures |p| > 0 && AllDigits(p) && DigitsValue(p) == n
    ensures |p| == if |NatToString(n)| >= width then |NatToString(n)| else width
  {
    NatToStringValue(n);
    PadZerosValue(NatToString(n), width);
    PadZeros(NatToString(n), width)
  }

  /** Python's `f"{x:0{width}}"` for an integer: the sign first, then the
      digits left-padded with zeros so that sign and digits together take
      at least `width` characters. */
  function FormatZeroPadded(x: int, width: nat): (r: string)
    ensures |r| >= width && |r| > 0
    ensures x < 0 <==> r[0] == '-'
    ensures x >= 0 ==> AllDigits(r)
  {
    if x < 0 then "-" + PaddedDigits(-x, width - 1)
    else PaddedDigits(x, width)
  }

  /** A zero-padded non-negative integer is a string of at least `width`
      digits, exactly as long as its digits when they are longer, and it
      reads back as the integer. */
  lemma FormatZeroPaddedNat(x: nat, width: nat)
    ensures var r := FormatZeroPadded(x, width);
      && AllDigits(r)
      && |r| == (if |NatToString(x)| >= width then |NatToString(x)| else width)
      && DigitsValue(r) == x
  {
  }

  /** A minus sign before at least `width - 1` digits is at least `width`
      characters long and reads as the negated value. */
  lemma ParseNegative(digits: string, width: int)
    requires |digits| > 0 && AllDigits(digits) && |digits| >= width - 1
    ensures var r := "-" + digits;
      && |r| >= width && |r| > 1 && r[0] == '-' && AllDigits(r[1..])
      && ParseInt(r) == Some(-(DigitsValue(digits) as int))
  {
    var r := "-" + digits;
    assert r[1..] == digits;
    assert !IsDigit(r[0]);
  }

  /** A zero-padded negative integer is a minus sign and then digits that
      read back as its magnitude: exactly `width` characters in all, or one
      more than the magnitude's digits when those are longer. */
  lemma FormatZeroPaddedNeg(x: int, width: nat)
    requires x < 0
    ensures var r := FormatZeroPadded(x, width);
      && |r| == (if 1 + |NatToString(-x)| >= width then 1 + |NatToString(-x)| else width)
      && |r| >= width && |r| > 1 && r[0] == '-' && AllDigits(r[1..])
      && ParseInt(r) == Some(x)
  {
    ParseNegative(PaddedDigits(-x, width - 1), width);
  }
}
