/**
 Decimal rendering of natural numbers, as JavaScript's `String(n)` and
 `padStart(width, '0')` produce it, together with the parser that inverts it.
 The display helpers of the streak calculator and the date keys are built on
 these.
 */
module Decimal {

  predicate IsDigit(c: char) {
    '0' <= c <= '9'
  }

  predicate AllDigits(s: string) {
    forall i :: 0 <= i < |s| ==> IsDigit(s[i])
  }

  function DigitChar(n: nat): (c: char)
    requires n < 10
    ensures IsDigit(c)
    ensures DigitValue(c) == n
  {
    (48 + n) as char
  }

  function DigitValue(c: char): (n: nat)
    requires IsDigit(c)
    ensures n < 10
  {
    c as int - 48
  }

  /** The shortest decimal numeral of `n` (no leading zero). */
  function NatToString(n: nat): (s: string)
    ensures 1 <= |s|
    ensures AllDigits(s)
    ensures 10 <= n ==> s[0] != '0'
    decreases n
  {
    if n < 10 then [DigitChar(n)] else NatToString(n / 10) + [DigitChar(n % 10)]
  }

  /** The value of a string of decimal digits, most significant first. */
  function ParseDigits(s: string): nat
    requires AllDigits(s)
  {
    if s == [] then 0 else 10 * ParseDigits(s[..|s| - 1]) + DigitValue(s[|s| - 1])
  }

  /** Reading back a rendered number gives the number. */
  lemma {:induction false} ParseNatToString(n: nat)
    ensures ParseDigits(NatToString(n)) == n
    decreases n
  {
    var s := NatToString(n);
    if n >= 10 {
      ParseNatToString(n / 10);
      assert s[..|s| - 1] == NatToString(n / 10);
    }
  }

  /** Numerals of different numbers differ. */
  lemma NatToStringInjective(m: nat, n: nat)
    requires NatToString(m) == NatToString(n)
    ensures m == n
  {
    ParseNatToString(m);
    ParseNatToString(n);
  }

  /** The numeral of `n` has `w` characters when `n` lies in [10^(w-1), 10^w). */
  lemma {:induction false} NatToStringLength(n: nat, w: nat)
    requires 1 <= w
    requires (w == 1 || Pow10(w - 1) <= n) && n < Pow10(w)
    ensures |NatToString(n)| == w
    decreases w
  {
    if w > 1 {
      if w - 1 == 1 {
        assert n / 10 < 10;
      } else {
        assert Pow10(w - 2) <= n / 10;
      }
      NatToStringLength(n / 10, w - 1);
    }
  }

  function Pow10(w: nat): (p: nat)
    ensures 1 <= p
  {
    if w == 0 then 1 else 10 * Pow10(w - 1)
  }

  /** `n` copies of `c`. */
  function Repeat(c: char, n: nat): (r: string)
    ensures |r| == n
    ensures forall i :: 0 <= i < n ==> r[i] == c
  {
    if n == 0 then [] else [c] + Repeat(c, n - 1)
  }

  /** `s.padStart(width, fill)`: prefix `fill` until the string is `width` long. */
  function PadStart(s: string, width: nat, fill: char): (r: string)
    ensures |r| == if |s| < width then width else |s|
    ensures r[|r| - |s|..] == s
    ensures forall i :: 0 <= i < |r| - |s| ==> r[i] == fill
  {
    if |s| < width then Repeat(fill, width - |s|) + s else s
  }

  /** Leading zeros do not change the value of a numeral. */
  lemma {:induction false} ParseLeadingZeros(z: string, s: string)
    requires forall i :: 0 <= i < |z| ==> z[i] == '0'
    requires AllDigits(s)
    ensures AllDigits(z + s)
    ensures ParseDigits(z + s) == ParseDigits(s)
    decreases |s|
  {
    var t := z + s;
    assert AllDigits(t) by {
      forall i | 0 <= i < |t| ensures IsDigit(t[i]) {
        if i < |z| { assert t[i] == z[i]; } else { assert t[i] == s[i - |z|]; }
      }
    }
    if s == [] {
      assert t == z;
      AllZeros(z);
    } else {
      assert t[..|t| - 1] == z + s[..|s| - 1];
      ParseLeadingZeros(z, s[..|s| - 1]);
    }
  }

  lemma {:induction false} AllZeros(z: string)
    requires forall i :: 0 <= i < |z| ==> z[i] == '0'
    ensures AllDigits(z)
    ensures ParseDigits(z) == 0
    decreases |z|
  {
    if z != [] {
      AllZeros(z[..|z| - 1]);
    }
  }

  /** The two-digit field `String(n).padStart(2, '0')` used for months, days and minutes. */
  function TwoDigits(n: nat): (s: string)
    requires n < 100
    ensures |s| == 2
    ensures AllDigits(s)
    ensures ParseDigits(s) == n
  {
    TwoDigitsValue(n);
    PadStart(NatToString(n), 2, '0')
  }

  lemma TwoDigitsValue(n: nat)
    requires n < 100
    ensures |PadStart(NatToString(n), 2, '0')| == 2
    ensures AllDigits(PadStart(NatToString(n), 2, '0'))
    ensures ParseDigits(PadStart(NatToString(n), 2, '0')) == n
  {
    var digits := NatToString(n);
    if n < 10 {
      NatToStringLength(n, 1);
    } else {
      NatToStringLength(n, 2);
    }
    var r := PadStart(digits, 2, '0');
    assert r == r[..|r| - |digits|] + digits;
    ParseNatToString(n);
    ParseLeadingZeros(r[..|r| - |digits|], digits);
  }
}
