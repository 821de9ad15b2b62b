/** Decimal text of integers, as JavaScript's `String(n)` prints an integral
    number and as the viewer prints array indices and container sizes, with the
    reader that undoes it. */
module Decimal {
  import opened Options

  predicate IsDigit(c: char) {
    '0' <= c <= '9'
  }

  predicate AllDigits(s: string) {
    forall i :: 0 <= i < |s| ==> IsDigit(s[i])
  }

  function Digit(d: nat): (c: char)
    requires d < 10
    ensures IsDigit(c) && DigitValue(c) == d
  {
    (48 + d) as char
  }

  function DigitValue(c: char): (d: nat)
    requires IsDigit(c)
    ensures d < 10
  {
    c as int - 48
  }

  /** Shortest decimal text of `n`: digits only, no leading zero. */
  function NatToText(n: nat): (r: string)
    ensures |r| >= 1 && AllDigits(r)
    ensures r[0] == '0' ==> n == 0
  {
    if n < 10 then [Digit(n)] else NatToText(n / 10) + [Digit(n % 10)]
  }

  /** `String(n)` for an integral number: a minus sign before negative values. */
  function IntToText(n: int): (r: string)
    ensures |r| >= 1
    ensures r[0] == '-' || IsDigit(r[0])
    ensures r[0] == '-' <==> n < 0
  {
    if n < 0 then "-" + NatToText(-n) else NatToText(n)
  }

  /** The value of a string of decimal digits, most significant first. */
  function DigitsValue(s: string): nat
    requires AllDigits(s)
  {
    if s == [] then 0 else DigitsValue(s[..|s| - 1]) * 10 + DigitValue(s[|s| - 1])
  }

  /** Reads a non-empty run of digits; anything else is rejected. */
  function ParseNat(s: string): (r: Option<nat>)
    ensures r.Some? <==> |s| >= 1 && AllDigits(s)
  {
    if |s| >= 1 && AllDigits(s) then Some(DigitsValue(s)) else None
  }

  /** Reads an optional minus sign followed by digits. */
  function ParseInt(s: string): (r: Option<int>)
    ensures |s| >= 1 && s[0] != '-' ==> (r.Some? <==> ParseNat(s).Some?)
  {
    if |s| >= 1 && s[0] == '-' then
      match ParseNat(s[1..])
      case Some(k) => Some(0 - k)
      case None => None
    else
      match ParseNat(s)
      case Some(k) => Some(k)
      case None => None
  }

  lemma {:induction false} NatRoundTrip(n: nat)
    ensures ParseNat(NatToText(n)) == Some(n)
  {
    var s := NatToText(n);
    if n < 10 {
      assert s[..|s| - 1] == [];
      assert DigitsValue(s) == DigitValue(Digit(n));
    } else {
      NatRoundTrip(n / 10);
      assert s[..|s| - 1] == NatToText(n / 10);
      assert DigitsValue(s) == DigitsValue(NatToText(n / 10)) * 10 + DigitValue(Digit(n % 10));
    }
  }

  lemma IntRoundTrip(n: int)
    ensures ParseInt(IntToText(n)) == Some(n)
  {
    var t := IntToText(n);
    if n < 0 {
      var d := NatToText(-n);
      assert t[0] == '-' && t[1..] == d;
      assert ParseNat(d) == Some(-n) by {
        NatRoundTrip(-n);
      }
    } else {
      assert t == NatToText(n) && IsDigit(t[0]);
      assert ParseNat(t) == Some(n) by {
        NatRoundTrip(n);
      }
    }
  }

  /** Distinct numbers print differently, so array indices give distinct names. */
  lemma NatToTextInjective(a: nat, b: nat)
    ensures NatToText(a) == NatToText(b) <==> a == b
  {
    if NatToText(a) == NatToText(b) {
      NatRoundTrip(a);
      NatRoundTrip(b);
    }
  }
}
