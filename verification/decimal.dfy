/** The part of Long.parseLong the max-age attribute relies on: an optional
    sign followed by one or more decimal digits. */
module Decimal {
  import opened Wrappers

  predicate IsDigit(c: char) {
    '0' <= c <= '9'
  }

  predicate AllDigits(t: string) {
    forall k :: 0 <= k < |t| ==> IsDigit(t[k])
  }

  /** The value of a digit string, most significant digit first. */
  function DigitsValue(t: string): nat
    requires AllDigits(t)
  {
    if |t| == 0 then 0
    else DigitsValue(t[..|t| - 1]) * 10 + (t[|t| - 1] as int - '0' as int)
  }

  predicate IsSign(c: char) {
    c == '-' || c == '+'
  }

  /** Long.parseLong: None where Java throws NumberFormatException. The text
      is accepted exactly when it is one or more digits after an optional
      sign, and its value is the value of those digits, negated after '-'. */
  function ParseLong(t: string): (r: Option<int>)
    ensures r.Some? <==> |t| > 0 && (AllDigits(t) || (|t| > 1 && IsSign(t[0]) && AllDigits(t[1..])))
    ensures r.Some? && AllDigits(t) ==> r.value == DigitsValue(t)
    ensures r.Some? && t[0] == '+' ==> r.value == DigitsValue(t[1..])
    ensures r.Some? && t[0] == '-' ==> r.value == -(DigitsValue(t[1..]) as int)
  {
    if |t| == 0 then None
    else if t[0] == '-' || t[0] == '+' then
      if |t| > 1 && AllDigits(t[1..]) then
        var magnitude: int := DigitsValue(t[1..]);
        Some(if t[0] == '-' then -magnitude else magnitude)
      else None
    else if AllDigits(t) then Some(DigitsValue(t))
    else None
  }

  /** The shortest decimal text of `n`, the reference encoder for ParseLong. */
  function ToDecimal(n: nat): string {
    if n < 10 then [('0' as int + n) as char]
    else ToDecimal(n / 10) + [('0' as int + n % 10) as char]
  }

  lemma {:induction false} DigitsValueToDecimal(n: nat)
    ensures |ToDecimal(n)| > 0 && AllDigits(ToDecimal(n))
    ensures DigitsValue(ToDecimal(n)) == n
  {
    if n >= 10 {
      DigitsValueToDecimal(n / 10);
      var t := ToDecimal(n);
      assert t[..|t| - 1] == ToDecimal(n / 10);
    }
  }

  /** Decoding the decimal text of any non-negative number gives it back. */
  lemma ParseLongToDecimal(n: nat)
    ensures ParseLong(ToDecimal(n)) == Some(n)
  {
    DigitsValueToDecimal(n);
  }

  /** The shortest decimal text of `n`, with a '-' when it is negative. */
  function ToSignedDecimal(n: int): string {
    if n < 0 then "-" + ToDecimal(-n) else ToDecimal(n)
  }

  /** Decoding the signed decimal text of any number gives it back. */
  lemma ParseLongToSignedDecimal(n: int)
    ensures ParseLong(ToSignedDecimal(n)) == Some(n)
  {
    if n < 0 {
      DigitsValueToDecimal(-n);
      assert ToSignedDecimal(n)[1..] == ToDecimal(-n);
    } else {
      ParseLongToDecimal(n);
    }
  }

  /** The text of a signed decimal is non-empty, and digits after an
      optional '-'. */
  lemma ToSignedDecimalShape(n: int)
    ensures var t := ToSignedDecimal(n);
            |t| > 0 && forall k :: 0 <= k < |t| ==> IsDigit(t[k]) || (k == 0 && t[k] == '-')
  {
    if n < 0 {
      DigitsValueToDecimal(-n);
    } else {
      DigitsValueToDecimal(n);
    }
  }

  function Zeros(z: nat): string {
    seq(z, _ => '0')
  }

  /** Leading zeros do not change the value of a digit string. */
  lemma {:induction false} DigitsValueZerosPrefix(z: nat, t: string)
    requires AllDigits(t)
    ensures AllDigits(Zeros(z) + t) && DigitsValue(Zeros(z) + t) == DigitsValue(t)
  {
    var u := Zeros(z) + t;
    if |t| == 0 {
      assert u == Zeros(z);
      if z > 0 {
        assert u[..|u| - 1] == Zeros(z - 1) + t;
        DigitsValueZerosPrefix(z - 1, t);
      }
    } else {
      assert u[..|u| - 1] == Zeros(z) + t[..|t| - 1];
      DigitsValueZerosPrefix(z, t[..|t| - 1]);
    }
  }

  /** Leading zeros and an explicit '+' are accepted and ignored, and '-'
      negates: every spelling of a number with padding and sign reads back. */
  lemma ParseLongPadded(z: nat, n: nat)
    ensures ParseLong(Zeros(z) + ToDecimal(n)) == Some(n)
    ensures ParseLong("+" + Zeros(z) + ToDecimal(n)) == Some(n)
    ensures ParseLong("-" + Zeros(z) + ToDecimal(n)) == Some(-(n as int))
  {
    DigitsValueToDecimal(n);
    DigitsValueZerosPrefix(z, ToDecimal(n));
    assert ("+" + Zeros(z) + ToDecimal(n))[1..] == Zeros(z) + ToDecimal(n);
    assert ("-" + Zeros(z) + ToDecimal(n))[1..] == Zeros(z) + ToDecimal(n);
  }
}
