/** Java's `Integer.valueOf(String)` (radix 10), used on the header lines,
    and its inverse `Integer.toString` as the writer of those lines. */
module Decimal {
  import opened Failures

  const IntMin: int := -0x8000_0000
  const IntMax: int := 0x7FFF_FFFF

  predicate IsDigit(c: char) {
    '0' <= c <= '9'
  }

  predicate AllDigits(s: string) {
    forall k :: 0 <= k < |s| ==> IsDigit(s[k])
  }

  /** Value of a string of decimal digits, most significant digit first. */
  function DigitsValue(s: string): nat
    requires AllDigits(s)
  {
    if s == [] then 0 else DigitsValue(s[..|s| - 1]) * 10 + (s[|s| - 1] as int - '0' as int)
  }

  /** `Integer.valueOf`: an optional `+` or `-`, then at least one digit, and
      the value must fit a 32-bit `int`; anything else is a NumberFormatException. */
  function ParseInt(s: string): (r: Result<int>)
    ensures r.Ok? ==> IntMin <= r.value <= IntMax
    ensures r.Ok? ==> |s| > 0 && (IsDigit(s[0]) || s[0] == '-' || s[0] == '+')
    ensures r.Ok? ==> forall k :: 1 <= k < |s| ==> IsDigit(s[k])
    ensures r.Ok? && |s| > 0 && s[0] == '-' ==> r.value <= 0
    ensures r.Ok? && |s| > 0 && s[0] != '-' ==> r.value >= 0
    ensures r.Err? ==> r.error == NotAnInteger(s)
  {
    if |s| == 0 then Err(NotAnInteger(s))
    else
      var signed := s[0] == '-' || s[0] == '+';
      var digits := if signed then s[1..] else s;
      if |digits| == 0 || !AllDigits(digits) then Err(NotAnInteger(s))
      else
        var v: int := if s[0] == '-' then -(DigitsValue(digits) as int) else DigitsValue(digits);
        if IntMin <= v <= IntMax then Ok(v) else Err(NotAnInteger(s))
  }

  /** What `Integer.valueOf` accepts: a sign prefix of "", "+" or "-"
      followed by digits gives the signed value of the digits when it fits
      32 bits, and a number-format error otherwise. */
  lemma ParseSignedDigits(sign: string, d: string)
    requires sign == "" || sign == "+" || sign == "-"
    requires |d| > 0 && AllDigits(d)
    ensures var v: int := if sign == "-" then -(DigitsValue(d) as int) else DigitsValue(d);
      ParseInt(sign + d) == if IntMin <= v <= IntMax then Ok(v) else Err(NotAnInteger(sign + d))
  {
    if sign == "" {
      assert sign + d == d;
      ParseDigits(d);
    } else {
      ParseSignDigits(sign[0], d);
      assert sign + d == [sign[0]] + d;
    }
  }

  lemma ParseDigits(d: string)
    requires |d| > 0 && AllDigits(d)
    ensures ParseInt(d) == if DigitsValue(d) <= IntMax then Ok(DigitsValue(d)) else Err(NotAnInteger(d))
  {
    assert IsDigit(d[0]);
  }

  lemma ParseSignDigits(c: char, d: string)
    requires c == '+' || c == '-'
    requires |d| > 0 && AllDigits(d)
    ensures var v: int := if c == '-' then -(DigitsValue(d) as int) else DigitsValue(d);
      ParseInt([c] + d) == if IntMin <= v <= IntMax then Ok(v) else Err(NotAnInteger([c] + d))
  {
    var s := [c] + d;
    assert s[0] == c && s[1..] == d;
    assert |s[1..]| > 0 && AllDigits(s[1..]);
    var v: int := if c == '-' then -(DigitsValue(d) as int) else DigitsValue(d);
    if IntMin <= v <= IntMax {
      assert ParseInt(s) == Ok(v);
    } else {
      assert ParseInt(s) == Err(NotAnInteger(s));
    }
  }

  /** Text Java accepts besides the canonical form. */
  lemma ParseIntNonCanonical()
    ensures ParseInt("+7") == Ok(7) && ParseInt("007") == Ok(7) && ParseInt("-0") == Ok(0)
  {
    ParseSignedDigits("+", "7");
    ParseSignedDigits("", "007");
    ParseSignedDigits("-", "0");
  }

  /** Text Java rejects: no digits, or a trailing space. */
  lemma ParseIntRejects()
    ensures ParseInt("") == Err(NotAnInteger("")) && ParseInt("-") == Err(NotAnInteger("-"))
    ensures ParseInt("1 ") == Err(NotAnInteger("1 "))
  {
    assert !IsDigit("1 "[1]);
  }

  function DigitChar(d: nat): char
    requires d < 10
  {
    ('0' as int + d) as char
  }

  /** Decimal digits of a natural number, without leading zeros. */
  function NatDigits(n: nat): string
  {
    if n < 10 then [DigitChar(n)] else NatDigits(n / 10) + [DigitChar(n % 10)]
  }

  /** `Integer.toString`: the form in which the counts are written. */
  function ToDecimal(n: int): string
  {
    if n < 0 then "-" + NatDigits(-n) else NatDigits(n)
  }

  lemma {:induction false} NatDigitsValue(n: nat)
    ensures |NatDigits(n)| > 0 && AllDigits(NatDigits(n))
    ensures DigitsValue(NatDigits(n)) == n
  {
    if n >= 10 {
      NatDigitsValue(n / 10);
      var s := NatDigits(n);
      assert s[..|s| - 1] == NatDigits(n / 10);
    }
  }

  /** Reading back what `Integer.toString` wrote gives the same count. */
  lemma ParseIntToDecimal(n: int)
    requires IntMin <= n <= IntMax
    ensures ParseInt(ToDecimal(n)) == Ok(n)
  {
    var s := ToDecimal(n);
    if n < 0 {
      NatDigitsValue(-n);
      assert s[0] == '-' && s[1..] == NatDigits(-n);
    } else {
      NatDigitsValue(n);
      assert s == NatDigits(n) && IsDigit(s[0]);
    }
  }

  /** The decimal text of a value outside the 32-bit range is rejected. */
  lemma ParseIntOutOfRange(n: int)
    requires n < IntMin || IntMax < n
    ensures ParseInt(ToDecimal(n)) == Err(NotAnInteger(ToDecimal(n)))
  {
    var s := ToDecimal(n);
    if n < 0 {
      NatDigitsValue(-n);
      ParseSignedDigits("-", NatDigits(-n));
    } else {
      NatDigitsValue(n);
      ParseSignedDigits("", NatDigits(n));
    }
  }
}
