/** Decimal text of a signed integer, as `std::to_string(int)` writes it:
    an optional minus sign followed by the digits, without leading zeros. */
module Decimal {
  import opened Bytes

  predicate IsDigit(b: byte)
  {
    ZERO <= b <= ZERO + 9
  }

  predicate AllDigits(s: Bytes)
  {
    forall i :: 0 <= i < |s| ==> IsDigit(s[i])
  }

  function DigitByte(d: nat): (b: byte)
    requires d < 10
    ensures IsDigit(b)
  {
    (ZERO as int + d) as byte
  }

  /** Digits without a leading zero, except for zero itself. */
  predicate Canonical(digits: Bytes)
  {
    |digits| > 0 && AllDigits(digits) && (digits[0] == ZERO ==> digits == [ZERO])
  }

  /** The digits of `n`, most significant first. */
  function Digits(n: nat): (r: Bytes)
    ensures |r| > 0 && AllDigits(r)
    ensures r[0] == ZERO ==> n == 0 && r == [ZERO]
  {
    if n < 10 then [DigitByte(n)] else Digits(n / 10) + [DigitByte(n % 10)]
  }

  /** `std::to_string` of an `int`. */
  function ToString(n: int): (r: Bytes)
    ensures |r| > 0
    ensures r[0] == MINUS <==> n < 0
    ensures PIPE !in r
    ensures Canonical(if n < 0 then r[1..] else r)
  {
    if n < 0 then [MINUS] + Digits(-n) else Digits(n)
  }

  /** The value of a run of decimal digits. */
  function ParseDigits(s: Bytes): nat
    requires AllDigits(s)
  {
    if s == [] then 0 else ParseDigits(s[..|s| - 1]) * 10 + (s[|s| - 1] - ZERO) as int
  }

  /** The reader a client applies to the port field. */
  function ParseInt(s: Bytes): Option<int>
  {
    if |s| > 1 && s[0] == MINUS && AllDigits(s[1..]) then Some(0 - ParseDigits(s[1..]) as int)
    else if |s| > 0 && AllDigits(s) then Some(ParseDigits(s))
    else None
  }

  lemma {:induction false} ParseDigitsOfDigits(n: nat)
    ensures ParseDigits(Digits(n)) == n
  {
    var s := Digits(n);
    if n < 10 {
      assert s[..|s| - 1] == [];
    } else {
      assert s[..|s| - 1] == Digits(n / 10);
      ParseDigitsOfDigits(n / 10);
    }
  }

  /** Reading back the decimal text of any integer yields that integer. */
  lemma ParseToString(n: int)
    ensures ParseInt(ToString(n)) == Some(n)
  {
    if n < 0 {
      assert ToString(n)[1..] == Digits(-n);
      ParseDigitsOfDigits(-n);
    } else {
      ParseDigitsOfDigits(n);
    }
  }
}
