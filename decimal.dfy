/** Minimal decimal text of an integer, the output that `itoa::Buffer::format`
    gives for the 64-bit integers the serializer writes (src/ser.rs:52-56,
    67-71). The library itself is not part of this model; this function is
    its specification, and `DecimalValue` is its parsing partner. */
module DecimalText {

  function Digit(d: nat): (c: char)
    requires d < 10
  {
    ('0' as int + d) as char
  }

  predicate IsDigit(c: char)
  {
    '0' <= c <= '9'
  }

  /** The decimal digits of `n`, most significant first, without leading zeros. */
  function Digits(n: nat): (r: string)
    decreases n
  {
    if n < 10 then [Digit(n)] else Digits(n / 10) + [Digit(n % 10)]
  }

  /** Decimal text of `n`: a `-` only for negatives, then the digits of |n|. */
  function Decimal(n: int): string
  {
    if n < 0 then "-" + Digits(-n) else Digits(n)
  }

  /** The number a run of decimal digits stands for. */
  function DigitsValue(s: string): nat
    requires forall i :: 0 <= i < |s| ==> IsDigit(s[i])
    decreases |s|
  {
    if s == [] then 0
    else
      assert IsDigit(s[|s| - 1]);
      DigitsValue(s[..|s| - 1]) * 10 + (s[|s| - 1] as int - '0' as int)
  }

  /** The integer that decimal text stands for, if it is well formed. */
  function DecimalValue(s: string): (r: int)
    requires |s| > 0
    requires s[0] == '-' ==> |s| > 1
    requires forall i :: (if s[0] == '-' then 1 else 0) <= i < |s| ==> IsDigit(s[i])
  {
    if s[0] == '-' then -(DigitsValue(s[1..]) as int) else DigitsValue(s)
  }

  /** The digits are all digits, and minimal: the first one is `0` only for zero. */
  lemma {:induction false} DigitsShape(n: nat)
    ensures |Digits(n)| > 0
    ensures forall i :: 0 <= i < |Digits(n)| ==> IsDigit(Digits(n)[i])
    ensures Digits(n)[0] == '0' <==> n == 0
    ensures DigitsValue(Digits(n)) == n
    decreases n
  {
    if n >= 10 {
      DigitsShape(n / 10);
      var p := Digits(n / 10);
      assert Digits(n)[..|Digits(n)| - 1] == p;
    }
  }

  /** Decimal text reads back as the same integer, starts with `-` exactly
      for negatives, and has no leading zero except in `0` itself. */
  lemma DecimalRoundTrip(n: int)
    ensures |Decimal(n)| > 0
    ensures Decimal(n)[0] == '-' <==> n < 0
    ensures n < 0 ==> |Decimal(n)| > 1 && Decimal(n)[1] != '0'
    ensures n > 0 ==> Decimal(n)[0] != '0'
    ensures n == 0 ==> Decimal(n) == "0"
    ensures forall i :: (if n < 0 then 1 else 0) <= i < |Decimal(n)| ==> IsDigit(Decimal(n)[i])
    ensures DecimalValue(Decimal(n)) == n
  {
    if n < 0 {
      DigitsShape(-n);
      assert Decimal(n)[1..] == Digits(-n);
    } else {
      DigitsShape(n);
    }
  }
}
