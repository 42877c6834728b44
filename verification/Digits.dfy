/** Numerals: digit strings in bases up to 16 and the numbers they stand for. */
module Digits {

  predicate IsDigit(c: char) {
    '0' <= c <= '9'
  }

  function DigitValue(c: char): nat
    requires IsDigit(c)
  {
    c as nat - '0' as nat
  }

  predicate AllDigits(ds: string) {
    forall i :: 0 <= i < |ds| ==> IsDigit(ds[i])
  }

  /** The number a decimal digit string stands for. */
  function DecimalValue(ds: string): nat
    requires AllDigits(ds)
  {
    if ds == [] then 0 else 10 * DecimalValue(ds[..|ds| - 1]) + DigitValue(ds[|ds| - 1])
  }

  /** The shortest decimal digit string of a number. */
  function Decimal(n: nat): (ds: string)
    ensures ds != [] && AllDigits(ds) && DecimalValue(ds) == n
  {
    var last := (n % 10 + '0' as nat) as char;
    if n < 10 then
      assert DecimalValue([last]) == 10 * DecimalValue([last][..0]) + n;
      [last]
    else
      var front := Decimal(n / 10);
      assert (front + [last])[..|front|] == front;
      front + [last]
  }
}
