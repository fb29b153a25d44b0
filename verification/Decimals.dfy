/** Decimal notation. */
module Decimals {
  import opened Bytes

  const MINUS: Byte := 45

  predicate IsDigit(c: Byte) {
    48 <= c <= 57
  }

  predicate AllDigits(s: seq<Byte>) {
    forall i :: 0 <= i < |s| ==> IsDigit(s[i])
  }

  function Digits(n: nat): (s: seq<Byte>)
    ensures s != [] && AllDigits(s)
  {
    (if n < 10 then [] else Digits(n / 10)) + [48 + n % 10]
  }

  function DigitsValue(s: seq<Byte>): nat
    requires AllDigits(s)
  {
    if s == [] then 0 else DigitsValue(s[..|s| - 1]) * 10 + (s[|s| - 1] - 48)
  }

  /** No leading zero but in "0" itself. */
  lemma {:induction false} DigitsRoundTrip(n: nat)
    ensures DigitsValue(Digits(n)) == n
    ensures n > 0 ==> Digits(n)[0] != 48
  {
    var s := Digits(n);
    if n < 10 {
      assert s[..|s| - 1] == [];
    } else {
      assert s[..|s| - 1] == Digits(n / 10);
      DigitsRoundTrip(n / 10);
    }
  }

  function Decimal(n: int): seq<Byte> {
    if n < 0 then [MINUS] + Digits(-n) else Digits(n)
  }

  predicate IsDecimal(s: seq<Byte>) {
    if s != [] && s[0] == MINUS then s[1..] != [] && AllDigits(s[1..]) else s != [] && AllDigits(s)
  }

  function DecimalValue(s: seq<Byte>): int
    requires IsDecimal(s)
  {
    if s[0] == MINUS then -(DigitsValue(s[1..]) as int) else DigitsValue(s)
  }

  lemma DecimalRoundTrip(n: int)
    ensures IsDecimal(Decimal(n)) && DecimalValue(Decimal(n)) == n
  {
    if n < 0 {
      DigitsRoundTrip(-n);
      assert ([MINUS] + Digits(-n))[1..] == Digits(-n);
    } else {
      DigitsRoundTrip(n);
      assert IsDigit(Digits(n)[0]);
    }
  }
}
