/**
 llvm::getAsUnsignedInteger with radix 0: the text shows its own radix. The value is
 accumulated in 64 bits, and a lost bit is noticed by dividing back.
 */
module UnsignedIntegers {
  import opened Bytes
  import opened Decimals
  import opened Options

  const ZERO: Byte := 48
  const UINT64_RANGE := 0x1_0000_0000_0000_0000

  /** The text is '0' and then that character, a lower-case letter or its capital. */
  predicate HasPrefix(s: seq<Byte>, lower: Byte, upper: Byte) {
    |s| > 1 && s[0] == ZERO && (s[1] == lower || s[1] == upper)
  }

  /** A zero before another digit. */
  predicate HasLeadingZero(s: seq<Byte>) {
    |s| > 1 && s[0] == ZERO && IsDigit(s[1])
  }

  /** The radix that the beginning of a text shows, and what is left to read:
      0x or 0X, 0b or 0B, 0o, or just a leading zero. */
  function SenseRadix(s: seq<Byte>): (r: (nat, seq<Byte>))
    ensures IsRadix(r.0)
  {
    if HasPrefix(s, 120, 88) then (16, s[2..])
    else if HasPrefix(s, 98, 66) then (2, s[2..])
    else if HasPrefix(s, 111, 111) then (8, s[2..])
    else if HasLeadingZero(s) then (8, s[1..])
    else (10, s)
  }

  /** The value of a digit of any radix; 36 for what is none. */
  function DigitOf(c: Byte): nat {
    if IsDigit(c) then c - 48
    else if 97 <= c <= 122 then c - 97 + 10
    else if 65 <= c <= 90 then c - 65 + 10
    else 36
  }

  /** One more digit in 64 bits, or None if dividing back shows that bits were lost. */
  function AddDigit(value: nat, radix: nat, digit: nat): Option<nat>
    requires radix > 0
  {
    var next := (value * radix + digit) % UINT64_RANGE;
    if next / radix < value then None else Some(next)
  }

  function Accumulate(s: seq<Byte>, radix: nat, value: nat): Option<nat>
    requires radix > 0
  {
    if s == [] then Some(value)
    else if DigitOf(s[0]) >= radix then None
    else
      var next := AddDigit(value, radix, DigitOf(s[0]));
      if next.None? then None else Accumulate(s[1..], radix, next.value)
  }

  function ParseUnsigned(s: seq<Byte>): Option<nat> {
    var (radix, digits) := SenseRadix(s);
    if digits == [] then None else Accumulate(digits, radix, 0)
  }

  // ---------- What it means ----------

  predicate DigitsIn(s: seq<Byte>, radix: nat) {
    forall i :: 0 <= i < |s| ==> DigitOf(s[i]) < radix
  }

  function ValueIn(s: seq<Byte>, radix: nat): nat {
    if s == [] then 0 else ValueIn(s[..|s| - 1], radix) * radix + DigitOf(s[|s| - 1])
  }

  predicate IsRadix(radix: nat) {
    radix == 2 || radix == 8 || radix == 10 || radix == 16
  }

  /** Dividing back notices every overflow and nothing else. */
  lemma OverflowIsNoticed(value: nat, radix: nat, digit: nat)
    requires value < UINT64_RANGE && digit < radix && IsRadix(radix)
    ensures AddDigit(value, radix, digit) ==
            if value * radix + digit < UINT64_RANGE then Some(value * radix + digit) else None
  {
    var whole := value * radix + digit;
    DividesBack(value, radix, digit);
    if whole >= UINT64_RANGE {
      DividesLess(value, radix, digit, whole % UINT64_RANGE);
    }
  }

  lemma DividesBack(value: nat, radix: nat, digit: nat)
    requires digit < radix && IsRadix(radix)
    ensures (value * radix + digit) / radix == value
  {
    if radix == 2 {
    } else if radix == 8 {
    } else if radix == 10 {
    } else {
    }
  }

  lemma DividesLess(value: nat, radix: nat, digit: nat, rest: nat)
    requires digit < radix && IsRadix(radix) && rest <= value * radix + digit - UINT64_RANGE
    ensures rest / radix < value
  {
    if radix == 2 {
    } else if radix == 8 {
    } else if radix == 10 {
    } else {
    }
  }

  /** The value from the left, `value` being that of the digits before. */
  function ValueFrom(s: seq<Byte>, radix: nat, value: nat): nat {
    if s == [] then value else ValueFrom(s[1..], radix, value * radix + DigitOf(s[0]))
  }

  lemma {:induction false} ValueOnlyGrows(s: seq<Byte>, radix: nat, value: nat)
    requires radix > 0
    ensures ValueFrom(s, radix, value) >= value
  {
    if s != [] {
      assert value * radix >= value;
      ValueOnlyGrows(s[1..], radix, value * radix + DigitOf(s[0]));
    }
  }

  lemma {:induction false} AccumulateExactly(s: seq<Byte>, radix: nat, value: nat)
    requires IsRadix(radix) && value < UINT64_RANGE
    ensures Accumulate(s, radix, value) ==
            if DigitsIn(s, radix) && ValueFrom(s, radix, value) < UINT64_RANGE then Some(ValueFrom(s, radix, value)) else None
  {
    if s != [] && DigitOf(s[0]) < radix {
      var next := value * radix + DigitOf(s[0]);
      OverflowIsNoticed(value, radix, DigitOf(s[0]));
      ValueOnlyGrows(s[1..], radix, next);
      DigitsInParts(s, radix);
      if next < UINT64_RANGE {
        AccumulateExactly(s[1..], radix, next);
      }
    }
  }

  lemma DigitsInParts(s: seq<Byte>, radix: nat)
    requires s != []
    ensures DigitsIn(s, radix) <==> DigitOf(s[0]) < radix && DigitsIn(s[1..], radix)
  {
    assert s == [s[0]] + s[1..];
  }

  lemma {:induction false} FromLeftOrRight(s: seq<Byte>, radix: nat)
    ensures ValueFrom(s, radix, 0) == ValueIn(s, radix)
  {
    if s != [] {
      FromLeftOrRight(s[..|s| - 1], radix);
      LastDigit(s, radix, 0);
    }
  }

  lemma {:induction false} LastDigit(s: seq<Byte>, radix: nat, value: nat)
    requires s != []
    ensures ValueFrom(s, radix, value) == ValueFrom(s[..|s| - 1], radix, value) * radix + DigitOf(s[|s| - 1])
  {
    var n := |s| - 1;
    if n > 0 {
      assert s[1..][..n - 1] == s[..n][1..];
      LastDigit(s[1..], radix, value * radix + DigitOf(s[0]));
    }
  }

  /** A text is read as a number exactly when it is, after the prefix, made of digits
      of the radix, at least one, whose value is the number and fits in 64 bits. */
  lemma ParsesExactly(s: seq<Byte>, n: nat)
    ensures var (radix, digits) := SenseRadix(s);
            ParseUnsigned(s) == Some(n) <==>
            digits != [] && DigitsIn(digits, radix) && ValueIn(digits, radix) == n < UINT64_RANGE
  {
    var (radix, digits) := SenseRadix(s);
    AccumulateExactly(digits, radix, 0);
    FromLeftOrRight(digits, radix);
  }

  // ---------- Decimal numbers ----------

  lemma {:induction false} DecimalValueIs(s: seq<Byte>)
    requires AllDigits(s)
    ensures DigitsIn(s, 10) && ValueIn(s, 10) == DigitsValue(s)
  {
    if s != [] {
      DecimalValueIs(s[..|s| - 1]);
    }
  }

  lemma {:induction false} DigitsAreSmall(s: seq<Byte>, i: nat)
    requires AllDigits(s) && i < |s|
    ensures DigitOf(s[i]) <= DigitsValue(s)
  {
    var n := |s| - 1;
    if i < n {
      DigitsAreSmall(s[..n], i);
    }
  }

  lemma {:induction false} OctalIsLess(s: seq<Byte>)
    requires AllDigits(s)
    ensures ValueIn(s, 8) <= DigitsValue(s)
    ensures ValueIn(s, 8) == DigitsValue(s) <==> DigitsValue(s) < 10
  {
    if s != [] {
      OctalIsLess(s[..|s| - 1]);
    }
  }

  lemma {:induction false} LeadingZeroIsNothing(s: seq<Byte>)
    requires AllDigits(s) && s != [] && s[0] == ZERO
    ensures DigitsValue(s[1..]) == DigitsValue(s)
  {
    var n := |s| - 1;
    if n > 0 {
      assert s[1..][..n - 1] == s[..n][1..];
      LeadingZeroIsNothing(s[..n]);
    } else {
      assert DigitsValue(s[..0]) == 0;
    }
  }

  /** A text of decimal digits is read as its decimal value exactly when that fits in
      64 bits or, after a leading zero, in one octal digit. */
  lemma DecimalExactly(s: seq<Byte>)
    requires s != [] && AllDigits(s)
    ensures ParseUnsigned(s) == Some(DigitsValue(s)) <==> DigitsValue(s) < if HasLeadingZero(s) then 8 else UINT64_RANGE
  {
    ParsesExactly(s, DigitsValue(s));
    if HasLeadingZero(s) {
      assert SenseRadix(s) == (8, s[1..]);
      LeadingZeroIsNothing(s);
      OctalIsLess(s[1..]);
      OneDecimalDigit(s[1..]);
      if DigitsValue(s) < 8 {
        OneOctalDigit(s[1..]);
      }
    } else {
      assert SenseRadix(s) == (10, s);
      DecimalValueIs(s);
    }
  }

  lemma OneOctalDigit(s: seq<Byte>)
    requires AllDigits(s) && DigitsValue(s) < 8
    ensures DigitsIn(s, 8)
  {
    forall i | 0 <= i < |s|
      ensures DigitOf(s[i]) < 8
    {
      DigitsAreSmall(s, i);
    }
  }

  lemma {:induction false} OneDecimalDigit(s: seq<Byte>)
    requires AllDigits(s) && s != []
    ensures DigitsValue(s) < 10 ==> DigitOf(s[|s| - 1]) == DigitsValue(s)
  {
  }

  /** So a number that was printed is read again. */
  lemma ReadsDigits(n: nat)
    requires n < UINT64_RANGE
    ensures ParseUnsigned(Digits(n)) == Some(n)
  {
    DigitsRoundTrip(n);
    DecimalExactly(Digits(n));
  }

  /** "010" */
  lemma TenReadAsEight()
    ensures var s: seq<Byte> := [48, 49, 48]; AllDigits(s) && DigitsValue(s) == 10 && ParseUnsigned(s) == Some(8)
  {
    var s: seq<Byte> := [48, 49, 48];
    ParsesExactly(s, 8);
    assert s[1..][..1] == [s[1]] && s[..2][..1] == [s[0]] && s[..1][..0] == [];
    assert ValueIn([s[1]], 8) == 1 && DigitsValue([s[0]]) == 0 && DigitsValue(s[..2]) == 1;
  }
}
