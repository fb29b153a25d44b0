/**
 sortText: a string whose byte order is the order of completion results, by way of
 an integer encoding of IEEE 754 single precision numbers.
 */
module SortKey {
  import opened Bytes

  // ---------- Floating point numbers (IEEE 754, section 3.4) ----------

  const TOP_BIT := 0x8000_0000
  const WORD := 0x1_0000_0000
  const HIDDEN_BIT := 0x80_0000

  /** The bits of a float. */
  type Word = w: int | 0 <= w < WORD

  /** A float that is not a NaN: those have the largest exponent and a fraction. */
  type Float = w: Word | !IsNaN(w)

  predicate IsNaN(w: Word) {
    Exponent(w) == 255 && Fraction(w) != 0
  }

  predicate SignBit(w: Word) {
    w >= TOP_BIT
  }

  function Exponent(w: Word): int {
    w / HIDDEN_BIT % 256
  }

  function Fraction(w: Word): int {
    w % HIDDEN_BIT
  }

  function Pow2(n: nat): (r: int)
    ensures r > 0
  {
    if n == 0 then 1 else 2 * Pow2(n - 1)
  }

  /** The absolute value in units of the smallest subnormal number, 2 to the power
      of -149; infinity takes the place of the next power of two. */
  function Magnitude(w: Word): int {
    if Exponent(w) == 0 then Fraction(w) else (HIDDEN_BIT + Fraction(w)) * Pow2(Exponent(w) - 1)
  }

  function Value(f: Float): int {
    if SignBit(f) then -Magnitude(f) else Magnitude(f)
  }

  function FlipSign(w: Word): (r: Word)
    ensures Exponent(r) == Exponent(w) && Fraction(r) == Fraction(w) && SignBit(r) == !SignBit(w)
    ensures IsNaN(r) == IsNaN(w)
  {
    if SignBit(w) then w - TOP_BIT else w + TOP_BIT
  }

  /** Unary minus. */
  function Negate(f: Float): (r: Float)
    ensures Value(r) == -Value(f)
  {
    assert !IsNaN(f);
    FlipSign(f)
  }

  // ---------- encodeFloat ----------

  /** Unsigned arithmetic: `0 - U` and `U + TopBit` modulo 2 to the power of 32. */
  function EncodeFloat(f: Float): Word {
    if SignBit(f) then (0 - f) % WORD else (f + TOP_BIT) % WORD
  }

  lemma {:induction false} Pow2Monotone(m: nat, n: nat)
    requires m <= n
    ensures Pow2(m) <= Pow2(n)
  {
    if m < n {
      Pow2Monotone(m, n - 1);
    }
  }

  /** The bits of two numbers of the same sign, without the sign. */
  function Unsigned(w: Word): int {
    w % TOP_BIT
  }

  lemma UnsignedParts(w: Word)
    ensures Unsigned(w) == Exponent(w) * HIDDEN_BIT + Fraction(w)
    ensures 0 <= Exponent(w) < 256 && 0 <= Fraction(w) < HIDDEN_BIT
  {
  }

  lemma ScaledLess(m: int, n: int, p: int)
    requires m < n && p > 0
    ensures m * p < n * p
  {
  }

  lemma MagnitudeBelowNextExponent(w: Word)
    ensures Magnitude(w) < HIDDEN_BIT * Pow2(Exponent(w))
  {
    UnsignedParts(w);
    if Exponent(w) > 0 {
      var p := Pow2(Exponent(w) - 1);
      ScaledLess(HIDDEN_BIT + Fraction(w), HIDDEN_BIT + HIDDEN_BIT, p);
      assert (HIDDEN_BIT + HIDDEN_BIT) * p == HIDDEN_BIT * (2 * p);
    }
  }

  lemma MagnitudeAtLeastExponent(w: Word)
    requires Exponent(w) > 0
    ensures HIDDEN_BIT * Pow2(Exponent(w) - 1) <= Magnitude(w)
  {
    UnsignedParts(w);
    var p := Pow2(Exponent(w) - 1);
    assert 0 <= Fraction(w) * p;
  }

  lemma SameExponent(a: Word, b: Word)
    requires Exponent(a) == Exponent(b) && Fraction(a) < Fraction(b)
    ensures Magnitude(a) < Magnitude(b)
  {
    if Exponent(a) > 0 {
      var p := Pow2(Exponent(a) - 1);
      ScaledLess(HIDDEN_BIT + Fraction(a), HIDDEN_BIT + Fraction(b), p);
    }
  }

  /** Magnitudes compare like their bits. */
  lemma MagnitudeOrder(a: Word, b: Word)
    ensures Unsigned(a) < Unsigned(b) <==> Magnitude(a) < Magnitude(b)
    ensures Unsigned(a) == Unsigned(b) <==> Magnitude(a) == Magnitude(b)
  {
    UnsignedParts(a);
    UnsignedParts(b);
    if Unsigned(a) == Unsigned(b) {
      assert Exponent(a) == Exponent(b) && Fraction(a) == Fraction(b);
    } else if Unsigned(a) < Unsigned(b) {
      MagnitudeIncreases(a, b);
    } else {
      MagnitudeIncreases(b, a);
    }
  }

  lemma MagnitudeIncreases(a: Word, b: Word)
    requires Unsigned(a) < Unsigned(b)
    ensures Magnitude(a) < Magnitude(b)
  {
    UnsignedParts(a);
    UnsignedParts(b);
    if Exponent(a) == Exponent(b) {
      SameExponent(a, b);
    } else {
      MagnitudeBelowNextExponent(a);
      MagnitudeAtLeastExponent(b);
      Pow2Monotone(Exponent(a), Exponent(b) - 1);
    }
  }

  lemma MagnitudeZero(w: Word)
    ensures Magnitude(w) >= 0
    ensures Magnitude(w) == 0 <==> Unsigned(w) == 0
  {
    UnsignedParts(w);
    if Exponent(w) > 0 {
      MagnitudeAtLeastExponent(w);
    }
  }

  /** Main result: a < b exactly when encodeFloat(a) < encodeFloat(b), with -0 and +0
      equal on both sides. */
  lemma EncodeFloatOrder(a: Float, b: Float)
    ensures Value(a) < Value(b) <==> EncodeFloat(a) < EncodeFloat(b)
    ensures Value(a) == Value(b) <==> EncodeFloat(a) == EncodeFloat(b)
  {
    MagnitudeOrder(a, b);
    MagnitudeZero(a);
    MagnitudeZero(b);
    EncodeSigned(a);
    EncodeSigned(b);
  }

  /** The encoding is the signed value of the bits, counted from the middle. */
  lemma EncodeSigned(f: Float)
    ensures EncodeFloat(f) == TOP_BIT + if SignBit(f) then -Unsigned(f) else Unsigned(f)
  {
  }

  // ---------- Hexadecimal ----------

  /** The last `width` lower-case digits, most significant first. */
  function Hex(n: nat, width: nat): (s: seq<Byte>)
    ensures |s| == width
  {
    if width == 0 then [] else Hex(n / 16, width - 1) + [HexDigit(n % 16)]
  }

  lemma {:induction false} LessOfCommonPrefix(prefix: seq<Byte>, a: seq<Byte>, b: seq<Byte>)
    ensures BytesLess(prefix + a, prefix + b) <==> BytesLess(a, b)
  {
    if prefix == [] {
      assert prefix + a == a && prefix + b == b;
    } else {
      assert (prefix + a)[1..] == prefix[1..] + a && (prefix + b)[1..] == prefix[1..] + b;
      LessOfCommonPrefix(prefix[1..], a, b);
    }
  }

  /** Texts that differ in a part of the same length compare like that part. */
  lemma {:induction false} LessOfDifferentPrefix(p: seq<Byte>, q: seq<Byte>, a: seq<Byte>, b: seq<Byte>)
    requires |p| == |q| && p != q
    ensures BytesLess(p + a, q + b) <==> BytesLess(p, q)
  {
    assert (p + a)[1..] == p[1..] + a && (q + b)[1..] == q[1..] + b;
    assert p == [p[0]] + p[1..] && q == [q[0]] + q[1..];
    if p[0] == q[0] {
      LessOfDifferentPrefix(p[1..], q[1..], a, b);
    }
  }

  /** Digits of the same width sort like the numbers. */
  lemma {:induction false} HexOrder(m: nat, n: nat, width: nat)
    requires m < Pow16(width) && n < Pow16(width)
    ensures BytesLess(Hex(m, width), Hex(n, width)) <==> m < n
    ensures Hex(m, width) == Hex(n, width) <==> m == n
  {
    if width > 0 {
      HexOrder(m / 16, n / 16, width - 1);
      var p, q := Hex(m / 16, width - 1), Hex(n / 16, width - 1);
      var c, d := [HexDigit(m % 16)], [HexDigit(n % 16)];
      if p == q {
        LessOfCommonPrefix(p, c, d);
        assert BytesLess(c, d) <==> m % 16 < n % 16;
        assert (p + c)[|p|] == HexDigit(m % 16) && (q + d)[|p|] == HexDigit(n % 16);
      } else {
        LessOfDifferentPrefix(p, q, c, d);
        assert (p + c)[..|p|] == p && (q + d)[..|p|] == q;
      }
    }
  }

  function Pow16(n: nat): int {
    if n == 0 then 1 else 16 * Pow16(n - 1)
  }

  lemma EightDigitsHoldAWord()
    ensures Pow16(8) == WORD
  {
    assert Pow16(2) == 256 && Pow16(4) == 65536;
  }

  // ---------- sortText ----------

  function SortText(score: Float, name: seq<Byte>): seq<Byte> {
    Hex(EncodeFloat(Negate(score)), 8) + name
  }

  /** TopN::greater: a higher score, or the same score and an earlier name. */
  predicate Greater(score1: Float, name1: seq<Byte>, score2: Float, name2: seq<Byte>) {
    if Value(score1) != Value(score2) then Value(score1) > Value(score2) else BytesLess(name1, name2)
  }

  /** Main result: texts sort exactly as candidates are ranked. */
  lemma SortTextOrder(score1: Float, name1: seq<Byte>, score2: Float, name2: seq<Byte>)
    ensures BytesLess(SortText(score1, name1), SortText(score2, name2)) <==> Greater(score1, name1, score2, name2)
  {
    var m, n := EncodeFloat(Negate(score1)), EncodeFloat(Negate(score2));
    EncodeFloatOrder(Negate(score1), Negate(score2));
    EightDigitsHoldAWord();
    HexOrder(m, n, 8);
    if m == n {
      LessOfCommonPrefix(Hex(m, 8), name1, name2);
    } else {
      LessOfDifferentPrefix(Hex(m, 8), Hex(n, 8), name1, name2);
    }
  }
}
