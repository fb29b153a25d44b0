/** Text as the C++ sources see it: bytes, compared byte by byte. */
module Bytes {
  type Byte = b: int | 0 <= b < 256

  const NEWLINE: Byte := 10

  /** The bytes of an ASCII text. */
  function Ascii(text: string): (s: seq<Byte>)
    requires forall i :: 0 <= i < |text| ==> text[i] < 128 as char
    ensures |s| == |text| && forall i :: 0 <= i < |s| ==> s[i] as char == text[i]
  {
    seq(|text|, i requires 0 <= i < |text| => text[i] as int)
  }

  /** A lower-case hexadecimal digit. */
  function HexDigit(n: int): Byte
    requires 0 <= n < 16
  {
    if n < 10 then 48 + n else 87 + n
  }

  /** StringRef's operator<: a proper prefix comes first. */
  predicate BytesLess(a: seq<Byte>, b: seq<Byte>) {
    if b == [] then false
    else if a == [] then true
    else a[0] < b[0] || (a[0] == b[0] && BytesLess(a[1..], b[1..]))
  }

  lemma {:induction false} BytesLessTransitive(a: seq<Byte>, b: seq<Byte>, c: seq<Byte>)
    requires BytesLess(a, b) && BytesLess(b, c)
    ensures BytesLess(a, c)
  {
    if a != [] && a[0] == b[0] && b[0] == c[0] {
      BytesLessTransitive(a[1..], b[1..], c[1..]);
    }
  }

  lemma {:induction false} BytesLessAsymmetric(a: seq<Byte>, b: seq<Byte>)
    requires BytesLess(a, b)
    ensures !BytesLess(b, a) && a != b
  {
    if a != [] && a[0] == b[0] {
      BytesLessAsymmetric(a[1..], b[1..]);
    }
  }

  lemma {:induction false} BytesLessTotal(a: seq<Byte>, b: seq<Byte>)
    ensures BytesLess(a, b) || a == b || BytesLess(b, a)
  {
    if a != [] && b != [] && a[0] == b[0] {
      BytesLessTotal(a[1..], b[1..]);
      assert a == [a[0]] + a[1..] && b == [b[0]] + b[1..];
    }
  }
}
