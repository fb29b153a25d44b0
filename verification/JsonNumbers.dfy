/** The numbers for which the round trip needs nothing but the C standard. */
module JsonNumbers {
  import opened Bytes
  import opened Decimals
  import opened Options
  import opened JsonText
  import opened JsonParse
  import opened JsonRoundTrip

  /** An integer of at most six digits. */
  predicate IsShort(n: int) {
    -999999 <= n <= 999999
  }

  /** "%g" prints such an integer in decimal without exponent or fraction, and strtod
      reads decimal notation (ISO C, 7.21.6.1 and 7.22.1.3). */
  ghost predicate StandardIO(io: NumberIO) {
    && (forall n: int :: IsShort(n) ==> io.format(n as real) == Decimal(n))
    && (forall s: seq<Byte> :: IsDecimal(s) && IsShort(DecimalValue(s)) ==> io.strtod(s) == Some(DecimalValue(s) as real))
  }

  /** Objects are sorted and numbers are integers of at most six digits. */
  predicate IsIntegral(e: Json) {
    match e
    case Number(d) => d == d.Floor as real && IsShort(d.Floor)
    case Array(es) => forall i :: 0 <= i < |es| ==> IsIntegral(es[i])
    case Object(ps) => SortedKeys(ps) && forall i :: 0 <= i < |ps| ==> IsIntegral(ps[i].value)
    case _ => true
  }

  lemma DecimalIsNumber(n: int)
    ensures Decimal(n) != [] && forall i :: 0 <= i < |Decimal(n)| ==> IsNumber(Decimal(n)[i])
  {
    assert forall c: Byte :: IsDigit(c) ==> IsNumber(c);
  }

  lemma ShortPrintsBack(io: NumberIO, n: int)
    requires StandardIO(io) && IsShort(n)
    ensures PrintsBack(io, n as real)
  {
    DecimalRoundTrip(n);
    DecimalIsNumber(n);
  }

  lemma {:induction false} IntegralIsValid(io: NumberIO, e: Json)
    requires StandardIO(io) && IsIntegral(e)
    ensures Valid(io, e)
  {
    match e
    case Number(d) => ShortPrintsBack(io, d.Floor);
    case Array(es) =>
      forall i | 0 <= i < |es| ensures Valid(io, es[i]) {
        IntegralIsValid(io, es[i]);
      }
    case Object(ps) =>
      forall i | 0 <= i < |ps| ensures Valid(io, ps[i].value) {
        IntegralIsValid(io, ps[i].value);
      }
    case _ =>
  }

  /** Main result, with the C library's contract in place of the parameters. */
  lemma IntegralRoundTrip(io: NumberIO, e: Json, style: Style)
    requires StandardIO(io) && IsIntegral(e)
    ensures ParseDocument(io, Print(io, e, style, 0)) == Good(e, [])
  {
    IntegralIsValid(io, e);
    PrintThenParse(io, e, style);
  }
}
