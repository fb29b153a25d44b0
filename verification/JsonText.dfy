/**
 JSON values, and the text that Expr::print and the indenting formatter produce.
 Objects are std::map, so properties are kept sorted by key.
 */
module JsonText {
  import opened Bytes
  import opened Options

  datatype Json =
    | Null
    | Boolean(b: bool)
    | Number(d: real)
    | String(s: seq<Byte>)
    | Array(elements: seq<Json>)
    | Object(properties: seq<Property>)

  datatype Property = Property(key: seq<Byte>, value: Json)

  /** The C library's "%g" and strtod; strtod yields a value when it consumes the
      whole token. */
  datatype NumberIO = NumberIO(format: real -> seq<Byte>, strtod: seq<Byte> -> Option<real>)

  predicate IsNumber(c: Byte) {
    48 <= c <= 57 || c == 101 || c == 69 || c == 43 || c == 45 || c == 46
  }

  /** What the round trip needs of a number: "%g" prints characters of numbers
      only, and strtod reads them back as the same value. */
  predicate PrintsBack(io: NumberIO, d: real) {
    var token := io.format(d);
    token != [] && (forall i :: 0 <= i < |token| ==> IsNumber(token[i])) && io.strtod(token) == Some(d)
  }

  predicate SortedKeys(ps: seq<Property>) {
    forall i :: 0 <= i < |ps| - 1 ==> BytesLess(ps[i].key, ps[i + 1].key)
  }

  /** A value that can exist: objects are sorted, at every depth; and every number
      survives printing. */
  predicate Valid(io: NumberIO, e: Json)
    decreases e
  {
    match e
    case Number(d) => PrintsBack(io, d)
    case Array(es) => forall i :: 0 <= i < |es| ==> Valid(io, es[i])
    case Object(ps) => SortedKeys(ps) && forall i :: 0 <= i < |ps| ==> Valid(io, ps[i].value)
    case _ => true
  }

  // ---------- Printing ----------

  const QUOTE: Byte := 34
  const BACKSLASH: Byte := 92
  const COMMA: Byte := 44
  const COLON: Byte := 58
  const OPEN_ARRAY: Byte := 91
  const CLOSE_ARRAY: Byte := 93
  const OPEN_OBJECT: Byte := 123
  const CLOSE_OBJECT: Byte := 125
  const SPACE: Byte := 32

  /** How quote() writes one byte. */
  function Escape(c: Byte): seq<Byte> {
    if c == QUOTE || c == BACKSLASH then [BACKSLASH, c]
    else if c >= 32 then [c]
    else if c == 9 then [BACKSLASH, 116]
    else if c == 10 then [BACKSLASH, 110]
    else if c == 13 then [BACKSLASH, 114]
    else [BACKSLASH, 117, HexDigit(0), HexDigit(0), HexDigit(c / 16), HexDigit(c % 16)]
  }

  function EscapeAll(s: seq<Byte>): seq<Byte> {
    if s == [] then [] else Escape(s[0]) + EscapeAll(s[1..])
  }

  function Quote(s: seq<Byte>): seq<Byte> {
    [QUOTE] + EscapeAll(s) + [QUOTE]
  }

  /** None is operator<<, which ignores the indenter; Some(n) is format option n. */
  type Style = Option<nat>

  function Spaces(n: nat): (s: seq<Byte>)
    ensures |s| == n && forall i :: 0 <= i < n ==> s[i] == SPACE
  {
    seq(n, _ => SPACE)
  }

  function NewlineAt(style: Style, level: nat): seq<Byte> {
    if style.None? then [] else [NEWLINE] + Spaces(level)
  }

  function SpaceAfterColon(style: Style): seq<Byte> {
    if style.None? then [] else [SPACE]
  }

  function Indented(style: Style, level: nat): nat {
    if style.None? then level else level + style.value
  }

  function Print(io: NumberIO, e: Json, style: Style, level: nat): seq<Byte>
    decreases e, 1
  {
    match e
    case Null => [110, 117, 108, 108]
    case Boolean(b) => if b then [116, 114, 117, 101] else [102, 97, 108, 115, 101]
    case Number(d) => io.format(d)
    case String(s) => Quote(s)
    case Array(es) =>
      [OPEN_ARRAY] + PrintElements(io, es, style, Indented(style, level))
      + (if es == [] then [] else NewlineAt(style, level)) + [CLOSE_ARRAY]
    case Object(ps) =>
      [OPEN_OBJECT] + PrintProperties(io, ps, style, Indented(style, level))
      + (if ps == [] then [] else NewlineAt(style, level)) + [CLOSE_OBJECT]
  }

  function PrintElements(io: NumberIO, es: seq<Json>, style: Style, level: nat): seq<Byte>
    decreases es, 0
  {
    if es == [] then []
    else
      NewlineAt(style, level) + Print(io, es[0], style, level)
      + if |es| == 1 then [] else [COMMA] + PrintElements(io, es[1..], style, level)
  }

  function PrintProperty(io: NumberIO, p: Property, style: Style, level: nat): seq<Byte>
    decreases p, 2
  {
    Quote(p.key) + [COLON] + SpaceAfterColon(style) + Print(io, p.value, style, level)
  }

  function PrintProperties(io: NumberIO, ps: seq<Property>, style: Style, level: nat): seq<Byte>
    decreases ps, 0
  {
    if ps == [] then []
    else
      NewlineAt(style, level) + PrintProperty(io, ps[0], style, level)
      + if |ps| == 1 then [] else [COMMA] + PrintProperties(io, ps[1..], style, level)
  }
}
