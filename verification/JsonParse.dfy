/**
 The recursive-descent parser of JSONExpr.cpp as functions on the text that is
 left. `rest` is what remains at the cursor, also after an error, so an error's
 offset is the length of the text minus the length of `rest`.
 */
module JsonParse {
  import opened Bytes
  import opened Options
  import opened JsonText

  datatype Parse<T> = Good(value: T, rest: seq<Byte>) | Bad(msg: string, rest: seq<Byte>)

  predicate IsSpace(c: Byte) {
    c == 32 || c == 13 || c == 10 || c == 9
  }

  function EatWhitespace(s: seq<Byte>): (r: seq<Byte>)
    ensures |r| <= |s|
    ensures r == [] || !IsSpace(r[0])
  {
    if s != [] && IsSpace(s[0]) then EatWhitespace(s[1..]) else s
  }

  /** peek(): zero at the end. */
  function Peek(s: seq<Byte>): Byte {
    if s == [] then 0 else s[0]
  }

  /** Where next() leaves the cursor. */
  function Advance(s: seq<Byte>): (r: seq<Byte>)
    ensures |r| <= |s| && (s != [] ==> |r| < |s|)
  {
    if s == [] then s else s[1..]
  }

  // ---------- Scalars ----------

  function ParseWord(s: seq<Byte>, word: seq<Byte>, value: Json): (r: Parse<Json>)
    ensures |r.rest| <= |s|
    decreases |word|
  {
    if word == [] then Good(value, s)
    else if Peek(s) == word[0] then ParseWord(Advance(s), word[1..], value)
    else Bad("Invalid bareword", Advance(s))
  }

  /** The run of number characters at the cursor. */
  function NumberRun(s: seq<Byte>): (n: nat)
    ensures n <= |s|
  {
    if s != [] && IsNumber(s[0]) then 1 + NumberRun(s[1..]) else 0
  }

  function ParseNumber(io: NumberIO, first: Byte, s: seq<Byte>): (r: Parse<Json>)
    ensures |r.rest| <= |s|
  {
    var n := NumberRun(s);
    var d := io.strtod([first] + s[..n]);
    if d.Some? then Good(Number(d.value), s[n..]) else Bad("Invalid number", s[n..])
  }

  // ---------- Strings ----------

  predicate IsHex(c: Byte) {
    48 <= c <= 57 || 65 <= c <= 70 || 97 <= c <= 102
  }

  /** The value of a hexadecimal digit: letters are upper-cased by clearing 0x20. */
  function HexValue(c: Byte): (v: int)
    requires IsHex(c)
    ensures 0 <= v < 16
  {
    if c > 57 then (if c >= 97 then c - 32 else c) - 65 + 10 else c - 48
  }

  function Skip4(s: seq<Byte>): (r: seq<Byte>)
    ensures |r| <= |s|
  {
    Advance(Advance(Advance(Advance(s))))
  }

  /** Four calls of next(), then the digits are checked. */
  function Parse4Hex(s: seq<Byte>): (r: Parse<int>)
    ensures |r.rest| <= |s|
    ensures r.Good? ==> 0 <= r.value < 0x10000 && |s| >= 4 && r.rest == s[4..]
  {
    if |s| >= 4 && IsHex(s[0]) && IsHex(s[1]) && IsHex(s[2]) && IsHex(s[3]) then
      Good(((HexValue(s[0]) * 16 + HexValue(s[1])) * 16 + HexValue(s[2])) * 16 + HexValue(s[3]), s[4..])
    else Bad("Invalid \\u escape sequence", Skip4(s))
  }

  /** encodeUtf8, on the code points it is called with. */
  function EncodeUtf8(rune: int): seq<Byte>
    requires 0 <= rune <= 0x10FFFF
  {
    if rune <= 0x7F then [rune]
    else if rune <= 0x7FF then [0xC0 + rune / 64, 0x80 + rune % 64]
    else if rune <= 0xFFFF then [0xE0 + rune / 4096, 0x80 + rune / 64 % 64, 0x80 + rune % 64]
    else [0xF0 + rune / 262144, 0x80 + rune / 4096 % 64, 0x80 + rune / 64 % 64, 0x80 + rune % 64]
  }

  const REPLACEMENT: seq<Byte> := [0xEF, 0xBF, 0xBD]

  predicate IsLead(u: int) { 0xD800 <= u < 0xDC00 }
  predicate IsTrail(u: int) { 0xDC00 <= u < 0xE000 }

  /** `0x10000 | ((First - 0xD800) << 10) | (Second - 0xDC00)`: bit 16 is shared by
      the first two operands when bit 6 of First - 0xD800 is set. */
  function Combine(first: int, second: int): (r: int)
    requires IsLead(first) && IsTrail(second)
    ensures 0x10000 <= r <= 0x10FFFF
  {
    var high := first - 0xD800;
    (if high / 64 % 2 == 1 then 0 else 0x10000) + high * 1024 + (second - 0xDC00)
  }

  /** The loop of parseUnicode, `first` being the unit just read. */
  function UnicodeLoop(first: int, s: seq<Byte>, out: seq<Byte>): (r: Parse<seq<Byte>>)
    requires 0 <= first < 0x10000
    ensures |r.rest| <= |s|
    decreases |s|
  {
    if !IsLead(first) && !IsTrail(first) then Good(out + EncodeUtf8(first), s)
    else if IsTrail(first) then Good(out + REPLACEMENT, s)
    else if |s| < 2 || s[0] != BACKSLASH || s[1] != 117 then Good(out + REPLACEMENT, s)
    else
      match Parse4Hex(s[2..])
      case Bad(msg, rest) => Bad(msg, rest)
      case Good(second, rest) =>
        if !IsTrail(second) then UnicodeLoop(second, rest, out + REPLACEMENT)
        else Good(out + EncodeUtf8(Combine(first, second)), rest)
  }

  function ParseUnicode(s: seq<Byte>, out: seq<Byte>): (r: Parse<seq<Byte>>)
    ensures |r.rest| <= |s|
  {
    match Parse4Hex(s)
    case Bad(msg, rest) => Bad(msg, rest)
    case Good(first, rest) => UnicodeLoop(first, rest, out)
  }

  /** The one-letter escapes. */
  function SimpleEscape(c: Byte): Option<Byte> {
    if c == QUOTE || c == BACKSLASH || c == 47 then Some(c)
    else if c == 98 then Some(8)
    else if c == 102 then Some(12)
    else if c == 110 then Some(10)
    else if c == 114 then Some(13)
    else if c == 116 then Some(9)
    else None
  }

  /** The loop of parseString; the opening quote was consumed. */
  function ParseString(s: seq<Byte>, out: seq<Byte>): (r: Parse<seq<Byte>>)
    ensures |r.rest| <= |s| && (r.Good? ==> |r.rest| < |s|)
    decreases |s|
  {
    var c, t := Peek(s), Advance(s);
    if c == QUOTE then Good(out, t)
    else if t == [] then Bad("Unterminated string", t)
    else if c < 32 then Bad("Control character in string", t)
    else if c != BACKSLASH then ParseString(t, out + [c])
    else
      var e, u := Peek(t), Advance(t);
      if SimpleEscape(e).Some? then ParseString(u, out + [SimpleEscape(e).value])
      else if e == 117 then
        match ParseUnicode(u, out)
        case Bad(msg, rest) => Bad(msg, rest)
        case Good(longer, rest) => ParseString(rest, longer)
      else Bad("Invalid escape sequence", u)
  }

  // ---------- Values ----------

  /** `O[K] = V` on a std::map. */
  function Insert(ps: seq<Property>, key: seq<Byte>, value: Json): seq<Property> {
    if ps == [] || BytesLess(key, ps[0].key) then [Property(key, value)] + ps
    else if key == ps[0].key then [Property(key, value)] + ps[1..]
    else [ps[0]] + Insert(ps[1..], key, value)
  }

  function ParseExpr(io: NumberIO, s: seq<Byte>): (r: Parse<Json>)
    ensures |r.rest| <= |s| && (r.Good? ==> |r.rest| < |s|)
    decreases |s|, 1
  {
    var t := EatWhitespace(s);
    if t == [] then Bad("Unexpected EOF", t)
    else
      var c, u := t[0], t[1..];
      if c == 110 then ParseWord(u, [117, 108, 108], Null)
      else if c == 116 then ParseWord(u, [114, 117, 101], Boolean(true))
      else if c == 102 then ParseWord(u, [97, 108, 115, 101], Boolean(false))
      else if c == QUOTE then
        match ParseString(u, [])
        case Bad(msg, rest) => Bad(msg, rest)
        case Good(str, rest) => Good(String(str), rest)
      else if c == OPEN_ARRAY then
        var v := EatWhitespace(u);
        if Peek(v) == CLOSE_ARRAY then Good(Array([]), v[1..]) else ParseElements(io, v, [])
      else if c == OPEN_OBJECT then
        var v := EatWhitespace(u);
        if Peek(v) == CLOSE_OBJECT then Good(Object([]), v[1..]) else ParseProperties(io, v, [])
      else if IsNumber(c) then ParseNumber(io, c, u)
      else Bad("Expected JSON value", u)
  }

  /** The loop of the array case. */
  function ParseElements(io: NumberIO, s: seq<Byte>, elements: seq<Json>): (r: Parse<Json>)
    ensures |r.rest| <= |s|
    decreases |s|, 2
  {
    match ParseExpr(io, s)
    case Bad(msg, rest) => Bad(msg, rest)
    case Good(e, rest) =>
      var t := EatWhitespace(rest);
      var c, u := Peek(t), Advance(t);
      if c == COMMA then ParseElements(io, EatWhitespace(u), elements + [e])
      else if c == CLOSE_ARRAY then Good(Array(elements + [e]), u)
      else Bad("Expected , or ] after array element", u)
  }

  /** A key and its colon. */
  function ParseKey(s: seq<Byte>): (r: Parse<seq<Byte>>)
    ensures |r.rest| <= |s| && (r.Good? ==> |r.rest| < |s|)
  {
    if Peek(s) != QUOTE then Bad("Expected object key", Advance(s))
    else
      match ParseString(Advance(s), [])
      case Bad(msg, rest) => Bad(msg, rest)
      case Good(key, rest) =>
        var t := EatWhitespace(rest);
        if Peek(t) != COLON then Bad("Expected : after object key", Advance(t))
        else Good(key, EatWhitespace(Advance(t)))
  }

  /** A key and its value, put into the object. */
  function ParseProperty(io: NumberIO, s: seq<Byte>, properties: seq<Property>): (r: Parse<seq<Property>>)
    ensures |r.rest| <= |s| && (r.Good? ==> |r.rest| < |s|)
    decreases |s|, 2
  {
    match ParseKey(s)
    case Bad(msg, rest) => Bad(msg, rest)
    case Good(key, afterKey) =>
      match ParseExpr(io, afterKey)
      case Bad(msg, rest) => Bad(msg, rest)
      case Good(value, rest) => Good(Insert(properties, key, value), rest)
  }

  /** The loop of the object case. */
  function ParseProperties(io: NumberIO, s: seq<Byte>, properties: seq<Property>): (r: Parse<Json>)
    ensures |r.rest| <= |s|
    decreases |s|, 3
  {
    match ParseProperty(io, s, properties)
    case Bad(msg, rest) => Bad(msg, rest)
    case Good(more, rest) =>
      var t := EatWhitespace(rest);
      var c, u := Peek(t), Advance(t);
      if c == COMMA then ParseProperties(io, EatWhitespace(u), more)
      else if c == CLOSE_OBJECT then Good(Object(more), u)
      else Bad("Expected , or } after object property", u)
  }

  /** Nothing but whitespace is left. */
  function ParseEnd(s: seq<Byte>): Parse<()> {
    var t := EatWhitespace(s);
    if t == [] then Good((), t) else Bad("Text after end of document", t)
  }

  /** json::parse: one value and nothing after it. */
  function ParseDocument(io: NumberIO, s: seq<Byte>): Parse<Json> {
    match ParseExpr(io, s)
    case Bad(msg, rest) => Bad(msg, rest)
    case Good(e, rest) =>
      match ParseEnd(rest)
      case Bad(msg, end) => Bad(msg, end)
      case Good(_, end) => Good(e, end)
  }
}
