/**
 The layout of printed JSON, told from the text alone: a scanner that knows only
 brackets, commas, colons and quotation marks lays out the compact text again, and
 what is printed in any style is what it makes of it.
 */
module JsonLayout {
  import opened Bytes
  import opened Options
  import opened Sequences
  import opened JsonText
  import opened JsonParse
  import opened JsonGrammar
  import opened JsonRoundTrip
  import opened JsonStandard
  import opened JsonDocuments

  // ---------- The scanner ----------

  /** A new line at depth `depth`: `n` spaces for each open bracket. */
  function NewLine(style: Style, depth: nat): seq<Byte> {
    match style
    case None => []
    case Some(n) => [10] + seq(depth * n, _ => 32)
  }

  predicate Opens(c: Byte) {
    c as char in "[{"
  }

  predicate Closes(c: Byte) {
    c as char in "]}"
  }

  /** Outside of strings: whitespace goes, and each bracket, comma and colon gets its own. */
  function Relay(style: Style, s: seq<Byte>, depth: nat): seq<Byte>
    decreases |s|
  {
    if s == [] then []
    else if IsWs(s[0]) then Relay(style, s[1..], depth)
    else if s[0] as char == '"' then [s[0]] + RelayString(style, s[1..], depth)
    else if Opens(s[0]) && |s| > 1 && Closes(s[1]) then s[..2] + Relay(style, s[2..], depth)
    else if Opens(s[0]) then [s[0]] + NewLine(style, depth + 1) + Relay(style, s[1..], depth + 1)
    else if Closes(s[0]) && depth > 0 then NewLine(style, depth - 1) + [s[0]] + Relay(style, s[1..], depth - 1)
    else if s[0] as char == ',' then [s[0]] + NewLine(style, depth) + Relay(style, s[1..], depth)
    else if s[0] as char == ':' && style.Some? then [s[0], 32] + Relay(style, s[1..], depth)
    else [s[0]] + Relay(style, s[1..], depth)
  }

  /** Inside of a string everything stays, up to a quotation mark that is not escaped. */
  function RelayString(style: Style, s: seq<Byte>, depth: nat): seq<Byte>
    decreases |s|
  {
    if s == [] then []
    else if s[0] as char == '"' then [s[0]] + Relay(style, s[1..], depth)
    else if s[0] as char == '\\' && |s| > 1 then s[..2] + RelayString(style, s[2..], depth)
    else [s[0]] + RelayString(style, s[1..], depth)
  }

  /** The indenter's level at a depth. */
  function LevelAt(style: Style, depth: nat): nat {
    if style.None? then 0 else depth * style.value
  }

  lemma LevelsAgree(style: Style, depth: nat)
    ensures NewlineAt(style, LevelAt(style, depth)) == NewLine(style, depth)
    ensures Indented(style, LevelAt(style, depth)) == LevelAt(style, depth + 1)
  {
  }

  // ---------- Single bytes ----------

  /** A byte that is no whitespace, bracket, comma, colon or quotation mark. */
  predicate Plain(c: Byte) {
    c > 32 && c != QUOTE && c != OPEN_ARRAY && c != CLOSE_ARRAY && c != OPEN_OBJECT && c != CLOSE_OBJECT && c != COMMA && c != COLON
  }

  lemma PlainStep(style: Style, c: Byte, s: seq<Byte>, depth: nat)
    requires Plain(c)
    ensures Relay(style, [c] + s, depth) == [c] + Relay(style, s, depth)
  {
    assert ([c] + s)[1..] == s;
    assert c as char != '[' && c as char != '{' && c as char != ']' && c as char != '}';
    WhitespaceIs(c);
  }

  lemma {:induction false} PlainRun(style: Style, a: seq<Byte>, s: seq<Byte>, depth: nat)
    requires forall i :: 0 <= i < |a| ==> Plain(a[i])
    ensures Relay(style, a + s, depth) == a + Relay(style, s, depth)
  {
    if a == [] {
      assert a + s == s;
    } else {
      PlainRun(style, a[1..], s, depth);
      PlainStep(style, a[0], a[1..] + s, depth);
      Assoc([a[0]], a[1..], s);
      Assoc([a[0]], a[1..], Relay(style, s, depth));
      assert [a[0]] + a[1..] == a;
    }
  }

  lemma QuoteStep(style: Style, s: seq<Byte>, depth: nat)
    ensures Relay(style, [QUOTE] + s, depth) == [QUOTE] + RelayString(style, s, depth)
    ensures RelayString(style, [QUOTE] + s, depth) == [QUOTE] + Relay(style, s, depth)
  {
    assert ([QUOTE] + s)[1..] == s;
    WhitespaceIs(QUOTE);
  }

  lemma EmptyStep(style: Style, open: Byte, close: Byte, s: seq<Byte>, depth: nat)
    requires (open == OPEN_ARRAY && close == CLOSE_ARRAY) || (open == OPEN_OBJECT && close == CLOSE_OBJECT)
    ensures Relay(style, [open, close] + s, depth) == [open, close] + Relay(style, s, depth)
  {
    var t := [open, close] + s;
    assert t[..2] == [open, close] && t[2..] == s;
    WhitespaceIs(open);
  }

  lemma OpenStep(style: Style, open: Byte, s: seq<Byte>, depth: nat)
    requires open == OPEN_ARRAY || open == OPEN_OBJECT
    requires s != [] && !Closes(s[0])
    ensures Relay(style, [open] + s, depth) == [open] + (NewLine(style, depth + 1) + Relay(style, s, depth + 1))
  {
    assert ([open] + s)[1..] == s && ([open] + s)[1] == s[0];
    WhitespaceIs(open);
  }

  lemma CloseStep(style: Style, close: Byte, s: seq<Byte>, depth: nat)
    requires close == CLOSE_ARRAY || close == CLOSE_OBJECT
    ensures Relay(style, [close] + s, depth + 1) == NewLine(style, depth) + ([close] + Relay(style, s, depth))
  {
    assert ([close] + s)[1..] == s;
    WhitespaceIs(close);
  }

  lemma CommaStep(style: Style, s: seq<Byte>, depth: nat)
    ensures Relay(style, [COMMA] + s, depth) == [COMMA] + (NewLine(style, depth) + Relay(style, s, depth))
  {
    assert ([COMMA] + s)[1..] == s;
    WhitespaceIs(COMMA);
  }

  lemma ColonStep(style: Style, s: seq<Byte>, depth: nat)
    ensures Relay(style, [COLON] + s, depth) == [COLON] + (SpaceAfterColon(style) + Relay(style, s, depth))
  {
    assert ([COLON] + s)[1..] == s;
    WhitespaceIs(COLON);
  }

  // ---------- Strings ----------

  lemma EscapeStep(style: Style, c: Byte, s: seq<Byte>, depth: nat)
    ensures RelayString(style, Escape(c) + s, depth) == Escape(c) + RelayString(style, s, depth)
  {
    var t := Escape(c) + s;
    if |Escape(c)| == 1 {
      assert t[1..] == s;
    } else if |Escape(c)| == 2 {
      assert t[..2] == Escape(c) && t[2..] == s;
    } else {
      UnitKept(style, Escape(c), s, depth);
    }
  }

  lemma UnitKept(style: Style, e: seq<Byte>, s: seq<Byte>, depth: nat)
    requires |e| == 6 && e[0] == BACKSLASH && forall i :: 1 <= i < 6 ==> e[i] != BACKSLASH && e[i] != QUOTE
    ensures RelayString(style, e + s, depth) == e + RelayString(style, s, depth)
  {
    var t := e + s;
    assert t[..2] == e[..2] && t[2..] == e[2..] + s;
    KeptRun(style, e[2..], s, depth);
    Assoc(e[..2], e[2..], RelayString(style, s, depth));
    assert e[..2] + e[2..] == e;
  }

  lemma {:induction false} KeptRun(style: Style, a: seq<Byte>, s: seq<Byte>, depth: nat)
    requires forall i :: 0 <= i < |a| ==> a[i] != BACKSLASH && a[i] != QUOTE
    ensures RelayString(style, a + s, depth) == a + RelayString(style, s, depth)
  {
    if a == [] {
      assert a + s == s;
    } else {
      KeptRun(style, a[1..], s, depth);
      assert (a + s)[1..] == a[1..] + s;
      Assoc([a[0]], a[1..], RelayString(style, s, depth));
      assert [a[0]] + a[1..] == a;
    }
  }

  lemma {:induction false} EscapedKept(style: Style, str: seq<Byte>, s: seq<Byte>, depth: nat)
    ensures RelayString(style, EscapeAll(str) + s, depth) == EscapeAll(str) + RelayString(style, s, depth)
  {
    if str == [] {
      assert EscapeAll(str) + s == s;
    } else {
      var e, more := Escape(str[0]), EscapeAll(str[1..]);
      EscapedKept(style, str[1..], s, depth);
      EscapeStep(style, str[0], more + s, depth);
      Assoc(e, more, s);
      Assoc(e, more, RelayString(style, s, depth));
    }
  }

  lemma QuotedKept(style: Style, str: seq<Byte>, s: seq<Byte>, depth: nat)
    ensures Relay(style, Quote(str) + s, depth) == Quote(str) + Relay(style, s, depth)
  {
    var e := EscapeAll(str);
    Bracketed3(QUOTE, e, s);
    QuoteStep(style, e + ([QUOTE] + s), depth);
    EscapedKept(style, str, [QUOTE] + s, depth);
    QuoteStep(style, s, depth);
    Bracketed3(QUOTE, e, Relay(style, s, depth));
  }

  // ---------- Values ----------

  /** The compact text. */
  function Compact(io: NumberIO, e: Json): seq<Byte> {
    Print(io, e, None, 0)
  }

  lemma NumberIsPlain(token: seq<Byte>)
    requires forall i :: 0 <= i < |token| ==> IsNumber(token[i])
    ensures forall i :: 0 <= i < |token| ==> Plain(token[i])
  {
  }

  lemma ClosesExactly(c: Byte)
    ensures Closes(c) <==> c == CLOSE_ARRAY || c == CLOSE_OBJECT
  {
  }

  /** The compact text of a value starts with no whitespace and no closing bracket. */
  lemma CompactStart(io: NumberIO, e: Json)
    requires Valid(io, e)
    ensures Compact(io, e) != [] && !Closes(Compact(io, e)[0])
  {
    var node := NodeOf(io, e, None, 0);
    NodeIsPrinted(io, e, None, 0);
    FirstByte(io, node);
    ClosesExactly(Compact(io, e)[0]);
  }

  lemma {:induction false} ValueLaid(io: NumberIO, e: Json, style: Style, depth: nat, rest: seq<Byte>)
    requires Valid(io, e)
    ensures Relay(style, Compact(io, e) + rest, depth) == Print(io, e, style, LevelAt(style, depth)) + Relay(style, rest, depth)
    decreases e, 2
  {
    match e
    case Null => PlainRun(style, Compact(io, e), rest, depth);
    case Boolean(_) => PlainRun(style, Compact(io, e), rest, depth);
    case Number(d) =>
      NumberIsPlain(io.format(d));
      PlainRun(style, Compact(io, e), rest, depth);
    case String(str) => QuotedKept(style, str, rest, depth);
    case Array(es) =>
      if es == [] {
        EmptyStep(style, OPEN_ARRAY, CLOSE_ARRAY, rest, depth);
        EmptyPrinted(io, style, depth);
      } else {
        ArrayLaid(io, es, style, depth, rest);
      }
    case Object(ps) =>
      if ps == [] {
        EmptyStep(style, OPEN_OBJECT, CLOSE_OBJECT, rest, depth);
        EmptyPrinted(io, style, depth);
      } else {
        ObjectLaid(io, ps, style, depth, rest);
      }
  }

  lemma EmptyPrinted(io: NumberIO, style: Style, depth: nat)
    ensures Print(io, Array([]), style, LevelAt(style, depth)) == Compact(io, Array([])) == [OPEN_ARRAY, CLOSE_ARRAY]
    ensures Print(io, Object([]), style, LevelAt(style, depth)) == Compact(io, Object([])) == [OPEN_OBJECT, CLOSE_OBJECT]
  {
  }

  lemma Nest(open: seq<Byte>, body: seq<Byte>, line: seq<Byte>, close: seq<Byte>, rest: seq<Byte>)
    ensures (open + body + line + close) + rest == open + (body + (line + (close + rest)))
    ensures (open + body + [] + close) + rest == open + (body + (close + rest))
  {
  }

  lemma {:induction false} ArrayLaid(io: NumberIO, es: seq<Json>, style: Style, depth: nat, rest: seq<Byte>)
    requires es != [] && Valid(io, Array(es))
    ensures Relay(style, Compact(io, Array(es)) + rest, depth) ==
            Print(io, Array(es), style, LevelAt(style, depth)) + Relay(style, rest, depth)
    decreases es, 1
  {
    var inner, close := PrintElements(io, es, None, 0), [CLOSE_ARRAY] + rest;
    ElementsStart(io, es, close);
    ElementsLaid(io, es, style, depth + 1, close);
    OpenStep(style, OPEN_ARRAY, inner + close, depth);
    CloseStep(style, CLOSE_ARRAY, rest, depth);
    LevelsAgree(style, depth);
    Nest([OPEN_ARRAY], inner, [], [CLOSE_ARRAY], rest);
    Nest([OPEN_ARRAY], PrintElements(io, es, style, LevelAt(style, depth + 1)), NewLine(style, depth), [CLOSE_ARRAY],
         Relay(style, rest, depth));
  }

  lemma ElementsStart(io: NumberIO, es: seq<Json>, rest: seq<Byte>)
    requires es != [] && Valid(io, es[0])
    ensures var s := PrintElements(io, es, None, 0) + rest; s != [] && !Closes(s[0])
  {
    CompactStart(io, es[0]);
  }

  lemma Joined(line: seq<Byte>, text: seq<Byte>, comma: seq<Byte>, more: seq<Byte>, rest: seq<Byte>)
    ensures line + (text + (comma + (more + rest))) == (line + text + (comma + more)) + rest
    ensures ([] + text + (comma + more)) + rest == text + (comma + (more + rest))
    ensures line + (text + rest) == (line + text + []) + rest
    ensures ([] + text + []) + rest == text + rest
  {
  }

  lemma {:induction false} ElementsLaid(io: NumberIO, es: seq<Json>, style: Style, depth: nat, rest: seq<Byte>)
    requires es != [] && forall i :: 0 <= i < |es| ==> Valid(io, es[i])
    ensures NewLine(style, depth) + Relay(style, PrintElements(io, es, None, 0) + rest, depth) ==
            PrintElements(io, es, style, LevelAt(style, depth)) + Relay(style, rest, depth)
    decreases es, 0
  {
    LevelsAgree(style, depth);
    var line, text, after := NewLine(style, depth), Print(io, es[0], style, LevelAt(style, depth)), Relay(style, rest, depth);
    if |es| == 1 {
      ValueLaid(io, es[0], style, depth, rest);
      Joined(line, Compact(io, es[0]), [], [], rest);
      Joined(line, text, [], [], after);
    } else {
      var inner, more := PrintElements(io, es[1..], None, 0), PrintElements(io, es[1..], style, LevelAt(style, depth));
      ElementsLaid(io, es[1..], style, depth, rest);
      ValueLaid(io, es[0], style, depth, [COMMA] + (inner + rest));
      CommaStep(style, inner + rest, depth);
      Joined(line, Compact(io, es[0]), [COMMA], inner, rest);
      Joined(line, text, [COMMA], more, after);
    }
  }

  lemma {:induction false} PropertyLaid(io: NumberIO, p: Property, style: Style, depth: nat, rest: seq<Byte>)
    requires Valid(io, p.value)
    ensures Relay(style, PrintProperty(io, p, None, 0) + rest, depth) ==
            PrintProperty(io, p, style, LevelAt(style, depth)) + Relay(style, rest, depth)
    decreases p, 3
  {
    var text := Compact(io, p.value);
    QuotedKept(style, p.key, [COLON] + (text + rest), depth);
    ColonStep(style, text + rest, depth);
    ValueLaid(io, p.value, style, depth, rest);
    Colon(Quote(p.key), [COLON], [], text, rest);
    assert [] + (text + rest) == text + rest;
    Colon(Quote(p.key), [COLON], SpaceAfterColon(style), Print(io, p.value, style, LevelAt(style, depth)), Relay(style, rest, depth));
  }

  lemma {:induction false} PropertiesLaid(io: NumberIO, ps: seq<Property>, style: Style, depth: nat, rest: seq<Byte>)
    requires ps != [] && forall i :: 0 <= i < |ps| ==> Valid(io, ps[i].value)
    ensures NewLine(style, depth) + Relay(style, PrintProperties(io, ps, None, 0) + rest, depth) ==
            PrintProperties(io, ps, style, LevelAt(style, depth)) + Relay(style, rest, depth)
    decreases ps, 0
  {
    LevelsAgree(style, depth);
    var line, text, after := NewLine(style, depth), PrintProperty(io, ps[0], style, LevelAt(style, depth)), Relay(style, rest, depth);
    if |ps| == 1 {
      PropertyLaid(io, ps[0], style, depth, rest);
      Joined(line, PrintProperty(io, ps[0], None, 0), [], [], rest);
      Joined(line, text, [], [], after);
    } else {
      var inner, more := PrintProperties(io, ps[1..], None, 0), PrintProperties(io, ps[1..], style, LevelAt(style, depth));
      PropertiesLaid(io, ps[1..], style, depth, rest);
      PropertyLaid(io, ps[0], style, depth, [COMMA] + (inner + rest));
      CommaStep(style, inner + rest, depth);
      Joined(line, PrintProperty(io, ps[0], None, 0), [COMMA], inner, rest);
      Joined(line, text, [COMMA], more, after);
    }
  }

  lemma PropertyStart(io: NumberIO, p: Property)
    ensures var s := PrintProperty(io, p, None, 0); s != [] && s[0] == QUOTE
  {
    assert Quote(p.key)[0] == QUOTE;
  }

  lemma PropertiesStart(io: NumberIO, ps: seq<Property>, rest: seq<Byte>)
    requires ps != []
    ensures var s := PrintProperties(io, ps, None, 0) + rest; s != [] && !Closes(s[0])
  {
    PropertyStart(io, ps[0]);
    ClosesExactly(QUOTE);
  }

  lemma {:induction false} ObjectLaid(io: NumberIO, ps: seq<Property>, style: Style, depth: nat, rest: seq<Byte>)
    requires ps != [] && Valid(io, Object(ps))
    ensures Relay(style, Compact(io, Object(ps)) + rest, depth) ==
            Print(io, Object(ps), style, LevelAt(style, depth)) + Relay(style, rest, depth)
    decreases ps, 1
  {
    var inner, close := PrintProperties(io, ps, None, 0), [CLOSE_OBJECT] + rest;
    PropertiesStart(io, ps, close);
    PropertiesLaid(io, ps, style, depth + 1, close);
    OpenStep(style, OPEN_OBJECT, inner + close, depth);
    CloseStep(style, CLOSE_OBJECT, rest, depth);
    LevelsAgree(style, depth);
    Nest([OPEN_OBJECT], inner, [], [CLOSE_OBJECT], rest);
    Nest([OPEN_OBJECT], PrintProperties(io, ps, style, LevelAt(style, depth + 1)), NewLine(style, depth), [CLOSE_OBJECT],
         Relay(style, rest, depth));
  }

  /** Main result on the layout: the compact text has no whitespace outside of strings, and
      the text with indentation is the compact one with a new line after each bracket that
      opens, before each that closes and after each comma, as deep as brackets are open, and
      a space after each colon; but empty brackets stay together. */
  lemma LayoutExactly(io: NumberIO, e: Json, style: Style)
    requires Valid(io, e)
    ensures Print(io, e, style, 0) == Relay(style, Print(io, e, None, 0), 0)
  {
    ValueLaid(io, e, style, 0, []);
    assert Compact(io, e) + [] == Compact(io, e);
    assert LevelAt(style, 0) == 0;
  }

  /** Quotation marks and backslashes get a backslash, tab, newline and carriage return
      their letter, and the other control characters their number; the rest stays. */
  lemma EscapeExactly(c: Byte)
    ensures if c as char in "\"\\" then Escape(c) == ['\\' as int, c]
            else if c as char == '\t' then Spells(Escape(c), "\\t")
            else if c as char == '\n' then Spells(Escape(c), "\\n")
            else if c as char == '\r' then Spells(Escape(c), "\\r")
            else if c < 0x10 then Spells(Escape(c)[..5], "\\u000") && Escape(c)[5..] == [LOWER_DIGITS[c] as int]
            else if c < 0x20 then Spells(Escape(c)[..5], "\\u001") && Escape(c)[5..] == [LOWER_DIGITS[c - 0x10] as int]
            else Escape(c) == [c]
  {
    assert forall i :: 0 <= i < 16 ==> LOWER_DIGITS[i] as int == HexDigit(i);
  }
}
