/**
 The parser and the printer of clangd/JSONExpr.cpp as the objects they are: a
 cursor into the text, and a stream with an indentation level. Each method does
 what the functions of JsonParse and JsonText say.
 */
module JSONExpr {
  import opened Bytes
  import opened Options
  import opened JsonText
  import opened JsonParse
  import opened Lines
  import opened Sequences

  // ---------- Errors ----------

  datatype ParseError = ParseError(msg: string, line: nat, column: nat, offset: nat)

  /** An error at the cursor. */
  function ErrorAt(msg: string, text: seq<Byte>, p: nat): ParseError
    requires p <= |text|
  {
    ParseError(msg, 1 + Newlines(text, p), p - LineStart(text, p), p)
  }

  /** Lines count from 1 and columns from 0, both in bytes. */
  lemma ErrorAdvances(msg: string, text: seq<Byte>, p: nat)
    requires p < |text|
    ensures ErrorAt(msg, text, 0) == ParseError(msg, 1, 0, 0)
    ensures var here := ErrorAt(msg, text, p);
            ErrorAt(msg, text, p + 1) ==
            if text[p] as char == '\n' then ParseError(msg, here.line + 1, 0, p + 1)
            else ParseError(msg, here.line, here.column + 1, p + 1)
  {
  }

  // ---------- One step of a loop ----------

  lemma RestAfter(text: seq<Byte>, p: nat, n: nat)
    requires p + n <= |text|
    ensures text[p..][n..] == text[p + n..]
  {
  }

  /** What strtod makes of a token. */
  function NumberFrom(io: NumberIO, token: seq<Byte>, rest: seq<Byte>): Parse<Json> {
    var d := io.strtod(token);
    if d.Some? then Good(Number(d.value), rest) else Bad("Invalid number", rest)
  }

  lemma TokenGrows(first: Byte, s: seq<Byte>, n: nat)
    requires n < |s|
    ensures [first] + s[..n] + [s[n]] == [first] + s[..n + 1]
  {
  }

  /** No further unit is needed, or there is none. */
  lemma LoopEnds(first: int, s: seq<Byte>, out: seq<Byte>)
    requires 0 <= first < 0x10000
    requires !IsLead(first) || |s| < 2 || s[0] != BACKSLASH || s[1] != 117
    ensures UnicodeLoop(first, s, out) == Good(out + if IsLead(first) || IsTrail(first) then REPLACEMENT else EncodeUtf8(first), s)
  {
  }

  lemma LoopGoesOn(first: int, s: seq<Byte>, out: seq<Byte>)
    requires IsLead(first) && |s| >= 2 && s[0] == BACKSLASH && s[1] == 117
    ensures var next := Parse4Hex(s[2..]);
            UnicodeLoop(first, s, out) ==
            if next.Bad? then Bad(next.msg, next.rest)
            else if IsTrail(next.value) then Good(out + EncodeUtf8(Combine(first, next.value)), next.rest)
            else UnicodeLoop(next.value, next.rest, out + REPLACEMENT)
  {
  }

  /** The two bracketed cases of parseExpr. */
  function ArrayValue(io: NumberIO, u: seq<Byte>): Parse<Json> {
    var v := EatWhitespace(u);
    if Peek(v) == CLOSE_ARRAY then Good(Array([]), v[1..]) else JsonParse.ParseElements(io, v, [])
  }

  function ObjectValue(io: NumberIO, u: seq<Byte>): Parse<Json> {
    var v := EatWhitespace(u);
    if Peek(v) == CLOSE_OBJECT then Good(Object([]), v[1..]) else JsonParse.ParseProperties(io, v, [])
  }

  // ---------- The parser ----------

  class Parser {
    const text: seq<Byte>
    var p: nat
    var err: Option<ParseError>

    predicate Inside()
      reads this
    {
      p <= |text|
    }

    /** What the cursor has not passed yet. */
    function Rest(): seq<Byte>
      requires Inside()
      reads this
    {
      text[p..]
    }

    /** The state after a method that should do as `r` says. */
    ghost predicate Outcome<T(!new)>(r: Parse<T>, ok: bool, value: T, before: Option<ParseError>)
      reads this
    {
      && Inside() && Rest() == r.rest && ok == r.Good?
      && (ok ==> value == r.value && err == before)
      && (!ok ==> err == Some(ErrorAt(r.msg, text, p)))
    }

    constructor (text: seq<Byte>)
      ensures this.text == text && Inside() && Rest() == text && err == None
    {
      this.text := text;
      p := 0;
      err := None;
    }

    function PeekByte(): (c: Byte)
      requires Inside()
      reads this
      ensures c == Peek(Rest())
    {
      if p == |text| then 0 else text[p]
    }

    method Next() returns (c: Byte)
      requires Inside()
      modifies this`p
      ensures Inside() && c == Peek(old(Rest())) && Rest() == Advance(old(Rest()))
    {
      if p == |text| {
        c := 0;
      } else {
        c := text[p];
        p := p + 1;
      }
    }

    method SkipWhitespace()
      requires Inside()
      modifies this`p
      ensures Inside() && Rest() == EatWhitespace(old(Rest()))
    {
      while p != |text| && IsSpace(text[p])
        invariant Inside() && EatWhitespace(Rest()) == EatWhitespace(old(Rest()))
        decreases |text| - p
      {
        assert Rest()[1..] == text[p + 1..];
        p := p + 1;
      }
    }

    /** Always "returns" false: the callers do. */
    method Fail(msg: string)
      requires Inside()
      modifies this`err
      ensures err == Some(ErrorAt(msg, text, p))
    {
      var line, startOfLine := 1, 0;
      var x := 0;
      while x < p
        invariant x <= p
        invariant line == 1 + Newlines(text, x) && startOfLine == LineStart(text, x)
      {
        if text[x] == NEWLINE {
          line := line + 1;
          startOfLine := x + 1;
        }
        x := x + 1;
      }
      err := Some(ParseError(msg, line, p - startOfLine, p));
    }

    method Word(word: seq<Byte>, value: Json) returns (ok: bool)
      requires Inside()
      modifies this
      ensures Outcome(ParseWord(old(Rest()), word, value), ok, value, old(err))
    {
      var i := 0;
      while i < |word|
        invariant Inside() && i <= |word| && err == old(err)
        invariant ParseWord(Rest(), word[i..], value) == ParseWord(old(Rest()), word, value)
      {
        assert word[i..][1..] == word[i + 1..];
        var c := Next();
        if c != word[i] {
          Fail("Invalid bareword");
          return false;
        }
        i := i + 1;
      }
      return true;
    }

    /** The rest of a run of number characters: it decides what the number is. */
    method NumberToken(ghost io: NumberIO, first: Byte) returns (token: seq<Byte>)
      requires Inside()
      modifies this`p
      ensures Inside() && JsonParse.ParseNumber(io, first, old(Rest())) == NumberFrom(io, token, Rest())
    {
      token := [first];
      ghost var s := Rest();
      ghost var n := 0;
      while IsNumber(PeekByte())
        invariant Inside() && n <= |s| && Rest() == s[n..]
        invariant token == [first] + s[..n] && NumberRun(s) == n + NumberRun(s[n..])
        decreases |s| - n
      {
        RestAfter(s, n, 1);
        TokenGrows(first, s, n);
        var c := Next();
        token := token + [c];
        n := n + 1;
      }
    }

    method ParseNumber(io: NumberIO, first: Byte) returns (ok: bool, out: Json)
      requires Inside()
      modifies this
      ensures Outcome(JsonParse.ParseNumber(io, first, old(Rest())), ok, out, old(err))
    {
      var token := NumberToken(io, first);
      var d := io.strtod(token);
      out := Null;
      ok := d.Some?;
      if ok {
        out := Number(d.value);
      } else {
        Fail("Invalid number");
      }
    }

    method FourHex() returns (ok: bool, out: int)
      requires Inside()
      modifies this
      ensures Outcome(Parse4Hex(old(Rest())), ok, out, old(err))
    {
      ghost var s := Rest();
      var b0 := Next();
      var b1 := Next();
      var b2 := Next();
      var b3 := Next();
      var bytes := [b0, b1, b2, b3];
      FourBytes(s, bytes);
      ok, out := HexBytes(bytes);
      if ok {
        FourDigits(s, bytes);
      } else {
        NotFourDigits(s, bytes);
        Fail("Invalid \\u escape sequence");
      }
    }

    /** A leading surrogate before another escape, which may complete the pair or not. */
    method SecondUnit(first: int, before: seq<Byte>) returns (more: bool, ok: bool, out: seq<Byte>, second: int)
      requires Inside() && IsLead(first) && p + 2 <= |text| && text[p] == BACKSLASH && text[p + 1] == 117
      modifies this
      ensures more ==> Inside() && p > old(p) && 0 <= second < 0x10000 && err == old(err)
      ensures more ==> UnicodeLoop(second, Rest(), out) == UnicodeLoop(first, old(Rest()), before)
      ensures !more ==> Outcome(UnicodeLoop(first, old(Rest()), before), ok, out, old(err))
    {
      LoopGoesOn(first, Rest(), before);
      RestAfter(text, p, 2);
      more, out := false, before;
      p := p + 2;
      ok, second := FourHex();
      if !ok {
        return;
      }
      if second < 0xDC00 || second >= 0xE000 {
        more, out := true, before + REPLACEMENT;
      } else {
        out := before + EncodeUtf8(Combine(first, second));
      }
    }

    /** The unit `first`, and whether there is another one to go on with. */
    method OneUnit(first: int, before: seq<Byte>) returns (more: bool, ok: bool, out: seq<Byte>, next: int)
      requires Inside() && 0 <= first < 0x10000
      modifies this
      ensures more ==> Inside() && p > old(p) && 0 <= next < 0x10000 && err == old(err)
      ensures more ==> UnicodeLoop(next, Rest(), out) == UnicodeLoop(first, old(Rest()), before)
      ensures !more ==> Outcome(UnicodeLoop(first, old(Rest()), before), ok, out, old(err))
    {
      more, ok, out, next := false, true, before + REPLACEMENT, first;
      if first < 0xD800 || first >= 0xE000 {
        LoopEnds(first, Rest(), before);
        out := before + EncodeUtf8(first);
      } else if first >= 0xDC00 {
        LoopEnds(first, Rest(), before);
      } else if p + 2 > |text| || text[p] != BACKSLASH || text[p + 1] != 117 {
        LoopEnds(first, Rest(), before);
      } else {
        more, ok, out, next := SecondUnit(first, before);
      }
    }

    method ParseUnicode(before: seq<Byte>) returns (ok: bool, out: seq<Byte>)
      requires Inside()
      modifies this
      ensures Outcome(JsonParse.ParseUnicode(old(Rest()), before), ok, out, old(err))
    {
      var first;
      out := before;
      ok, first := FourHex();
      if !ok {
        return;
      }
      var more := true;
      ghost var result := UnicodeLoop(first, Rest(), out);
      while more
        invariant more ==> Inside() && 0 <= first < 0x10000 && err == old(err) && UnicodeLoop(first, Rest(), out) == result
        invariant !more ==> Outcome(result, ok, out, old(err))
        decreases more, |text| - p
      {
        more, ok, out, first := OneUnit(first, out);
      }
    }

    method ParseString(before: seq<Byte>) returns (ok: bool, out: seq<Byte>)
      requires Inside()
      modifies this
      ensures Outcome(JsonParse.ParseString(old(Rest()), before), ok, out, old(err))
    {
      out := before;
      ghost var s := Rest();
      var c := Next();
      while c != QUOTE
        invariant Inside() && err == old(err)
        invariant c == Peek(s) && Rest() == Advance(s)
        invariant JsonParse.ParseString(old(Rest()), before) == JsonParse.ParseString(s, out)
        decreases |s|
      {
        if p == |text| {
          Fail("Unterminated string");
          return false, out;
        }
        if c < 32 {
          Fail("Control character in string");
          return false, out;
        }
        if c != BACKSLASH {
          out := out + [c];
        } else {
          c := Next();
          if SimpleEscape(c).Some? {
            out := out + [SimpleEscape(c).value];
          } else if c == 117 {
            ok, out := ParseUnicode(out);
            if !ok {
              return;
            }
          } else {
            Fail("Invalid escape sequence");
            return false, out;
          }
        }
        s := Rest();
        c := Next();
      }
      ok := true;
    }

    method ParseExpr(io: NumberIO) returns (ok: bool, out: Json)
      requires Inside()
      modifies this
      ensures Outcome(JsonParse.ParseExpr(io, old(Rest())), ok, out, old(err))
      decreases |text| - p, 1
    {
      out := Null;
      SkipWhitespace();
      if p == |text| {
        Fail("Unexpected EOF");
        return false, out;
      }
      var c := Next();
      if c == 110 {
        ok := Word([117, 108, 108], Null);
      } else if c == 116 {
        out := Boolean(true);
        ok := Word([114, 117, 101], out);
      } else if c == 102 {
        out := Boolean(false);
        ok := Word([97, 108, 115, 101], out);
      } else if c == QUOTE {
        var str;
        ok, str := ParseString([]);
        out := String(str);
      } else if c == OPEN_ARRAY {
        ok, out := ParseArray(io);
      } else if c == OPEN_OBJECT {
        ok, out := ParseObject(io);
      } else if IsNumber(c) {
        ok, out := ParseNumber(io, c);
      } else {
        Fail("Expected JSON value");
        ok := false;
      }
    }

    /** The array case; the bracket was consumed. */
    method ParseArray(io: NumberIO) returns (ok: bool, out: Json)
      requires Inside()
      modifies this
      ensures Outcome(ArrayValue(io, old(Rest())), ok, out, old(err))
      decreases |text| - p, 5
    {
      SkipWhitespace();
      if PeekByte() == CLOSE_ARRAY {
        RestAfter(text, p, 1);
        p := p + 1;
        return true, Array([]);
      }
      ok, out := ParseElements(io);
    }

    /** The object case; the brace was consumed. */
    method ParseObject(io: NumberIO) returns (ok: bool, out: Json)
      requires Inside()
      modifies this
      ensures Outcome(ObjectValue(io, old(Rest())), ok, out, old(err))
      decreases |text| - p, 5
    {
      SkipWhitespace();
      if PeekByte() == CLOSE_OBJECT {
        RestAfter(text, p, 1);
        p := p + 1;
        return true, Object([]);
      }
      ok, out := ParseProperties(io);
    }

    /** What follows an element or a property. */
    method Separator() returns (c: Byte)
      requires Inside()
      modifies this`p
      ensures Inside() && p >= old(p) && c == Peek(EatWhitespace(old(Rest())))
      ensures var rest := Advance(EatWhitespace(old(Rest())));
              Rest() == if c == COMMA then EatWhitespace(rest) else rest
    {
      SkipWhitespace();
      c := Next();
      if c == COMMA {
        SkipWhitespace();
      }
    }

    method ParseElements(io: NumberIO) returns (ok: bool, out: Json)
      requires Inside()
      modifies this
      ensures Outcome(JsonParse.ParseElements(io, old(Rest()), []), ok, out, old(err))
      decreases |text| - p, 2
    {
      var elements: seq<Json> := [];
      while true
        invariant Inside() && p >= old(p) && err == old(err)
        invariant JsonParse.ParseElements(io, old(Rest()), []) == JsonParse.ParseElements(io, Rest(), elements)
        decreases |text| - p
      {
        ok, out := ParseExpr(io);
        if !ok {
          return;
        }
        elements := elements + [out];
        var c := Separator();
        if c == COMMA {
          continue;
        } else if c == CLOSE_ARRAY {
          return true, Array(elements);
        } else {
          Fail("Expected , or ] after array element");
          return false, out;
        }
      }
    }

    method ParseKey() returns (ok: bool, key: seq<Byte>)
      requires Inside()
      modifies this
      ensures Outcome(JsonParse.ParseKey(old(Rest())), ok, key, old(err))
    {
      key := [];
      var c := Next();
      if c != QUOTE {
        Fail("Expected object key");
        return false, key;
      }
      ok, key := ParseString([]);
      if !ok {
        return;
      }
      ok := Colon();
    }

    /** The colon after a key and the whitespace around it. */
    method Colon() returns (ok: bool)
      requires Inside()
      modifies this
      ensures var t := EatWhitespace(old(Rest()));
              if Peek(t) == COLON then Inside() && ok && Rest() == EatWhitespace(Advance(t)) && err == old(err)
              else Inside() && !ok && Rest() == Advance(t) && err == Some(ErrorAt("Expected : after object key", text, p))
    {
      SkipWhitespace();
      var c := Next();
      ok := c == COLON;
      if ok {
        SkipWhitespace();
      } else {
        Fail("Expected : after object key");
      }
    }

    method ParseProperty(io: NumberIO, properties: seq<Property>) returns (ok: bool, more: seq<Property>)
      requires Inside()
      modifies this
      ensures Outcome(JsonParse.ParseProperty(io, old(Rest()), properties), ok, more, old(err))
      decreases |text| - p, 2
    {
      var key, value;
      more := properties;
      ok, key := ParseKey();
      if ok {
        ok, value := ParseExpr(io);
        if ok {
          more := Insert(properties, key, value);
        }
      }
    }

    /** A property and what follows it; `more` tells whether that was a comma. */
    method OneProperty(io: NumberIO, before: seq<Property>) returns (more: bool, ok: bool, out: Json, properties: seq<Property>)
      requires Inside()
      modifies this
      ensures more ==> Inside() && p > old(p) && err == old(err)
      ensures more ==> JsonParse.ParseProperties(io, Rest(), properties) == JsonParse.ParseProperties(io, old(Rest()), before)
      ensures !more ==> Outcome(JsonParse.ParseProperties(io, old(Rest()), before), ok, out, old(err))
      decreases |text| - p, 3
    {
      more, out := false, Null;
      ok, properties := ParseProperty(io, before);
      if !ok {
        return;
      }
      var c := Separator();
      if c == COMMA {
        more := true;
      } else if c == CLOSE_OBJECT {
        out := Object(properties);
      } else {
        Fail("Expected , or } after object property");
        ok := false;
      }
    }

    method ParseProperties(io: NumberIO) returns (ok: bool, out: Json)
      requires Inside()
      modifies this
      ensures Outcome(JsonParse.ParseProperties(io, old(Rest()), []), ok, out, old(err))
      decreases |text| - p, 4
    {
      var properties: seq<Property> := [];
      ghost var result := JsonParse.ParseProperties(io, Rest(), []);
      var more := true;
      ok, out := true, Null;
      while more
        invariant more ==> Inside() && p >= old(p) && err == old(err) && JsonParse.ParseProperties(io, Rest(), properties) == result
        invariant !more ==> Outcome(result, ok, out, old(err))
        decreases more, |text| - p
      {
        more, ok, out, properties := OneProperty(io, properties);
      }
    }

    method AssertEnd() returns (ok: bool)
      requires Inside()
      modifies this
      ensures Outcome(JsonParse.ParseEnd(old(Rest())), ok, (), old(err))
    {
      SkipWhitespace();
      ok := p == |text|;
      if !ok {
        Fail("Text after end of document");
      }
    }

    method ParseDocument(io: NumberIO) returns (ok: bool, out: Json)
      requires Inside()
      modifies this
      ensures Outcome(JsonParse.ParseDocument(io, old(Rest())), ok, out, old(err))
    {
      ok, out := ParseExpr(io);
      if ok {
        ok := AssertEnd();
      }
    }
  }

  /** json::parse. */
  method Parse(io: NumberIO, text: seq<Byte>) returns (e: Option<Json>, err: Option<ParseError>)
    ensures e.Some? == ParseDocument(io, text).Good?
    ensures e.Some? ==> e.value == ParseDocument(io, text).value && err == None
    ensures e.None? ==> var r := ParseDocument(io, text);
                        |r.rest| <= |text| && err == Some(ErrorAt(r.msg, text, |text| - |r.rest|))
  {
    var parser := new Parser(text);
    var ok, value := parser.ParseDocument(io);
    if ok {
      return Some(value), None;
    }
    assert |parser.Rest()| == |text| - parser.p;
    return None, parser.err;
  }

  // ---------- The printer ----------

  datatype IndenterAction = Indent | Outdent | Newline | Space

  /** A stream, and what the indenter of operator<< or of format() remembers. */
  class Printer {
    const style: Style
    var os: seq<Byte>
    var indentLevel: nat

    constructor (style: Style)
      ensures this.style == style && os == [] && indentLevel == 0
    {
      this.style := style;
      os := [];
      indentLevel := 0;
    }

    method Indenter(a: IndenterAction)
      requires a == Outdent && style.Some? ==> indentLevel >= style.value
      modifies this
      ensures a == Indent ==> os == old(os) && indentLevel == Indented(style, old(indentLevel))
      ensures a == Outdent ==> os == old(os) && Indented(style, indentLevel) == old(indentLevel)
      ensures a == Newline ==> os == old(os) + NewlineAt(style, indentLevel) && indentLevel == old(indentLevel)
      ensures a == Space ==> os == old(os) + SpaceAfterColon(style) && indentLevel == old(indentLevel)
    {
      if style.Some? {
        match a
        case Newline => os := os + [NEWLINE] + Spaces(indentLevel);
        case Space => os := os + [SPACE];
        case Indent => indentLevel := indentLevel + style.value;
        case Outdent => indentLevel := indentLevel - style.value;
      }
    }

    method WriteEscaped(c: Byte)
      modifies this`os
      ensures os == old(os) + Escape(c)
    {
      if c == QUOTE || c == BACKSLASH {
        os := os + [BACKSLASH];
      }
      if c >= 32 {
        os := os + [c];
      } else {
        os := os + [BACKSLASH];
        match c
        case 9 => os := os + [116];
        case 10 => os := os + [110];
        case 13 => os := os + [114];
        case _ => os := os + [117] + [HexDigit(0), HexDigit(0), HexDigit(c / 16), HexDigit(c % 16)];
      }
    }

    method WriteQuoted(s: seq<Byte>)
      modifies this`os
      ensures os == old(os) + Quote(s)
    {
      os := os + [QUOTE];
      ghost var start := os;
      var i := 0;
      while i < |s|
        invariant i <= |s|
        invariant os + EscapeAll(s[i..]) == start + EscapeAll(s)
      {
        assert s[i..][1..] == s[i + 1..];
        Assoc(os, Escape(s[i]), EscapeAll(s[i + 1..]));
        WriteEscaped(s[i]);
        i := i + 1;
      }
      assert os == start + EscapeAll(s);
      os := os + [QUOTE];
      Assoc3(old(os), [QUOTE], EscapeAll(s), [QUOTE]);
    }

    /** Every item but the first has a comma before it. */
    method WriteComma(i: nat)
      modifies this`os
      ensures os == old(os) + Comma(i)
    {
      if i > 0 {
        os := os + [COMMA];
      }
    }

    method Print(io: NumberIO, e: Json)
      modifies this
      ensures os == old(os) + JsonText.Print(io, e, style, old(indentLevel))
      ensures indentLevel == old(indentLevel)
      decreases e, 2
    {
      match e
      case Null => os := os + [110, 117, 108, 108];
      case Boolean(b) => os := os + if b then [116, 114, 117, 101] else [102, 97, 108, 115, 101];
      case Number(d) => os := os + io.format(d);
      case String(s) => WriteQuoted(s);
      case Array(es) => PrintArray(io, es);
      case Object(ps) => PrintObject(io, ps);
    }

    method PrintArray(io: NumberIO, es: seq<Json>)
      modifies this
      ensures os == old(os) + JsonText.Print(io, Array(es), style, old(indentLevel))
      ensures indentLevel == old(indentLevel)
      decreases es, 1
    {
      os := os + [OPEN_ARRAY];
      Indenter(Indent);
      ghost var items := JsonText.PrintElements(io, es, style, indentLevel);
      PrintElements(io, es);
      Indenter(Outdent);
      if es != [] {
        Indenter(Newline);
      }
      os := os + [CLOSE_ARRAY];
      Assoc4(old(os), [OPEN_ARRAY], items, if es == [] then [] else NewlineAt(style, indentLevel), [CLOSE_ARRAY]);
    }

    method PrintElements(io: NumberIO, es: seq<Json>)
      modifies this
      ensures os == old(os) + JsonText.PrintElements(io, es, style, old(indentLevel))
      ensures indentLevel == old(indentLevel)
      decreases es, 0
    {
      ghost var text := old(os) + JsonText.PrintElements(io, es, style, old(indentLevel));
      ElementsLeftEnds(io, es, style, indentLevel);
      var i := 0;
      while i < |es|
        invariant i <= |es| && indentLevel == old(indentLevel)
        invariant os + ElementsLeft(io, es, i, style, indentLevel) == text
      {
        ElementsLeftStep(io, es, i, style, indentLevel, os);
        WriteComma(i);
        Indenter(Newline);
        Print(io, es[i]);
        i := i + 1;
      }
    }

    method PrintObject(io: NumberIO, ps: seq<Property>)
      modifies this
      ensures os == old(os) + JsonText.Print(io, Object(ps), style, old(indentLevel))
      ensures indentLevel == old(indentLevel)
      decreases ps, 1
    {
      os := os + [OPEN_OBJECT];
      Indenter(Indent);
      ghost var items := JsonText.PrintProperties(io, ps, style, indentLevel);
      PrintProperties(io, ps);
      Indenter(Outdent);
      if ps != [] {
        Indenter(Newline);
      }
      os := os + [CLOSE_OBJECT];
      Assoc4(old(os), [OPEN_OBJECT], items, if ps == [] then [] else NewlineAt(style, indentLevel), [CLOSE_OBJECT]);
    }

    method PrintProperty(io: NumberIO, p: Property)
      modifies this
      ensures os == old(os) + JsonText.PrintProperty(io, p, style, old(indentLevel))
      ensures indentLevel == old(indentLevel)
      decreases p, 3
    {
      WriteQuoted(p.key);
      os := os + [COLON];
      Indenter(Space);
      Print(io, p.value);
      Assoc4(old(os), Quote(p.key), [COLON], SpaceAfterColon(style), JsonText.Print(io, p.value, style, indentLevel));
    }

    method PrintProperties(io: NumberIO, ps: seq<Property>)
      modifies this
      ensures os == old(os) + JsonText.PrintProperties(io, ps, style, old(indentLevel))
      ensures indentLevel == old(indentLevel)
      decreases ps, 0
    {
      ghost var text := old(os) + JsonText.PrintProperties(io, ps, style, old(indentLevel));
      PropertiesLeftEnds(io, ps, style, indentLevel);
      var i := 0;
      while i < |ps|
        invariant i <= |ps| && indentLevel == old(indentLevel)
        invariant os + PropertiesLeft(io, ps, i, style, indentLevel) == text
      {
        PropertiesLeftStep(io, ps, i, style, indentLevel, os);
        WriteComma(i);
        Indenter(Newline);
        PrintProperty(io, ps[i]);
        i := i + 1;
      }
    }
  }

  /** operator<< (no style) and format() with its option. */
  method Format(io: NumberIO, e: Json, style: Style) returns (text: seq<Byte>)
    ensures text == JsonText.Print(io, e, style, 0)
  {
    var printer := new Printer(style);
    printer.Print(io, e);
    text := printer.os;
    assert [] + text == text;
  }

  function Comma(i: nat): seq<Byte> {
    if i > 0 then [COMMA] else []
  }

  /** What is printed from element `i` on. */
  function ElementsLeft(io: NumberIO, es: seq<Json>, i: nat, style: Style, level: nat): seq<Byte>
    requires i <= |es|
  {
    if i == |es| then [] else Comma(i) + JsonText.PrintElements(io, es[i..], style, level)
  }

  lemma ElementsLeftEnds(io: NumberIO, es: seq<Json>, style: Style, level: nat)
    ensures ElementsLeft(io, es, 0, style, level) == JsonText.PrintElements(io, es, style, level)
    ensures ElementsLeft(io, es, |es|, style, level) == []
  {
    assert es[0..] == es;
  }

  lemma ElementsLeftStep(io: NumberIO, es: seq<Json>, i: nat, style: Style, level: nat, os: seq<Byte>)
    requires i < |es|
    ensures os + ElementsLeft(io, es, i, style, level) ==
            os + Comma(i) + NewlineAt(style, level) + JsonText.Print(io, es[i], style, level)
            + ElementsLeft(io, es, i + 1, style, level)
  {
    assert es[i..][1..] == es[i + 1..];
    Assoc4(os, Comma(i), NewlineAt(style, level), JsonText.Print(io, es[i], style, level), ElementsLeft(io, es, i + 1, style, level));
    Assoc3(Comma(i), NewlineAt(style, level), JsonText.Print(io, es[i], style, level), ElementsLeft(io, es, i + 1, style, level));
  }

  function PropertiesLeft(io: NumberIO, ps: seq<Property>, i: nat, style: Style, level: nat): seq<Byte>
    requires i <= |ps|
  {
    if i == |ps| then [] else Comma(i) + JsonText.PrintProperties(io, ps[i..], style, level)
  }

  lemma PropertiesLeftEnds(io: NumberIO, ps: seq<Property>, style: Style, level: nat)
    ensures PropertiesLeft(io, ps, 0, style, level) == JsonText.PrintProperties(io, ps, style, level)
    ensures PropertiesLeft(io, ps, |ps|, style, level) == []
  {
    assert ps[0..] == ps;
  }

  lemma PropertiesLeftStep(io: NumberIO, ps: seq<Property>, i: nat, style: Style, level: nat, os: seq<Byte>)
    requires i < |ps|
    ensures os + PropertiesLeft(io, ps, i, style, level) ==
            os + Comma(i) + NewlineAt(style, level) + JsonText.PrintProperty(io, ps[i], style, level)
            + PropertiesLeft(io, ps, i + 1, style, level)
  {
    assert ps[i..][1..] == ps[i + 1..];
    Assoc4(os, Comma(i), NewlineAt(style, level), JsonText.PrintProperty(io, ps[i], style, level), PropertiesLeft(io, ps, i + 1, style, level));
    Assoc3(Comma(i), NewlineAt(style, level), JsonText.PrintProperty(io, ps[i], style, level), PropertiesLeft(io, ps, i + 1, style, level));
  }

  method HexBytes(bytes: seq<Byte>) returns (ok: bool, out: int)
    ensures ok == AllHex(bytes)
    ensures ok ==> out == HexNumber(bytes)
  {
    var i := 0;
    out := 0;
    while i < |bytes|
      invariant i <= |bytes| && AllHex(bytes[..i]) && out == HexNumber(bytes[..i])
    {
      assert bytes[..i + 1][..i] == bytes[..i];
      if !IsHex(bytes[i]) {
        return false, out;
      }
      out := out * 16 + HexValue(bytes[i]);
      i := i + 1;
    }
    assert bytes[..i] == bytes;
    return true, out;
  }

  // ---------- Hexadecimal digits ----------

  predicate AllHex(s: seq<Byte>) {
    forall k :: 0 <= k < |s| ==> IsHex(s[k])
  }

  function HexNumber(s: seq<Byte>): int
    requires AllHex(s)
  {
    if s == [] then 0 else HexNumber(s[..|s| - 1]) * 16 + HexValue(s[|s| - 1])
  }

  /** What four calls of next() return. */
  predicate AreNextFour(s: seq<Byte>, bytes: seq<Byte>) {
    && |bytes| == 4 && (|s| >= 4 ==> bytes == s[..4])
    && (|s| < 4 ==> bytes[3] == 0)
  }

  lemma FourBytes(s: seq<Byte>, bytes: seq<Byte>)
    requires bytes == [Peek(s), Peek(Advance(s)), Peek(Advance(Advance(s))), Peek(Advance(Advance(Advance(s))))]
    ensures AreNextFour(s, bytes)
    ensures Skip4(s) == Parse4Hex(s).rest
  {
    if |s| >= 4 {
      assert Advance(Advance(s)) == s[2..];
      assert Advance(s[2..]) == s[3..];
      assert Advance(s[3..]) == s[4..];
    }
  }

  lemma NotFourDigits(s: seq<Byte>, bytes: seq<Byte>)
    requires AreNextFour(s, bytes) && !AllHex(bytes)
    ensures Parse4Hex(s) == Bad("Invalid \\u escape sequence", Skip4(s))
  {
  }

  lemma FourDigits(s: seq<Byte>, bytes: seq<Byte>)
    requires AreNextFour(s, bytes) && AllHex(bytes)
    ensures Parse4Hex(s) == Good(HexNumber(bytes), s[4..])
  {
    assert bytes[..3][..2] == bytes[..2] && bytes[..2][..1] == bytes[..1] && bytes[..1][..0] == [];
    assert HexNumber(bytes[..1]) == HexValue(bytes[0]);
    assert HexNumber(bytes[..2]) == HexValue(bytes[0]) * 16 + HexValue(bytes[1]);
  }
}
