/**
 The texts of RFC 8259, and the parser against them: a document is accepted exactly
 when it is a text of the standard, but for its numbers, which are the runs of number
 characters of which strtod makes a value; numbers of the standard are among those.
 */
module JsonDocuments {
  import opened Bytes
  import opened Options
  import opened JsonText
  import opened JsonParse
  import opened JsonGrammar
  import opened JsonStandard

  predicate Spells(s: seq<Byte>, word: string) {
    |s| == |word| && forall i :: 0 <= i < |s| ==> s[i] as char == word[i]
  }

  // ---------- Numbers ----------

  const NUMBER_CHARACTERS := "0123456789eE+-."

  predicate IsDigitChar(c: Byte) {
    c as char in "0123456789"
  }

  /** `1*DIGIT`, section 6, as are the next. */
  predicate IsDigits(s: seq<Byte>) {
    s != [] && forall i :: 0 <= i < |s| ==> IsDigitChar(s[i])
  }

  predicate IsMinus(s: seq<Byte>) {
    s == [] || Spells(s, "-")
  }

  predicate IsInt(s: seq<Byte>) {
    Spells(s, "0") || (IsDigits(s) && s[0] as char != '0')
  }

  predicate IsFrac(s: seq<Byte>) {
    s == [] || (s[0] as char == '.' && IsDigits(s[1..]))
  }

  predicate IsExp(s: seq<Byte>) {
    s == [] || (s[0] as char in "eE" && (IsDigits(s[1..]) || (|s| > 1 && s[1] as char in "+-" && IsDigits(s[2..]))))
  }

  /** `number` */
  ghost predicate IsNumberText(s: seq<Byte>) {
    exists minus, whole, frac, exp ::
      IsMinus(minus) && IsInt(whole) && IsFrac(frac) && IsExp(exp) && s == minus + whole + frac + exp
  }

  lemma NumberCharactersAre(c: Byte)
    ensures IsNumber(c) <==> c as char in NUMBER_CHARACTERS
    ensures IsNumber(c) <==> IsDigitChar(c) || c as char in "eE+-."
  {
    if IsNumber(c) {
      var i := if 48 <= c <= 57 then c - 48 else if c == 101 then 10 else if c == 69 then 11 else if c == 43 then 12
               else if c == 45 then 13 else 14;
      assert NUMBER_CHARACTERS[i] == c as char;
      assert i < 10 ==> "0123456789"[i] == c as char;
      assert i >= 10 ==> "eE+-."[i - 10] == c as char;
    }
  }

  /** A run of number characters. */
  predicate IsRun(s: seq<Byte>) {
    forall i :: 0 <= i < |s| ==> s[i] as char in NUMBER_CHARACTERS
  }

  lemma RunIsNumbers(s: seq<Byte>)
    ensures IsRun(s) <==> forall i :: 0 <= i < |s| ==> IsNumber(s[i])
  {
    forall i | 0 <= i < |s|
      ensures IsNumber(s[i]) <==> s[i] as char in NUMBER_CHARACTERS
    {
      NumberCharactersAre(s[i]);
    }
  }

  lemma DigitsAreRun(s: seq<Byte>)
    requires s == [] || IsDigits(s)
    ensures IsRun(s)
  {
    forall i | 0 <= i < |s|
      ensures s[i] as char in NUMBER_CHARACTERS
    {
      NumberCharactersAre(s[i]);
    }
  }

  lemma SymbolsAreRun()
    ensures NUMBER_CHARACTERS[0] == '0' && NUMBER_CHARACTERS[10] == 'e' && NUMBER_CHARACTERS[11] == 'E'
    ensures NUMBER_CHARACTERS[12] == '+' && NUMBER_CHARACTERS[13] == '-' && NUMBER_CHARACTERS[14] == '.'
  {
  }

  lemma WholeIsRun(minus: seq<Byte>, whole: seq<Byte>)
    requires IsMinus(minus) && IsInt(whole)
    ensures IsRun(minus) && IsRun(whole) && whole != []
  {
    SymbolsAreRun();
    if !Spells(whole, "0") {
      DigitsAreRun(whole);
    }
  }

  lemma FracIsRun(s: seq<Byte>)
    requires IsFrac(s)
    ensures IsRun(s)
  {
    SymbolsAreRun();
    if s != [] {
      DigitsAreRun(s[1..]);
      assert s == [s[0]] + s[1..];
    }
  }

  lemma ExpIsRun(s: seq<Byte>)
    requires IsExp(s)
    ensures IsRun(s)
  {
    SymbolsAreRun();
    if s != [] && IsDigits(s[1..]) {
      DigitsAreRun(s[1..]);
      assert s == [s[0]] + s[1..];
    } else if s != [] {
      DigitsAreRun(s[2..]);
      assert s == [s[0], s[1]] + s[2..];
    }
  }

  lemma RunsAreRun(a: seq<Byte>, b: seq<Byte>)
    requires IsRun(a) && IsRun(b)
    ensures IsRun(a + b)
  {
  }

  lemma NumberTextIsRun(s: seq<Byte>)
    requires IsNumberText(s)
    ensures s != [] && IsRun(s)
  {
    var minus, whole, frac, exp :|
      IsMinus(minus) && IsInt(whole) && IsFrac(frac) && IsExp(exp) && s == minus + whole + frac + exp;
    WholeIsRun(minus, whole);
    FracIsRun(frac);
    ExpIsRun(exp);
    RunsAreRun(minus, whole);
    RunsAreRun(minus + whole, frac);
    RunsAreRun(minus + whole + frac, exp);
  }

  /** A number is read up to the first byte that is no number character, and is what strtod
      makes of that. */
  lemma NumberReadExactly(io: NumberIO, token: seq<Byte>, rest: seq<Byte>)
    requires token != [] && IsRun(token)
    requires rest == [] || rest[0] as char !in NUMBER_CHARACTERS
    ensures ParseExpr(io, token + rest) ==
            match io.strtod(token)
            case Some(d) => Good(Number(d), rest)
            case None => Bad("Invalid number", rest)
  {
    RunIsNumbers(token);
    if rest != [] {
      NumberCharactersAre(rest[0]);
    }
    RunIsRead(io, token, rest);
  }

  /** Main result on numbers: a number of the standard of which strtod makes `d` is read
      as `d`, and the rest is left. */
  lemma NumberTextIsRead(io: NumberIO, token: seq<Byte>, rest: seq<Byte>, d: real)
    requires IsNumberText(token) && io.strtod(token) == Some(d)
    requires rest == [] || rest[0] as char !in NUMBER_CHARACTERS
    ensures ParseExpr(io, token + rest) == Good(Number(d), rest)
  {
    NumberTextIsRun(token);
    NumberReadExactly(io, token, rest);
  }

  // ---------- Texts ----------

  /** Which texts are numbers. */
  type NumberRule = seq<Byte> -> bool

  ghost function StandardNumbers(io: NumberIO): NumberRule {
    s => IsNumberText(s) && io.strtod(s).Some?
  }

  ghost function ReadableNumbers(io: NumberIO): NumberRule {
    s => s != [] && IsRun(s) && io.strtod(s).Some?
  }

  predicate IsWsText(s: seq<Byte>) {
    forall i :: 0 <= i < |s| ==> IsWs(s[i])
  }

  predicate Enclosed(s: seq<Byte>, open: char, close: char) {
    |s| >= 2 && s[0] as char == open && s[|s| - 1] as char == close
  }

  function Inner(s: seq<Byte>): (r: seq<Byte>)
    requires |s| >= 2
    ensures |r| == |s| - 2
  {
    s[1..|s| - 1]
  }

  /** `string`, section 7 */
  predicate IsStringText(s: seq<Byte>) {
    Enclosed(s, '"', '"') && IsChars(Inner(s))
  }

  /** `value`, section 3 */
  ghost predicate IsValueText(number: NumberRule, s: seq<Byte>)
    decreases |s|, 0
  {
    || Spells(s, "null") || Spells(s, "true") || Spells(s, "false")
    || number(s)
    || IsStringText(s)
    || (Enclosed(s, '[', ']') && (IsWsText(Inner(s)) || IsElementsText(number, Inner(s))))
    || (Enclosed(s, '{', '}') && (IsWsText(Inner(s)) || IsMembersText(number, Inner(s))))
  }

  /** A value with whitespace around it, as is a document (section 2). */
  ghost predicate IsElementText(number: NumberRule, s: seq<Byte>)
    decreases |s|, 1
  {
    exists i, j :: 0 <= i <= j <= |s| && IsWsText(s[..i]) && IsValueText(number, s[i..j]) && IsWsText(s[j..])
  }

  /** Values separated by commas, section 5 */
  ghost predicate IsElementsText(number: NumberRule, s: seq<Byte>)
    decreases |s|, 2
  {
    || IsElementText(number, s)
    || exists k :: 0 <= k < |s| && s[k] as char == ',' && IsElementText(number, s[..k]) && IsElementsText(number, s[k + 1..])
  }

  /** `member`, section 4 */
  ghost predicate IsMemberText(number: NumberRule, s: seq<Byte>)
    decreases |s|, 2
  {
    exists k :: 0 <= k < |s| && s[k] as char == ':' && IsKeyText(s[..k]) && IsElementText(number, s[k + 1..])
  }

  ghost predicate IsKeyText(s: seq<Byte>) {
    exists i, j :: 0 <= i <= j <= |s| && IsWsText(s[..i]) && IsStringText(s[i..j]) && IsWsText(s[j..])
  }

  ghost predicate IsMembersText(number: NumberRule, s: seq<Byte>)
    decreases |s|, 3
  {
    || IsMemberText(number, s)
    || exists k :: 0 <= k < |s| && s[k] as char == ',' && IsMemberText(number, s[..k]) && IsMembersText(number, s[k + 1..])
  }

  // ---------- From texts to trees ----------

  ghost predicate Readable(io: NumberIO, number: NumberRule) {
    forall s :: number(s) ==> NodeOk(io, NumberNode(s))
  }

  lemma WsIsWhitespace(s: seq<Byte>)
    ensures IsWsText(s) <==> IsWhitespace(s)
  {
    forall i | 0 <= i < |s|
      ensures IsWs(s[i]) <==> IsSpace(s[i])
    {
      WhitespaceIs(s[i]);
    }
  }

  lemma StringTree(s: seq<Byte>) returns (ps: seq<Piece>)
    requires IsStringText(s)
    ensures PiecesOk(ps) && RenderString(ps) == s
  {
    ps := CharsArePieces(Inner(s));
  }

  lemma InnerText(s: seq<Byte>)
    requires |s| >= 2
    ensures s == [s[0]] + (Inner(s) + [s[|s| - 1]])
  {
  }

  lemma WordTree(io: NumberIO, s: seq<Byte>) returns (node: Node)
    requires Spells(s, "null") || Spells(s, "true") || Spells(s, "false")
    ensures NodeOk(io, node) && Render(node) == s
    ensures node == if Spells(s, "null") then NullNode else BooleanNode(Spells(s, "true"))
  {
    node := if |s| == 5 then BooleanNode(false) else if s[0] as char == 'n' then NullNode else BooleanNode(true);
  }

  lemma {:induction false} ValueTree(io: NumberIO, number: NumberRule, s: seq<Byte>) returns (node: Node)
    requires Readable(io, number) && IsValueText(number, s)
    ensures NodeOk(io, node) && Render(node) == s
    decreases |s|, 1
  {
    if Spells(s, "null") || Spells(s, "true") || Spells(s, "false") {
      node := WordTree(io, s);
    } else if number(s) {
      node := NumberNode(s);
    } else if IsStringText(s) {
      var ps := StringTree(s);
      node := StringNode(ps);
    } else {
      node := EnclosedTree(io, number, s);
    }
  }

  lemma {:induction false} EnclosedTree(io: NumberIO, number: NumberRule, s: seq<Byte>) returns (node: Node)
    requires Readable(io, number)
    requires || (Enclosed(s, '[', ']') && (IsWsText(Inner(s)) || IsElementsText(number, Inner(s))))
             || (Enclosed(s, '{', '}') && (IsWsText(Inner(s)) || IsMembersText(number, Inner(s))))
    ensures NodeOk(io, node) && Render(node) == s
    decreases |s|, 0
  {
    InnerText(s);
    WsIsWhitespace(Inner(s));
    if s[0] as char == '[' {
      if IsWsText(Inner(s)) {
        node := EmptyArray(Inner(s));
      } else {
        var items := ElementsTree(io, number, Inner(s));
        node := ArrayNode(items);
      }
    } else if IsWsText(Inner(s)) {
      node := EmptyObject(Inner(s));
    } else {
      var members := MembersTree(io, number, Inner(s));
      node := ObjectNode(members);
    }
  }

  lemma Cut3<T>(s: seq<T>, i: nat, j: nat)
    requires i <= j <= |s|
    ensures s == s[..i] + (s[i..j] + s[j..])
  {
  }

  lemma CutAt<T>(s: seq<T>, k: nat)
    requires k < |s|
    ensures s == s[..k] + ([s[k]] + s[k + 1..])
  {
  }

  lemma {:induction false} ElementTree(io: NumberIO, number: NumberRule, s: seq<Byte>) returns (item: Item)
    requires Readable(io, number) && IsElementText(number, s)
    ensures ItemOk(io, item) && RenderItem(item) == s
    decreases |s|, 2
  {
    var i, j :| 0 <= i <= j <= |s| && IsWsText(s[..i]) && IsValueText(number, s[i..j]) && IsWsText(s[j..]);
    var node := ValueTree(io, number, s[i..j]);
    WsIsWhitespace(s[..i]);
    WsIsWhitespace(s[j..]);
    Cut3(s, i, j);
    item := Item(s[..i], node, s[j..]);
  }

  lemma ItemsShape(items: seq<Item>)
    requires items != []
    ensures RenderItems(items) ==
            if |items| == 1 then RenderItem(items[0]) else RenderItem(items[0]) + ([COMMA] + RenderItems(items[1..]))
  {
  }

  lemma MembersShape(members: seq<Member>)
    requires members != []
    ensures RenderMembers(members) ==
            if |members| == 1 then RenderMember(members[0]) else RenderMember(members[0]) + ([COMMA] + RenderMembers(members[1..]))
  {
  }

  /** A comma between two parts. */
  lemma ElementsCut(number: NumberRule, s: seq<Byte>) returns (k: nat)
    requires IsElementsText(number, s) && !IsElementText(number, s)
    ensures k < |s| && IsElementText(number, s[..k]) && IsElementsText(number, s[k + 1..])
    ensures s == s[..k] + ([COMMA] + s[k + 1..])
  {
    k :| 0 <= k < |s| && s[k] as char == ',' && IsElementText(number, s[..k]) && IsElementsText(number, s[k + 1..]);
    CutAt(s, k);
  }

  lemma MembersCut(number: NumberRule, s: seq<Byte>) returns (k: nat)
    requires IsMembersText(number, s) && !IsMemberText(number, s)
    ensures k < |s| && IsMemberText(number, s[..k]) && IsMembersText(number, s[k + 1..])
    ensures s == s[..k] + ([COMMA] + s[k + 1..])
  {
    k :| 0 <= k < |s| && s[k] as char == ',' && IsMemberText(number, s[..k]) && IsMembersText(number, s[k + 1..]);
    CutAt(s, k);
  }

  lemma JoinItems(io: NumberIO, item: Item, more: seq<Item>) returns (items: seq<Item>)
    requires ItemOk(io, item) && more != [] && forall i :: 0 <= i < |more| ==> ItemOk(io, more[i])
    ensures items != [] && forall i :: 0 <= i < |items| ==> ItemOk(io, items[i])
    ensures RenderItems(items) == RenderItem(item) + ([COMMA] + RenderItems(more))
  {
    items := [item] + more;
    assert items[1..] == more;
    ItemsShape(items);
  }

  lemma JoinMembers(io: NumberIO, m: Member, more: seq<Member>) returns (members: seq<Member>)
    requires MemberOk(io, m) && more != [] && forall i :: 0 <= i < |more| ==> MemberOk(io, more[i])
    ensures members != [] && forall i :: 0 <= i < |members| ==> MemberOk(io, members[i])
    ensures RenderMembers(members) == RenderMember(m) + ([COMMA] + RenderMembers(more))
  {
    members := [m] + more;
    assert members[1..] == more;
    MembersShape(members);
  }

  lemma {:induction false} ElementsTree(io: NumberIO, number: NumberRule, s: seq<Byte>) returns (items: seq<Item>)
    requires Readable(io, number) && IsElementsText(number, s)
    ensures items != [] && (forall i :: 0 <= i < |items| ==> ItemOk(io, items[i])) && RenderItems(items) == s
    decreases |s|, 3
  {
    if IsElementText(number, s) {
      var item := ElementTree(io, number, s);
      items := [item];
      ItemsShape(items);
    } else {
      var k := ElementsCut(number, s);
      var item := ElementTree(io, number, s[..k]);
      var more := ElementsTree(io, number, s[k + 1..]);
      items := JoinItems(io, item, more);
    }
  }

  lemma KeyTree(s: seq<Byte>) returns (before: seq<Byte>, ps: seq<Piece>, after: seq<Byte>)
    requires IsKeyText(s)
    ensures IsWhitespace(before) && PiecesOk(ps) && IsWhitespace(after)
    ensures s == before + (RenderString(ps) + after)
  {
    var i, j :| 0 <= i <= j <= |s| && IsWsText(s[..i]) && IsStringText(s[i..j]) && IsWsText(s[j..]);
    before, after := s[..i], s[j..];
    ps := StringTree(s[i..j]);
    WsIsWhitespace(before);
    WsIsWhitespace(after);
    Cut3(s, i, j);
  }

  lemma KeyThen(before: seq<Byte>, key: seq<Byte>, after: seq<Byte>, more: seq<Byte>)
    ensures (before + (key + after)) + more == before + (key + (after + more))
  {
  }

  lemma {:induction false} MemberTree(io: NumberIO, number: NumberRule, s: seq<Byte>) returns (m: Member)
    requires Readable(io, number) && IsMemberText(number, s)
    ensures MemberOk(io, m) && RenderMember(m) == s
    decreases |s|, 3
  {
    var k :| 0 <= k < |s| && s[k] as char == ':' && IsKeyText(s[..k]) && IsElementText(number, s[k + 1..]);
    var before, ps, after := KeyTree(s[..k]);
    var item := ElementTree(io, number, s[k + 1..]);
    m := Member(before, ps, after, item);
    CutAt(s, k);
    KeyThen(before, RenderString(ps), after, [COLON] + RenderItem(item));
  }

  lemma {:induction false} MembersTree(io: NumberIO, number: NumberRule, s: seq<Byte>) returns (members: seq<Member>)
    requires Readable(io, number) && IsMembersText(number, s)
    ensures members != [] && (forall i :: 0 <= i < |members| ==> MemberOk(io, members[i])) && RenderMembers(members) == s
    decreases |s|, 4
  {
    if IsMemberText(number, s) {
      var m := MemberTree(io, number, s);
      members := [m];
      MembersShape(members);
    } else {
      var k := MembersCut(number, s);
      var m := MemberTree(io, number, s[..k]);
      var more := MembersTree(io, number, s[k + 1..]);
      members := JoinMembers(io, m, more);
    }
  }

  // ---------- From trees to texts ----------

  lemma PiecesAreText(ps: seq<Piece>)
    requires PiecesOk(ps)
    ensures IsStringText(RenderString(ps))
  {
    PiecesAreChars(ps);
    EnclosedText(QUOTE, RenderPieces(ps), QUOTE);
  }

  lemma EnclosedText(open: Byte, text: seq<Byte>, close: Byte)
    ensures var s := [open] + (text + [close]); |s| >= 2 && s[0] == open && s[|s| - 1] == close && Inner(s) == text
    ensures [open] + (text + [close]) == [open] + text + [close]
  {
    var s := [open] + (text + [close]);
    assert Inner(s) == text;
  }

  lemma ReadableIs(io: NumberIO, token: seq<Byte>)
    ensures ReadableNumbers(io)(token) <==> NodeOk(io, NumberNode(token))
  {
    RunIsNumbers(token);
  }

  lemma {:induction false} TreeIsText(io: NumberIO, node: Node)
    requires NodeOk(io, node)
    ensures IsValueText(ReadableNumbers(io), Render(node))
    decreases node, 0
  {
    match node
    case NumberNode(token) => ReadableIs(io, token);
    case StringNode(ps) => PiecesAreText(ps);
    case EmptyArray(ws) =>
      WsIsWhitespace(ws);
      EnclosedText(OPEN_ARRAY, ws, CLOSE_ARRAY);
    case ArrayNode(items) =>
      ItemsAreText(io, items);
      EnclosedText(OPEN_ARRAY, RenderItems(items), CLOSE_ARRAY);
    case EmptyObject(ws) =>
      WsIsWhitespace(ws);
      EnclosedText(OPEN_OBJECT, ws, CLOSE_OBJECT);
    case ObjectNode(members) =>
      MembersAreText(io, members);
      EnclosedText(OPEN_OBJECT, RenderMembers(members), CLOSE_OBJECT);
    case _ =>
  }

  lemma Parts3<T>(a: seq<T>, b: seq<T>, c: seq<T>)
    ensures var s, i, j := a + (b + c), |a|, |a| + |b|; s[..i] == a && s[i..j] == b && s[j..] == c
  {
  }

  lemma PartsAt<T>(a: seq<T>, x: T, b: seq<T>)
    ensures var s := a + ([x] + b); s[..|a|] == a && s[|a|] == x && s[|a| + 1..] == b
  {
  }

  lemma {:induction false} ItemIsText(io: NumberIO, item: Item)
    requires ItemOk(io, item)
    ensures IsElementText(ReadableNumbers(io), RenderItem(item))
    decreases item, 1
  {
    var text := Render(item.node);
    TreeIsText(io, item.node);
    WsIsWhitespace(item.before);
    WsIsWhitespace(item.after);
    Parts3(item.before, text, item.after);
    var s, i, j := RenderItem(item), |item.before|, |item.before| + |text|;
    assert IsWsText(s[..i]) && IsValueText(ReadableNumbers(io), s[i..j]) && IsWsText(s[j..]);
  }

  lemma {:induction false} ItemsAreText(io: NumberIO, items: seq<Item>)
    requires items != [] && forall i :: 0 <= i < |items| ==> ItemOk(io, items[i])
    ensures IsElementsText(ReadableNumbers(io), RenderItems(items))
    decreases items, 0
  {
    ItemIsText(io, items[0]);
    ItemsShape(items);
    if |items| == 1 {
      OneIsList(ReadableNumbers(io), RenderItem(items[0]));
    } else {
      ItemsAreText(io, items[1..]);
      CommaSplit(ReadableNumbers(io), RenderItem(items[0]), RenderItems(items[1..]));
    }
  }

  lemma OneIsList(number: NumberRule, text: seq<Byte>)
    ensures IsElementText(number, text) ==> IsElementsText(number, text)
    ensures IsMemberText(number, text) ==> IsMembersText(number, text)
  {
  }

  lemma CommaSplit(number: NumberRule, first: seq<Byte>, more: seq<Byte>)
    ensures IsElementText(number, first) && IsElementsText(number, more) ==> IsElementsText(number, first + ([COMMA] + more))
    ensures IsMemberText(number, first) && IsMembersText(number, more) ==> IsMembersText(number, first + ([COMMA] + more))
  {
    PartsAt(first, COMMA, more);
  }

  lemma KeyIsText(before: seq<Byte>, ps: seq<Piece>, after: seq<Byte>)
    requires IsWhitespace(before) && PiecesOk(ps) && IsWhitespace(after)
    ensures IsKeyText(before + (RenderString(ps) + after))
  {
    WsIsWhitespace(before);
    WsIsWhitespace(after);
    PiecesAreText(ps);
    Parts3(before, RenderString(ps), after);
    var s, i, j := before + (RenderString(ps) + after), |before|, |before| + |RenderString(ps)|;
    assert IsWsText(s[..i]) && IsStringText(s[i..j]) && IsWsText(s[j..]);
  }

  lemma {:induction false} MemberIsText(io: NumberIO, m: Member)
    requires MemberOk(io, m)
    ensures IsMemberText(ReadableNumbers(io), RenderMember(m))
    decreases m, 2
  {
    ItemIsText(io, m.item);
    KeyIsText(m.before, m.key, m.after);
    var key := m.before + (RenderString(m.key) + m.after);
    KeyThen(m.before, RenderString(m.key), m.after, [COLON] + RenderItem(m.item));
    ColonSplit(ReadableNumbers(io), key, RenderItem(m.item));
  }

  lemma ColonSplit(number: NumberRule, key: seq<Byte>, text: seq<Byte>)
    requires IsKeyText(key) && IsElementText(number, text)
    ensures IsMemberText(number, key + ([COLON] + text))
  {
    PartsAt(key, COLON, text);
  }

  lemma {:induction false} MembersAreText(io: NumberIO, members: seq<Member>)
    requires members != [] && forall i :: 0 <= i < |members| ==> MemberOk(io, members[i])
    ensures IsMembersText(ReadableNumbers(io), RenderMembers(members))
    decreases members, 0
  {
    MemberIsText(io, members[0]);
    MembersShape(members);
    if |members| == 1 {
      OneIsList(ReadableNumbers(io), RenderMember(members[0]));
    } else {
      MembersAreText(io, members[1..]);
      CommaSplit(ReadableNumbers(io), RenderMember(members[0]), RenderMembers(members[1..]));
    }
  }

  // ---------- Documents ----------

  /** Main result: a document is accepted exactly when it is a text of the standard, any run
      of number characters of which strtod makes a value being taken for a number. */
  lemma AcceptedIsStandard(io: NumberIO, text: seq<Byte>)
    ensures ParseDocument(io, text).Good? <==> IsElementText(ReadableNumbers(io), text)
  {
    if ParseDocument(io, text).Good? {
      var item := AcceptedTree(io, text);
      ItemIsText(io, item);
    }
    if IsElementText(ReadableNumbers(io), text) {
      forall s | ReadableNumbers(io)(s)
        ensures NodeOk(io, NumberNode(s))
      {
        ReadableIs(io, s);
      }
      var item := ElementTree(io, ReadableNumbers(io), text);
      DocumentIsRead(io, item);
    }
  }

  lemma AcceptedTree(io: NumberIO, text: seq<Byte>) returns (item: Item)
    requires ParseDocument(io, text).Good?
    ensures ItemOk(io, item) && RenderItem(item) == text
  {
    AcceptedExactly(io, text, ParseDocument(io, text).value);
    item :| ItemOk(io, item) && RenderItem(item) == text;
  }

  /** Every text of the standard is accepted, if strtod makes values of its numbers. */
  lemma StandardIsAccepted(io: NumberIO, text: seq<Byte>)
    requires IsElementText(StandardNumbers(io), text)
    ensures ParseDocument(io, text).Good?
  {
    forall s | StandardNumbers(io)(s)
      ensures NodeOk(io, NumberNode(s))
    {
      NumberTextIsRun(s);
      ReadableIs(io, s);
    }
    var item := ElementTree(io, StandardNumbers(io), text);
    DocumentIsRead(io, item);
  }

  /** The words stand for their values. */
  lemma WordsAreRead(io: NumberIO, s: seq<Byte>)
    ensures Spells(s, "null") ==> ParseDocument(io, s) == Good(Null, [])
    ensures Spells(s, "true") ==> ParseDocument(io, s) == Good(Boolean(true), [])
    ensures Spells(s, "false") ==> ParseDocument(io, s) == Good(Boolean(false), [])
  {
    if Spells(s, "null") || Spells(s, "true") || Spells(s, "false") {
      var node := WordTree(io, s);
      assert Item([], node, []).before + (Render(node) + []) == s;
      DocumentIsRead(io, Item([], node, []));
    }
  }
}
