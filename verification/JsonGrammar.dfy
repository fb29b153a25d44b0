/**
 The grammar of JSON as syntax trees, and the parser against it: a text is accepted
 exactly when it is that of a tree, and then the value is the tree's.
 */
module JsonGrammar {
  import opened Bytes
  import opened Options
  import opened JsonText
  import opened JsonParse
  import opened JsonUnicode
  import opened Sequences

  // ---------- Strings ----------

  /** A byte of a string as it stands, a one-letter escape, or \u and four digits. */
  datatype Piece = Raw(c: Byte) | Escaped(letter: Byte) | Unit(digits: seq<Byte>)

  predicate PieceOk(p: Piece) {
    match p
    case Raw(c) => c >= 32 && c != QUOTE && c != BACKSLASH
    case Escaped(letter) => SimpleEscape(letter).Some?
    case Unit(digits) => |digits| == 4 && forall i :: 0 <= i < 4 ==> IsHex(digits[i])
  }

  predicate PiecesOk(ps: seq<Piece>) {
    forall i :: 0 <= i < |ps| ==> PieceOk(ps[i])
  }

  function RenderPiece(p: Piece): seq<Byte> {
    match p
    case Raw(c) => [c]
    case Escaped(letter) => [BACKSLASH, letter]
    case Unit(digits) => [BACKSLASH, 117] + digits
  }

  function RenderPieces(ps: seq<Piece>): seq<Byte> {
    if ps == [] then [] else RenderPiece(ps[0]) + RenderPieces(ps[1..])
  }

  function RenderString(ps: seq<Piece>): seq<Byte> {
    [QUOTE] + RenderPieces(ps) + [QUOTE]
  }

  /** The UTF-16 unit of four digits. */
  function UnitOf(digits: seq<Byte>): (u: int)
    requires PieceOk(Unit(digits))
    ensures 0 <= u < 0x10000
  {
    ((HexValue(digits[0]) * 16 + HexValue(digits[1])) * 16 + HexValue(digits[2])) * 16 + HexValue(digits[3])
  }

  /** The next piece is a trailing surrogate. */
  predicate TrailNext(ps: seq<Piece>)
    requires PiecesOk(ps)
  {
    ps != [] && ps[0].Unit? && IsTrail(UnitOf(ps[0].digits))
  }

  /** The bytes of a unit and the pieces after it: a surrogate takes the next piece
      with it when the two are a pair. */
  function UnitThen(u: int, ps: seq<Piece>): seq<Byte>
    requires 0 <= u < 0x10000 && PiecesOk(ps)
    decreases |ps|, 1
  {
    if IsLead(u) && TrailNext(ps) then EncodeUtf8(Combine(u, UnitOf(ps[0].digits))) + PiecesValue(ps[1..])
    else EncodeUtf8(LoneValue(u)) + PiecesValue(ps)
  }

  function PiecesValue(ps: seq<Piece>): seq<Byte>
    requires PiecesOk(ps)
    decreases |ps|, 0
  {
    if ps == [] then []
    else
      match ps[0]
      case Raw(c) => [c] + PiecesValue(ps[1..])
      case Escaped(letter) => [SimpleEscape(letter).value] + PiecesValue(ps[1..])
      case Unit(digits) => UnitThen(UnitOf(digits), ps[1..])
  }

  // ---------- Values ----------

  datatype Node =
    | NullNode
    | BooleanNode(b: bool)
    | NumberNode(token: seq<Byte>)
    | StringNode(pieces: seq<Piece>)
    | EmptyArray(ws: seq<Byte>)
    | ArrayNode(items: seq<Item>)
    | EmptyObject(ws: seq<Byte>)
    | ObjectNode(members: seq<Member>)

  /** A value with the whitespace around it. */
  datatype Item = Item(before: seq<Byte>, node: Node, after: seq<Byte>)

  /** A key, the whitespace around it, and what follows the colon. */
  datatype Member = Member(before: seq<Byte>, key: seq<Piece>, after: seq<Byte>, item: Item)

  predicate IsWhitespace(s: seq<Byte>) {
    forall i :: 0 <= i < |s| ==> IsSpace(s[i])
  }

  /** A number is any run of number characters of which strtod makes a value. */
  predicate NodeOk(io: NumberIO, node: Node) {
    match node
    case NumberNode(token) =>
      token != [] && (forall i :: 0 <= i < |token| ==> IsNumber(token[i])) && io.strtod(token).Some?
    case StringNode(pieces) => PiecesOk(pieces)
    case EmptyArray(ws) => IsWhitespace(ws)
    case ArrayNode(items) => items != [] && forall i :: 0 <= i < |items| ==> ItemOk(io, items[i])
    case EmptyObject(ws) => IsWhitespace(ws)
    case ObjectNode(members) => members != [] && forall i :: 0 <= i < |members| ==> MemberOk(io, members[i])
    case _ => true
  }

  predicate ItemOk(io: NumberIO, item: Item) {
    IsWhitespace(item.before) && NodeOk(io, item.node) && IsWhitespace(item.after)
  }

  predicate MemberOk(io: NumberIO, m: Member) {
    IsWhitespace(m.before) && PiecesOk(m.key) && IsWhitespace(m.after) && ItemOk(io, m.item)
  }

  function Render(node: Node): seq<Byte>
    decreases node, 0
  {
    match node
    case NullNode => [110, 117, 108, 108]
    case BooleanNode(b) => if b then [116, 114, 117, 101] else [102, 97, 108, 115, 101]
    case NumberNode(token) => token
    case StringNode(pieces) => RenderString(pieces)
    case EmptyArray(ws) => [OPEN_ARRAY] + (ws + [CLOSE_ARRAY])
    case ArrayNode(items) => [OPEN_ARRAY] + (RenderItems(items) + [CLOSE_ARRAY])
    case EmptyObject(ws) => [OPEN_OBJECT] + (ws + [CLOSE_OBJECT])
    case ObjectNode(members) => [OPEN_OBJECT] + (RenderMembers(members) + [CLOSE_OBJECT])
  }

  function RenderItem(item: Item): seq<Byte>
    decreases item, 1
  {
    item.before + (Render(item.node) + item.after)
  }

  function RenderItems(items: seq<Item>): seq<Byte>
    decreases items, 0
  {
    if items == [] then []
    else RenderItem(items[0]) + if |items| == 1 then [] else [COMMA] + RenderItems(items[1..])
  }

  function RenderMember(m: Member): seq<Byte>
    decreases m, 2
  {
    m.before + (RenderString(m.key) + (m.after + ([COLON] + RenderItem(m.item))))
  }

  function RenderMembers(members: seq<Member>): seq<Byte>
    decreases members, 0
  {
    if members == [] then []
    else RenderMember(members[0]) + if |members| == 1 then [] else [COMMA] + RenderMembers(members[1..])
  }

  function ValueOf(io: NumberIO, node: Node): Json
    requires NodeOk(io, node)
    decreases node, 0
  {
    match node
    case NullNode => Null
    case BooleanNode(b) => Boolean(b)
    case NumberNode(token) => Number(io.strtod(token).value)
    case StringNode(pieces) => String(PiecesValue(pieces))
    case EmptyArray(_) => Array([])
    case ArrayNode(items) => Array(ItemValues(io, items))
    case EmptyObject(_) => Object([])
    case ObjectNode(members) => Object(Assigned(io, [], members))
  }

  function ItemValues(io: NumberIO, items: seq<Item>): (es: seq<Json>)
    requires forall i :: 0 <= i < |items| ==> ItemOk(io, items[i])
    decreases items, 0
  {
    if items == [] then []
    else
      assert ItemOk(io, items[0]);
      [ValueOf(io, items[0].node)] + ItemValues(io, items[1..])
  }

  /** The members assigned one after the other: the last value of a key stays. */
  function Assigned(io: NumberIO, ps: seq<Property>, members: seq<Member>): seq<Property>
    requires forall i :: 0 <= i < |members| ==> MemberOk(io, members[i])
    decreases members, 0
  {
    if members == [] then ps
    else
      assert MemberOk(io, members[0]) && ItemOk(io, members[0].item);
      Assigned(io, Insert(ps, PiecesValue(members[0].key), ValueOf(io, members[0].item.node)), members[1..])
  }

  // ---------- Whitespace ----------

  lemma {:induction false} EatAcross(ws: seq<Byte>, s: seq<Byte>)
    requires IsWhitespace(ws)
    ensures EatWhitespace(ws + s) == EatWhitespace(s)
  {
    if ws == [] {
      assert ws + s == s;
    } else {
      assert (ws + s)[1..] == ws[1..] + s;
      EatAcross(ws[1..], s);
    }
  }

  lemma EatUpTo(ws: seq<Byte>, c: Byte, u: seq<Byte>)
    requires IsWhitespace(ws) && !IsSpace(c)
    ensures EatWhitespace(ws + ([c] + u)) == [c] + u
  {
    EatAcross(ws, [c] + u);
  }

  lemma {:induction false} EatenIsWhitespace(s: seq<Byte>) returns (ws: seq<Byte>)
    ensures IsWhitespace(ws) && s == ws + EatWhitespace(s)
  {
    if s != [] && IsSpace(s[0]) {
      ws := EatenIsWhitespace(s[1..]);
      ws := [s[0]] + ws;
    } else {
      ws := [];
    }
  }

  /** parseExpr skips whitespace itself. */
  lemma ExprIgnoresWhitespace(io: NumberIO, s: seq<Byte>, acc: seq<Json>)
    ensures ParseExpr(io, EatWhitespace(s)) == ParseExpr(io, s)
    ensures ParseElements(io, EatWhitespace(s), acc) == ParseElements(io, s, acc)
  {
    assert EatWhitespace(EatWhitespace(s)) == EatWhitespace(s);
  }

  // ---------- Strings are read ----------

  /** What parseString does after an escape. */
  function AfterUnits(r: Parse<seq<Byte>>): Parse<seq<Byte>> {
    match r
    case Bad(msg, rest) => Bad(msg, rest)
    case Good(longer, rest) => ParseString(rest, longer)
  }

  lemma RawStep(c: Byte, tail: seq<Byte>, out: seq<Byte>)
    requires PieceOk(Raw(c)) && tail != []
    ensures ParseString([c] + tail, out) == ParseString(tail, out + [c])
  {
    assert ([c] + tail)[1..] == tail;
  }

  lemma EscapedStep(letter: Byte, tail: seq<Byte>, out: seq<Byte>)
    requires SimpleEscape(letter).Some? && tail != []
    ensures ParseString([BACKSLASH, letter] + tail, out) == ParseString(tail, out + [SimpleEscape(letter).value])
  {
    var s := [BACKSLASH, letter] + tail;
    assert s[1..] == [letter] + tail;
    assert s[1..][1..] == tail;
  }

  lemma UnitStep(digits: seq<Byte>, tail: seq<Byte>, out: seq<Byte>)
    requires PieceOk(Unit(digits))
    ensures ParseString([BACKSLASH, 117] + digits + tail, out) == AfterUnits(UnicodeLoop(UnitOf(digits), tail, out))
  {
    var s := [BACKSLASH, 117] + digits + tail;
    assert s[1..] == [117] + (digits + tail);
    assert s[1..][1..] == digits + tail;
    DigitsRead(digits, tail);
  }

  lemma DigitsRead(digits: seq<Byte>, tail: seq<Byte>)
    requires PieceOk(Unit(digits))
    ensures Parse4Hex(digits + tail) == Good(UnitOf(digits), tail)
  {
    assert (digits + tail)[4..] == tail;
  }

  function StringTail(ps: seq<Piece>, rest: seq<Byte>): seq<Byte> {
    RenderPieces(ps) + ([QUOTE] + rest)
  }

  lemma TailStep(ps: seq<Piece>, rest: seq<Byte>)
    requires ps != []
    ensures StringTail(ps, rest) == RenderPiece(ps[0]) + StringTail(ps[1..], rest)
    ensures StringTail(ps[1..], rest) != []
  {
    Assoc(RenderPiece(ps[0]), RenderPieces(ps[1..]), [QUOTE] + rest);
  }

  /** The text goes on with another \u exactly when the next piece is one. */
  lemma TailStart(ps: seq<Piece>, rest: seq<Byte>)
    requires PiecesOk(ps)
    ensures var s := StringTail(ps, rest);
            (|s| >= 2 && s[0] == BACKSLASH && s[1] == 117) <==> ps != [] && ps[0].Unit?
  {
    if ps != [] {
      TailStep(ps, rest);
    }
  }

  lemma {:induction false} PiecesAreRead(ps: seq<Piece>, rest: seq<Byte>, out: seq<Byte>)
    requires PiecesOk(ps)
    ensures ParseString(StringTail(ps, rest), out) == Good(out + PiecesValue(ps), rest)
    decreases |ps|, 0
  {
    if ps == [] {
      assert StringTail(ps, rest) == [QUOTE] + rest;
      assert ([QUOTE] + rest)[1..] == rest;
      assert out + [] == out;
    } else {
      TailStep(ps, rest);
      var tail := StringTail(ps[1..], rest);
      match ps[0]
      case Raw(c) =>
        RawStep(c, tail, out);
        PiecesAreRead(ps[1..], rest, out + [c]);
        Assoc(out, [c], PiecesValue(ps[1..]));
      case Escaped(letter) =>
        EscapedStep(letter, tail, out);
        PiecesAreRead(ps[1..], rest, out + [SimpleEscape(letter).value]);
        Assoc(out, [SimpleEscape(letter).value], PiecesValue(ps[1..]));
      case Unit(digits) =>
        UnitStep(digits, tail, out);
        UnitIsRead(UnitOf(digits), ps[1..], rest, out);
    }
  }

  lemma {:induction false} UnitIsRead(u: int, ps: seq<Piece>, rest: seq<Byte>, out: seq<Byte>)
    requires 0 <= u < 0x10000 && PiecesOk(ps)
    ensures AfterUnits(UnicodeLoop(u, StringTail(ps, rest), out)) == Good(out + UnitThen(u, ps), rest)
    decreases |ps|, 1
  {
    TailStart(ps, rest);
    if !IsLead(u) || ps == [] || !ps[0].Unit? {
      LastUnitIsRead(u, StringTail(ps, rest), out);
      PiecesAreRead(ps, rest, out + EncodeUtf8(LoneValue(u)));
      Assoc(out, EncodeUtf8(LoneValue(u)), PiecesValue(ps));
    } else {
      var second := UnitOf(ps[0].digits);
      TailStep(ps, rest);
      NextUnitIsRead(u, ps[0].digits, StringTail(ps[1..], rest), out);
      UnitThenUnit(u, ps);
      if IsTrail(second) {
        PiecesAreRead(ps[1..], rest, out + EncodeUtf8(Combine(u, second)));
        Assoc(out, EncodeUtf8(Combine(u, second)), PiecesValue(ps[1..]));
      } else {
        UnitIsRead(second, ps[1..], rest, out + REPLACEMENT);
        Assoc(out, REPLACEMENT, UnitThen(second, ps[1..]));
      }
    }
  }

  lemma UnitThenUnit(u: int, ps: seq<Piece>)
    requires IsLead(u) && PiecesOk(ps) && ps != [] && ps[0].Unit?
    ensures var second := UnitOf(ps[0].digits);
            UnitThen(u, ps) ==
            if IsTrail(second) then EncodeUtf8(Combine(u, second)) + PiecesValue(ps[1..])
            else REPLACEMENT + UnitThen(second, ps[1..])
  {
    assert EncodeUtf8(0xFFFD) == REPLACEMENT;
  }

  lemma LastUnitIsRead(u: int, s: seq<Byte>, out: seq<Byte>)
    requires 0 <= u < 0x10000 && (!IsLead(u) || |s| < 2 || s[0] != BACKSLASH || s[1] != 117)
    ensures AfterUnits(UnicodeLoop(u, s, out)) == ParseString(s, out + EncodeUtf8(LoneValue(u)))
  {
    LastUnit(u, s, out);
  }

  lemma NextUnitIsRead(u: int, digits: seq<Byte>, tail: seq<Byte>, out: seq<Byte>)
    requires IsLead(u) && PieceOk(Unit(digits))
    ensures var second := UnitOf(digits);
            AfterUnits(UnicodeLoop(u, [BACKSLASH, 117] + digits + tail, out)) ==
            if IsTrail(second) then ParseString(tail, out + EncodeUtf8(Combine(u, second)))
            else AfterUnits(UnicodeLoop(second, tail, out + REPLACEMENT))
  {
    var s := [BACKSLASH, 117] + digits + tail;
    assert s[2..] == digits + tail;
    DigitsRead(digits, tail);
  }

  // ---------- Only strings are accepted ----------

  /** How an accepted string begins, when not with its closing quote or \u. */
  lemma PlainStart(s: seq<Byte>, out: seq<Byte>) returns (first: Piece, longer: seq<Byte>)
    requires ParseString(s, out).Good? && s[0] != QUOTE && (s[0] != BACKSLASH || |s| < 2 || s[1] != 117)
    ensures PieceOk(first)
    ensures var n := |RenderPiece(first)|;
            n < |s| && s == RenderPiece(first) + s[n..] && ParseString(s, out) == ParseString(s[n..], longer)
  {
    if s[0] != BACKSLASH {
      first, longer := Raw(s[0]), out + [s[0]];
      assert s == [s[0]] + s[1..];
    } else {
      assert s[1..][1..] == s[2..];
      first, longer := Escaped(s[1]), out + [SimpleEscape(s[1]).value];
      assert s == [BACKSLASH, s[1]] + s[2..];
    }
  }

  lemma UnitStart(s: seq<Byte>, out: seq<Byte>)
    requires |s| >= 2 && s[0] == BACKSLASH && s[1] == 117
    ensures ParseString(s, out).Good? ==> ParseString(s, out) == AfterUnits(ParseUnicode(s[2..], out))
  {
    assert s[1..][1..] == s[2..];
  }

  /** The pieces of an accepted string. */
  lemma {:induction false} AcceptedPieces(s: seq<Byte>, out: seq<Byte>) returns (ps: seq<Piece>)
    requires ParseString(s, out).Good?
    ensures PiecesOk(ps) && s == StringTail(ps, ParseString(s, out).rest)
    decreases |s|, 1
  {
    var rest := ParseString(s, out).rest;
    if s[0] == QUOTE {
      ps := [];
      assert s == [QUOTE] + rest;
    } else {
      var first: Piece, more: seq<Piece>;
      if s[0] == BACKSLASH && |s| >= 2 && s[1] == 117 {
        UnitStart(s, out);
        first, more := AcceptedUnit(s, out);
      } else {
        var longer;
        first, longer := PlainStart(s, out);
        more := AcceptedPieces(s[|RenderPiece(first)|..], longer);
      }
      ps := [first] + more;
      assert ps[1..] == more;
      TailStep(ps, rest);
    }
  }

  /** Accepted digits are a unit. */
  lemma AcceptedDigits(s: seq<Byte>) returns (digits: seq<Byte>)
    requires |s| >= 2 && s[0] == BACKSLASH && s[1] == 117 && Parse4Hex(s[2..]).Good?
    ensures PieceOk(Unit(digits)) && Parse4Hex(s[2..]).value == UnitOf(digits)
    ensures |s| >= 6 && s == RenderPiece(Unit(digits)) + s[6..] && Parse4Hex(s[2..]).rest == s[6..]
  {
    digits := s[2..6];
    assert s[2..][4..] == s[6..];
    assert digits[0] == s[2..][0] && digits[1] == s[2..][1] && digits[2] == s[2..][2] && digits[3] == s[2..][3];
  }

  lemma {:induction false} AcceptedUnit(s: seq<Byte>, out: seq<Byte>) returns (first: Piece, more: seq<Piece>)
    requires |s| >= 2 && s[0] == BACKSLASH && s[1] == 117
    requires AfterUnits(ParseUnicode(s[2..], out)).Good?
    ensures PieceOk(first) && PiecesOk(more)
    ensures s == RenderPiece(first) + StringTail(more, AfterUnits(ParseUnicode(s[2..], out)).rest)
    decreases |s|, 0
  {
    var digits := AcceptedDigits(s);
    first := Unit(digits);
    more := AcceptedAfterUnit(UnitOf(digits), s[6..], out);
  }

  /** A lead is followed by another unit. */
  lemma LeadNeedsDigits(u: int, s: seq<Byte>, out: seq<Byte>)
    requires IsLead(u) && |s| >= 2 && s[0] == BACKSLASH && s[1] == 117
    requires AfterUnits(UnicodeLoop(u, s, out)).Good?
    ensures Parse4Hex(s[2..]).Good?
  {
  }

  lemma {:induction false} AcceptedAfterUnit(u: int, s: seq<Byte>, out: seq<Byte>) returns (ps: seq<Piece>)
    requires 0 <= u < 0x10000 && AfterUnits(UnicodeLoop(u, s, out)).Good?
    ensures PiecesOk(ps) && s == StringTail(ps, AfterUnits(UnicodeLoop(u, s, out)).rest)
    decreases |s|, 2
  {
    if !IsLead(u) || |s| < 2 || s[0] != BACKSLASH || s[1] != 117 {
      LastUnitIsRead(u, s, out);
      ps := AcceptedPieces(s, out + EncodeUtf8(LoneValue(u)));
    } else {
      LeadNeedsDigits(u, s, out);
      var digits := AcceptedDigits(s);
      var second, more := UnitOf(digits), [];
      NextUnitIsRead(u, digits, s[6..], out);
      if IsTrail(second) {
        more := AcceptedPieces(s[6..], out + EncodeUtf8(Combine(u, second)));
      } else {
        more := AcceptedAfterUnit(second, s[6..], out + REPLACEMENT);
      }
      ps := [Unit(digits)] + more;
      assert ps[1..] == more;
      TailStep(ps, AfterUnits(UnicodeLoop(u, s, out)).rest);
    }
  }

  // ---------- Values are read ----------

  /** What follows a number does not go on with it. */
  predicate Follows(node: Node, rest: seq<Byte>) {
    node.NumberNode? ==> rest == [] || !IsNumber(rest[0])
  }

  lemma {:induction false} WordIsRead(word: seq<Byte>, rest: seq<Byte>, value: Json)
    ensures ParseWord(word + rest, word, value) == Good(value, rest)
  {
    if word == [] {
      assert word + rest == rest;
    } else {
      assert (word + rest)[1..] == word[1..] + rest;
      WordIsRead(word[1..], rest, value);
    }
  }

  lemma {:induction false} RunOf(token: seq<Byte>, rest: seq<Byte>)
    requires forall i :: 0 <= i < |token| ==> IsNumber(token[i])
    requires rest == [] || !IsNumber(rest[0])
    ensures NumberRun(token + rest) == |token|
  {
    if token == [] {
      assert token + rest == rest;
    } else {
      assert (token + rest)[1..] == token[1..] + rest;
      RunOf(token[1..], rest);
    }
  }

  lemma NumberStart(io: NumberIO, c: Byte, u: seq<Byte>)
    requires IsNumber(c)
    ensures ParseExpr(io, [c] + u) == JsonParse.ParseNumber(io, c, u)
  {
    assert ([c] + u)[1..] == u;
  }

  /** A run of number characters is read as what strtod makes of it. */
  lemma RunIsRead(io: NumberIO, token: seq<Byte>, rest: seq<Byte>)
    requires token != [] && forall i :: 0 <= i < |token| ==> IsNumber(token[i])
    requires rest == [] || !IsNumber(rest[0])
    ensures ParseExpr(io, token + rest) ==
            match io.strtod(token)
            case Some(d) => Good(Number(d), rest)
            case None => Bad("Invalid number", rest)
  {
    var c, more := token[0], token[1..];
    assert [c] + more == token;
    Assoc([c], more, rest);
    NumberStart(io, c, more + rest);
    RunOf(more, rest);
    assert (more + rest)[..|more|] == more && (more + rest)[|more|..] == rest;
  }

  lemma NumberIsRead(io: NumberIO, token: seq<Byte>, rest: seq<Byte>)
    requires NodeOk(io, NumberNode(token)) && Follows(NumberNode(token), rest)
    ensures ParseExpr(io, token + rest) == Good(Number(io.strtod(token).value), rest)
  {
    RunIsRead(io, token, rest);
  }

  lemma StringIsRead(io: NumberIO, ps: seq<Piece>, rest: seq<Byte>)
    requires PiecesOk(ps)
    ensures ParseExpr(io, RenderString(ps) + rest) == Good(String(PiecesValue(ps)), rest)
  {
    var u := StringTail(ps, rest);
    assert RenderString(ps) + rest == [QUOTE] + u;
    assert ([QUOTE] + u)[1..] == u;
    PiecesAreRead(ps, rest, []);
    assert [] + PiecesValue(ps) == PiecesValue(ps);
  }

  lemma BarewordIsRead(io: NumberIO, node: Node, rest: seq<Byte>)
    requires node.NullNode? || node.BooleanNode?
    ensures ParseExpr(io, Render(node) + rest) == Good(ValueOf(io, node), rest)
  {
    var text := Render(node);
    assert (text + rest)[1..] == text[1..] + rest;
    WordIsRead(text[1..], rest, ValueOf(io, node));
  }

  lemma StartArray(io: NumberIO, u: seq<Byte>)
    ensures ParseExpr(io, [OPEN_ARRAY] + u) ==
            var v := EatWhitespace(u);
            if Peek(v) == CLOSE_ARRAY then Good(Array([]), v[1..]) else ParseElements(io, u, [])
  {
    assert ([OPEN_ARRAY] + u)[1..] == u;
    ExprIgnoresWhitespace(io, u, []);
  }

  lemma StartObject(io: NumberIO, u: seq<Byte>)
    ensures ParseExpr(io, [OPEN_OBJECT] + u) ==
            var v := EatWhitespace(u);
            if Peek(v) == CLOSE_OBJECT then Good(Object([]), v[1..]) else ParseProperties(io, v, [])
  {
    assert ([OPEN_OBJECT] + u)[1..] == u;
  }

  /** A value starts with neither whitespace nor a closing bracket. */
  lemma FirstByte(io: NumberIO, node: Node)
    requires NodeOk(io, node)
    ensures var text := Render(node); text != [] && !IsSpace(text[0]) && text[0] != CLOSE_ARRAY && text[0] != CLOSE_OBJECT
  {
  }

  predicate EndsItem(c: Byte) {
    c == COMMA || c == CLOSE_ARRAY || c == CLOSE_OBJECT
  }

  lemma {:induction false} NodeIsRead(io: NumberIO, node: Node, rest: seq<Byte>)
    requires NodeOk(io, node) && Follows(node, rest)
    ensures ParseExpr(io, Render(node) + rest) == Good(ValueOf(io, node), rest)
    decreases node, 0
  {
    match node
    case NullNode => BarewordIsRead(io, node, rest);
    case BooleanNode(b) => BarewordIsRead(io, node, rest);
    case NumberNode(token) => NumberIsRead(io, token, rest);
    case StringNode(ps) => StringIsRead(io, ps, rest);
    case EmptyArray(ws) =>
      Around([OPEN_ARRAY], ws, [CLOSE_ARRAY], rest);
      Assoc([OPEN_ARRAY], ws, [CLOSE_ARRAY]);
      StartArray(io, ws + ([CLOSE_ARRAY] + rest));
      EatUpTo(ws, CLOSE_ARRAY, rest);
    case ArrayNode(items) =>
      Bracketed(OPEN_ARRAY, RenderItems(items), CLOSE_ARRAY, rest);
      StartArray(io, ItemsText(items, rest));
      ItemsStart(io, items, rest);
      ItemsAreRead(io, items, rest, []);
      assert [] + ItemValues(io, items) == ItemValues(io, items);
    case EmptyObject(ws) =>
      Bracketed(OPEN_OBJECT, ws, CLOSE_OBJECT, rest);
      StartObject(io, ws + ([CLOSE_OBJECT] + rest));
      EatUpTo(ws, CLOSE_OBJECT, rest);
    case ObjectNode(members) =>
      Bracketed(OPEN_OBJECT, RenderMembers(members), CLOSE_OBJECT, rest);
      StartObject(io, MembersText(members, rest));
      MembersStart(io, members, rest);
      MembersAreRead(io, members, rest, []);
  }

  lemma Bracketed(first: Byte, text: seq<Byte>, last: Byte, rest: seq<Byte>)
    ensures ([first] + (text + [last])) + rest == [first] + (text + ([last] + rest))
  {
  }

  /** An item and what ends it. */
  lemma {:induction false} ItemIsRead(io: NumberIO, item: Item, c: Byte, u: seq<Byte>)
    requires ItemOk(io, item) && EndsItem(c)
    ensures var more := item.after + ([c] + u);
            && ParseExpr(io, item.before + (Render(item.node) + more)) == Good(ValueOf(io, item.node), more)
            && EatWhitespace(more) == [c] + u
    decreases item, 1
  {
    var more := item.after + ([c] + u);
    EatUpTo(item.after, c, u);
    assert !IsNumber(more[0]) by {
      assert item.after == [] ==> more[0] == c;
    }
    NodeIsRead(io, item.node, more);
    EatAcross(item.before, Render(item.node) + more);
    ExprIgnoresWhitespace(io, item.before + (Render(item.node) + more), []);
    ExprIgnoresWhitespace(io, Render(item.node) + more, []);
  }

  function ItemsText(items: seq<Item>, rest: seq<Byte>): seq<Byte> {
    RenderItems(items) + ([CLOSE_ARRAY] + rest)
  }

  function ItemEnd(items: seq<Item>): Byte {
    if |items| == 1 then CLOSE_ARRAY else COMMA
  }

  /** What follows the comma or the bracket after the first item. */
  function AfterItem(items: seq<Item>, rest: seq<Byte>): seq<Byte>
    requires items != []
  {
    if |items| == 1 then rest else ItemsText(items[1..], rest)
  }

  lemma ItemsTextStep(items: seq<Item>, rest: seq<Byte>)
    requires items != []
    ensures ItemsText(items, rest) ==
            items[0].before + (Render(items[0].node) + (items[0].after + ([ItemEnd(items)] + AfterItem(items, rest))))
  {
    var end := [ItemEnd(items)] + AfterItem(items, rest);
    if |items| == 1 {
      assert RenderItems(items) == RenderItem(items[0]);
    } else {
      var others := RenderItems(items[1..]);
      Assoc(RenderItem(items[0]), [COMMA] + others, [CLOSE_ARRAY] + rest);
      Assoc([COMMA], others, [CLOSE_ARRAY] + rest);
    }
    assert ItemsText(items, rest) == RenderItem(items[0]) + end;
    Nested3(items[0].before, Render(items[0].node), items[0].after, end);
  }

  lemma Nested3(a: seq<Byte>, b: seq<Byte>, c: seq<Byte>, d: seq<Byte>)
    ensures (a + (b + c)) + d == a + (b + (c + d))
  {
  }

  lemma ItemsStart(io: NumberIO, items: seq<Item>, rest: seq<Byte>)
    requires items != [] && ItemOk(io, items[0])
    ensures Peek(EatWhitespace(ItemsText(items, rest))) != CLOSE_ARRAY
  {
    var more := items[0].after + ([ItemEnd(items)] + AfterItem(items, rest));
    ItemsTextStep(items, rest);
    EatAcross(items[0].before, Render(items[0].node) + more);
    FirstByte(io, items[0].node);
  }

  lemma ElementStep(io: NumberIO, s: seq<Byte>, acc: seq<Json>, e: Json, rest: seq<Byte>, c: Byte, u: seq<Byte>)
    requires ParseExpr(io, s) == Good(e, rest) && EatWhitespace(rest) == [c] + u
    ensures c == COMMA ==> ParseElements(io, s, acc) == ParseElements(io, u, acc + [e])
    ensures c == CLOSE_ARRAY ==> ParseElements(io, s, acc) == Good(Array(acc + [e]), u)
  {
    assert ([c] + u)[1..] == u;
    ExprIgnoresWhitespace(io, u, acc + [e]);
  }

  lemma {:induction false} ItemsAreRead(io: NumberIO, items: seq<Item>, rest: seq<Byte>, acc: seq<Json>)
    requires items != [] && forall i :: 0 <= i < |items| ==> ItemOk(io, items[i])
    ensures ParseElements(io, ItemsText(items, rest), acc) == Good(Array(acc + ItemValues(io, items)), rest)
    decreases items, 0
  {
    var item, c, u := items[0], ItemEnd(items), AfterItem(items, rest);
    assert ItemOk(io, item);
    var e := ValueOf(io, item.node);
    ItemsTextStep(items, rest);
    ItemIsRead(io, item, c, u);
    ElementStep(io, ItemsText(items, rest), acc, e, item.after + ([c] + u), c, u);
    MoveHead(acc, ItemValues(io, items));
    if |items| > 1 {
      ItemsAreRead(io, items[1..], rest, acc + [e]);
    }
  }

  function MembersText(members: seq<Member>, rest: seq<Byte>): seq<Byte> {
    RenderMembers(members) + ([CLOSE_OBJECT] + rest)
  }

  function MemberEnd(members: seq<Member>): Byte {
    if |members| == 1 then CLOSE_OBJECT else COMMA
  }

  function AfterMember(members: seq<Member>, rest: seq<Byte>): seq<Byte>
    requires members != []
  {
    if |members| == 1 then rest else MembersText(members[1..], rest)
  }

  /** The item of a member and what ends it. */
  function ItemText(item: Item, end: seq<Byte>): seq<Byte> {
    item.before + (Render(item.node) + (item.after + end))
  }

  /** From the key on. */
  function KeyText(m: Member, end: seq<Byte>): seq<Byte> {
    RenderString(m.key) + (m.after + ([COLON] + ItemText(m.item, end)))
  }

  lemma MembersTextStep(members: seq<Member>, rest: seq<Byte>)
    requires members != []
    ensures MembersText(members, rest) ==
            members[0].before + KeyText(members[0], [MemberEnd(members)] + AfterMember(members, rest))
  {
    var m, end := members[0], [MemberEnd(members)] + AfterMember(members, rest);
    if |members| == 1 {
      assert RenderMembers(members) == RenderMember(m);
    } else {
      var others := RenderMembers(members[1..]);
      Assoc(RenderMember(m), [COMMA] + others, [CLOSE_OBJECT] + rest);
      Assoc([COMMA], others, [CLOSE_OBJECT] + rest);
    }
    assert MembersText(members, rest) == RenderMember(m) + end;
    Nested3(m.item.before, Render(m.item.node), m.item.after, end);
    Nested4(m.before, RenderString(m.key), m.after, [COLON], RenderItem(m.item), end);
  }

  lemma Nested4(a: seq<Byte>, b: seq<Byte>, c: seq<Byte>, d: seq<Byte>, e: seq<Byte>, f: seq<Byte>)
    ensures (a + (b + (c + (d + e)))) + f == a + (b + (c + (d + (e + f))))
  {
  }

  /** Whitespace before the first key is skipped. */
  lemma MembersStart(io: NumberIO, members: seq<Member>, rest: seq<Byte>)
    requires members != [] && MemberOk(io, members[0])
    ensures var s := EatWhitespace(MembersText(members, rest));
            s == KeyText(members[0], [MemberEnd(members)] + AfterMember(members, rest)) && Peek(s) == QUOTE
  {
    MembersTextStep(members, rest);
    EatAcross(members[0].before, KeyText(members[0], [MemberEnd(members)] + AfterMember(members, rest)));
  }

  lemma KeyIsRead(ps: seq<Piece>, ws: seq<Byte>, w: seq<Byte>)
    requires PiecesOk(ps) && IsWhitespace(ws)
    ensures ParseKey(RenderString(ps) + (ws + ([COLON] + w))) == Good(PiecesValue(ps), EatWhitespace(w))
  {
    var rest := ws + ([COLON] + w);
    var s := RenderString(ps) + rest;
    assert s == [QUOTE] + StringTail(ps, rest);
    assert Advance(s) == StringTail(ps, rest);
    PiecesAreRead(ps, rest, []);
    assert [] + PiecesValue(ps) == PiecesValue(ps);
    EatUpTo(ws, COLON, w);
    assert ([COLON] + w)[1..] == w;
  }

  lemma {:induction false} MemberIsRead(io: NumberIO, m: Member, c: Byte, u: seq<Byte>, acc: seq<Property>)
    requires MemberOk(io, m) && ItemOk(io, m.item) && EndsItem(c)
    ensures var more := m.item.after + ([c] + u);
            && ParseProperty(io, KeyText(m, [c] + u), acc) == Good(Insert(acc, PiecesValue(m.key), ValueOf(io, m.item.node)), more)
            && EatWhitespace(more) == [c] + u
    decreases m, 2
  {
    var w := ItemText(m.item, [c] + u);
    KeyIsRead(m.key, m.after, w);
    ItemIsRead(io, m.item, c, u);
    ExprIgnoresWhitespace(io, w, []);
  }

  lemma PropertyStep(io: NumberIO, s: seq<Byte>, acc: seq<Property>, more: seq<Property>, rest: seq<Byte>, c: Byte, u: seq<Byte>)
    requires ParseProperty(io, s, acc) == Good(more, rest) && EatWhitespace(rest) == [c] + u
    ensures c == COMMA ==> ParseProperties(io, s, acc) == ParseProperties(io, EatWhitespace(u), more)
    ensures c == CLOSE_OBJECT ==> ParseProperties(io, s, acc) == Good(Object(more), u)
  {
    assert ([c] + u)[1..] == u;
  }

  lemma {:induction false} MembersAreRead(io: NumberIO, members: seq<Member>, rest: seq<Byte>, acc: seq<Property>)
    requires members != [] && forall i :: 0 <= i < |members| ==> MemberOk(io, members[i])
    ensures ParseProperties(io, EatWhitespace(MembersText(members, rest)), acc) == Good(Object(Assigned(io, acc, members)), rest)
    decreases members, 0
  {
    var m, c, u := members[0], MemberEnd(members), AfterMember(members, rest);
    assert MemberOk(io, m) && ItemOk(io, m.item);
    var longer := Insert(acc, PiecesValue(m.key), ValueOf(io, m.item.node));
    MembersStart(io, members, rest);
    MemberIsRead(io, m, c, u, acc);
    PropertyStep(io, KeyText(m, [c] + u), acc, longer, m.item.after + ([c] + u), c, u);
    if |members| > 1 {
      MembersAreRead(io, members[1..], rest, longer);
    }
  }

  // ---------- Only values are accepted ----------

  lemma HeadAndTail(s: seq<Byte>)
    requires s != []
    ensures s == [s[0]] + s[1..]
  {
  }

  lemma {:induction false} AcceptedWord(s: seq<Byte>, word: seq<Byte>, value: Json)
    requires ParseWord(s, word, value).Good? && forall i :: 0 <= i < |word| ==> word[i] != 0
    ensures s == word + ParseWord(s, word, value).rest
    decreases |word|
  {
    if word != [] {
      AcceptedWord(s[1..], word[1..], value);
      HeadAndTail(s);
      HeadAndTail(word);
      Assoc([word[0]], word[1..], ParseWord(s, word, value).rest);
    }
  }

  /** The run of number characters is the longest. */
  lemma {:induction false} RunIsLongest(s: seq<Byte>)
    ensures forall i :: 0 <= i < NumberRun(s) ==> IsNumber(s[i])
    ensures NumberRun(s) < |s| ==> !IsNumber(s[NumberRun(s)])
  {
    if s != [] && IsNumber(s[0]) {
      RunIsLongest(s[1..]);
    }
  }

  /** The tree of an accepted value, without the whitespace before it: `s` does not
      begin with any. */
  lemma {:induction false} AcceptedNode(io: NumberIO, s: seq<Byte>) returns (node: Node)
    requires s != [] && !IsSpace(s[0]) && ParseExpr(io, s).Good?
    ensures NodeOk(io, node) && Follows(node, ParseExpr(io, s).rest)
    ensures s == Render(node) + ParseExpr(io, s).rest
    decreases |s|, 0
  {
    var c, u, rest := s[0], s[1..], ParseExpr(io, s).rest;
    assert EatWhitespace(s) == s && s == [c] + u;
    if c == OPEN_ARRAY {
      node := AcceptedArray(io, u);
    } else if c == OPEN_OBJECT {
      node := AcceptedObject(io, u);
    } else {
      node := AcceptedScalar(io, c, u);
    }
  }

  lemma AcceptedScalar(io: NumberIO, c: Byte, u: seq<Byte>) returns (node: Node)
    requires !IsSpace(c) && c != OPEN_ARRAY && c != OPEN_OBJECT && ParseExpr(io, [c] + u).Good?
    ensures NodeOk(io, node) && Follows(node, ParseExpr(io, [c] + u).rest)
    ensures [c] + u == Render(node) + ParseExpr(io, [c] + u).rest
  {
    var s := [c] + u;
    assert EatWhitespace(s) == s && s[1..] == u;
    if c == 110 || c == 116 || c == 102 {
      node := AcceptedBareword(io, c, u);
    } else if c == QUOTE {
      var ps := AcceptedPieces(u, []);
      node := StringNode(ps);
      Bracketed3(QUOTE, RenderPieces(ps), ParseString(u, []).rest);
    } else {
      node := AcceptedNumber(io, c, u);
    }
  }

  lemma AcceptedBareword(io: NumberIO, c: Byte, u: seq<Byte>) returns (node: Node)
    requires (c == 110 || c == 116 || c == 102) && ParseExpr(io, [c] + u).Good?
    ensures node.NullNode? || node.BooleanNode?
    ensures [c] + u == Render(node) + ParseExpr(io, [c] + u).rest
  {
    var s := [c] + u;
    assert EatWhitespace(s) == s && s[1..] == u;
    var word: seq<Byte> := if c == 110 then [117, 108, 108] else if c == 116 then [114, 117, 101] else [97, 108, 115, 101];
    node := if c == 110 then NullNode else BooleanNode(c == 116);
    var rest := ParseExpr(io, s).rest;
    assert u == word + rest by {
      AcceptedWord(u, word, ValueOf(io, node));
    }
    Assoc([c], word, rest);
    assert Render(node) == [c] + word;
  }

  lemma Bracketed3(quote: Byte, text: seq<Byte>, rest: seq<Byte>)
    ensures [quote] + (text + ([quote] + rest)) == ([quote] + text + [quote]) + rest
  {
  }

  lemma AcceptedNumber(io: NumberIO, c: Byte, u: seq<Byte>) returns (node: Node)
    requires IsNumber(c) && JsonParse.ParseNumber(io, c, u).Good?
    ensures NodeOk(io, node) && Follows(node, JsonParse.ParseNumber(io, c, u).rest)
    ensures [c] + u == Render(node) + JsonParse.ParseNumber(io, c, u).rest
  {
    var n := NumberRun(u);
    RunIsLongest(u);
    var token := [c] + u[..n];
    forall i | 0 <= i < |token|
      ensures IsNumber(token[i])
    {
      assert i > 0 ==> token[i] == u[i - 1];
    }
    node := NumberNode(token);
    Assoc([c], u[..n], u[n..]);
    assert u[..n] + u[n..] == u;
  }

  lemma {:induction false} AcceptedArray(io: NumberIO, u: seq<Byte>) returns (node: Node)
    requires ParseExpr(io, [OPEN_ARRAY] + u).Good?
    ensures NodeOk(io, node) && !node.NumberNode?
    ensures [OPEN_ARRAY] + u == Render(node) + ParseExpr(io, [OPEN_ARRAY] + u).rest
    decreases |u|, 3
  {
    var rest := ParseExpr(io, [OPEN_ARRAY] + u).rest;
    StartArray(io, u);
    var v := EatWhitespace(u);
    if Peek(v) == CLOSE_ARRAY {
      var ws := EatenIsWhitespace(u);
      node := EmptyArray(ws);
      assert v == [CLOSE_ARRAY] + rest;
      Bracketed(OPEN_ARRAY, ws, CLOSE_ARRAY, rest);
    } else {
      var items := AcceptedItems(io, u, []);
      node := ArrayNode(items);
      Bracketed(OPEN_ARRAY, RenderItems(items), CLOSE_ARRAY, rest);
    }
  }

  /** An accepted value with the whitespace around it, up to `[c] + t`. */
  lemma {:induction false} AcceptedItem(io: NumberIO, s: seq<Byte>) returns (item: Item)
    requires ParseExpr(io, s).Good?
    ensures ItemOk(io, item)
    ensures s == ItemText(item, EatWhitespace(ParseExpr(io, s).rest))
    decreases |s|, 1
  {
    var before := EatenIsWhitespace(s);
    var t, r := EatWhitespace(s), ParseExpr(io, s);
    ExprIgnoresWhitespace(io, s, []);
    assert |s| == |before| + |t|;
    var node := AcceptedNode(io, t);
    var after := EatenIsWhitespace(r.rest);
    item := Item(before, node, after);
  }

  lemma {:induction false} AcceptedItems(io: NumberIO, s: seq<Byte>, acc: seq<Json>) returns (items: seq<Item>)
    requires ParseElements(io, s, acc).Good?
    ensures items != [] && forall i :: 0 <= i < |items| ==> ItemOk(io, items[i])
    ensures s == ItemsText(items, ParseElements(io, s, acc).rest)
    decreases |s|, 2
  {
    var e, rest := ParseExpr(io, s), ParseElements(io, s, acc).rest;
    var item := AcceptedItem(io, s);
    var t := EatWhitespace(e.rest);
    var c, u := t[0], t[1..];
    assert t == [c] + u;
    var more: seq<Item> := [];
    if c == COMMA {
      ExprIgnoresWhitespace(io, u, acc + [e.value]);
      more := AcceptedItems(io, u, acc + [e.value]);
    }
    items := [item] + more;
    assert items[1..] == more;
    ItemsTextStep(items, rest);
  }

  lemma {:induction false} AcceptedObject(io: NumberIO, u: seq<Byte>) returns (node: Node)
    requires ParseExpr(io, [OPEN_OBJECT] + u).Good?
    ensures NodeOk(io, node) && !node.NumberNode?
    ensures [OPEN_OBJECT] + u == Render(node) + ParseExpr(io, [OPEN_OBJECT] + u).rest
    decreases |u|, 5
  {
    var rest := ParseExpr(io, [OPEN_OBJECT] + u).rest;
    StartObject(io, u);
    var v := EatWhitespace(u);
    var ws := EatenIsWhitespace(u);
    if Peek(v) == CLOSE_OBJECT {
      node := EmptyObject(ws);
      assert v == [CLOSE_OBJECT] + rest;
      Bracketed(OPEN_OBJECT, ws, CLOSE_OBJECT, rest);
    } else {
      assert |u| == |ws| + |v|;
      var members := AcceptedMembers(io, v, [], ws);
      node := ObjectNode(members);
      Bracketed(OPEN_OBJECT, RenderMembers(members), CLOSE_OBJECT, rest);
    }
  }

  lemma AcceptedKey(s: seq<Byte>) returns (ps: seq<Piece>, after: seq<Byte>, w: seq<Byte>)
    requires ParseKey(s).Good?
    ensures PiecesOk(ps) && IsWhitespace(after) && EatWhitespace(w) == ParseKey(s).rest
    ensures s == RenderString(ps) + (after + ([COLON] + w)) && |w| < |s|
  {
    var u := s[1..];
    assert s == [QUOTE] + u;
    ps := AcceptedPieces(u, []);
    var rest := ParseString(u, []).rest;
    after, w := ColonAfter(rest);
    Bracketed3(QUOTE, RenderPieces(ps), rest);
  }

  lemma ColonAfter(s: seq<Byte>) returns (after: seq<Byte>, w: seq<Byte>)
    requires Peek(EatWhitespace(s)) == COLON
    ensures IsWhitespace(after) && s == after + ([COLON] + w) && w == Advance(EatWhitespace(s))
  {
    after := EatenIsWhitespace(s);
    w := EatWhitespace(s)[1..];
    assert EatWhitespace(s) == [COLON] + w;
  }

  /** An accepted member, `before` being the whitespace in front of it. */
  lemma {:induction false} AcceptedMember(io: NumberIO, s: seq<Byte>, acc: seq<Property>, before: seq<Byte>) returns (m: Member)
    requires ParseProperty(io, s, acc).Good? && IsWhitespace(before)
    ensures MemberOk(io, m) && m.before == before
    ensures s == KeyText(m, EatWhitespace(ParseProperty(io, s, acc).rest))
    decreases |s|, 3
  {
    var key, after, w := AcceptedKey(s);
    ExprIgnoresWhitespace(io, w, []);
    var item := AcceptedItem(io, w);
    m := Member(before, key, after, item);
  }

  lemma {:induction false} AcceptedMembers(io: NumberIO, s: seq<Byte>, acc: seq<Property>, before: seq<Byte>) returns (members: seq<Member>)
    requires ParseProperties(io, s, acc).Good? && IsWhitespace(before)
    ensures members != [] && forall i :: 0 <= i < |members| ==> MemberOk(io, members[i])
    ensures before + s == MembersText(members, ParseProperties(io, s, acc).rest)
    decreases |s|, 4
  {
    var r, rest := ParseProperty(io, s, acc), ParseProperties(io, s, acc).rest;
    var m := AcceptedMember(io, s, acc, before);
    var t := EatWhitespace(r.rest);
    var c, u := t[0], t[1..];
    assert t == [c] + u;
    var more: seq<Member> := [];
    if c == COMMA {
      var ws := EatenIsWhitespace(u);
      more := AcceptedMembers(io, EatWhitespace(u), r.value, ws);
    }
    members := [m] + more;
    assert members[1..] == more;
    MembersTextStep(members, rest);
  }

  // ---------- Documents ----------

  /** Main result: a text is accepted with a value exactly when it is the text of a
      syntax tree with that value, with whitespace around it. */
  lemma AcceptedExactly(io: NumberIO, text: seq<Byte>, e: Json)
    ensures ParseDocument(io, text) == Good(e, []) <==>
            exists item :: ItemOk(io, item) && RenderItem(item) == text && ValueOf(io, item.node) == e
  {
    if ParseDocument(io, text) == Good(e, []) {
      var item := AcceptedItem(io, text);
      assert RenderItem(item) == ItemText(item, []) by {
        assert item.after + [] == item.after;
      }
      DocumentIsRead(io, item);
    }
    if item :| ItemOk(io, item) && RenderItem(item) == text && ValueOf(io, item.node) == e {
      DocumentIsRead(io, item);
    }
  }

  lemma DocumentIsRead(io: NumberIO, item: Item)
    requires ItemOk(io, item)
    ensures ParseDocument(io, RenderItem(item)) == Good(ValueOf(io, item.node), [])
  {
    var s := Render(item.node) + item.after;
    NodeIsRead(io, item.node, item.after);
    EatAcross(item.before, s);
    ExprIgnoresWhitespace(io, RenderItem(item), []);
    ExprIgnoresWhitespace(io, s, []);
    EatAcross(item.after, []);
    assert item.after + [] == item.after;
  }
}
