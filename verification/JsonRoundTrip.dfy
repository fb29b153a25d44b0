/**
 Parsing is the inverse of printing, compact or with any indentation: what is printed
 is the text of a syntax tree with the printed value.
 */
module JsonRoundTrip {
  import opened Bytes
  import opened Options
  import opened JsonText
  import opened JsonParse
  import opened JsonGrammar
  import opened Sequences

  // ---------- Strings ----------

  function PieceOf(c: Byte): Piece {
    if c == QUOTE || c == BACKSLASH then Escaped(c)
    else if c >= 32 then Raw(c)
    else if c == 9 then Escaped(116)
    else if c == 10 then Escaped(110)
    else if c == 13 then Escaped(114)
    else Unit([HexDigit(0), HexDigit(0), HexDigit(c / 16), HexDigit(c % 16)])
  }

  function PiecesOf(s: seq<Byte>): seq<Piece> {
    if s == [] then [] else [PieceOf(s[0])] + PiecesOf(s[1..])
  }

  lemma HexDigitValue(n: int)
    requires 0 <= n < 16
    ensures IsHex(HexDigit(n)) && HexValue(HexDigit(n)) == n
  {
  }

  /** quote() writes one byte as a piece that stands for it. */
  lemma PieceIsEscape(c: Byte)
    ensures PieceOk(PieceOf(c)) && RenderPiece(PieceOf(c)) == Escape(c)
    ensures PieceOf(c).Raw? ==> PieceOf(c).c == c
    ensures PieceOf(c).Escaped? ==> SimpleEscape(PieceOf(c).letter) == Some(c)
    ensures PieceOf(c).Unit? ==> UnitOf(PieceOf(c).digits) == c && c < 32
  {
    if PieceOf(c).Unit? {
      HexDigitValue(0);
      HexDigitValue(c / 16);
      HexDigitValue(c % 16);
    }
  }

  /** Strings of any bytes. */
  lemma {:induction false} PiecesAreString(s: seq<Byte>)
    ensures PiecesOk(PiecesOf(s)) && RenderPieces(PiecesOf(s)) == EscapeAll(s)
    ensures PiecesValue(PiecesOf(s)) == s
  {
    if s == [] {
    } else {
      var ps := PiecesOf(s);
      PieceIsEscape(s[0]);
      PiecesAreString(s[1..]);
      assert ps[0] == PieceOf(s[0]) && ps[1..] == PiecesOf(s[1..]);
      FirstPieceValue(ps, s[0]);
      assert [s[0]] + s[1..] == s;
    }
  }

  lemma FirstPieceValue(ps: seq<Piece>, c: Byte)
    requires ps != [] && ps[0] == PieceOf(c) && PiecesOk(ps[1..])
    ensures PiecesOk(ps) && PiecesValue(ps) == [c] + PiecesValue(ps[1..])
  {
    PieceIsEscape(c);
  }

  // ---------- Keys ----------

  lemma {:induction false} FirstKeyLess(ps: seq<Property>, i: nat)
    requires SortedKeys(ps) && 0 < i < |ps|
    ensures BytesLess(ps[0].key, ps[i].key)
  {
    if i > 1 {
      FirstKeyLess(ps, i - 1);
      BytesLessTransitive(ps[0].key, ps[i - 1].key, ps[i].key);
    }
  }

  /** Inserting in key order appends. */
  lemma {:induction false} InsertLast(ps: seq<Property>, p: Property)
    requires SortedKeys(ps + [p])
    ensures Insert(ps, p.key, p.value) == ps + [p]
  {
    if ps == [] {
      assert [Property(p.key, p.value)] + ps == ps + [p];
    } else {
      FirstKeyLess(ps + [p], |ps|);
      BytesLessAsymmetric(ps[0].key, p.key);
      assert (ps + [p])[1..] == ps[1..] + [p];
      assert SortedKeys(ps[1..] + [p]);
      InsertLast(ps[1..], p);
    }
  }

  lemma InsertNext(acc: seq<Property>, ps: seq<Property>)
    requires ps != [] && SortedKeys(acc + ps)
    ensures Insert(acc, ps[0].key, ps[0].value) == acc + [ps[0]]
  {
    assert forall i :: 0 <= i < |acc + [ps[0]]| ==> (acc + [ps[0]])[i] == (acc + ps)[i];
    InsertLast(acc, ps[0]);
  }

  // ---------- The tree of what is printed ----------

  function NodeOf(io: NumberIO, e: Json, style: Style, level: nat): Node
    decreases e, 1
  {
    match e
    case Null => NullNode
    case Boolean(b) => BooleanNode(b)
    case Number(d) => NumberNode(io.format(d))
    case String(s) => StringNode(PiecesOf(s))
    case Array(es) => if es == [] then EmptyArray([]) else ArrayNode(ItemsOf(io, es, style, Indented(style, level), level))
    case Object(ps) => if ps == [] then EmptyObject([]) else ObjectNode(MembersOf(io, ps, style, Indented(style, level), level))
  }

  /** The whitespace after an item: only the last has the newline of the bracket. */
  function Closing(count: nat, style: Style, outer: nat): seq<Byte> {
    if count == 1 then NewlineAt(style, outer) else []
  }

  function ItemsOf(io: NumberIO, es: seq<Json>, style: Style, level: nat, outer: nat): seq<Item>
    decreases es, 0
  {
    if es == [] then []
    else
      [Item(NewlineAt(style, level), NodeOf(io, es[0], style, level), Closing(|es|, style, outer))]
      + ItemsOf(io, es[1..], style, level, outer)
  }

  function MemberOf(io: NumberIO, p: Property, style: Style, level: nat, closing: seq<Byte>): Member
    decreases p, 2
  {
    Member(NewlineAt(style, level), PiecesOf(p.key), [],
           Item(SpaceAfterColon(style), NodeOf(io, p.value, style, level), closing))
  }

  function MembersOf(io: NumberIO, ps: seq<Property>, style: Style, level: nat, outer: nat): seq<Member>
    decreases ps, 0
  {
    if ps == [] then []
    else [MemberOf(io, ps[0], style, level, Closing(|ps|, style, outer))] + MembersOf(io, ps[1..], style, level, outer)
  }

  lemma PrintedWhitespace(style: Style, level: nat, count: nat)
    ensures IsWhitespace(NewlineAt(style, level)) && IsWhitespace(SpaceAfterColon(style))
    ensures IsWhitespace(Closing(count, style, level))
  {
  }

  lemma {:induction false} NodeIsPrinted(io: NumberIO, e: Json, style: Style, level: nat)
    requires Valid(io, e)
    ensures NodeOk(io, NodeOf(io, e, style, level))
    ensures Render(NodeOf(io, e, style, level)) == Print(io, e, style, level)
    ensures ValueOf(io, NodeOf(io, e, style, level)) == e
    decreases e, 1
  {
    match e
    case String(s) =>
      PiecesAreString(s);
    case Array(es) =>
      if es != [] {
        ArrayIsPrinted(io, es, style, level);
      }
    case Object(ps) =>
      if ps != [] {
        ObjectIsPrinted(io, ps, style, level);
      }
    case _ =>
  }

  lemma {:induction false} ArrayIsPrinted(io: NumberIO, es: seq<Json>, style: Style, level: nat)
    requires es != [] && Valid(io, Array(es))
    ensures var e := Array(es);
            var node := NodeOf(io, e, style, level);
            NodeOk(io, node) && Render(node) == Print(io, e, style, level) && ValueOf(io, node) == e
    decreases es, 1
  {
    ItemsArePrinted(io, es, style, Indented(style, level), level);
    Assoc3([OPEN_ARRAY], PrintElements(io, es, style, Indented(style, level)), NewlineAt(style, level), [CLOSE_ARRAY]);
  }

  lemma {:induction false} ObjectIsPrinted(io: NumberIO, ps: seq<Property>, style: Style, level: nat)
    requires ps != [] && Valid(io, Object(ps))
    ensures var e := Object(ps);
            var node := NodeOf(io, e, style, level);
            NodeOk(io, node) && Render(node) == Print(io, e, style, level) && ValueOf(io, node) == e
    decreases ps, 1
  {
    MembersArePrinted(io, ps, style, Indented(style, level), level, []);
    Assoc3([OPEN_OBJECT], PrintProperties(io, ps, style, Indented(style, level)), NewlineAt(style, level), [CLOSE_OBJECT]);
    assert [] + ps == ps;
  }

  lemma {:induction false} ItemsArePrinted(io: NumberIO, es: seq<Json>, style: Style, level: nat, outer: nat)
    requires es != [] && forall i :: 0 <= i < |es| ==> Valid(io, es[i])
    ensures var items := ItemsOf(io, es, style, level, outer);
            && |items| == |es| && (forall i :: 0 <= i < |items| ==> ItemOk(io, items[i]))
            && RenderItems(items) == PrintElements(io, es, style, level) + NewlineAt(style, outer)
            && ItemValues(io, items) == es
    decreases es, 0
  {
    var items, more := ItemsOf(io, es, style, level, outer), ItemsOf(io, es[1..], style, level, outer);
    assert items[1..] == more;
    NodeIsPrinted(io, es[0], style, level);
    PrintedWhitespace(style, level, |es|);
    PrintedWhitespace(style, outer, |es|);
    assert ItemOk(io, items[0]);
    var indent, text := NewlineAt(style, level), Print(io, es[0], style, level);
    if |es| == 1 {
      assert es[1..] == [] && more == [];
      Assoc(indent, text, NewlineAt(style, outer));
    } else {
      ItemsArePrinted(io, es[1..], style, level, outer);
      NextItem(indent, text, PrintElements(io, es[1..], style, level), NewlineAt(style, outer));
    }
    assert es == [es[0]] + es[1..];
  }

  /** A comma and the other items. */
  lemma NextItem(indent: seq<Byte>, text: seq<Byte>, others: seq<Byte>, closing: seq<Byte>)
    ensures (indent + (text + [])) + ([COMMA] + (others + closing)) == (indent + text + ([COMMA] + others)) + closing
  {
  }

  lemma MemberIsPrinted(io: NumberIO, p: Property, style: Style, level: nat, closing: seq<Byte>)
    requires Valid(io, p.value) && IsWhitespace(closing)
    requires NodeOk(io, NodeOf(io, p.value, style, level))
    requires Render(NodeOf(io, p.value, style, level)) == Print(io, p.value, style, level)
    ensures var m := MemberOf(io, p, style, level, closing);
            && MemberOk(io, m) && ItemOk(io, m.item) && PiecesValue(m.key) == p.key
            && RenderMember(m) == NewlineAt(style, level) + (PrintProperty(io, p, style, level) + closing)
  {
    var m := MemberOf(io, p, style, level, closing);
    var text := Print(io, p.value, style, level);
    PiecesAreString(p.key);
    PrintedWhitespace(style, level, 1);
    assert ItemOk(io, m.item);
    assert RenderString(m.key) == Quote(p.key);
    assert [] + ([COLON] + RenderItem(m.item)) == [COLON] + RenderItem(m.item);
    Colon(Quote(p.key), [COLON], SpaceAfterColon(style), text, closing);
  }

  lemma Colon(key: seq<Byte>, colon: seq<Byte>, space: seq<Byte>, text: seq<Byte>, closing: seq<Byte>)
    ensures key + (colon + (space + (text + closing))) == (key + colon + space + text) + closing
  {
  }

  lemma {:induction false} MembersArePrinted(io: NumberIO, ps: seq<Property>, style: Style, level: nat, outer: nat, acc: seq<Property>)
    requires ps != [] && SortedKeys(acc + ps) && forall i :: 0 <= i < |ps| ==> Valid(io, ps[i].value)
    ensures var members := MembersOf(io, ps, style, level, outer);
            && |members| == |ps| && (forall i :: 0 <= i < |members| ==> MemberOk(io, members[i]))
            && RenderMembers(members) == PrintProperties(io, ps, style, level) + NewlineAt(style, outer)
            && Assigned(io, acc, members) == acc + ps
    decreases ps, 0
  {
    var members := MembersOf(io, ps, style, level, outer);
    var closing := Closing(|ps|, style, outer);
    PrintedWhitespace(style, outer, |ps|);
    NodeIsPrinted(io, ps[0].value, style, level);
    MemberIsPrinted(io, ps[0], style, level, closing);
    InsertNext(acc, ps);
    MoveHead(acc, ps);
    if |ps| == 1 {
      OneMemberPrinted(io, ps, style, level, outer, acc);
    } else {
      MembersArePrinted(io, ps[1..], style, level, outer, acc + [ps[0]]);
      NextMemberPrinted(io, ps, style, level, outer, acc);
    }
  }

  lemma OneMemberPrinted(io: NumberIO, ps: seq<Property>, style: Style, level: nat, outer: nat, acc: seq<Property>)
    requires |ps| == 1 && Insert(acc, ps[0].key, ps[0].value) == acc + [ps[0]] == acc + ps
    requires var m := MemberOf(io, ps[0], style, level, NewlineAt(style, outer));
             && MemberOk(io, m) && ItemOk(io, m.item) && PiecesValue(m.key) == ps[0].key
             && ValueOf(io, m.item.node) == ps[0].value
             && RenderMember(m) == NewlineAt(style, level) + (PrintProperty(io, ps[0], style, level) + NewlineAt(style, outer))
    ensures var members := MembersOf(io, ps, style, level, outer);
            && |members| == 1 && MemberOk(io, members[0])
            && RenderMembers(members) == PrintProperties(io, ps, style, level) + NewlineAt(style, outer)
            && Assigned(io, acc, members) == acc + ps
  {
    var members := MembersOf(io, ps, style, level, outer);
    assert ps[1..] == [] && MembersOf(io, ps[1..], style, level, outer) == [];
    assert members == [MemberOf(io, ps[0], style, level, NewlineAt(style, outer))];
    assert members[1..] == [];
    Assoc(NewlineAt(style, level), PrintProperty(io, ps[0], style, level), NewlineAt(style, outer));
  }

  lemma NextMemberPrinted(io: NumberIO, ps: seq<Property>, style: Style, level: nat, outer: nat, acc: seq<Property>)
    requires |ps| > 1 && Insert(acc, ps[0].key, ps[0].value) == acc + [ps[0]]
    requires var m := MemberOf(io, ps[0], style, level, []);
             && MemberOk(io, m) && ItemOk(io, m.item) && PiecesValue(m.key) == ps[0].key
             && ValueOf(io, m.item.node) == ps[0].value
             && RenderMember(m) == NewlineAt(style, level) + (PrintProperty(io, ps[0], style, level) + [])
    requires var more := MembersOf(io, ps[1..], style, level, outer);
             && |more| == |ps| - 1 && (forall i :: 0 <= i < |more| ==> MemberOk(io, more[i]))
             && RenderMembers(more) == PrintProperties(io, ps[1..], style, level) + NewlineAt(style, outer)
             && Assigned(io, acc + [ps[0]], more) == acc + ps
    ensures var members := MembersOf(io, ps, style, level, outer);
            && |members| == |ps| && (forall i :: 0 <= i < |members| ==> MemberOk(io, members[i]))
            && RenderMembers(members) == PrintProperties(io, ps, style, level) + NewlineAt(style, outer)
            && Assigned(io, acc, members) == acc + ps
  {
    var members, more := MembersOf(io, ps, style, level, outer), MembersOf(io, ps[1..], style, level, outer);
    assert members[1..] == more && members[0] == MemberOf(io, ps[0], style, level, []);
    NextItem(NewlineAt(style, level), PrintProperty(io, ps[0], style, level), PrintProperties(io, ps[1..], style, level),
             NewlineAt(style, outer));
  }

  /** Main result: whatever the style, parsing a printed value gives the value
      back. */
  lemma PrintThenParse(io: NumberIO, e: Json, style: Style)
    requires Valid(io, e)
    ensures ParseDocument(io, Print(io, e, style, 0)) == Good(e, [])
    ensures Print(io, e, style, 0) != []
  {
    var node := NodeOf(io, e, style, 0);
    NodeIsPrinted(io, e, style, 0);
    FirstByte(io, node);
    assert RenderItem(Item([], node, [])) == Render(node);
    DocumentIsRead(io, Item([], node, []));
  }
}
