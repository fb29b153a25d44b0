/**
 The character sets of RFC 8259 and the parser against them: its whitespace and its
 strings are those of the standard, on bytes. That the bytes of a string are UTF-8 is
 not looked at.
 */
module JsonStandard {
  import opened Bytes
  import opened Options
  import opened JsonText
  import opened JsonParse
  import opened JsonGrammar

  // ---------- The standard ----------

  /** `ws`, section 2. */
  predicate IsWs(c: Byte) {
    c as char in " \t\n\r"
  }

  /** `unescaped`, section 7: all but the quotation mark, the reverse solidus and the
      control characters. */
  predicate IsUnescaped(c: Byte) {
    c >= 0x20 && c as char != '"' && c as char != '\\'
  }

  /** The letters after a reverse solidus, and what they stand for. */
  const ESCAPE_LETTERS := "\"\\/bfnrt"
  const ESCAPED: seq<Byte> := [34, 92, 47, 8, 12, 10, 13, 9]

  const LOWER_DIGITS := "0123456789abcdef"
  const UPPER_DIGITS := "0123456789ABCDEF"

  predicate IsHexDigit(c: Byte) {
    c as char in LOWER_DIGITS || c as char in UPPER_DIGITS
  }

  predicate IsLetterEscape(s: seq<Byte>) {
    |s| >= 2 && s[0] as char == '\\' && s[1] as char in ESCAPE_LETTERS
  }

  predicate IsUnicodeEscape(s: seq<Byte>) {
    |s| >= 6 && s[0] as char == '\\' && s[1] as char == 'u' && forall i :: 2 <= i < 6 ==> IsHexDigit(s[i])
  }

  /** `*char`, section 7. */
  predicate IsChars(s: seq<Byte>) {
    || s == []
    || (IsUnescaped(s[0]) && IsChars(s[1..]))
    || (IsLetterEscape(s) && IsChars(s[2..]))
    || (IsUnicodeEscape(s) && IsChars(s[6..]))
  }

  // ---------- Characters ----------

  lemma WhitespaceIs(c: Byte)
    ensures IsSpace(c) <==> IsWs(c)
  {
    assert IsWs(c) <==> c as char == ' ' || c as char == '\t' || c as char == '\n' || c as char == '\r';
  }

  lemma EscapesRead(c: Byte)
    ensures SimpleEscape(c).Some? <==> c as char in ESCAPE_LETTERS
    ensures forall i :: 0 <= i < |ESCAPE_LETTERS| && ESCAPE_LETTERS[i] == c as char ==> SimpleEscape(c) == Some(ESCAPED[i])
  {
    if SimpleEscape(c).Some? {
      var i := if c == 34 then 0 else if c == 92 then 1 else if c == 47 then 2 else if c == 98 then 3
               else if c == 102 then 4 else if c == 110 then 5 else if c == 114 then 6 else 7;
      assert ESCAPE_LETTERS[i] == c as char;
    }
  }

  lemma HexDigitsRead(c: Byte)
    ensures IsHex(c) <==> IsHexDigit(c)
    ensures IsHex(c) ==> LOWER_DIGITS[HexValue(c)] == c as char || UPPER_DIGITS[HexValue(c)] == c as char
  {
    if IsHex(c) {
      assert LOWER_DIGITS[HexValue(c)] == c as char || UPPER_DIGITS[HexValue(c)] == c as char;
    } else {
      assert c as char !in LOWER_DIGITS && c as char !in UPPER_DIGITS;
    }
  }

  // ---------- Whitespace ----------

  /** What is skipped is the longest beginning made of whitespace of the standard. */
  lemma {:induction false} SkippedIsWhitespace(s: seq<Byte>) returns (n: nat)
    ensures n <= |s| && EatWhitespace(s) == s[n..]
    ensures forall i :: 0 <= i < n ==> IsWs(s[i])
    ensures n < |s| ==> !IsWs(s[n])
  {
    if s != [] {
      WhitespaceIs(s[0]);
    }
    if s != [] && IsSpace(s[0]) {
      var m := SkippedIsWhitespace(s[1..]);
      n := m + 1;
      assert s[1..][m..] == s[n..];
      assert forall i :: 0 < i < n ==> s[i] == s[1..][i - 1];
    } else {
      n := 0;
    }
  }

  // ---------- Strings ----------

  lemma PieceIsChar(p: Piece, more: seq<Byte>)
    requires PieceOk(p) && IsChars(more)
    ensures IsChars(RenderPiece(p) + more)
  {
    var s := RenderPiece(p) + more;
    match p
    case Raw(c) =>
      assert s[1..] == more;
    case Escaped(letter) =>
      EscapesRead(letter);
      assert IsLetterEscape(s) && s[2..] == more;
    case Unit(digits) =>
      forall i | 2 <= i < 6
        ensures IsHexDigit(s[i])
      {
        assert s[i] == digits[i - 2];
        HexDigitsRead(digits[i - 2]);
      }
      assert IsUnicodeEscape(s) && s[6..] == more;
  }

  lemma {:induction false} PiecesAreChars(ps: seq<Piece>)
    requires PiecesOk(ps)
    ensures IsChars(RenderPieces(ps))
  {
    if ps != [] {
      PiecesAreChars(ps[1..]);
      PieceIsChar(ps[0], RenderPieces(ps[1..]));
    }
  }

  /** The first piece of some characters. */
  lemma FirstPiece(s: seq<Byte>) returns (p: Piece, tail: seq<Byte>)
    requires s != [] && IsChars(s)
    ensures PieceOk(p) && s == RenderPiece(p) + tail && IsChars(tail) && |tail| < |s|
  {
    if IsUnescaped(s[0]) && IsChars(s[1..]) {
      p, tail := Raw(s[0]), s[1..];
    } else if IsLetterEscape(s) && IsChars(s[2..]) {
      EscapesRead(s[1]);
      p, tail := Escaped(s[1]), s[2..];
      assert RenderPiece(p) == s[..2];
    } else {
      forall i | 2 <= i < 6
        ensures IsHex(s[i])
      {
        HexDigitsRead(s[i]);
      }
      p, tail := Unit(s[2..6]), s[6..];
      assert RenderPiece(p) == s[..6];
    }
  }

  lemma {:induction false} CharsArePieces(s: seq<Byte>) returns (ps: seq<Piece>)
    requires IsChars(s)
    ensures PiecesOk(ps) && RenderPieces(ps) == s
    decreases |s|
  {
    if s == [] {
      ps := [];
    } else {
      var p, tail := FirstPiece(s);
      var more := CharsArePieces(tail);
      ps := [p] + more;
      assert ps[1..] == more;
    }
  }

  /** Main result: after the opening quotation mark a string is accepted, and `rest` is
      left, exactly when characters of the standard come first, and a quotation mark. */
  lemma StringsAreStandard(s: seq<Byte>, rest: seq<Byte>)
    ensures ParseString(s, []).Good? && ParseString(s, []).rest == rest <==>
            exists body :: IsChars(body) && s == body + ([QUOTE] + rest)
  {
    if ParseString(s, []).Good? && ParseString(s, []).rest == rest {
      var ps := AcceptedPieces(s, []);
      PiecesAreChars(ps);
      assert s == RenderPieces(ps) + ([QUOTE] + rest);
    }
    if body :| IsChars(body) && s == body + ([QUOTE] + rest) {
      var ps := CharsArePieces(body);
      PiecesAreRead(ps, rest, []);
    }
  }

  // ---------- Values ----------

  /** Each letter stands for the character that the standard gives it. */
  lemma LetterIsStandard(i: nat, rest: seq<Byte>, letter: Byte)
    requires i < |ESCAPE_LETTERS| && ESCAPE_LETTERS[i] == letter as char
    ensures ParseString([BACKSLASH, letter] + ([QUOTE] + rest), []) == Good([ESCAPED[i]], rest)
  {
    EscapesRead(letter);
    var ps := [Escaped(letter)];
    assert ps[1..] == [];
    assert RenderPieces(ps) == [BACKSLASH, letter] + RenderPieces(ps[1..]);
    assert PiecesValue(ps) == [ESCAPED[i]] + PiecesValue(ps[1..]);
    assert StringTail(ps, rest) == [BACKSLASH, letter] + ([QUOTE] + rest);
    PiecesAreRead(ps, rest, []);
    assert [] + PiecesValue(ps) == [ESCAPED[i]];
  }

  predicate IsDigitOf(c: Byte, d: nat) {
    d < 16 && (c as char == LOWER_DIGITS[d] || c as char == UPPER_DIGITS[d])
  }

  lemma DigitIsStandard(c: Byte, d: nat)
    requires IsDigitOf(c, d)
    ensures IsHex(c) && HexValue(c) == d
  {
    assert LOWER_DIGITS[d] as int == if d < 10 then 48 + d else 87 + d;
    assert UPPER_DIGITS[d] as int == if d < 10 then 48 + d else 55 + d;
  }

  /** Four digits of either case are the number that they write in base 16. */
  lemma UnitIsStandard(c: seq<Byte>, d: seq<nat>)
    requires |c| == |d| == 4 && forall i :: 0 <= i < 4 ==> IsDigitOf(c[i], d[i])
    ensures PieceOk(Unit(c)) && UnitOf(c) == d[0] * 4096 + d[1] * 256 + d[2] * 16 + d[3]
  {
    forall i | 0 <= i < 4
      ensures IsHex(c[i]) && HexValue(c[i]) == d[i]
    {
      DigitIsStandard(c[i], d[i]);
    }
  }
}
