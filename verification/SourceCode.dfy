/**
 Positions (line and column) and offsets in a text, as clangd/SourceCode.cpp
 converts them: columns count bytes.
 */
module SourceCode {
  import opened Bytes
  import opened Lines
  import opened Options

  datatype Position = Position(line: int, character: int)

  datatype PositionError = NegativeLine | NegativeCharacter | LineOutOfRange | CharacterOutOfRange

  /** StringRef::find: the first newline from `i` on. */
  function FindNewline(code: seq<Byte>, i: nat): (r: Option<nat>)
    requires i <= |code|
    ensures r.Some? ==> i <= r.value < |code| && code[r.value] == NEWLINE
    ensures forall k :: i <= k < (if r.Some? then r.value else |code|) ==> code[k] != NEWLINE
    decreases |code| - i
  {
    if i == |code| then None else if code[i] == NEWLINE then Some(i) else FindNewline(code, i + 1)
  }

  /** Where line `line` begins. */
  function LineBegin(code: seq<Byte>, line: nat): (r: Option<nat>)
    ensures r.Some? ==> r.value <= |code|
  {
    if line == 0 then Some(0)
    else
      match LineBegin(code, line - 1)
      case None => None
      case Some(start) =>
        match FindNewline(code, start)
        case None => None
        case Some(newline) => Some(newline + 1)
  }

  /** Where the line that begins at `start` ends. */
  function LineEnd(code: seq<Byte>, start: nat): (r: nat)
    requires start <= |code|
    ensures start <= r <= |code|
  {
    match FindNewline(code, start)
    case None => |code|
    case Some(newline) => newline
  }

  function PositionToOffset(code: seq<Byte>, p: Position, allowBeyond: bool): (r: Result<nat, PositionError>)
    ensures r.Ok? ==> r.value <= |code|
  {
    if p.line < 0 then Err(NegativeLine)
    else if p.character < 0 then Err(NegativeCharacter)
    else
      match LineBegin(code, p.line)
      case None => Err(LineOutOfRange)
      case Some(start) =>
        var end := LineEnd(code, start);
        if start + p.character <= end then Ok(start + p.character)
        else if allowBeyond then Ok(end)
        else Err(CharacterOutOfRange)
  }

  /** The loop over lines. */
  method ComputeOffset(code: seq<Byte>, p: Position, allowBeyond: bool) returns (r: Result<nat, PositionError>)
    ensures r == PositionToOffset(code, p, allowBeyond)
  {
    if p.line < 0 {
      return Err(NegativeLine);
    }
    if p.character < 0 {
      return Err(NegativeCharacter);
    }
    var startOfLine := 0;
    var i := 0;
    while i != p.line
      invariant 0 <= i <= p.line && startOfLine <= |code|
      invariant LineBegin(code, i) == Some(startOfLine)
      decreases p.line - i
    {
      var newline := FindNewline(code, startOfLine);
      if newline == None {
        NoLineAfter(code, i + 1, p.line);
        return Err(LineOutOfRange);
      }
      startOfLine := newline.value + 1;
      i := i + 1;
    }
    var newline := FindNewline(code, startOfLine);
    var end := if newline == None then |code| else newline.value;
    if startOfLine + p.character > end && !allowBeyond {
      return Err(CharacterOutOfRange);
    }
    return Ok(if end < startOfLine + p.character then end else startOfLine + p.character);
  }

  lemma {:induction false} NoLineAfter(code: seq<Byte>, line: nat, later: nat)
    requires LineBegin(code, line) == None && line <= later
    ensures LineBegin(code, later) == None
  {
    if line < later {
      NoLineAfter(code, line, later - 1);
    }
  }

  /** count and rfind of newlines in the text before the offset. */
  function OffsetToPosition(code: seq<Byte>, offset: nat): Position {
    var o := if |code| < offset then |code| else offset;
    Position(Newlines(code, o), o - LineStart(code, o))
  }

  /** Positions begin at line 0 and column 0; each byte is one column on, and a newline
      goes to the beginning of the next line. Offsets beyond the text mean its end. */
  lemma PositionAdvances(code: seq<Byte>, offset: nat)
    ensures OffsetToPosition(code, 0) == Position(0, 0)
    ensures var here, next := OffsetToPosition(code, offset), OffsetToPosition(code, offset + 1);
            next == if offset >= |code| then here
                    else if code[offset] as char == '\n' then Position(here.line + 1, 0)
                    else Position(here.line, here.character + 1)
  {
  }

  // ---------- The conversions are inverse ----------

  lemma {:induction false} SameLine(code: seq<Byte>, start: nat, o: nat)
    requires start <= o <= |code| && forall k :: start <= k < o ==> code[k] != NEWLINE
    ensures Newlines(code, o) == Newlines(code, start) && LineStart(code, o) == LineStart(code, start)
  {
    if start < o {
      SameLine(code, start, o - 1);
    }
  }

  lemma FindsTheNext(code: seq<Byte>, i: nat, newline: nat)
    requires i <= newline < |code| && code[newline] == NEWLINE
    requires forall k :: i <= k < newline ==> code[k] != NEWLINE
    ensures FindNewline(code, i) == Some(newline)
  {
  }

  /** The line of an offset begins where LineBegin says. */
  lemma {:induction false} LineOfOffset(code: seq<Byte>, o: nat)
    requires o <= |code|
    ensures LineBegin(code, Newlines(code, o)) == Some(LineStart(code, o))
    ensures o <= LineEnd(code, LineStart(code, o))
  {
    var start := LineStart(code, o);
    LineStartIsAfterNewline(code, o);
    SameLine(code, start, o);
    if start == 0 {
      assert Newlines(code, 0) == 0;
    } else {
      var before := LineStart(code, start - 1);
      LineOfOffset(code, start - 1);
      LineStartIsAfterNewline(code, start - 1);
      FindsTheNext(code, before, start - 1);
      assert Newlines(code, start) == Newlines(code, start - 1) + 1;
    }
  }

  lemma {:induction false} OffsetOfLine(code: seq<Byte>, line: nat)
    requires LineBegin(code, line).Some?
    ensures var start := LineBegin(code, line).value;
            Newlines(code, start) == line && LineStart(code, start) == start
  {
    if line > 0 {
      OffsetOfLine(code, line - 1);
      var before := LineBegin(code, line - 1).value;
      SameLine(code, before, LineBegin(code, line).value - 1);
    }
  }

  /** Every offset is found again from its position. */
  lemma PositionThenOffset(code: seq<Byte>, offset: nat, allowBeyond: bool)
    requires offset <= |code|
    ensures PositionToOffset(code, OffsetToPosition(code, offset), allowBeyond) == Ok(offset)
  {
    LineOfOffset(code, offset);
  }

  /** Every position that is accepted strictly is found again from its offset. */
  lemma OffsetThenPosition(code: seq<Byte>, p: Position)
    requires PositionToOffset(code, p, false).Ok?
    ensures OffsetToPosition(code, PositionToOffset(code, p, false).value) == p
  {
    var start := LineBegin(code, p.line).value;
    OffsetOfLine(code, p.line);
    SameLine(code, start, start + p.character);
  }

  /** A position is accepted strictly exactly when it is that of an offset. */
  lemma StrictlyValidExactly(code: seq<Byte>, p: Position)
    ensures PositionToOffset(code, p, false).Ok? <==> exists o: nat :: o <= |code| && OffsetToPosition(code, o) == p
  {
    if PositionToOffset(code, p, false).Ok? {
      OffsetThenPosition(code, p);
      assert OffsetToPosition(code, PositionToOffset(code, p, false).value) == p;
    }
    if o: nat :| o <= |code| && OffsetToPosition(code, o) == p {
      PositionThenOffset(code, o, false);
    }
  }

  /** Columns beyond the end of a line, where they are allowed, mean its end. */
  lemma BeyondMeansLineEnd(code: seq<Byte>, p: Position)
    requires p.character >= 0
    ensures PositionToOffset(code, p, true).Ok? <==> PositionToOffset(code, Position(p.line, 0), false).Ok?
    ensures PositionToOffset(code, p, true).Ok? ==>
              var o := PositionToOffset(code, p, true).value;
              && (PositionToOffset(code, p, false) == Ok(o)
                  || (OffsetToPosition(code, o).line == p.line && OffsetToPosition(code, o).character < p.character
                      && (o == |code| || code[o] == NEWLINE)))
  {
    if PositionToOffset(code, p, true).Ok? && PositionToOffset(code, p, false).Err? {
      var start := LineBegin(code, p.line).value;
      OffsetOfLine(code, p.line);
      SameLine(code, start, LineEnd(code, start));
    }
  }

  // ---------- Texts that begin alike ----------

  lemma {:induction false} SamePrefixSameLines(a: seq<Byte>, b: seq<Byte>, o: nat)
    requires o <= |a| && o <= |b| && forall k :: 0 <= k < o ==> a[k] == b[k]
    ensures Newlines(a, o) == Newlines(b, o) && LineStart(a, o) == LineStart(b, o)
  {
    if o > 0 {
      SamePrefixSameLines(a, b, o - 1);
    }
  }

  /** A position keeps its offset when the text before it stays. */
  lemma PositionSurvives(a: seq<Byte>, b: seq<Byte>, p: Position)
    requires PositionToOffset(a, p, false).Ok?
    requires var o := PositionToOffset(a, p, false).value; o <= |b| && forall k :: 0 <= k < o ==> a[k] == b[k]
    ensures PositionToOffset(b, p, false) == PositionToOffset(a, p, false)
  {
    var o := PositionToOffset(a, p, false).value;
    OffsetThenPosition(a, p);
    SamePrefixSameLines(a, b, o);
    PositionThenOffset(b, o, false);
  }
}
