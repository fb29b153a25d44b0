/** Drafts of open documents, updated by lists of edits. */
module DraftStore {
  import opened Bytes
  import opened Options
  import opened SourceCode

  datatype Range = Range(start: Position, end: Position)

  /** TextDocumentContentChangeEvent: without a range the text replaces everything. */
  datatype Change = Change(range: Option<Range>, rangeLength: Option<int>, text: seq<Byte>)

  datatype EditError =
    | NotAdded
    | BadPosition(error: PositionError)
    | EndBeforeStart
    | WrongRangeLength

  type Outcome = Result<seq<Byte>, EditError>

  function ApplyChange(contents: seq<Byte>, change: Change): Outcome {
    match change.range
    case None => Ok(change.text)
    case Some(range) =>
      match PositionToOffset(contents, range.start, false)
      case Err(e) => Err(BadPosition(e))
      case Ok(start) =>
        match PositionToOffset(contents, range.end, false)
        case Err(e) => Err(BadPosition(e))
        case Ok(end) =>
          if end < start then Err(EndBeforeStart)
          else if change.rangeLength.Some? && end - start != change.rangeLength.value then Err(WrongRangeLength)
          else Ok(contents[..start] + change.text + contents[end..])
  }

  /** Each change applies to what the ones before it left. */
  function ApplyChanges(contents: seq<Byte>, changes: seq<Change>): Outcome
    decreases |changes|
  {
    if changes == [] then Ok(contents)
    else
      match ApplyChange(contents, changes[0])
      case Err(e) => Err(e)
      case Ok(next) => ApplyChanges(next, changes[1..])
  }

  // ---------- What an edit means ----------

  lemma OneChange(contents: seq<Byte>, change: Change)
    ensures ApplyChanges(contents, [change]) == ApplyChange(contents, change)
  {
    assert [change][1..] == [];
  }

  /** An edit puts its text between two positions: outside them the contents stay. */
  lemma EditMeaning(contents: seq<Byte>, change: Change, start: nat, end: nat)
    requires change.range.Some? && start <= |contents| && end <= |contents|
    requires change.range.value == Range(OffsetToPosition(contents, start), OffsetToPosition(contents, end))
    ensures ApplyChanges(contents, [change]).Ok? <==>
              start <= end && (change.rangeLength == None || change.rangeLength == Some(end - start))
    ensures ApplyChanges(contents, [change]).Ok? ==>
              ApplyChanges(contents, [change]) == Ok(contents[..start] + change.text + contents[end..])
  {
    OneChange(contents, change);
    PositionThenOffset(contents, start, false);
    PositionThenOffset(contents, end, false);
  }

  /** The text takes the place of a stretch. */
  predicate Spliced(contents: seq<Byte>, start: nat, end: nat, text: seq<Byte>, after: seq<Byte>) {
    start <= end <= |contents| && after == contents[..start] + text + contents[end..]
  }

  /** The range runs from one offset to another, its length, if given, is right, and the
      text takes the place of that stretch. */
  predicate Replaces(contents: seq<Byte>, change: Change, start: nat, end: nat, after: seq<Byte>) {
    && Spliced(contents, start, end, change.text, after)
    && change.range == Some(Range(OffsetToPosition(contents, start), OffsetToPosition(contents, end)))
    && (change.rangeLength == None || change.rangeLength == Some(end - start))
  }

  lemma AcceptedReplaces(contents: seq<Byte>, change: Change) returns (start: nat, end: nat)
    requires change.range.Some? && ApplyChange(contents, change).Ok?
    ensures Replaces(contents, change, start, end, ApplyChange(contents, change).value)
  {
    var range := change.range.value;
    OffsetThenPosition(contents, range.start);
    OffsetThenPosition(contents, range.end);
    start := PositionToOffset(contents, range.start, false).value;
    end := PositionToOffset(contents, range.end, false).value;
  }

  /** An edit with a range is accepted exactly when that covers a stretch of the contents,
      and its text then takes the place of the stretch. */
  lemma EditExactly(contents: seq<Byte>, change: Change, after: seq<Byte>)
    requires change.range.Some?
    ensures ApplyChanges(contents, [change]) == Ok(after) <==>
            exists start: nat, end: nat :: Replaces(contents, change, start, end, after)
  {
    OneChange(contents, change);
    if ApplyChange(contents, change).Ok? {
      var start, end := AcceptedReplaces(contents, change);
    }
    if start: nat, end: nat :| Replaces(contents, change, start, end, after) {
      EditMeaning(contents, change, start, end);
    }
  }

  /** A change without a range puts its text in place of all contents: what they were, and
      which accepted changes came before, makes no difference. */
  lemma FullTextReplaces(contents: seq<Byte>, first: seq<Change>, length: Option<int>, text: seq<Byte>, second: seq<Change>)
    requires ApplyChanges(contents, first).Ok?
    ensures ApplyChanges(contents, first + ([Change(None, length, text)] + second)) == ApplyChanges(text, second)
  {
    var change := Change(None, length, text);
    ApplyInTwoParts(contents, first, [change] + second);
    assert ([change] + second)[1..] == second;
  }

  lemma SplitLast<T>(s: seq<T>)
    requires s != []
    ensures s == s[..|s| - 1] + [s[|s| - 1]]
  {
  }

  /** When the last change has no range, its text is what an accepted list leaves. */
  lemma LastFullText(contents: seq<Byte>, changes: seq<Change>)
    requires changes != [] && changes[|changes| - 1].range == None && ApplyChanges(contents, changes).Ok?
    ensures ApplyChanges(contents, changes).value == changes[|changes| - 1].text
  {
    var before, last := changes[..|changes| - 1], changes[|changes| - 1];
    SplitLast(changes);
    ApplyInTwoParts(contents, before, [last]);
    OneChange(ApplyChanges(contents, before).value, last);
  }

  // ---------- Undo ----------

  /** The edit that takes an accepted one back: from the same start to the end of the
      inserted text, putting the replaced text there. */
  function Undo(contents: seq<Byte>, change: Change): Change
    requires ApplyChange(contents, change).Ok?
  {
    match change.range
    case None => Change(None, None, contents)
    case Some(range) =>
      var start := PositionToOffset(contents, range.start, false).value;
      var end := PositionToOffset(contents, range.end, false).value;
      var after := ApplyChange(contents, change).value;
      Change(Some(Range(range.start, OffsetToPosition(after, start + |change.text|))), Some(|change.text|), contents[start..end])
  }

  lemma ApplyBetween(contents: seq<Byte>, change: Change, start: nat, end: nat, result: seq<Byte>)
    requires change.range.Some? && start <= end <= |contents|
    requires contents[..start] + change.text + contents[end..] == result
    requires PositionToOffset(contents, change.range.value.start, false) == Ok(start)
    requires PositionToOffset(contents, change.range.value.end, false) == Ok(end)
    requires change.rangeLength == None || change.rangeLength == Some(end - start)
    ensures ApplyChange(contents, change) == Ok(result)
  {
  }

  /** Text put between two offsets, and the replaced text put back. */
  lemma SpliceBack(contents: seq<Byte>, start: nat, end: nat, text: seq<Byte>, after: seq<Byte>, replaced: seq<Byte>)
    requires Spliced(contents, start, end, text, after) && replaced == contents[start..end]
    ensures start + |text| <= |after| && forall k :: 0 <= k < start ==> after[k] == contents[k]
    ensures after[..start] + replaced + after[start + |text|..] == contents
  {
    assert after[start + |text|..] == contents[end..];
  }

  lemma StartSurvives(contents: seq<Byte>, from: Position, start: nat, end: nat, text: seq<Byte>, after: seq<Byte>)
    requires PositionToOffset(contents, from, false) == Ok(start)
    requires Spliced(contents, start, end, text, after)
    ensures PositionToOffset(after, from, false) == Ok(start)
  {
    SpliceBack(contents, start, end, text, after, contents[start..end]);
    PositionSurvives(contents, after, from);
  }

  /** The undo of an edit between two offsets. */
  lemma UndoIsBetween(contents: seq<Byte>, change: Change) returns (start: nat, end: nat, stop: Position)
    requires change.range.Some? && ApplyChange(contents, change).Ok?
    ensures PositionToOffset(contents, change.range.value.start, false) == Ok(start)
    ensures Spliced(contents, start, end, change.text, ApplyChange(contents, change).value)
    ensures stop == OffsetToPosition(ApplyChange(contents, change).value, start + |change.text|)
    ensures Undo(contents, change) == Change(Some(Range(change.range.value.start, stop)), Some(|change.text|), contents[start..end])
  {
    start := PositionToOffset(contents, change.range.value.start, false).value;
    end := PositionToOffset(contents, change.range.value.end, false).value;
    stop := OffsetToPosition(ApplyChange(contents, change).value, start + |change.text|);
  }

  /** Replacing the inserted text by the replaced one. */
  lemma PutBack(after: seq<Byte>, undo: Change, start: nat, stop: nat, contents: seq<Byte>)
    requires start <= stop <= |after| && after[..start] + undo.text + after[stop..] == contents
    requires undo.range.Some? && undo.rangeLength == Some(stop - start)
    requires PositionToOffset(after, undo.range.value.start, false) == Ok(start)
    requires undo.range.value.end == OffsetToPosition(after, stop)
    ensures ApplyChange(after, undo) == Ok(contents)
  {
    PositionThenOffset(after, stop, false);
    ApplyBetween(after, undo, start, stop, contents);
  }

  /** Taking a splice back. */
  lemma SpliceUndone(contents: seq<Byte>, from: Position, start: nat, end: nat, text: seq<Byte>, after: seq<Byte>, undo: Change)
    requires PositionToOffset(contents, from, false) == Ok(start) && Spliced(contents, start, end, text, after)
    requires undo == Change(Some(Range(from, OffsetToPosition(after, start + |text|))), Some(|text|), contents[start..end])
    ensures ApplyChange(after, undo) == Ok(contents)
  {
    SpliceBack(contents, start, end, text, after, undo.text);
    StartSurvives(contents, from, start, end, text, after);
    PutBack(after, undo, start, start + |text|, contents);
  }

  /** An accepted edit can be undone. */
  lemma UndoRestores(contents: seq<Byte>, change: Change)
    requires ApplyChange(contents, change).Ok?
    ensures ApplyChange(ApplyChange(contents, change).value, Undo(contents, change)) == Ok(contents)
  {
    if change.range.Some? {
      var start, end, stop := UndoIsBetween(contents, change);
      SpliceUndone(contents, change.range.value.start, start, end, change.text, ApplyChange(contents, change).value,
                   Undo(contents, change));
    }
  }

  /** The undo of a list: the undo of the last change comes first. */
  function UndoAll(contents: seq<Byte>, changes: seq<Change>): seq<Change>
    requires ApplyChanges(contents, changes).Ok?
    decreases |changes|
  {
    if changes == [] then []
    else UndoAll(ApplyChange(contents, changes[0]).value, changes[1..]) + [Undo(contents, changes[0])]
  }

  lemma {:induction false} ApplyInTwoParts(contents: seq<Byte>, first: seq<Change>, second: seq<Change>)
    ensures ApplyChanges(contents, first + second) ==
            match ApplyChanges(contents, first)
            case Err(e) => Err(e)
            case Ok(next) => ApplyChanges(next, second)
    decreases |first|
  {
    if first == [] {
      assert first + second == second;
    } else {
      assert (first + second)[1..] == first[1..] + second;
      if ApplyChange(contents, first[0]).Ok? {
        ApplyInTwoParts(ApplyChange(contents, first[0]).value, first[1..], second);
      }
    }
  }

  /** Main result: an accepted list of changes can be undone by one more list. */
  lemma {:induction false} UndoAllRestores(contents: seq<Byte>, changes: seq<Change>)
    requires ApplyChanges(contents, changes).Ok?
    ensures ApplyChanges(ApplyChanges(contents, changes).value, UndoAll(contents, changes)) == Ok(contents)
    decreases |changes|
  {
    if changes != [] {
      var next := ApplyChange(contents, changes[0]).value;
      UndoAllRestores(next, changes[1..]);
      UndoRestores(contents, changes[0]);
      var last := [Undo(contents, changes[0])];
      assert last[1..] == [];
      ApplyInTwoParts(ApplyChanges(contents, changes).value, UndoAll(next, changes[1..]), last);
    }
  }

  // ---------- The store ----------

  type Path = seq<Byte>

  class DraftStore {
    var drafts: map<Path, seq<Byte>>

    constructor ()
      ensures drafts == map[]
    {
      drafts := map[];
    }

    method GetDraft(file: Path) returns (contents: Option<seq<Byte>>)
      ensures contents == if file in drafts then Some(drafts[file]) else None
    {
      if file !in drafts {
        return None;
      }
      return Some(drafts[file]);
    }

    method AddDraft(file: Path, contents: seq<Byte>)
      modifies this
      ensures drafts == old(drafts)[file := contents]
    {
      drafts := drafts[file := contents];
    }

    method RemoveDraft(file: Path)
      modifies this
      ensures drafts == old(drafts) - {file}
    {
      drafts := drafts - {file};
    }

    /** All changes or none. */
    method UpdateDraft(file: Path, changes: seq<Change>) returns (r: Outcome)
      modifies this
      ensures r == if file in old(drafts) then ApplyChanges(old(drafts)[file], changes) else Err(NotAdded)
      ensures r.Err? ==> drafts == old(drafts)
      ensures r.Ok? ==> drafts == old(drafts)[file := r.value]
      ensures r.Ok? && changes != [] && changes[|changes| - 1].range == None ==> r.value == changes[|changes| - 1].text
    {
      if file !in drafts {
        return Err(NotAdded);
      }
      var contents := drafts[file];
      var i := 0;
      while i < |changes|
        invariant i <= |changes| && drafts == old(drafts)
        invariant ApplyChanges(contents, changes[i..]) == ApplyChanges(old(drafts)[file], changes)
      {
        var change := changes[i];
        assert changes[i..][1..] == changes[i + 1..];
        i := i + 1;
        if change.range == None {
          contents := change.text;
          continue;
        }
        var start := ComputeOffset(contents, change.range.value.start, false);
        if start.Err? {
          return Err(BadPosition(start.error));
        }
        var end := ComputeOffset(contents, change.range.value.end, false);
        if end.Err? {
          return Err(BadPosition(end.error));
        }
        if end.value < start.value {
          return Err(EndBeforeStart);
        }
        if change.rangeLength.Some? && end.value - start.value != change.rangeLength.value {
          return Err(WrongRangeLength);
        }
        contents := contents[..start.value] + change.text + contents[end.value..];
      }
      if changes != [] && changes[|changes| - 1].range == None {
        LastFullText(drafts[file], changes);
      }
      drafts := drafts[file := contents];
      return Ok(contents);
    }
  }
}
