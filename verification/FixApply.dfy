/**
 Applying edits to a file one after another, each shifted by the earlier ones to
 its left, and the text that results from edits that do not get in each other's way.
 */
module FixApply {
  import opened FixIntervals
  import opened Sequences

  predicate Apart(a: Replacement, b: Replacement) {
    a.offset + a.length <= b.offset || b.offset + b.length <= a.offset
  }

  predicate CoversAt(r: Replacement, i: nat) {
    r.offset <= i < r.offset + r.length
  }

  /** Strictly between the ends of its stretch. */
  predicate Encloses(r: Replacement, i: nat) {
    r.offset < i < r.offset + r.length
  }

  predicate InsertionAt(r: Replacement, i: nat) {
    r.length == 0 && r.offset == i
  }

  /** What can be seen of two edits without making them: no insertion falls inside the
      other's stretch, next to it is allowed, and the texts of two at one offset read the
      same either way round. */
  predicate InsertionsCommute(a: Replacement, b: Replacement) {
    && (a.length == 0 < b.length ==> a.text == "" || !Encloses(b, a.offset))
    && (b.length == 0 < a.length ==> b.text == "" || !Encloses(a, b.offset))
    && (a.length == 0 && InsertionAt(b, a.offset) ==> a.text + b.text == b.text + a.text)
  }

  predicate Commute(a: Replacement, b: Replacement) {
    InsertionsCommute(a, b) && (a.length > 0 && b.length > 0 ==> Apart(a, b))
  }

  predicate Fits(rs: seq<Replacement>, length: nat) {
    forall r :: r in rs ==> r.offset + r.length <= length
  }

  predicate PairsCommute(rs: seq<Replacement>) {
    forall j, k :: 0 <= j < k < |rs| ==> Commute(rs[j], rs[k])
  }

  /** Edits of one text that do not get in each other's way. */
  predicate Applicable(text: string, rs: seq<Replacement>) {
    Fits(rs, |text|) && PairsCommute(rs)
  }

  /** How far the edits already made have moved the text at offset `at`: each whose
      stretch ends there or before. */
  function Shift(made: seq<Replacement>, at: nat): int {
    if made == [] then 0
    else
      var r := made[|made| - 1];
      Shift(made[..|made| - 1], at) + if r.offset + r.length <= at then |r.text| - r.length else 0
  }

  function Splice(text: string, at: int, length: nat, insert: string): string {
    if 0 <= at && at + length <= |text| then text[..at] + insert + text[at + length..] else text
  }

  function ApplyInOrder(text: string, rs: seq<Replacement>): string {
    if rs == [] then text
    else
      var made, r := rs[..|rs| - 1], rs[|rs| - 1];
      Splice(ApplyInOrder(text, made), r.offset + Shift(made, r.offset), r.length, r.text)
  }

  lemma ApplyOneMore(text: string, made: seq<Replacement>, r: Replacement)
    ensures ApplyInOrder(text, made + [r]) ==
            Splice(ApplyInOrder(text, made), r.offset + Shift(made, r.offset), r.length, r.text)
  {
    assert (made + [r])[..|made|] == made;
  }

  lemma {:induction false} ShiftAppend(made: seq<Replacement>, more: seq<Replacement>, at: nat)
    ensures Shift(made + more, at) == Shift(made, at) + Shift(more, at)
  {
    if more == [] {
      assert made + more == made;
    } else {
      var n := |more| - 1;
      assert (made + more)[..|made| + n] == made + more[..n];
      ShiftAppend(made, more[..n], at);
    }
  }

  lemma ShiftOneMore(made: seq<Replacement>, r: Replacement, at: nat)
    ensures Shift(made + [r], at) == Shift(made, at) + if r.offset + r.length <= at then |r.text| - r.length else 0
  {
    assert (made + [r])[..|made|] == made;
  }

  lemma ApplyTwoMore(text: string, made: seq<Replacement>, a: Replacement, b: Replacement, first: int, second: int)
    requires first == a.offset + Shift(made, a.offset)
    requires second == b.offset + Shift(made, b.offset) + if a.offset + a.length <= b.offset then |a.text| - a.length else 0
    ensures ApplyInOrder(text, made + [a] + [b]) ==
            Splice(Splice(ApplyInOrder(text, made), first, a.length, a.text), second, b.length, b.text)
  {
    var one, made1 := ApplyInOrder(text, made + [a]), made + [a];
    assert one == Splice(ApplyInOrder(text, made), first, a.length, a.text) by {
      ApplyOneMore(text, made, a);
    }
    assert b.offset + Shift(made1, b.offset) == second by {
      ShiftOneMore(made, a, b.offset);
    }
    assert ApplyInOrder(text, made1 + [b]) == Splice(one, second, b.length, b.text) by {
      ApplyOneMore(text, made1, b);
    }
  }

  // ---------- The result position by position ----------

  /** What is inserted before position `i`. */
  function Inserted(rs: seq<Replacement>, i: nat): string {
    if rs == [] then ""
    else
      var r := rs[|rs| - 1];
      Inserted(rs[..|rs| - 1], i) + InsertedBy(r, i)
  }

  function InsertedBy(r: Replacement, i: nat): string {
    if InsertionAt(r, i) then r.text else ""
  }

  /** What becomes of the character at `i`; the end of the text has none. */
  function Core(text: string, rs: seq<Replacement>, i: nat): string
    requires i <= |text|
  {
    if rs == [] then if i < |text| then [text[i]] else ""
    else
      var r := rs[|rs| - 1];
      if CoversAt(r, i) then if i == r.offset then r.text else ""
      else Core(text, rs[..|rs| - 1], i)
  }

  function Piece(text: string, rs: seq<Replacement>, i: nat): string
    requires i <= |text|
  {
    Inserted(rs, i) + Core(text, rs, i)
  }

  /** The pieces of the positions from `a` up to `b`, the end of the text being one. */
  function Render(text: string, rs: seq<Replacement>, a: nat, b: nat): string
    requires a <= b <= |text| + 1
  {
    if a == b then "" else Render(text, rs, a, b - 1) + Piece(text, rs, b - 1)
  }

  lemma {:induction false} RenderSplit(text: string, rs: seq<Replacement>, a: nat, b: nat, c: nat)
    requires a <= b <= c <= |text| + 1
    ensures Render(text, rs, a, c) == Render(text, rs, a, b) + Render(text, rs, b, c)
  {
    if b < c {
      RenderSplit(text, rs, a, b, c - 1);
    }
  }

  /** The first position after those that an edit changes. */
  function Reach(r: Replacement): nat {
    if r.length == 0 then r.offset + 1 else r.offset + r.length
  }

  /** Away from the last edit it makes no difference. */
  lemma {:induction false} RenderOutside(text: string, rs: seq<Replacement>, r: Replacement, a: nat, b: nat)
    requires a <= b <= |text| + 1 && (b <= r.offset || Reach(r) <= a)
    ensures Render(text, rs + [r], a, b) == Render(text, rs, a, b)
  {
    if a < b {
      RenderOutside(text, rs, r, a, b - 1);
      assert (rs + [r])[..|rs|] == rs;
    }
  }

  predicate NothingInserted(rs: seq<Replacement>, i: nat) {
    forall r :: r in rs && InsertionAt(r, i) ==> r.text == ""
  }

  lemma {:induction false} InsertedNothing(rs: seq<Replacement>, i: nat)
    requires NothingInserted(rs, i)
    ensures Inserted(rs, i) == ""
  {
    if rs != [] {
      assert rs[|rs| - 1] in rs;
      InsertedNothing(rs[..|rs| - 1], i);
    }
  }

  lemma PieceAtStart(text: string, rs: seq<Replacement>, r: Replacement)
    requires 0 < r.length && r.offset <= |text|
    ensures Piece(text, rs + [r], r.offset) == Inserted(rs, r.offset) + r.text
  {
    assert (rs + [r])[..|rs|] == rs;
  }

  lemma PieceInside(text: string, rs: seq<Replacement>, r: Replacement, i: nat)
    requires Encloses(r, i) && i <= |text| && NothingInserted(rs, i)
    ensures Piece(text, rs + [r], i) == ""
  {
    assert (rs + [r])[..|rs|] == rs;
    InsertedNothing(rs, i);
  }

  lemma {:induction false} RenderEmptyPieces(text: string, rs: seq<Replacement>, a: nat, b: nat)
    requires a <= b <= |text| + 1 && forall i :: a <= i < b ==> Piece(text, rs, i) == ""
    ensures Render(text, rs, a, b) == ""
  {
    if a < b {
      RenderEmptyPieces(text, rs, a, b - 1);
    }
  }

  lemma InsideOfUntouched(rs: seq<Replacement>, r: Replacement, i: nat)
    requires Untouched(rs, r) && r.offset < i < r.offset + r.length
    ensures Encloses(r, i) && NothingInserted(rs, i)
  {
    assert CoversAt(r, i);
  }

  lemma RenderInside(text: string, rs: seq<Replacement>, r: Replacement, b: nat)
    requires r.offset < b <= r.offset + r.length <= |text|
    requires Untouched(rs, r)
    ensures Render(text, rs + [r], r.offset, b) == Inserted(rs, r.offset) + r.text
  {
    var all, start := rs + [r], r.offset;
    forall i | start + 1 <= i < b
      ensures Piece(text, all, i) == ""
    {
      InsideOfUntouched(rs, r, i);
      PieceInside(text, rs, r, i);
    }
    RenderEmptyPieces(text, all, start + 1, b);
    RenderOne(text, all, start);
    PieceAtStart(text, rs, r);
    RenderSplit(text, all, start, start + 1, b);
  }

  predicate Uncovered(rs: seq<Replacement>, i: nat) {
    forall r :: r in rs ==> !CoversAt(r, i)
  }

  lemma {:induction false} CoreUncovered(text: string, rs: seq<Replacement>, i: nat)
    requires i <= |text| && Uncovered(rs, i)
    ensures Core(text, rs, i) == if i < |text| then [text[i]] else ""
  {
    if rs != [] {
      assert rs[|rs| - 1] in rs;
      CoreUncovered(text, rs[..|rs| - 1], i);
    }
  }

  /** A stretch still to be replaced is as it was, but for what is inserted before it. */
  ghost predicate Untouched(rs: seq<Replacement>, r: Replacement) {
    forall i :: CoversAt(r, i) ==> Uncovered(rs, i) && (i != r.offset ==> NothingInserted(rs, i))
  }

  /** The rendered text is what is in the text from `a` on. */
  predicate ReadsAt(text: string, a: nat, rendered: string) {
    a + |rendered| <= |text| && forall i :: 0 <= i < |rendered| ==> rendered[i] == text[a + i]
  }

  lemma PieceUntouched(text: string, rs: seq<Replacement>, i: nat)
    requires i < |text| && Uncovered(rs, i)
    ensures Piece(text, rs, i) == Inserted(rs, i) + [text[i]]
    ensures NothingInserted(rs, i) ==> Piece(text, rs, i) == [text[i]]
  {
    CoreUncovered(text, rs, i);
    if NothingInserted(rs, i) {
      InsertedNothing(rs, i);
    }
  }

  lemma {:induction false} RenderUntouched(text: string, rs: seq<Replacement>, r: Replacement, b: nat) returns (stretch: string)
    requires r.offset < b <= r.offset + r.length <= |text| && Untouched(rs, r)
    ensures Render(text, rs, r.offset, b) == Inserted(rs, r.offset) + stretch
    ensures |stretch| == b - r.offset && ReadsAt(text, r.offset, stretch)
  {
    assert CoversAt(r, b - 1);
    PieceUntouched(text, rs, b - 1);
    if b == r.offset + 1 {
      RenderOne(text, rs, r.offset);
      stretch := [text[r.offset]];
    } else {
      var before := RenderUntouched(text, rs, r, b - 1);
      ReadsOneMore(text, r.offset, before);
      stretch := before + [text[b - 1]];
      Assoc(Inserted(rs, r.offset), before, [text[b - 1]]);
    }
  }

  lemma {:induction false} RenderOfNothing(text: string, at: nat)
    requires at <= |text|
    ensures |Render(text, [], 0, at)| == at && ReadsAt(text, 0, Render(text, [], 0, at))
  {
    if at > 0 {
      var before := Render(text, [], 0, at - 1);
      RenderOfNothing(text, at - 1);
      assert Piece(text, [], at - 1) == [text[at - 1]];
      ReadsOneMore(text, 0, before);
    }
  }

  lemma ReadsOneMore(text: string, a: nat, rendered: string)
    requires ReadsAt(text, a, rendered) && a + |rendered| < |text|
    ensures ReadsAt(text, a, rendered + [text[a + |rendered|]])
  {
  }

  lemma StretchIsFree(made: seq<Replacement>, r: Replacement)
    requires forall m :: m in made ==> Commute(m, r)
    ensures r.length > 0 ==> Untouched(made, r)
  {
    if r.length > 0 {
      forall i | CoversAt(r, i)
        ensures Uncovered(made, i) && (i != r.offset ==> NothingInserted(made, i))
      {
      }
    }
  }

  lemma NoneStraddles(made: seq<Replacement>, r: Replacement)
    requires (forall m :: m in made ==> Commute(m, r)) && (r.length > 0 || r.text != "")
    ensures NotStraddled(made, r.offset)
  {
    forall m | m in made
      ensures m.offset >= r.offset || m.offset + m.length <= r.offset
    {
      assert Commute(m, r);
    }
  }

  lemma LastCommutes(made: seq<Replacement>, r: Replacement)
    requires PairsCommute(made + [r])
    ensures PairsCommute(made) && forall m :: m in made ==> Commute(m, r)
  {
    var rs := made + [r];
    assert forall k :: 0 <= k < |made| ==> made[k] == rs[k];
    assert rs[|made|] == r;
  }

  /** What comes before an edit at `at`: insertions at the same place included. */
  function Before(text: string, rs: seq<Replacement>, at: nat): string
    requires at <= |text|
  {
    Render(text, rs, 0, at) + Inserted(rs, at)
  }

  /** Making one more replacement replaces its stretch of the rendered text. */
  lemma RenderReplacement(text: string, made: seq<Replacement>, r: Replacement, b: nat) returns (left: string, stretch: string, right: string)
    requires forall m :: m in made ==> Commute(m, r)
    requires 0 < r.length && r.offset + r.length <= b <= |text| + 1 && r.offset + r.length <= |text|
    ensures Render(text, made, 0, b) == left + stretch + right
    ensures Render(text, made + [r], 0, b) == left + r.text + right
    ensures left == Before(text, made, r.offset)
    ensures |stretch| == r.length && ReadsAt(text, r.offset, stretch)
  {
    StretchIsFree(made, r);
    left, stretch, right := RenderBefore(text, made, r, b);
    RenderUpTo(text, made, r);
    RenderAfter(text, made, r, b);
  }

  lemma RenderBefore(text: string, made: seq<Replacement>, r: Replacement, b: nat) returns (left: string, stretch: string, right: string)
    requires 0 < r.length && r.offset + r.length <= b <= |text| + 1 && r.offset + r.length <= |text|
    requires Untouched(made, r)
    ensures Render(text, made, 0, b) == left + stretch + right
    ensures left == Before(text, made, r.offset) && right == Render(text, made, r.offset + r.length, b)
    ensures |stretch| == r.length && ReadsAt(text, r.offset, stretch)
  {
    var o, e := r.offset, r.offset + r.length;
    var start, insert := Render(text, made, 0, o), Inserted(made, o);
    left, right := Before(text, made, o), Render(text, made, e, b);
    stretch := RenderUntouched(text, made, r, e);
    calc {
      Render(text, made, 0, b);
    == { RenderSplit(text, made, 0, e, b); }
      Render(text, made, 0, e) + right;
    == { RenderSplit(text, made, 0, o, e); }
      start + (insert + stretch) + right;
    == { Assoc(start, insert, stretch); }
      left + stretch + right;
    }
  }

  lemma RenderAfter(text: string, made: seq<Replacement>, r: Replacement, b: nat)
    requires 0 < r.length && r.offset + r.length <= b <= |text| + 1
    ensures Render(text, made + [r], 0, b) ==
            Render(text, made + [r], 0, r.offset + r.length) + Render(text, made, r.offset + r.length, b)
  {
    RenderSplit(text, made + [r], 0, r.offset + r.length, b);
    RenderOutside(text, made, r, r.offset + r.length, b);
  }

  lemma RenderUpTo(text: string, made: seq<Replacement>, r: Replacement)
    requires 0 < r.length && r.offset + r.length <= |text| && Untouched(made, r)
    ensures Render(text, made + [r], 0, r.offset + r.length) == Before(text, made, r.offset) + r.text
  {
    var rs, o, e := made + [r], r.offset, r.offset + r.length;
    var start, insert := Render(text, made, 0, o), Inserted(made, o);
    calc {
      Render(text, rs, 0, e);
    == { RenderSplit(text, rs, 0, o, e); RenderOutside(text, made, r, 0, o); }
      start + Render(text, rs, o, e);
    == { RenderInside(text, made, r, e); }
      start + (insert + r.text);
    == { Assoc(start, insert, r.text); }
      start + insert + r.text;
    }
  }

  /** Making one more insertion puts its text before its position, after what was
      inserted there already. */
  lemma RenderInsertion(text: string, made: seq<Replacement>, r: Replacement, b: nat) returns (left: string, right: string)
    requires r.length == 0 && r.offset < b <= |text| + 1
    ensures Render(text, made, 0, b) == left + right && left == Before(text, made, r.offset)
    ensures Render(text, made + [r], 0, b) == left + r.text + right
  {
    var rs, o := made + [r], r.offset;
    var core, more := Core(text, made, o), Render(text, made, o + 1, b);
    left, right := Before(text, made, o), core + more;
    calc {
      Render(text, made, 0, b);
    == { RenderSplit(text, made, 0, o + 1, b); }
      Render(text, made, 0, o) + Piece(text, made, o) + more;
    == { Around(Render(text, made, 0, o), Inserted(made, o), core, more); Assoc(Render(text, made, 0, o), Inserted(made, o), core); Assoc(left, core, more); }
      left + right;
    }
    calc {
      Render(text, rs, 0, b);
    == { RenderSplit(text, rs, 0, o + 1, b); RenderOutside(text, made, r, o + 1, b); }
      Render(text, rs, 0, o) + Piece(text, rs, o) + more;
    == { RenderOutside(text, made, r, 0, o); PieceInserted(text, made, r); }
      Render(text, made, 0, o) + (Inserted(made, o) + r.text + core) + more;
    == { InsertedMiddle(Render(text, made, 0, o), Inserted(made, o), r.text, core, more); }
      left + r.text + right;
    }
  }

  lemma InsertedMiddle(a: string, b: string, c: string, d: string, e: string)
    ensures a + (b + c + d) + e == (a + b) + c + (d + e)
  {
  }

  lemma PieceInserted(text: string, made: seq<Replacement>, r: Replacement)
    requires r.length == 0 && r.offset <= |text|
    ensures Piece(text, made + [r], r.offset) == Inserted(made, r.offset) + r.text + Core(text, made, r.offset)
  {
    assert (made + [r])[..|made|] == made;
  }

  lemma RenderOne(text: string, rs: seq<Replacement>, i: nat)
    requires i <= |text|
    ensures Render(text, rs, i, i + 1) == Piece(text, rs, i)
  {
    assert Render(text, rs, i, i) == "";
  }

  predicate NotStraddled(rs: seq<Replacement>, at: nat) {
    forall r :: r in rs ==> r.offset >= at || r.offset + r.length <= at
  }

  /** Everything before an untouched offset has moved by exactly Shift. */
  lemma {:induction false} RenderLength(text: string, rs: seq<Replacement>, at: nat)
    requires Applicable(text, rs) && at <= |text| && NotStraddled(rs, at)
    ensures |Before(text, rs, at)| == at + Shift(rs, at)
  {
    if rs == [] {
      RenderOfNothing(text, at);
    } else {
      var made, r := rs[..|rs| - 1], rs[|rs| - 1];
      assert rs == made + [r];
      LastCommutes(made, r);
      RenderLength(text, made, at);
      assert r in rs;
      LengthOneMore(text, made, r, at);
    }
  }

  lemma LengthOneMore(text: string, made: seq<Replacement>, r: Replacement, at: nat)
    requires at <= |text| && (r.offset >= at || r.offset + r.length <= at)
    requires forall m :: m in made ==> Commute(m, r)
    ensures |Before(text, made + [r], at)| == |Before(text, made, at)| + if r.offset + r.length <= at then |r.text| - r.length else 0
  {
    assert (made + [r])[..|made|] == made;
    if r.offset >= at {
      RenderOutside(text, made, r, 0, at);
    } else if r.length > 0 {
      var left, stretch, right := RenderReplacement(text, made, r, at);
    } else {
      var left, right := RenderInsertion(text, made, r, at);
    }
  }

  lemma RenderNoEdits(text: string)
    ensures Render(text, [], 0, |text| + 1) == text
  {
    RenderOfNothing(text, |text|);
    assert Piece(text, [], |text|) == "";
  }

  /** Edits that do not get in each other's way, made one after another, give the
      text with every piece replaced. */
  lemma {:induction false} ApplyIsRender(text: string, rs: seq<Replacement>)
    requires Applicable(text, rs)
    ensures ApplyInOrder(text, rs) == Render(text, rs, 0, |text| + 1)
  {
    if rs == [] {
      RenderNoEdits(text);
    } else {
      var made, r := rs[..|rs| - 1], rs[|rs| - 1];
      assert rs == made + [r] && r in rs;
      LastCommutes(made, r);
      ApplyIsRender(text, made);
      RenderOneMore(text, made, r);
    }
  }

  lemma RenderOneMore(text: string, made: seq<Replacement>, r: Replacement)
    requires Applicable(text, made) && (forall m :: m in made ==> Commute(m, r)) && r.offset + r.length <= |text|
    requires ApplyInOrder(text, made) == Render(text, made, 0, |text| + 1)
    ensures ApplyInOrder(text, made + [r]) == Render(text, made + [r], 0, |text| + 1)
  {
    if r.length > 0 {
      RenderReplaced(text, made, r);
    } else if r.text == "" {
      RenderNothing(text, made, r);
    } else {
      RenderInserted(text, made, r);
    }
  }

  lemma RenderReplaced(text: string, made: seq<Replacement>, r: Replacement)
    requires Applicable(text, made) && (forall m :: m in made ==> Commute(m, r))
    requires 0 < r.length && r.offset + r.length <= |text|
    requires ApplyInOrder(text, made) == Render(text, made, 0, |text| + 1)
    ensures ApplyInOrder(text, made + [r]) == Render(text, made + [r], 0, |text| + 1)
  {
    var left, stretch, right := StretchWithin(text, made, r);
    EditBetween(text, made, r, left, stretch, right);
  }

  /** A stretch that is still to be replaced, and what is around it. */
  lemma StretchWithin(text: string, made: seq<Replacement>, r: Replacement) returns (left: string, stretch: string, right: string)
    requires Applicable(text, made) && (forall m :: m in made ==> Commute(m, r))
    requires 0 < r.length && r.offset + r.length <= |text|
    ensures Render(text, made, 0, |text| + 1) == left + stretch + right
    ensures Render(text, made + [r], 0, |text| + 1) == left + r.text + right
    ensures |left| == r.offset + Shift(made, r.offset) && |stretch| == r.length && ReadsAt(text, r.offset, stretch)
  {
    left, stretch, right := RenderReplacement(text, made, r, |text| + 1);
    NoneStraddles(made, r);
    RenderLength(text, made, r.offset);
  }

  lemma RenderInserted(text: string, made: seq<Replacement>, r: Replacement)
    requires Applicable(text, made) && (forall m :: m in made ==> Commute(m, r))
    requires r.length == 0 && r.text != "" && r.offset <= |text|
    requires ApplyInOrder(text, made) == Render(text, made, 0, |text| + 1)
    ensures ApplyInOrder(text, made + [r]) == Render(text, made + [r], 0, |text| + 1)
  {
    var left, right := RenderInsertion(text, made, r, |text| + 1);
    NoneStraddles(made, r);
    RenderLength(text, made, r.offset);
    InsertBetween(text, made, r, left, right);
  }

  lemma RenderNothing(text: string, made: seq<Replacement>, r: Replacement)
    requires r.length == 0 && r.text == "" && r.offset <= |text|
    requires ApplyInOrder(text, made) == Render(text, made, 0, |text| + 1)
    ensures ApplyInOrder(text, made + [r]) == Render(text, made + [r], 0, |text| + 1)
  {
    var left, right := RenderInsertion(text, made, r, |text| + 1);
    InsertNothing(text, made, r);
    WithNothing(left, right);
  }

  /** One more edit, when the text around its stretch is known. */
  lemma EditBetween(text: string, made: seq<Replacement>, r: Replacement, left: string, middle: string, right: string)
    requires ApplyInOrder(text, made) == left + middle + right
    requires |left| == r.offset + Shift(made, r.offset) && |middle| == r.length
    ensures ApplyInOrder(text, made + [r]) == left + r.text + right
  {
    ApplyOneMore(text, made, r);
    IsSpliced(left + middle + right, left + r.text + right, left, middle, right, |left|, r.length, r.text);
  }

  lemma InsertBetween(text: string, made: seq<Replacement>, x: Replacement, left: string, right: string)
    requires ApplyInOrder(text, made) == left + right
    requires |left| == x.offset + Shift(made, x.offset) && x.length == 0
    ensures ApplyInOrder(text, made + [x]) == left + x.text + right
  {
    WithNothing(left, right);
    EditBetween(text, made, x, left, "", right);
  }

  lemma InsertNothing(text: string, made: seq<Replacement>, r: Replacement)
    requires r.length == 0 && r.text == ""
    ensures ApplyInOrder(text, made + [r]) == ApplyInOrder(text, made)
  {
    ApplyOneMore(text, made, r);
    var base, at := ApplyInOrder(text, made), r.offset + Shift(made, r.offset);
    if 0 <= at <= |base| {
      assert base[..at] + "" + base[at..] == base;
    }
  }

  lemma IsSpliced(before: string, after: string, left: string, middle: string, right: string, at: int, length: nat, insert: string)
    requires before == left + middle + right && after == left + insert + right && at == |left| && length == |middle|
    ensures after == Splice(before, at, length, insert)
  {
    assert before[..at] == left;
    assert before[at + length..] == right;
  }

  lemma WithNothing(left: string, right: string)
    ensures left + right == left + "" + right
  {
  }
}
