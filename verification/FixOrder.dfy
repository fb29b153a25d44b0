/**
 When the order in which edits are applied matters, and so for which of the fixes that
 are kept it does not.
 */
module FixOrder {
  import opened FixApply
  import opened FixIntervals
  import opened Sequences

  // ---------- Edits that commute give the same text in any order ----------

  function Without(rs: seq<Replacement>, m: nat): seq<Replacement>
    requires m < |rs|
  {
    rs[..m] + rs[m + 1..]
  }

  lemma WithoutOne(rs: seq<Replacement>, m: nat)
    requires m < |rs|
    ensures multiset(rs) == multiset(Without(rs, m)) + multiset{rs[m]}
  {
    assert rs == rs[..m] + [rs[m]] + rs[m + 1..];
  }

  /** The last edit of one order, found in another. */
  lemma FindLast(rs: seq<Replacement>, qs: seq<Replacement>) returns (m: nat)
    requires rs != [] && multiset(rs) == multiset(qs)
    ensures m < |qs| && qs[m] == rs[|rs| - 1]
    ensures multiset(rs[..|rs| - 1]) == multiset(Without(qs, m))
  {
    var n := |rs| - 1;
    assert rs[n] in multiset(rs);
    assert rs[n] in multiset(qs) && rs[n] in qs;
    m :| 0 <= m < |qs| && qs[m] == rs[n];
    WithoutOne(qs, m);
    WithoutOne(rs, n);
    assert Without(rs, n) == rs[..n];
    var a, b := multiset(rs[..n]), multiset(Without(qs, m));
    assert a == a + multiset{rs[n]} - multiset{rs[n]} && b == b + multiset{rs[n]} - multiset{rs[n]};
  }

  lemma {:induction false} PairsInAnyOrder(rs: seq<Replacement>, qs: seq<Replacement>)
    requires multiset(rs) == multiset(qs) && PairsCommute(rs)
    ensures PairsCommute(qs)
  {
    if rs == [] {
      assert |multiset(qs)| == 0;
    } else {
      var made, r := rs[..|rs| - 1], rs[|rs| - 1];
      assert rs == made + [r];
      LastCommutes(made, r);
      var m := FindLast(rs, qs);
      var rest := Without(qs, m);
      PairsInAnyOrder(made, rest);
      SameElements(made, rest);
      PairsWithOneMore(qs, m);
    }
  }

  lemma PairsWithOneMore(qs: seq<Replacement>, m: nat)
    requires m < |qs| && PairsCommute(Without(qs, m)) && forall q :: q in Without(qs, m) ==> Commute(q, qs[m])
    ensures PairsCommute(qs)
  {
    var rest := Without(qs, m);
    forall j, k | 0 <= j < k < |qs|
      ensures Commute(qs[j], qs[k])
    {
      var jj, kk := if j < m then j else j - 1, if k < m then k else k - 1;
      if j == m {
        assert rest[kk] == qs[k] && rest[kk] in rest;
      } else if k == m {
        assert rest[jj] == qs[j] && rest[jj] in rest;
      } else {
        assert rest[jj] == qs[j] && rest[kk] == qs[k];
      }
    }
  }

  predicate InsertionsCommuteAt(rs: seq<Replacement>, i: nat) {
    forall a, b :: a in rs && b in rs && InsertionAt(a, i) && InsertionAt(b, i) ==> a.text + b.text == b.text + a.text
  }

  lemma {:induction false} InsertedAppend(made: seq<Replacement>, more: seq<Replacement>, i: nat)
    ensures Inserted(made + more, i) == Inserted(made, i) + Inserted(more, i)
  {
    if more == [] {
      assert made + more == made;
    } else {
      var init, r := more[..|more| - 1], more[|more| - 1];
      assert more == init + [r] && made + more == (made + init) + [r];
      InsertedOneMore(init, r, i);
      InsertedOneMore(made + init, r, i);
      InsertedAppend(made, init, i);
      Assoc(Inserted(made, i), Inserted(init, i), InsertedBy(r, i));
    }
  }

  lemma {:induction false} InsertedCommutes(text: string, rs: seq<Replacement>, i: nat)
    requires forall r :: r in rs && InsertionAt(r, i) ==> r.text + text == text + r.text
    ensures Inserted(rs, i) + text == text + Inserted(rs, i)
  {
    if rs == [] {
      assert "" + text == text + "";
    } else {
      var made, r := rs[..|rs| - 1], rs[|rs| - 1];
      assert r in rs;
      InsertedCommutes(text, made, i);
      assert InsertedBy(r, i) + text == text + InsertedBy(r, i);
      Assoc(Inserted(made, i), InsertedBy(r, i), text);
      Assoc(Inserted(made, i), text, InsertedBy(r, i));
      Assoc(text, Inserted(made, i), InsertedBy(r, i));
    }
  }

  /** An insertion whose text commutes with the later ones might be made last. */
  lemma InsertedLast(before: seq<Replacement>, r: Replacement, after: seq<Replacement>, i: nat)
    requires InsertionsCommuteAt(before + [r] + after, i)
    ensures Inserted(before + [r] + after, i) == Inserted(before + after, i) + InsertedBy(r, i)
  {
    assert r in before + [r] + after && forall q :: q in after ==> q in before + [r] + after;
    CommutesWithNothing(InsertedBy(r, i));
    InsertedCommutes(InsertedBy(r, i), after, i);
    InsertedAppend(before + [r], after, i);
    InsertedOneMore(before, r, i);
    InsertedAppend(before, after, i);
    Assoc(Inserted(before, i), InsertedBy(r, i), Inserted(after, i));
    Assoc(Inserted(before, i), Inserted(after, i), InsertedBy(r, i));
  }

  lemma CommutesWithNothing(text: string)
    ensures text + "" == "" + text
  {
  }

  lemma InsertedOneMore(made: seq<Replacement>, r: Replacement, i: nat)
    ensures Inserted(made + [r], i) == Inserted(made, i) + InsertedBy(r, i)
  {
    assert (made + [r])[..|made|] == made;
  }

  lemma {:induction false} InsertedInAnyOrder(rs: seq<Replacement>, qs: seq<Replacement>, i: nat)
    requires multiset(rs) == multiset(qs) && InsertionsCommuteAt(qs, i)
    ensures Inserted(rs, i) == Inserted(qs, i)
  {
    if rs == [] {
      assert |multiset(qs)| == 0;
    } else {
      var m := FindLast(rs, qs);
      assert qs == qs[..m] + [qs[m]] + qs[m + 1..];
      InsertedLast(qs[..m], qs[m], qs[m + 1..], i);
      InsertedInAnyOrder(rs[..|rs| - 1], Without(qs, m), i);
    }
  }

  lemma PairsCommuteAt(rs: seq<Replacement>, i: nat)
    requires PairsCommute(rs)
    ensures InsertionsCommuteAt(rs, i)
  {
    forall a, b | a in rs && b in rs && InsertionAt(a, i) && InsertionAt(b, i)
      ensures a.text + b.text == b.text + a.text
    {
      var j :| 0 <= j < |rs| && rs[j] == a;
      var k :| 0 <= k < |rs| && rs[k] == b;
      assert j < k ==> Commute(rs[j], rs[k]);
      assert k < j ==> Commute(rs[k], rs[j]);
    }
  }

  lemma {:induction false} CoreCovered(text: string, rs: seq<Replacement>, i: nat, k: nat)
    requires PairsCommute(rs) && i <= |text| && k < |rs| && CoversAt(rs[k], i)
    ensures Core(text, rs, i) == if i == rs[k].offset then rs[k].text else ""
  {
    var n := |rs| - 1;
    if k < n {
      assert Commute(rs[k], rs[n]);
      CoreCovered(text, rs[..n], i, k);
    }
  }

  lemma CoreInAnyOrder(text: string, rs: seq<Replacement>, qs: seq<Replacement>, i: nat)
    requires PairsCommute(rs) && PairsCommute(qs) && i <= |text|
    requires forall r :: r in rs <==> r in qs
    ensures Core(text, rs, i) == Core(text, qs, i)
  {
    if k :| 0 <= k < |rs| && CoversAt(rs[k], i) {
      CoreCovered(text, rs, i, k);
      assert rs[k] in qs;
      var m :| 0 <= m < |qs| && qs[m] == rs[k];
      CoreCovered(text, qs, i, m);
    } else {
      assert forall r :: r in rs ==> !CoversAt(r, i);
      CoreUncovered(text, rs, i);
      CoreUncovered(text, qs, i);
    }
  }

  lemma {:induction false} RenderInAnyOrder(text: string, rs: seq<Replacement>, qs: seq<Replacement>, b: nat)
    requires PairsCommute(rs) && PairsCommute(qs) && multiset(rs) == multiset(qs) && b <= |text| + 1
    ensures Render(text, rs, 0, b) == Render(text, qs, 0, b)
  {
    if b > 0 {
      RenderInAnyOrder(text, rs, qs, b - 1);
      PairsCommuteAt(qs, b - 1);
      InsertedInAnyOrder(rs, qs, b - 1);
      SameElements(rs, qs);
      CoreInAnyOrder(text, rs, qs, b - 1);
    }
  }

  lemma SameElements(rs: seq<Replacement>, qs: seq<Replacement>)
    requires multiset(rs) == multiset(qs)
    ensures forall r :: r in rs <==> r in qs
  {
    assert forall r :: r in rs <==> r in multiset(rs);
  }

  /** Every order of the edits gives the same text, for every text of that length. */
  ghost predicate SameInAnyOrder(rs: seq<Replacement>, length: nat) {
    forall text, qs :: |text| == length && multiset(qs) == multiset(rs) ==> ApplyInOrder(text, qs) == ApplyInOrder(text, rs)
  }

  lemma CommutingApplyInAnyOrder(rs: seq<Replacement>, length: nat)
    requires Fits(rs, length) && PairsCommute(rs)
    ensures SameInAnyOrder(rs, length)
  {
    forall text, qs | |text| == length && multiset(qs) == multiset(rs)
      ensures ApplyInOrder(text, qs) == ApplyInOrder(text, rs)
    {
      SameElements(rs, qs);
      PairsInAnyOrder(rs, qs);
      ApplyIsRender(text, rs);
      ApplyIsRender(text, qs);
      RenderInAnyOrder(text, rs, qs, length + 1);
    }
  }

  // ---------- Edits that do not commute give different texts ----------

  /** Two insertions at one offset: the text decides. */
  lemma TwoInsertions(text: string, made: seq<Replacement>, x: Replacement, y: Replacement)
    requires x.length == 0 && InsertionAt(y, x.offset)
    requires 0 <= x.offset + Shift(made, x.offset) <= |ApplyInOrder(text, made)|
    ensures ApplyInOrder(text, made + [x] + [y]) == ApplyInOrder(text, made + [y] + [x]) <==> x.text + y.text == y.text + x.text
  {
    var left, right := CutAt(ApplyInOrder(text, made), x.offset + Shift(made, x.offset));
    TwiceAt(text, made, x, y, left, right);
    TwiceAt(text, made, y, x, left, right);
    SameBetween(left, right, x.text + y.text, y.text + x.text);
  }

  lemma CutAt(base: string, at: nat) returns (left: string, right: string)
    requires at <= |base|
    ensures base == left + right && |left| == at
  {
    left, right := base[..at], base[at..];
  }

  lemma SameBetween(left: string, right: string, u: string, v: string)
    requires |u| == |v|
    ensures left + u + right == left + v + right <==> u == v
  {
    var x, y := left + u + right, left + v + right;
    assert x[|left|..|left + u|] == u && y[|left|..|left + v|] == v;
  }

  lemma TwiceAt(text: string, made: seq<Replacement>, x: Replacement, y: Replacement, left: string, right: string)
    requires x.length == 0 && InsertionAt(y, x.offset)
    requires ApplyInOrder(text, made) == left + right && |left| == x.offset + Shift(made, x.offset)
    ensures ApplyInOrder(text, made + [x] + [y]) == left + (x.text + y.text) + right
  {
    InsertBetween(text, made, x, left, right);
    ShiftOneMore(made, x, y.offset);
    InsertBetween(text, made + [x], y, left + x.text, right);
    Assoc(left, x.text, y.text);
  }

  function Count(c: char, s: string): nat {
    multiset(s)[c]
  }

  lemma CountSum(c: char, a: string, b: string)
    ensures Count(c, a + b) == Count(c, a) + Count(c, b)
  {
  }

  /** What is left behind a replaced stretch with an insertion in it lacks a letter of
      the insertion. */
  predicate Lacks(tail: string, insert: string, right: string)
    requires insert != ""
  {
    |tail| > |right| && Count(insert[0], tail) < Count(insert[0], insert) + Count(insert[0], right)
  }

  /** Replacing the stretch before the insertion takes nothing of it away. */
  lemma EnclosedInsertionDiffers(left: string, right: string, replaced: string, insert: string, tail: string, result: string)
    requires insert != "" && Lacks(tail, insert, right)
    requires result == left + replaced + right || multiset(result) == multiset(left + replaced + right) + multiset(insert)
    ensures result != left + replaced + tail
  {
    var c, base, other := insert[0], left + replaced + right, left + replaced + tail;
    CountSum(c, left + replaced, right);
    CountSum(c, left + replaced, tail);
    assert |base| < |other|;
    assert multiset(result) == multiset(base) + multiset(insert) ==> Count(c, result) == Count(c, base) + Count(c, insert);
  }

  /** An insertion adds its letters, unless it is out of reach and does nothing. */
  lemma InsertAnywhere(text: string, made: seq<Replacement>, x: Replacement)
    requires x.length == 0
    ensures var base, result := ApplyInOrder(text, made), ApplyInOrder(text, made + [x]);
            result == base || multiset(result) == multiset(base) + multiset(x.text)
  {
    ApplyOneMore(text, made, x);
    var base, at := ApplyInOrder(text, made), x.offset + Shift(made, x.offset);
    if 0 <= at <= |base| {
      var left, right := CutAt(base, at);
      InsertBetween(text, made, x, left, right);
      assert multiset(left + x.text + right) == multiset(left + right) + multiset(x.text);
    }
  }

  lemma TailLacks(stretch: string, insert: string, right: string, d: nat, tail: string)
    requires d < |stretch| && insert != "" && insert[0] !in stretch
    requires tail == (stretch[..d] + insert + stretch[d..] + right)[|stretch|..]
    ensures Lacks(tail, insert, right)
  {
    var whole := stretch[..d] + insert + stretch[d..];
    assert tail == whole[|stretch|..] + right;
    CountSum(insert[0], whole[|stretch|..], right);
    CountRest(insert[0], stretch, insert, d);
  }

  lemma CountRest(c: char, stretch: string, insert: string, d: nat)
    requires d < |stretch| && insert != "" && c == insert[0] && c !in stretch
    ensures Count(c, (stretch[..d] + insert + stretch[d..])[|stretch|..]) < Count(c, insert)
  {
    var l, whole := |stretch|, stretch[..d] + insert + stretch[d..];
    CountSum(c, stretch[..d] + insert, stretch[d..]);
    CountSum(c, stretch[..d], insert);
    assert c !in stretch[..d] && c !in stretch[d..];
    assert whole == whole[..l] + whole[l..];
    CountSum(c, whole[..l], whole[l..]);
    assert whole[..l][d] == c;
  }

  // An insertion in a stretch, after edits that leave the stretch alone.

  lemma {:induction false} ShiftAcross(made: seq<Replacement>, r: Replacement, i: nat)
    requires Encloses(r, i) && forall m :: m in made ==> m.length > 0 && Apart(m, r)
    ensures Shift(made, i) == Shift(made, r.offset)
  {
    if made != [] {
      assert made[|made| - 1] in made;
      ShiftAcross(made[..|made| - 1], r, i);
    }
  }

  lemma InsertedThenReplaced(text: string, made: seq<Replacement>, r: Replacement, x: Replacement, left: string, stretch: string, right: string)
    returns (tail: string)
    requires x.length == 0 && Encloses(r, x.offset) && ApplyInOrder(text, made) == left + stretch + right
    requires |left| == r.offset + Shift(made, r.offset) && |stretch| == r.length
    requires Shift(made, x.offset) == Shift(made, r.offset) && x.text != "" && x.text[0] !in stretch
    ensures ApplyInOrder(text, made + [x] + [r]) == left + r.text + tail && Lacks(tail, x.text, right)
  {
    var head, rest, middle;
    head, rest, middle, tail := InsertInside(left, stretch, right, x.offset - r.offset, x.text);
    InsertBetween(text, made, x, head, rest);
    ShiftOneMore(made, x, r.offset);
    EditBetween(text, made + [x], r, left, middle, tail);
  }

  /** A text with an insertion in a stretch, cut before it and after the stretch's length. */
  lemma InsertInside(left: string, stretch: string, right: string, d: nat, insert: string)
    returns (head: string, rest: string, middle: string, tail: string)
    requires d < |stretch| && insert != "" && insert[0] !in stretch
    ensures left + stretch + right == head + rest && |head| == |left| + d
    ensures head + insert + rest == left + middle + tail && |middle| == |stretch|
    ensures Lacks(tail, insert, right)
  {
    head, rest := left + stretch[..d], stretch[d..] + right;
    var whole := stretch[..d] + insert + stretch[d..] + right;
    middle, tail := whole[..|stretch|], whole[|stretch|..];
    TailLacks(stretch, insert, right, d, tail);
  }

  // The other insertions can wait: they cannot make different texts equal.

  lemma InsertionTakenOut(text: string, at: nat, insert: string)
    requires at <= |text|
    ensures var x := Splice(text, at, 0, insert); x[..at] + x[at + |insert|..] == text
  {
  }

  lemma InsertionKeepsDifference(a: string, b: string, at: int, insert: string)
    requires a != b
    ensures Splice(a, at, 0, insert) != Splice(b, at, 0, insert)
  {
    if |a| == |b| && 0 <= at <= |a| {
      InsertionTakenOut(a, at, insert);
      InsertionTakenOut(b, at, insert);
    }
  }

  lemma OneInsertionKeepsDifference(text: string, a: seq<Replacement>, b: seq<Replacement>, r: Replacement)
    requires r.length == 0 && Shift(a, r.offset) == Shift(b, r.offset) && ApplyInOrder(text, a) != ApplyInOrder(text, b)
    ensures ApplyInOrder(text, a + [r]) != ApplyInOrder(text, b + [r])
  {
    var at := r.offset + Shift(a, r.offset);
    assert ApplyInOrder(text, a + [r]) == Splice(ApplyInOrder(text, a), at, 0, r.text) by {
      ApplyOneMore(text, a, r);
    }
    assert ApplyInOrder(text, b + [r]) == Splice(ApplyInOrder(text, b), at, 0, r.text) by {
      ApplyOneMore(text, b, r);
    }
    InsertionKeepsDifference(ApplyInOrder(text, a), ApplyInOrder(text, b), at, r.text);
  }

  lemma {:induction false} InsertionsKeepDifference(text: string, some: seq<Replacement>, others: seq<Replacement>, more: seq<Replacement>)
    requires forall r :: r in more ==> r.length == 0
    requires multiset(some) == multiset(others) && ApplyInOrder(text, some) != ApplyInOrder(text, others)
    ensures ApplyInOrder(text, some + more) != ApplyInOrder(text, others + more)
  {
    if more == [] {
      assert some + more == some && others + more == others;
    } else {
      var init, r := more[..|more| - 1], more[|more| - 1];
      assert r in more && more == init + [r];
      InsertionsKeepDifference(text, some, others, init);
      ShiftInAnyOrder(some, others, r.offset);
      ShiftAppend(some, init, r.offset);
      ShiftAppend(others, init, r.offset);
      OneInsertionKeepsDifference(text, some + init, others + init, r);
      Assoc(some, init, [r]);
      Assoc(others, init, [r]);
    }
  }

  lemma {:induction false} ShiftInAnyOrder(rs: seq<Replacement>, qs: seq<Replacement>, at: nat)
    requires multiset(rs) == multiset(qs)
    ensures Shift(rs, at) == Shift(qs, at)
  {
    if rs == [] {
      assert |multiset(qs)| == 0;
    } else {
      var m := FindLast(rs, qs);
      ShiftInAnyOrder(rs[..|rs| - 1], Without(qs, m), at);
      assert qs == qs[..m] + ([qs[m]] + qs[m + 1..]);
      ShiftAppend(qs[..m], [qs[m]] + qs[m + 1..], at);
      ShiftAppend([qs[m]], qs[m + 1..], at);
      ShiftAppend(qs[..m], qs[m + 1..], at);
    }
  }

  // ---------- When the order matters ----------

  function Replacements(rs: seq<Replacement>): seq<Replacement> {
    if rs == [] then [] else (if rs[0].length > 0 then [rs[0]] else []) + Replacements(rs[1..])
  }

  function Insertions(rs: seq<Replacement>): seq<Replacement> {
    if rs == [] then [] else (if rs[0].length > 0 then [] else [rs[0]]) + Insertions(rs[1..])
  }

  lemma {:induction false} TwoKinds(rs: seq<Replacement>)
    ensures multiset(rs) == multiset(Replacements(rs)) + multiset(Insertions(rs))
    ensures forall r :: r in Replacements(rs) ==> r.length > 0
    ensures forall r :: r in Insertions(rs) ==> r.length == 0
  {
    if rs != [] {
      TwoKinds(rs[1..]);
      OneMoreOf(rs[0], rs[1..]);
      OneMoreOf(rs[0], Replacements(rs[1..]));
      OneMoreOf(rs[0], Insertions(rs[1..]));
      assert rs == [rs[0]] + rs[1..];
    }
  }

  lemma OneMoreOf(r: Replacement, rs: seq<Replacement>)
    ensures multiset([r] + rs) == multiset{r} + multiset(rs)
    ensures forall q :: q in [r] + rs <==> q == r || q in rs
  {
  }

  predicate ReplacementsApart(rs: seq<Replacement>) {
    forall j, k :: 0 <= j < k < |rs| && rs[j].length > 0 && rs[k].length > 0 ==> Apart(rs[j], rs[k])
  }

  lemma {:induction false} ReplacementsCommute(rs: seq<Replacement>)
    requires ReplacementsApart(rs)
    ensures PairsCommute(Replacements(rs))
  {
    if rs != [] {
      assert forall r :: r in rs[1..] && r.length > 0 && rs[0].length > 0 ==> Apart(rs[0], r);
      ReplacementsCommute(rs[1..]);
      ReplacementsAreFrom(rs[1..]);
    }
  }

  lemma {:induction false} ReplacementsAreFrom(rs: seq<Replacement>)
    ensures forall r :: r in Replacements(rs) <==> r in rs && r.length > 0
  {
    if rs != [] {
      ReplacementsAreFrom(rs[1..]);
      assert rs == [rs[0]] + rs[1..];
    }
  }

  /** A text whose letters are all different from the first letter inserted. */
  function Plain(length: nat, insert: string): (text: string)
    requires insert != ""
    ensures |text| == length && forall i :: 0 <= i < length ==> text[i] != insert[0]
  {
    seq(length, _ => if insert[0] == 'a' then 'b' else 'a')
  }

  lemma EnclosedOrderMatters(length: nat, made: seq<Replacement>, r: Replacement, x: Replacement)
    requires Fits(made, length) && PairsCommute(made) && r.offset + r.length <= length
    requires forall m :: m in made ==> m.length > 0 && Apart(m, r)
    requires x.length == 0 && x.text != "" && Encloses(r, x.offset)
    ensures ApplyInOrder(Plain(length, x.text), made + [r] + [x]) != ApplyInOrder(Plain(length, x.text), made + [x] + [r])
  {
    var text := Plain(length, x.text);
    var left, stretch, right := StretchWithin(text, made, r);
    assert x.text[0] !in stretch;
    ApplyIsRender(text, made);
    ShiftAcross(made, r, x.offset);
    OrderWithinMatters(text, made, r, x, left, stretch, right);
  }

  lemma OrderWithinMatters(text: string, made: seq<Replacement>, r: Replacement, x: Replacement, left: string, stretch: string, right: string)
    requires x.length == 0 && x.text != "" && Encloses(r, x.offset) && ApplyInOrder(text, made) == left + stretch + right
    requires |left| == r.offset + Shift(made, r.offset) && |stretch| == r.length
    requires Shift(made, x.offset) == Shift(made, r.offset) && x.text[0] !in stretch
    ensures ApplyInOrder(text, made + [r] + [x]) != ApplyInOrder(text, made + [x] + [r])
  {
    EditBetween(text, made, r, left, stretch, right);
    InsertAnywhere(text, made + [r], x);
    var tail := InsertedThenReplaced(text, made, r, x, left, stretch, right);
    EnclosedInsertionDiffers(left, right, r.text, x.text, tail, ApplyInOrder(text, made + [r] + [x]));
  }

  lemma InsertionOrderMatters(text: string, made: seq<Replacement>, x: Replacement, y: Replacement)
    requires Applicable(text, made) && x.offset <= |text| && NotStraddled(made, x.offset)
    requires x.length == 0 && InsertionAt(y, x.offset) && x.text + y.text != y.text + x.text
    ensures ApplyInOrder(text, made + [x] + [y]) != ApplyInOrder(text, made + [y] + [x])
  {
    ApplyIsRender(text, made);
    var left, right := RenderInsertion(text, made, x, |text| + 1);
    RenderLength(text, made, x.offset);
    TwoInsertions(text, made, x, y);
  }

  /** Two of the edits last but for the insertions among the others. */
  function Arranged(others: seq<Replacement>, x: Replacement, y: Replacement): seq<Replacement> {
    Replacements(others) + [x] + [y] + Insertions(others)
  }

  lemma ArrangedDiffers(text: string, others: seq<Replacement>, x: Replacement, y: Replacement)
    requires ApplyInOrder(text, Replacements(others) + [x] + [y]) != ApplyInOrder(text, Replacements(others) + [y] + [x])
    ensures ApplyInOrder(text, Arranged(others, x, y)) != ApplyInOrder(text, Arranged(others, y, x))
  {
    TwoKinds(others);
    InsertionsKeepDifference(text, Replacements(others) + [x] + [y], Replacements(others) + [y] + [x], Insertions(others));
  }

  function WithoutTwo(rs: seq<Replacement>, j: nat, k: nat): seq<Replacement>
    requires j < k < |rs|
  {
    Without(Without(rs, k), j)
  }

  lemma ArrangedIsAnOrder(rs: seq<Replacement>, j: nat, k: nat)
    requires j < k < |rs|
    ensures var others := WithoutTwo(rs, j, k);
            && multiset(Arranged(others, rs[j], rs[k])) == multiset(rs)
            && multiset(Arranged(others, rs[k], rs[j])) == multiset(rs)
  {
    WithoutOne(rs, k);
    WithoutOne(Without(rs, k), j);
    TwoKinds(WithoutTwo(rs, j, k));
  }

  lemma OthersAreApart(rs: seq<Replacement>, j: nat, k: nat)
    requires j < k < |rs| && ReplacementsApart(rs)
    ensures var others := WithoutTwo(rs, j, k);
            && ReplacementsApart(others)
            && (forall m :: m in others ==> m in rs)
            && (forall m :: m in others && m.length > 0 && rs[j].length > 0 ==> Apart(m, rs[j]))
            && (forall m :: m in others && m.length > 0 && rs[k].length > 0 ==> Apart(m, rs[k]))
  {
    var others := WithoutTwo(rs, j, k);
    forall i | 0 <= i < |others|
      ensures others[i] == rs[Original(j, k, i)]
    {
    }
  }

  /** Where the element at `i` was before those at `j` and `k` were taken out. */
  function Original(j: nat, k: nat, i: nat): nat {
    if i < j then i else if i + 1 < k then i + 1 else i + 2
  }

  lemma PairMatters(rs: seq<Replacement>, length: nat, j: nat, k: nat, text: string)
    requires j < k < |rs|
    requires var made := Replacements(WithoutTwo(rs, j, k));
             |text| == length && ApplyInOrder(text, made + [rs[j]] + [rs[k]]) != ApplyInOrder(text, made + [rs[k]] + [rs[j]])
    ensures !SameInAnyOrder(rs, length)
  {
    ArrangedDiffers(text, WithoutTwo(rs, j, k), rs[j], rs[k]);
    ArrangedIsAnOrder(rs, j, k);
  }

  lemma EnclosedPairMatters(rs: seq<Replacement>, length: nat, j: nat, k: nat)
    requires Fits(rs, length) && ReplacementsApart(rs) && j < k < |rs|
    requires var (x, y) := (rs[j], rs[k]);
             || (x.length == 0 && x.text != "" && Encloses(y, x.offset))
             || (y.length == 0 && y.text != "" && Encloses(x, y.offset))
    ensures !SameInAnyOrder(rs, length)
  {
    var others := WithoutTwo(rs, j, k);
    var made := Replacements(others);
    OthersAreApart(rs, j, k);
    ReplacementsCommute(others);
    ReplacementsAreFrom(others);
    if rs[j].length == 0 {
      EnclosedOrderMatters(length, made, rs[k], rs[j]);
      PairMatters(rs, length, j, k, Plain(length, rs[j].text));
    } else {
      EnclosedOrderMatters(length, made, rs[j], rs[k]);
      PairMatters(rs, length, j, k, Plain(length, rs[k].text));
    }
  }

  lemma InsertionPairMatters(rs: seq<Replacement>, length: nat, j: nat, k: nat)
    requires Fits(rs, length) && ReplacementsApart(rs) && j < k < |rs|
    requires rs[j].length == 0 && InsertionAt(rs[k], rs[j].offset) && rs[j].text + rs[k].text != rs[k].text + rs[j].text
    ensures !SameInAnyOrder(rs, length)
  {
    if m :| 0 <= m < |rs| && Encloses(rs[m], rs[j].offset) {
      assert rs[j].text != "";
      EnclosedPairMatters(rs, length, if m < j then m else j, if m < j then j else m);
    } else {
      var others := WithoutTwo(rs, j, k);
      OthersAreApart(rs, j, k);
      ReplacementsCommute(others);
      ReplacementsAreFrom(others);
      var text := Plain(length, "b");
      InsertionOrderMatters(text, Replacements(others), rs[j], rs[k]);
      PairMatters(rs, length, j, k, text);
    }
  }

  /** Edits whose replacements do not overlap can be made in any order exactly when
      every two of them commute. */
  lemma AnyOrderExactly(rs: seq<Replacement>, length: nat)
    requires Fits(rs, length) && ReplacementsApart(rs)
    ensures SameInAnyOrder(rs, length) <==> forall j, k :: 0 <= j < k < |rs| ==> InsertionsCommute(rs[j], rs[k])
  {
    if j, k :| 0 <= j < k < |rs| && !InsertionsCommute(rs[j], rs[k]) {
      if rs[j].length == 0 && rs[k].length == 0 {
        InsertionPairMatters(rs, length, j, k);
      } else {
        EnclosedPairMatters(rs, length, j, k);
      }
    } else {
      CommutingApplyInAnyOrder(rs, length);
    }
  }

  // ---------- The kept fixes ----------

  /** The edits named by error and index, in the order given. */
  function EditsOf(errors: seq<TidyError>, names: seq<(nat, nat)>): (rs: seq<Replacement>)
    requires forall k :: 0 <= k < |names| ==> names[k].0 < |errors| && names[k].1 < |errors[names[k].0].fix|
    ensures |rs| == |names|
    ensures forall k :: 0 <= k < |names| ==> rs[k] == errors[names[k].0].fix[names[k].1]
  {
    seq(|names|, k requires 0 <= k < |names| => errors[names[k].0].fix[names[k].1])
  }

  /** Edits of a file of that length, each named once, that belong to kept errors. */
  ghost predicate KeptEdits(errors: seq<TidyError>, file: string, length: nat, names: seq<(nat, nat)>) {
    && (forall k :: 0 <= k < |names| ==>
          && names[k].0 < |errors| && names[k].1 < |errors[names[k].0].fix|
          && Kept(errors, names[k].0)
          && var r := errors[names[k].0].fix[names[k].1];
            r.filePath == file && r.offset + r.length <= length)
    && (forall j, k :: 0 <= j < k < |names| ==> names[j] != names[k])
  }

  lemma KeptEditsApart(errors: seq<TidyError>, file: string, length: nat, names: seq<(nat, nat)>, j: nat, k: nat)
    requires WellFormed(errors) && KeptEdits(errors, file, length, names) && j < k < |names|
    requires EditsOf(errors, names)[j].length > 0 && EditsOf(errors, names)[k].length > 0
    ensures Apart(EditsOf(errors, names)[j], EditsOf(errors, names)[k])
  {
    var a, b, c, d := names[j].0, names[j].1, names[k].0, names[k].1;
    var r, q := errors[a].fix[b], errors[c].fix[d];
    if a == c {
      assert names[j] != names[k];
      assert FixOk(errors[a].fix);
      assert if b < d then Disjoint(errors[a].fix[b], errors[a].fix[d]) else Disjoint(errors[a].fix[d], errors[a].fix[b]);
    } else {
      var x := Interval(r.offset, r.offset + r.length, a, Size(errors[a].fix));
      var y := Interval(q.offset, q.offset + q.length, c, Size(errors[c].fix));
      assert Covers(r, file, x) && Covers(q, file, y);
      assert HasInterval(errors, file, x) && HasInterval(errors, file, y);
      KeptErrorsDisjoint(errors, a, c, file, x, y);
    }
  }

  /** Main result: edits of kept errors, insertions among them, give the same text in
      whatever order they are made exactly when no insertion falls inside a stretch that
      another edit replaces and the texts inserted at one offset commute. */
  lemma KeptFixesApplyInAnyOrder(errors: seq<TidyError>, file: string, length: nat, names: seq<(nat, nat)>)
    requires WellFormed(errors) && KeptEdits(errors, file, length, names)
    ensures var rs := EditsOf(errors, names);
            SameInAnyOrder(rs, length) <==> forall j, k :: 0 <= j < k < |rs| ==> InsertionsCommute(rs[j], rs[k])
  {
    var rs := EditsOf(errors, names);
    forall j, k | 0 <= j < k < |rs| && rs[j].length > 0 && rs[k].length > 0
      ensures Apart(rs[j], rs[k])
    {
      KeptEditsApart(errors, file, length, names, j, k);
    }
    AnyOrderExactly(rs, length);
  }

  // ---------- Both ways to fail ----------

  lemma TwoErrorsWithoutClash(a: Replacement, b: Replacement)
    requires a.offset + a.length < INT_LIMIT && b.offset + b.length < INT_LIMIT && b.length == 0
    ensures var errors := [TidyError("m", [a], []), TidyError("n", [b], [])];
            WellFormed(errors) && Kept(errors, 0) && Kept(errors, 1)
  {
    var errors := [TidyError("m", [a], []), TidyError("n", [b], [])];
    SizeOfOne(a);
    SizeOfOne(b);
    assert FixOk([a]) && FixOk([b]);
    forall file, x | HasInterval(errors, file, x)
      ensures x == Interval(a.offset, a.offset + a.length, 0, a.length)
    {
      assert errors[1].fix[0] == b;
    }
  }

  /** Insertions have no interval, so two at one offset are both kept. */
  lemma InsertionsAtOneOffset()
    ensures var a, b := Replacement("f", 0, 0, "a"), Replacement("f", 0, 0, "b");
            var errors := [TidyError("m", [a], []), TidyError("n", [b], [])];
            && WellFormed(errors) && Kept(errors, 0) && Kept(errors, 1)
            && ApplyInOrder("x", [a, b]) == "abx" && ApplyInOrder("x", [b, a]) == "bax"
  {
    var a, b := Replacement("f", 0, 0, "a"), Replacement("f", 0, 0, "b");
    TwoErrorsWithoutClash(a, b);
    ApplyTwo("x", a, b);
    ApplyTwo("x", b, a);
    IsSpliced("x", "ax", "", "", "x", 0, 0, "a");
    IsSpliced("ax", "abx", "a", "", "x", 1, 0, "b");
    IsSpliced("x", "bx", "", "", "x", 0, 0, "b");
    IsSpliced("bx", "bax", "b", "", "x", 1, 0, "a");
  }

  /** So is an insertion in the middle of a stretch that another error replaces. */
  lemma InsertionInReplacement()
    ensures var a, b := Replacement("f", 0, 2, "Z"), Replacement("f", 1, 0, "q");
            var errors := [TidyError("m", [a], []), TidyError("n", [b], [])];
            && WellFormed(errors) && Kept(errors, 0) && Kept(errors, 1)
            && ApplyInOrder("xyz", [a, b]) == "Zqz" && ApplyInOrder("xyz", [b, a]) == "Zyz"
  {
    var a, b := Replacement("f", 0, 2, "Z"), Replacement("f", 1, 0, "q");
    TwoErrorsWithoutClash(a, b);
    ApplyTwo("xyz", a, b);
    ApplyTwo("xyz", b, a);
    IsSpliced("xyz", "Zz", "", "xy", "z", 0, 2, "Z");
    IsSpliced("Zz", "Zqz", "Z", "", "z", 1, 0, "q");
    IsSpliced("xyz", "xqyz", "x", "", "yz", 1, 0, "q");
    IsSpliced("xqyz", "Zyz", "", "xq", "yz", 0, 2, "Z");
  }

  /** At the beginning of a stretch an insertion may be made before or after its
      replacement. */
  lemma InsertionAtStart(text: string, made: seq<Replacement>, r: Replacement, x: Replacement, left: string, middle: string, right: string)
    requires ApplyInOrder(text, made) == left + middle + right && |middle| == r.length > 0
    requires |left| == r.offset + Shift(made, r.offset) && InsertionAt(x, r.offset)
    ensures ApplyInOrder(text, made + [r] + [x]) == ApplyInOrder(text, made + [x] + [r]) == left + (x.text + r.text) + right
  {
    assert ApplyInOrder(text, made + [r] + [x]) == left + (x.text + r.text) + right by {
      EditBetween(text, made, r, left, middle, right);
      Assoc(left, r.text, right);
      ShiftOneMore(made, r, x.offset);
      InsertBetween(text, made + [r], x, left, r.text + right);
      Regrouped(left, x.text, r.text, right);
    }
    assert ApplyInOrder(text, made + [x] + [r]) == left + (x.text + r.text) + right by {
      Assoc(left, middle, right);
      InsertBetween(text, made, x, left, middle + right);
      Assoc(left + x.text, middle, right);
      ShiftOneMore(made, x, r.offset);
      EditBetween(text, made + [x], r, left + x.text, middle, right);
      Assoc(left, x.text, r.text);
    }
  }

  /** And so at its end. */
  lemma InsertionAtEnd(text: string, made: seq<Replacement>, r: Replacement, x: Replacement, left: string, middle: string, right: string)
    requires ApplyInOrder(text, made) == left + middle + right && |middle| == r.length > 0
    requires |left| == r.offset + Shift(made, r.offset) && InsertionAt(x, r.offset + r.length)
    requires Shift(made, x.offset) == Shift(made, r.offset)
    ensures ApplyInOrder(text, made + [r] + [x]) == ApplyInOrder(text, made + [x] + [r]) == left + (r.text + x.text) + right
  {
    assert ApplyInOrder(text, made + [r] + [x]) == left + (r.text + x.text) + right by {
      EditBetween(text, made, r, left, middle, right);
      ShiftOneMore(made, r, x.offset);
      InsertBetween(text, made + [r], x, left + r.text, right);
      Assoc(left, r.text, x.text);
    }
    assert ApplyInOrder(text, made + [x] + [r]) == left + (r.text + x.text) + right by {
      InsertBetween(text, made, x, left + middle, right);
      Assoc(left + middle, x.text, right);
      ShiftOneMore(made, x, r.offset);
      EditBetween(text, made + [x], r, left, middle, x.text + right);
      Regrouped(left, r.text, x.text, right);
    }
  }

  lemma Regrouped(a: string, b: string, c: string, d: string)
    ensures a + b + (c + d) == a + (b + c) + d
  {
  }

  /** One fix that takes a name away and puts another in its place, as two edits. */
  lemma RenamedEitherWay(name: string, newName: string, rest: string)
    requires 0 < |name| < INT_LIMIT
    ensures var removal, insertion := Replacement("f", 0, |name|, ""), Replacement("f", 0, 0, newName);
            && FixOk([removal, insertion])
            && ApplyInOrder(name + rest, [removal, insertion]) == newName + rest
            && ApplyInOrder(name + rest, [insertion, removal]) == newName + rest
  {
    var removal, insertion := Replacement("f", 0, |name|, ""), Replacement("f", 0, 0, newName);
    RemovalAndInsertionOk(removal, insertion);
    Alone(name, rest);
    Alone(newName, rest);
    InsertionAtStart(name + rest, [], removal, insertion, "", name, rest);
    InOrder(removal, insertion);
    InOrder(insertion, removal);
  }

  lemma RemovalAndInsertionOk(removal: Replacement, insertion: Replacement)
    requires removal.offset + removal.length < INT_LIMIT && InsertionAt(insertion, removal.offset)
    ensures FixOk([removal, insertion])
  {
    SizeOfOne(removal);
    assert [removal, insertion][..1] == [removal];
  }

  lemma Alone(name: string, rest: string)
    ensures "" + name + rest == name + rest && "" + (name + "") + rest == name + rest
  {
  }

  lemma InOrder(a: Replacement, b: Replacement)
    ensures [] + [a] + [b] == [a, b]
  {
  }

  lemma ApplyTwo(text: string, a: Replacement, b: Replacement)
    ensures ApplyInOrder(text, [a, b]) ==
            Splice(Splice(text, a.offset, a.length, a.text),
                   b.offset + if a.offset + a.length <= b.offset then |a.text| - a.length else 0, b.length, b.text)
  {
    ApplyTwoMore(text, [], a, b, a.offset, b.offset + if a.offset + a.length <= b.offset then |a.text| - a.length else 0);
    InOrder(a, b);
  }
}
