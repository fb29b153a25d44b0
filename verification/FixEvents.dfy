/**
 Building and sorting the events of every file, and removeIncompatibleErrors as a
 whole: it clears exactly the fixes that are not Kept.
 */
module FixEvents {
  import opened FixIntervals
  import opened FixSweep

  // ---------- The events of one file ----------

  function IntervalOf(r: Replacement, id: nat, size: nat): Interval {
    Interval(r.offset, r.offset + r.length, id, size)
  }

  function EventsOf(r: Replacement, file: string, id: nat, size: nat): seq<Event> {
    if r.filePath == file && r.length > 0 then [Event(Begin, IntervalOf(r, id, size)), Event(End, IntervalOf(r, id, size))]
    else []
  }

  /** The events of the first j replacements of a fix. */
  function FixEventsUpTo(fix: seq<Replacement>, j: nat, file: string, id: nat, size: nat): seq<Event>
    requires j <= |fix|
  {
    if j == 0 then [] else FixEventsUpTo(fix, j - 1, file, id, size) + EventsOf(fix[j - 1], file, id, size)
  }

  function FixEventsOf(fix: seq<Replacement>, file: string, id: nat, size: nat): seq<Event> {
    FixEventsUpTo(fix, |fix|, file, id, size)
  }

  /** FileEvents[file] after the first n errors. */
  function FileEvents(errors: seq<TidyError>, file: string, n: nat): seq<Event>
    requires n <= |errors|
  {
    if n == 0 then []
    else FileEvents(errors, file, n - 1) + FixEventsOf(errors[n - 1].fix, file, n - 1, Size(errors[n - 1].fix))
  }

  ghost predicate Distinct(events: seq<Event>) {
    forall j, k :: 0 <= j < k < |events| ==> events[j] != events[k]
  }

  lemma ConcatDistinct(a: seq<Event>, b: seq<Event>)
    requires Distinct(a) && Distinct(b) && forall e :: e in b ==> e !in a
    ensures Distinct(a + b)
  {
    forall j, k | 0 <= j < |a| && |a| <= k < |a + b|
      ensures (a + b)[j] != (a + b)[k]
    {
      assert b[k - |a|] in b && a[j] in a;
    }
  }

  lemma EventsOfExact(r: Replacement, file: string, id: nat, size: nat, e: Event)
    ensures e in EventsOf(r, file, id, size) <==> e.iv.errorId == id && e.iv.errorSize == size && Covers(r, file, e.iv)
  {
    if Covers(r, file, e.iv) && e.iv.errorId == id && e.iv.errorSize == size {
      assert e.iv == IntervalOf(r, id, size);
      assert e.kind == Begin || e.kind == End;
    }
  }

  lemma {:induction false} FixEventsExact(fix: seq<Replacement>, n: nat, file: string, id: nat, size: nat, e: Event)
    requires n <= |fix|
    ensures e in FixEventsUpTo(fix, n, file, id, size) <==>
            e.iv.errorId == id && e.iv.errorSize == size && exists j :: 0 <= j < n && Covers(fix[j], file, e.iv)
  {
    if n > 0 {
      FixEventsExact(fix, n - 1, file, id, size, e);
      EventsOfExact(fix[n - 1], file, id, size, e);
    }
  }

  lemma {:induction false} FixEventsDistinct(fix: seq<Replacement>, n: nat, file: string, id: nat, size: nat)
    requires n <= |fix| && forall j, k :: 0 <= j < k < |fix| ==> Disjoint(fix[j], fix[k])
    ensures Distinct(FixEventsUpTo(fix, n, file, id, size))
  {
    if n > 0 {
      FixEventsDistinct(fix, n - 1, file, id, size);
      var before, more := FixEventsUpTo(fix, n - 1, file, id, size), EventsOf(fix[n - 1], file, id, size);
      forall e | e in more
        ensures e !in before
      {
        FixEventsExact(fix, n - 1, file, id, size, e);
        assert forall j :: 0 <= j < n - 1 ==> Disjoint(fix[j], fix[n - 1]);
      }
      ConcatDistinct(before, more);
    }
  }

  /** An interval of one of the first n errors. */
  ghost predicate HasIntervalUpTo(errors: seq<TidyError>, file: string, n: nat, x: Interval) {
    HasInterval(errors, file, x) && x.errorId < n
  }

  lemma {:induction false} FileEventsExact(errors: seq<TidyError>, file: string, n: nat, e: Event)
    requires n <= |errors|
    ensures e in FileEvents(errors, file, n) <==> HasIntervalUpTo(errors, file, n, e.iv)
  {
    if n > 0 {
      FileEventsExact(errors, file, n - 1, e);
      FixEventsExact(errors[n - 1].fix, |errors[n - 1].fix|, file, n - 1, Size(errors[n - 1].fix), e);
    }
  }

  lemma {:induction false} FileEventsDistinct(errors: seq<TidyError>, file: string, n: nat)
    requires n <= |errors| && WellFormed(errors)
    ensures Distinct(FileEvents(errors, file, n))
  {
    if n > 0 {
      FileEventsDistinct(errors, file, n - 1);
      var fix := errors[n - 1].fix;
      assert FixOk(fix);
      FixEventsDistinct(fix, |fix|, file, n - 1, Size(fix));
      var before, more := FileEvents(errors, file, n - 1), FixEventsOf(fix, file, n - 1, Size(fix));
      forall e | e in more
        ensures e !in before
      {
        FixEventsExact(fix, |fix|, file, n - 1, Size(fix), e);
        FileEventsExact(errors, file, n - 1, e);
      }
      ConcatDistinct(before, more);
    }
  }

  ghost function IntervalsIn(events: seq<Event>): set<Interval> {
    set e | e in events :: e.iv
  }

  lemma FileEndpoints(errors: seq<TidyError>, file: string)
    requires WellFormed(errors)
    ensures var events := FileEvents(errors, file, |errors|);
            && Endpoints(events, IntervalsIn(events))
            && forall x :: x in IntervalsIn(events) <==> HasInterval(errors, file, x)
  {
    var events := FileEvents(errors, file, |errors|);
    FileEventsDistinct(errors, file, |errors|);
    forall e: Event
      ensures e in events <==> HasInterval(errors, file, e.iv)
    {
      FileEventsExact(errors, file, |errors|, e);
    }
    forall x
      ensures x in IntervalsIn(events) <==> HasInterval(errors, file, x)
    {
      assert HasInterval(errors, file, x) <==> Event(Begin, x) in events;
    }
    forall x | x in IntervalsIn(events)
      ensures IntervalOk(x)
    {
      assert HasInterval(errors, file, x) && FixOk(errors[x.errorId].fix);
    }
  }

  // ---------- Sorting ----------

  lemma TupleLessTransitive(a: Event, b: Event, c: Event)
    requires !Less(b, a) && !Less(c, b)
    ensures !Less(c, a)
  {
  }

  function InsertSorted(e: Event, sorted: seq<Event>): seq<Event> {
    if sorted == [] || Less(e, sorted[0]) then [e] + sorted else [sorted[0]] + InsertSorted(e, sorted[1..])
  }

  /** The contract of std::sort with Event's operator<. */
  function SortEvents(events: seq<Event>): seq<Event> {
    if events == [] then [] else InsertSorted(events[0], SortEvents(events[1..]))
  }

  lemma {:induction false} InsertSortedOk(e: Event, sorted: seq<Event>)
    requires Sorted(sorted)
    ensures Sorted(InsertSorted(e, sorted))
    ensures multiset(InsertSorted(e, sorted)) == multiset(sorted) + multiset{e}
  {
    var r := InsertSorted(e, sorted);
    if sorted != [] {
      assert sorted == [sorted[0]] + sorted[1..];
      if Less(e, sorted[0]) {
        forall k | 0 < k < |r|
          ensures !Less(r[k], e)
        {
          if k > 1 {
            assert !Less(sorted[k - 1], sorted[0]);
            TupleLessTransitive(e, sorted[0], sorted[k - 1]);
          }
        }
      } else {
        InsertSortedOk(e, sorted[1..]);
        forall k | 0 < k < |r|
          ensures !Less(r[k], sorted[0])
        {
          assert r[k] in multiset(r[1..]);
          if r[k] != e {
            assert r[k] in sorted[1..];
          }
        }
      }
    }
  }

  lemma {:induction false} SortEventsOk(events: seq<Event>)
    ensures Sorted(SortEvents(events))
    ensures multiset(SortEvents(events)) == multiset(events)
  {
    if events != [] {
      assert events == [events[0]] + events[1..];
      SortEventsOk(events[1..]);
      InsertSortedOk(events[0], SortEvents(events[1..]));
    }
  }

  lemma {:induction false} DistinctCounts(events: seq<Event>, e: Event)
    ensures Distinct(events) ==> multiset(events)[e] <= 1
    ensures forall j, k :: 0 <= j < k < |events| && events[j] == e == events[k] ==> multiset(events)[e] >= 2
  {
    if events != [] {
      var n := |events| - 1;
      DistinctCounts(events[..n], e);
      assert events == events[..n] + [events[n]];
      if events[n] == e {
        assert e in events[..n] <==> exists j :: 0 <= j < n && events[j] == e;
        assert e in events[..n] <==> e in multiset(events[..n]);
      }
    }
  }

  /** Sorting keeps the endpoints what they are. */
  lemma SortedEndpoints(events: seq<Event>, s: set<Interval>)
    requires Endpoints(events, s)
    ensures Endpoints(SortEvents(events), s) && Sorted(SortEvents(events))
  {
    var r := SortEvents(events);
    SortEventsOk(events);
    forall e: Event
      ensures e in r <==> e in events
    {
      assert e in multiset(r) <==> e in multiset(events);
    }
    forall j, k | 0 <= j < k < |r|
      ensures r[j] != r[k]
    {
      DistinctCounts(events, r[j]);
      DistinctCounts(r, r[j]);
    }
  }

  // ---------- removeIncompatibleErrors ----------

  function Get(m: map<string, seq<Event>>, file: string): seq<Event> {
    if file in m then m[file] else []
  }

  method ComputeSizes(errors: seq<TidyError>) returns (sizes: seq<nat>)
    ensures |sizes| == |errors| && forall i :: 0 <= i < |errors| ==> sizes[i] == Size(errors[i].fix)
  {
    sizes := [];
    for i := 0 to |errors|
      invariant |sizes| == i && forall j :: 0 <= j < i ==> sizes[j] == Size(errors[j].fix)
    {
      var size, fix := 0, errors[i].fix;
      for j := 0 to |fix|
        invariant size == Size(fix[..j])
      {
        size := size + fix[j].length;
        assert fix[..j + 1][..j] == fix[..j];
      }
      assert fix[..|fix|] == fix;
      sizes := sizes + [size];
    }
  }

  /** The body of the innermost loop: two events, unless the edit is empty. */
  method AddEvents(fileEvents: map<string, seq<Event>>, r: Replacement, id: nat, size: nat)
    returns (after: map<string, seq<Event>>)
    ensures forall file :: Get(after, file) == Get(fileEvents, file) + EventsOf(r, file, id, size)
  {
    var begin, end := r.offset, r.offset + r.length;
    if begin == end {
      return fileEvents;
    }
    var iv := Interval(begin, end, id, size);
    return fileEvents[r.filePath := Get(fileEvents, r.filePath) + [Event(Begin, iv), Event(End, iv)]];
  }

  method BuildEvents(errors: seq<TidyError>, sizes: seq<nat>) returns (fileEvents: map<string, seq<Event>>)
    requires |sizes| == |errors| && forall i :: 0 <= i < |errors| ==> sizes[i] == Size(errors[i].fix)
    ensures Built(fileEvents, errors, |errors|)
  {
    fileEvents := map[];
    assert Built(fileEvents, errors, 0) by {
      forall file
        ensures Get(fileEvents, file) == FileEvents(errors, file, 0)
      {
      }
    }
    for i := 0 to |errors|
      invariant Built(fileEvents, errors, i)
    {
      var after := AddFixEvents(fileEvents, errors[i].fix, i, sizes[i]);
      BuiltSnoc(fileEvents, after, errors, i, sizes[i]);
      fileEvents := after;
    }
  }

  ghost predicate Built(fileEvents: map<string, seq<Event>>, errors: seq<TidyError>, n: nat)
    requires n <= |errors|
  {
    forall file :: Get(fileEvents, file) == FileEvents(errors, file, n)
  }

  ghost predicate Extended(before: map<string, seq<Event>>, after: map<string, seq<Event>>, fix: seq<Replacement>, id: nat, size: nat) {
    forall file :: Get(after, file) == Get(before, file) + FixEventsOf(fix, file, id, size)
  }

  lemma BuiltSnoc(before: map<string, seq<Event>>, after: map<string, seq<Event>>, errors: seq<TidyError>, i: nat, size: nat)
    requires i < |errors| && Built(before, errors, i) && size == Size(errors[i].fix)
    requires Extended(before, after, errors[i].fix, i, size)
    ensures Built(after, errors, i + 1)
  {
    forall file
      ensures Get(after, file) == FileEvents(errors, file, i + 1)
    {
      assert Get(before, file) == FileEvents(errors, file, i);
    }
  }

  /** The two inner loops, over the files of one fix and their replacements. */
  method AddFixEvents(fileEvents: map<string, seq<Event>>, fix: seq<Replacement>, id: nat, size: nat)
    returns (after: map<string, seq<Event>>)
    ensures Extended(fileEvents, after, fix, id, size)
  {
    after := fileEvents;
    for j := 0 to |fix|
      invariant forall file :: Get(after, file) == Get(fileEvents, file) + FixEventsUpTo(fix, j, file, id, size)
    {
      after := AddEvents(after, fix[j], id, size);
    }
  }

  // ---------- The verdicts ----------

  /** Some interval of error `i` in `file` clashes. */
  ghost predicate ClashesIn(errors: seq<TidyError>, file: string, i: nat) {
    var s := IntervalsIn(FileEvents(errors, file, |errors|));
    exists x :: x in s && x.errorId == i && Clashes(s, x)
  }

  /** The sweeps of all files together mark exactly the errors not Kept. */
  lemma ClashesMeansNotKept(errors: seq<TidyError>, i: nat)
    requires WellFormed(errors)
    ensures (exists file :: ClashesIn(errors, file, i)) <==> !Kept(errors, i)
  {
    if file :| ClashesIn(errors, file, i) {
      var s := IntervalsIn(FileEvents(errors, file, |errors|));
      FileEndpoints(errors, file);
      var x :| x in s && x.errorId == i && Clashes(s, x);
      var y :| y in s && y != x && Straddles(y, x);
      SameErrorDisjoint(errors, file, x, y);
      StraddlesExactly(x, y);
      assert HasInterval(errors, file, x) && HasInterval(errors, file, y);
    }
    if !Kept(errors, i) {
      var file, x, y :| HasInterval(errors, file, x) && x.errorId == i && HasInterval(errors, file, y) && y != x
                        && Overlap(x, y) && !StrictlyInside(y, x);
      FileEndpoints(errors, file);
      SameErrorDisjoint(errors, file, x, y);
      StraddlesExactly(x, y);
      assert ClashesIn(errors, file, i);
    }
  }

  lemma SameErrorDisjoint(errors: seq<TidyError>, file: string, x: Interval, y: Interval)
    requires WellFormed(errors) && HasInterval(errors, file, x) && HasInterval(errors, file, y) && x != y
    ensures x.begin < x.end && y.begin < y.end
    ensures x.errorId == y.errorId ==> !Overlap(x, y)
  {
    var fix := errors[x.errorId].fix;
    var j :| 0 <= j < |fix| && Covers(fix[j], file, x);
    if x.errorId == y.errorId {
      var k :| 0 <= k < |fix| && Covers(fix[k], file, y);
      assert FixOk(fix);
      assert j != k;
      assert if j < k then Disjoint(fix[j], fix[k]) else Disjoint(fix[k], fix[j]);
    }
  }

  const OVERLAP_NOTE := "this fix will not be applied because it overlaps with another fix"

  function WithoutFix(error: TidyError): TidyError {
    TidyError(error.message, [], error.notes + [OVERLAP_NOTE])
  }

  /** No interval of error `i` clashes in one of `files`. */
  ghost predicate Spared(errors: seq<TidyError>, files: set<string>, i: nat) {
    forall file :: file in files ==> !ClashesIn(errors, file, i)
  }

  lemma SparedEverywhere(errors: seq<TidyError>, fileEvents: map<string, seq<Event>>, i: nat)
    requires WellFormed(errors) && Built(fileEvents, errors, |errors|)
    ensures Spared(errors, fileEvents.Keys, i) <==> Kept(errors, i)
  {
    ClashesMeansNotKept(errors, i);
    forall file | ClashesIn(errors, file, i)
      ensures file in fileEvents
    {
      assert Get(fileEvents, file) == FileEvents(errors, file, |errors|);
    }
  }

  /** The vector Apply after the sweeps of all files. */
  method ComputeApply(errors: seq<TidyError>) returns (apply: array<bool>)
    requires WellFormed(errors)
    ensures fresh(apply) && apply.Length == |errors|
    ensures forall i :: 0 <= i < |errors| ==> (apply[i] <==> Kept(errors, i))
  {
    var sizes := ComputeSizes(errors);
    var fileEvents := BuildEvents(errors, sizes);
    apply := new bool[|errors|](_ => true);
    var files := fileEvents.Keys;
    ghost var swept: set<string> := {};
    while files != {}
      invariant files <= fileEvents.Keys && swept == fileEvents.Keys - files
      invariant forall i :: 0 <= i < |errors| ==> (apply[i] <==> Spared(errors, swept, i))
      decreases |files|
    {
      var file :| file in files;
      assert Get(fileEvents, file) == FileEvents(errors, file, |errors|);
      SweepFile(fileEvents[file], file, errors, apply);
      files, swept := files - {file}, swept + {file};
    }
    assert swept == fileEvents.Keys;
    forall i | 0 <= i < |errors|
      ensures apply[i] <==> Kept(errors, i)
    {
      SparedEverywhere(errors, fileEvents, i);
    }
  }

  /** Main result: an error is left alone exactly when it is Kept, and otherwise
      loses its fix and gets a note. */
  method RemoveIncompatibleErrors(errors: array<TidyError>)
    requires WellFormed(errors[..])
    modifies errors
    ensures forall i :: 0 <= i < errors.Length && Kept(old(errors[..]), i) ==> errors[i] == old(errors[i])
    ensures forall i :: 0 <= i < errors.Length && !Kept(old(errors[..]), i) ==>
              && errors[i].message == old(errors[i]).message && errors[i].fix == []
              && errors[i].notes == old(errors[i]).notes + ["this fix will not be applied because it overlaps with another fix"]
  {
    ghost var input := errors[..];
    var apply := ComputeApply(errors[..]);
    ghost var kept := apply[..];
    for i := 0 to errors.Length
      invariant apply[..] == kept
      invariant forall j :: 0 <= j < errors.Length ==>
                  errors[j] == if j < i && !kept[j] then WithoutFix(input[j]) else input[j]
    {
      assert apply[i] == kept[i];
      if !apply[i] {
        errors[i] := WithoutFix(errors[i]);
      }
    }
  }

  /** One round of the loop over FileEvents: sort, then sweep. */
  method SweepFile(events: seq<Event>, ghost file: string, ghost errors: seq<TidyError>, apply: array<bool>)
    requires WellFormed(errors) && events == FileEvents(errors, file, |errors|) && apply.Length == |errors|
    modifies apply
    ensures forall i :: 0 <= i < apply.Length ==> (apply[i] <==> old(apply[i]) && !ClashesIn(errors, file, i))
  {
    ghost var s := IntervalsIn(events);
    FileEndpoints(errors, file);
    SortedEndpoints(events, s);
    var sorted := SortEvents(events);
    var openIntervals := Sweep(sorted, apply, s);
    assert openIntervals == 0;
    forall i | 0 <= i < apply.Length
      ensures i in Marked(sorted, s, |sorted|) <==> ClashesIn(errors, file, i)
    {
      MarkedMeansClash(sorted, s, i);
    }
  }
}
