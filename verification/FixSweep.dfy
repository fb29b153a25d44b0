/**
 The sweep of removeIncompatibleErrors: events are built, sorted and swept with a
 counter of open intervals, and a fix is cleared when one of its endpoints meets
 an open interval.
 */
module FixSweep {
  import opened FixIntervals

  // ---------- Events of a set of intervals ----------

  /** The endpoints of distinct, ordinary intervals, each exactly once. */
  ghost predicate Endpoints(events: seq<Event>, s: set<Interval>) {
    && (forall x :: x in s ==> IntervalOk(x))
    && (forall e :: e in events <==> e.iv in s)
    && (forall j, k :: 0 <= j < k < |events| ==> events[j] != events[k])
  }

  ghost predicate Sorted(events: seq<Event>) {
    forall j, k :: 0 <= j < k < |events| ==> !Less(events[k], events[j])
  }

  lemma BeforeTotal(a: Event, b: Event)
    requires IntervalOk(a.iv) && IntervalOk(b.iv) && a != b
    ensures Before(a, b) <==> !Before(b, a)
  {
  }

  /** In the sorted list an event stands before another exactly when it precedes
      it in the tie-breaking order. */
  lemma PositionIsOrder(events: seq<Event>, s: set<Interval>, k: nat, e: Event)
    requires Endpoints(events, s) && Sorted(events) && k < |events| && e.iv in s
    ensures e in events[..k] <==> Before(e, events[k])
  {
    var j :| 0 <= j < |events| && events[j] == e;
    LessIsBefore(e, events[k]);
    LessIsBefore(events[k], e);
    if j != k {
      BeforeTotal(e, events[k]);
    }
    if j < k {
      assert events[..k][j] == e;
    } else {
      assert e !in events[..k];
    }
  }

  /** The intervals whose begin has been swept and whose end has not. */
  ghost predicate IsOpen(events: seq<Event>, k: nat, x: Interval)
    requires k <= |events|
  {
    Event(Begin, x) in events[..k] && Event(End, x) !in events[..k]
  }

  /** An endpoint of `x` falls while another interval is open. */
  ghost predicate Clashes(s: set<Interval>, x: Interval) {
    exists y :: y in s && y != x && Straddles(y, x)
  }

  lemma OpenAtEvent(events: seq<Event>, s: set<Interval>, k: nat, y: Interval)
    requires Endpoints(events, s) && Sorted(events) && k < |events| && y in s && y != events[k].iv
    ensures IsOpen(events, k, y) <==> Before(Event(Begin, y), events[k]) && Before(events[k], Event(End, y))
  {
    PositionIsOrder(events, s, k, Event(Begin, y));
    PositionIsOrder(events, s, k, Event(End, y));
    BeforeTotal(events[k], Event(End, y));
  }

  ghost function OpenSet(events: seq<Event>, k: nat, s: set<Interval>): set<Interval>
    requires k <= |events|
  {
    set x | x in s && IsOpen(events, k, x)
  }

  lemma OpenStep(events: seq<Event>, s: set<Interval>, k: nat, x: Interval)
    requires Endpoints(events, s) && Sorted(events) && k < |events| && x in s
    ensures x != events[k].iv ==> (IsOpen(events, k + 1, x) <==> IsOpen(events, k, x))
    ensures x == events[k].iv ==> (IsOpen(events, k + 1, x) <==> events[k].kind == Begin)
    ensures x == events[k].iv ==> (IsOpen(events, k, x) <==> events[k].kind == End)
  {
    assert events[..k + 1] == events[..k] + [events[k]];
    if x == events[k].iv {
      PositionIsOrder(events, s, k, Event(Begin, x));
      PositionIsOrder(events, s, k, Event(End, x));
    }
  }

  /** What one loop iteration does to the set of open intervals. */
  lemma SweepStep(events: seq<Event>, s: set<Interval>, k: nat)
    requires Endpoints(events, s) && Sorted(events) && k < |events|
    ensures var e := events[k];
            var before, after := OpenSet(events, k, s), OpenSet(events, k + 1, s);
            && (e.kind == Begin ==> e.iv !in before && after == before + {e.iv})
            && (e.kind == End ==> e.iv in before && after == before - {e.iv})
  {
    forall x | x in s
      ensures x != events[k].iv ==> (IsOpen(events, k + 1, x) <==> IsOpen(events, k, x))
      ensures x == events[k].iv ==> (IsOpen(events, k + 1, x) <==> events[k].kind == Begin)
      ensures x == events[k].iv ==> (IsOpen(events, k, x) <==> events[k].kind == End)
    {
      OpenStep(events, s, k, x);
    }
  }

  /** Event `k` is swept while an interval other than its own is open. */
  ghost predicate ClashAt(events: seq<Event>, s: set<Interval>, k: nat)
    requires k < |events|
  {
    OpenSet(events, k, s) - {events[k].iv} != {}
  }

  /** The errors with an event before `k` that meets another open interval. */
  ghost function Marked(events: seq<Event>, s: set<Interval>, k: nat): set<nat>
    requires k <= |events|
  {
    if k == 0 then {}
    else if ClashAt(events, s, k - 1) then Marked(events, s, k - 1) + {events[k - 1].iv.errorId}
    else Marked(events, s, k - 1)
  }

  ghost function OpenCount(events: seq<Event>, s: set<Interval>, k: nat): nat
    requires k <= |events|
  {
    |OpenSet(events, k, s)|
  }

  /** The counter's step: before the check it excludes the event's own interval. */
  lemma CountStep(events: seq<Event>, s: set<Interval>, k: nat)
    requires Endpoints(events, s) && Sorted(events) && k < |events|
    ensures var ending := if events[k].kind == End then 1 else 0;
            && OpenCount(events, s, k + 1) == OpenCount(events, s, k) + 1 - 2 * ending
            && (ClashAt(events, s, k) <==> OpenCount(events, s, k) - ending != 0)
  {
    SweepStep(events, s, k);
    var before, x := OpenSet(events, k, s), events[k].iv;
    assert events[k].kind == Begin ==> before - {x} == before;
  }

  lemma CountAtEnds(events: seq<Event>, s: set<Interval>)
    requires Endpoints(events, s)
    ensures OpenCount(events, s, 0) == 0 && OpenCount(events, s, |events|) == 0
  {
    assert OpenSet(events, 0, s) == {};
    assert events[..|events|] == events;
    assert OpenSet(events, |events|, s) == {};
  }

  /** One file's sweep. The counter is the number of open intervals: it is never
      negative and ends at zero, and exactly the errors with an event that meets
      another open interval are marked. */
  method Sweep(events: seq<Event>, apply: array<bool>, ghost s: set<Interval>) returns (openIntervals: int)
    requires Endpoints(events, s) && Sorted(events)
    requires forall x :: x in s ==> x.errorId < apply.Length
    modifies apply
    ensures openIntervals == 0
    ensures forall i :: 0 <= i < apply.Length ==> (apply[i] <==> old(apply[i]) && i !in Marked(events, s, |events|))
  {
    CountAtEnds(events, s);
    openIntervals := 0;
    for k := 0 to |events|
      invariant openIntervals == OpenCount(events, s, k) >= 0
      invariant forall i :: 0 <= i < apply.Length ==> (apply[i] <==> old(apply[i]) && i !in Marked(events, s, k))
    {
      var e := events[k];
      CountStep(events, s, k);
      if e.kind == End {
        openIntervals := openIntervals - 1;
      }
      if openIntervals != 0 {
        apply[e.iv.errorId] := false;
      }
      if e.kind == Begin {
        openIntervals := openIntervals + 1;
      }
    }
  }

  // ---------- What the marks mean ----------

  lemma {:induction false} MarkedAt(events: seq<Event>, s: set<Interval>, k: nat, i: nat)
    requires k <= |events|
    ensures i in Marked(events, s, k) <==> exists j :: 0 <= j < k && events[j].iv.errorId == i && ClashAt(events, s, j)
  {
    if k > 0 {
      MarkedAt(events, s, k - 1, i);
    }
  }

  lemma ClashAtMeansStraddled(events: seq<Event>, s: set<Interval>, j: nat)
    requires Endpoints(events, s) && Sorted(events) && j < |events|
    requires ClashAt(events, s, j)
    ensures Clashes(s, events[j].iv)
  {
    var y :| y in OpenSet(events, j, s) - {events[j].iv};
    OpenAtEvent(events, s, j, y);
    assert Straddles(y, events[j].iv);
  }

  lemma StraddledMeansClashAt(events: seq<Event>, s: set<Interval>, x: Interval) returns (j: nat)
    requires Endpoints(events, s) && Sorted(events) && x in s && Clashes(s, x)
    ensures j < |events| && events[j].iv == x && ClashAt(events, s, j)
  {
    var y :| y in s && y != x && Straddles(y, x);
    var kind := if Before(Event(Begin, y), Event(Begin, x)) && Before(Event(Begin, x), Event(End, y)) then Begin else End;
    assert Event(kind, x) in events;
    j :| 0 <= j < |events| && events[j] == Event(kind, x);
    OpenAtEvent(events, s, j, y);
    assert y in OpenSet(events, j, s) - {x};
  }

  /** An error is marked exactly when one of its intervals has an endpoint at
      which another interval is open. */
  lemma MarkedMeansClash(events: seq<Event>, s: set<Interval>, i: nat)
    requires Endpoints(events, s) && Sorted(events)
    ensures i in Marked(events, s, |events|) <==> exists x :: x in s && x.errorId == i && Clashes(s, x)
  {
    MarkedAt(events, s, |events|, i);
    if i in Marked(events, s, |events|) {
      var j :| 0 <= j < |events| && events[j].iv.errorId == i && ClashAt(events, s, j);
      ClashAtMeansStraddled(events, s, j);
    }
    if x :| x in s && x.errorId == i && Clashes(s, x) {
      var j := StraddledMeansClashAt(events, s, x);
    }
  }
}
