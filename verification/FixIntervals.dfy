/**
 The intervals of clang-tidy fixes, the order in which removeIncompatibleErrors
 sweeps over their endpoints, and what it means for a fix to be compatible.
 */
module FixIntervals {
  /** An edit of one file; Fix is kept as one list over all files. */
  datatype Replacement = Replacement(filePath: string, offset: nat, length: nat, text: string)

  datatype TidyError = TidyError(message: string, fix: seq<Replacement>, notes: seq<string>)

  const UINT_RANGE := 0x1_0000_0000
  const INT_LIMIT := 0x8000_0000

  function Size(fix: seq<Replacement>): nat {
    if fix == [] then 0 else Size(fix[..|fix| - 1]) + fix[|fix| - 1].length
  }

  lemma SizeOfOne(r: Replacement)
    ensures Size([]) == 0 && Size([r]) == r.length
  {
    assert [r][..0] == [];
    assert Size([r]) == Size([r][..0]) + r.length;
  }

  /** The size of a fix is the sum of its lengths, however it is split. */
  lemma {:induction false} SizeAddsUp(a: seq<Replacement>, b: seq<Replacement>)
    ensures Size(a + b) == Size(a) + Size(b)
  {
    if b == [] {
      assert a + b == a;
    } else {
      assert (a + b)[..|a + b| - 1] == a + b[..|b| - 1];
      SizeAddsUp(a, b[..|b| - 1]);
    }
  }

  /** A non-empty replacement: where it begins and ends, and the index and total
      size of its error. */
  datatype Interval = Interval(begin: nat, end: nat, errorId: nat, errorSize: nat)

  datatype EventType = Begin | End

  datatype Event = Event(kind: EventType, iv: Interval)

  // ---------- The sweep order ----------

  /** Unary minus on a 32-bit unsigned value. */
  function Negate(x: nat): int {
    if x == 0 then 0 else UINT_RANGE - x
  }

  /** A 32-bit unsigned value stored in an int of the tuple. */
  function ToInt(w: int): int {
    if w < INT_LIMIT then w else w - UINT_RANGE
  }

  datatype Priority = Priority(position: int, kind: int, complement: int, size: int, errorId: int)

  function PriorityOf(e: Event): Priority {
    match e.kind
    case Begin => Priority(e.iv.begin, 1, ToInt(Negate(e.iv.end)), ToInt(Negate(e.iv.errorSize)), e.iv.errorId)
    case End => Priority(e.iv.end, -1, ToInt(Negate(e.iv.begin)), ToInt(e.iv.errorSize), e.iv.errorId)
  }

  /** The lexicographic order of std::tuple. */
  predicate TupleLess(a: Priority, b: Priority) {
    if a.position != b.position then a.position < b.position
    else if a.kind != b.kind then a.kind < b.kind
    else if a.complement != b.complement then a.complement < b.complement
    else if a.size != b.size then a.size < b.size
    else a.errorId < b.errorId
  }

  predicate Less(a: Event, b: Event) {
    TupleLess(PriorityOf(a), PriorityOf(b))
  }

  predicate IntervalOk(x: Interval) {
    x.begin < x.end < INT_LIMIT && x.errorSize < INT_LIMIT
  }

  /** The tie-breaking order without its machine integers. */
  predicate Before(a: Event, b: Event) {
    match (a.kind, b.kind)
    case (Begin, Begin) =>
      a.iv.begin < b.iv.begin || (a.iv.begin == b.iv.begin &&
      (a.iv.end > b.iv.end || (a.iv.end == b.iv.end &&
      (a.iv.errorSize > b.iv.errorSize || (a.iv.errorSize == b.iv.errorSize && a.iv.errorId < b.iv.errorId)))))
    case (End, End) =>
      a.iv.end < b.iv.end || (a.iv.end == b.iv.end &&
      (a.iv.begin > b.iv.begin || (a.iv.begin == b.iv.begin &&
      (a.iv.errorSize < b.iv.errorSize || (a.iv.errorSize == b.iv.errorSize && a.iv.errorId < b.iv.errorId)))))
    case (Begin, End) => a.iv.begin < b.iv.end
    case (End, Begin) => a.iv.end <= b.iv.begin
  }

  lemma LessIsBefore(a: Event, b: Event)
    requires IntervalOk(a.iv) && IntervalOk(b.iv)
    ensures Less(a, b) <==> Before(a, b)
  {
  }

  // ---------- Compatibility ----------

  predicate Overlap(x: Interval, y: Interval) {
    x.begin < y.end && y.begin < x.end
  }

  /** `y` lies inside `x`, and strictly: it is shorter, or its error is smaller. */
  predicate StrictlyInside(y: Interval, x: Interval) {
    && x.begin <= y.begin && y.end <= x.end
    && (x.begin < y.begin || y.end < x.end || y.errorSize < x.errorSize)
  }

  /** An endpoint of `x` falls while `y` is open. */
  predicate Straddles(y: Interval, x: Interval) {
    || (Before(Event(Begin, y), Event(Begin, x)) && Before(Event(Begin, x), Event(End, y)))
    || (Before(Event(Begin, y), Event(End, x)) && Before(Event(End, x), Event(End, y)))
  }

  /** What the tie-breaking tuple is for: `y` is open at an endpoint of `x`
      exactly when they overlap and `y` is not strictly inside `x`. */
  lemma StraddlesExactly(x: Interval, y: Interval)
    requires x.begin < x.end && y.begin < y.end
    requires x.errorId == y.errorId ==> !Overlap(x, y)
    ensures Straddles(y, x) <==> Overlap(x, y) && !StrictlyInside(y, x)
  {
  }

  /** The intervals of error `i` in `file`. */
  ghost predicate HasInterval(errors: seq<TidyError>, file: string, x: Interval) {
    && x.errorId < |errors|
    && x.errorSize == Size(errors[x.errorId].fix)
    && exists j :: 0 <= j < |errors[x.errorId].fix| && Covers(errors[x.errorId].fix[j], file, x)
  }

  predicate Covers(r: Replacement, file: string, x: Interval) {
    r.filePath == file && r.length > 0 && x.begin == r.offset && x.end == r.offset + r.length
  }

  /** What the clang-tidy replacement sets guarantee: offsets and sizes fit an int
      and the non-empty replacements of one error do not overlap in a file. */
  ghost predicate WellFormed(errors: seq<TidyError>) {
    forall i :: 0 <= i < |errors| ==> FixOk(errors[i].fix)
  }

  predicate FixOk(fix: seq<Replacement>) {
    && Size(fix) < INT_LIMIT
    && (forall j :: 0 <= j < |fix| ==> fix[j].offset + fix[j].length < INT_LIMIT)
    && (forall j, k :: 0 <= j < k < |fix| ==> Disjoint(fix[j], fix[k]))
  }

  predicate Disjoint(a: Replacement, b: Replacement) {
    a.filePath != b.filePath || a.length == 0 || b.length == 0 || a.offset + a.length <= b.offset || b.offset + b.length <= a.offset
  }

  /** Error `i` keeps its fix: whatever overlaps one of its intervals lies
      strictly inside it. */
  ghost predicate Kept(errors: seq<TidyError>, i: nat) {
    forall file, x, y ::
      HasInterval(errors, file, x) && x.errorId == i && HasInterval(errors, file, y) && y != x && Overlap(x, y)
      ==> StrictlyInside(y, x)
  }

  /** Hence two kept errors never touch the same text. */
  lemma KeptErrorsDisjoint(errors: seq<TidyError>, i: nat, j: nat, file: string, x: Interval, y: Interval)
    requires Kept(errors, i) && Kept(errors, j)
    requires HasInterval(errors, file, x) && x.errorId == i
    requires HasInterval(errors, file, y) && y.errorId == j
    requires i != j
    ensures !Overlap(x, y)
  {
  }
}
