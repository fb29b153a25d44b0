/**
 What every run of the ASTWorker queue keeps: the run is the run-everything
 reference on the requests that were not skipped, and each skip is justified by
 what follows in submission order.
 */
module WorkerTheorems {
  import opened Options
  import opened WorkerProtocol

  /** Request `i` may be dropped: no read can see its AST, and its diagnostics
      are unwanted or superseded by a later update that wants them. */
  predicate SkipJustified(rs: seq<Request>, i: nat)
    requires i < |rs|
  {
    && i + 1 < |rs|
    && rs[i].Update?
    && rs[i + 1].Update?
    && (rs[i].want == No || (rs[i].want == Auto && exists j :: i < j < |rs| && WantsDiags(rs[j])))
  }

  predicate Justified(rs: seq<Request>, ran: seq<bool>)
    requires |ran| <= |rs|
  {
    forall i :: 0 <= i < |ran| && !ran[i] ==> SkipJustified(rs, i)
  }

  function Kept(rs: seq<Request>, ran: seq<bool>): seq<Request>
    requires |ran| <= |rs|
  {
    if ran == [] then []
    else
      var n := |ran| - 1;
      if ran[n] then Kept(rs, ran[..n]) + [rs[n]] else Kept(rs, ran[..n])
  }

  function Popped(s: State): int {
    |s.ran| - if s.phase == Finished then 1 else 0
  }

  ghost predicate Inv(rebuild: Inputs -> Built, s: State) {
    && |s.ran| <= |s.submitted|
    && 0 <= Popped(s)
    && s.queue == s.submitted[Popped(s)..]
    && (s.phase.Taken? || s.phase.Finished? ==> s.queue != [])
    && (s.phase.Finished? ==> s.ran[|s.ran| - 1])
    && (s.phase.Exited? ==> s.done && s.queue == [])
    && (s.sync ==> s.phase.Waiting? && s.queue == [] && forall i :: 0 <= i < |s.ran| ==> s.ran[i])
    && Justified(s.submitted, s.ran)
    && RunAll(rebuild, Kept(s.submitted, s.ran)) == Outcome(s.mem, s.effects)
  }

  // ---------- Preservation ----------

  lemma {:induction false} KeptGrow(rs: seq<Request>, r: Request, ran: seq<bool>)
    requires |ran| <= |rs|
    ensures Kept(rs + [r], ran) == Kept(rs, ran)
  {
    if ran != [] {
      KeptGrow(rs, r, ran[..|ran| - 1]);
    }
  }

  lemma {:induction false} KeptSkip(rs: seq<Request>, ran: seq<bool>, n: nat)
    requires |ran| + n <= |rs|
    ensures Kept(rs, ran + Skips(n)) == Kept(rs, ran)
  {
    if n == 0 {
      assert ran + Skips(n) == ran;
    } else {
      var longer := ran + Skips(n);
      assert longer[..|longer| - 1] == ran + Skips(n - 1);
      KeptSkip(rs, ran, n - 1);
    }
  }

  lemma JustifiedGrow(rs: seq<Request>, r: Request, ran: seq<bool>)
    requires |ran| <= |rs| && Justified(rs, ran)
    ensures Justified(rs + [r], ran)
  {
    forall i | 0 <= i < |ran| && !ran[i]
      ensures SkipJustified(rs + [r], i)
    {
      assert SkipJustified(rs, i);
      if rs[i].want == Auto {
        var j :| i < j < |rs| && WantsDiags(rs[j]);
        assert WantsDiags((rs + [r])[j]);
      }
    }
  }

  /** The branches of the source skip the head exactly when that is justified. */
  lemma HeadSkippedExactly(q: seq<Request>)
    requires q != []
    ensures ShouldSkipHead(q) <==> SkipJustified(q, 0)
  {
  }

  lemma JustifiedInTail(q: seq<Request>, k: nat)
    requires 0 < k < |q|
    ensures SkipJustified(q, k) <==> SkipJustified(q[1..], k - 1)
  {
    if SkipJustified(q, k) && q[k].want == Auto {
      var j :| k < j < |q| && WantsDiags(q[j]);
      assert WantsDiags(q[1..][j - 1]);
    }
  }

  /** The skip loop removes every head that may be dropped, and stops at the first
      request that may not. */
  lemma {:induction false} DeadPrefixExact(q: seq<Request>, k: nat)
    requires k < |q|
    ensures k < DeadPrefix(q) ==> SkipJustified(q, k)
    ensures k == DeadPrefix(q) ==> !SkipJustified(q, k)
  {
    HeadSkippedExactly(q);
    if k > 0 && SkipJustified(q, 0) {
      JustifiedInTail(q, k);
      DeadPrefixExact(q[1..], k - 1);
    }
  }

  /** A request of the undecided rest may be dropped exactly when it may be dropped in
      the whole. */
  lemma JustifiedInRest(rs: seq<Request>, n: nat, i: nat)
    requires n <= i < |rs|
    ensures SkipJustified(rs[n..], i - n) <==> SkipJustified(rs, i)
  {
    var q := rs[n..];
    if SkipJustified(rs, i) && rs[i].want == Auto {
      var j :| i < j < |rs| && WantsDiags(rs[j]);
      assert WantsDiags(q[j - n]);
    }
  }

  /** Scheduling drops exactly the longest beginning of the queue that may be dropped, and
      records it as skipped: the head it leaves may not be dropped. */
  lemma ScheduleExactly(s: State) returns (n: nat)
    requires s.queue != []
    ensures n < |s.queue|
    ensures forall k :: 0 <= k < n ==> SkipJustified(s.queue, k)
    ensures !SkipJustified(s.queue, n) && !SkipJustified(ScheduleLocked(s).queue, 0)
    ensures ScheduleLocked(s) == s.(queue := s.queue[n..], ran := s.ran + Skips(n))
  {
    n := DeadPrefix(s.queue);
    forall k | 0 <= k < n
      ensures SkipJustified(s.queue, k)
    {
      DeadPrefixExact(s.queue, k);
    }
    DeadPrefixExact(s.queue, n);
    JustifiedInRest(s.queue, n, n);
  }

  /** Typing: of Auto updates that wait one after another only the last is built. */
  lemma TypingKeepsLast(s: State)
    requires s.queue != [] && forall i :: 0 <= i < |s.queue| ==> s.queue[i].Update? && s.queue[i].want == Auto
    ensures ScheduleLocked(s).queue == [s.queue[|s.queue| - 1]]
  {
    var n := ScheduleExactly(s);
    assert WantsDiags(s.queue[|s.queue| - 1]);
  }

  lemma SkipsAreJustified(rs: seq<Request>, ran: seq<bool>, n: nat)
    requires |ran| < |rs| && Justified(rs, ran)
    requires n == DeadPrefix(rs[|ran|..])
    ensures Justified(rs, ran + Skips(n))
  {
    var more := ran + Skips(n);
    forall i | 0 <= i < |more| && !more[i]
      ensures SkipJustified(rs, i)
    {
      if i < |ran| {
        assert !ran[i];
      } else {
        DeadPrefixExact(rs[|ran|..], i - |ran|);
        JustifiedInRest(rs, |ran|, i);
      }
    }
  }

  lemma RunRequestKept(rebuild: Inputs -> Built, s: State, r: Request)
    requires |s.ran| < |s.submitted| && s.submitted[|s.ran|] == r
    requires Justified(s.submitted, s.ran)
    requires RunAll(rebuild, Kept(s.submitted, s.ran)) == Outcome(s.mem, s.effects)
    ensures var t := RunRequest(rebuild, s, r);
            && Justified(t.submitted, t.ran)
            && RunAll(rebuild, Kept(t.submitted, t.ran)) == Outcome(t.mem, t.effects)
  {
    var t := RunRequest(rebuild, s, r);
    var kept := Kept(s.submitted, s.ran);
    assert t.ran[..|t.ran| - 1] == s.ran;
    assert Kept(t.submitted, t.ran) == kept + [r];
    assert (kept + [r])[..|kept|] == kept;
    forall i | 0 <= i < |t.ran| && !t.ran[i]
      ensures SkipJustified(t.submitted, i)
    {
      assert !s.ran[i];
    }
  }

  lemma SubmitKeepsInv(rebuild: Inputs -> Built, s: State, r: Request)
    requires Inv(rebuild, s) && !s.done
    ensures Inv(rebuild, Apply(rebuild, s, Submit(r)))
  {
    var t := s.(submitted := s.submitted + [r]);
    KeptGrow(s.submitted, r, s.ran);
    JustifiedGrow(s.submitted, r, s.ran);
    if s.sync {
      assert |s.ran| == |s.submitted|;
      RunRequestKept(rebuild, t, r);
    }
  }

  lemma ScheduleKeepsInv(rebuild: Inputs -> Built, s: State)
    requires Inv(rebuild, s) && s.phase == Waiting
    ensures Inv(rebuild, ScheduleLocked(s))
    ensures s.queue == [] <==> ScheduleLocked(s).queue == []
  {
    var n := DeadPrefix(s.queue);
    if s.queue != [] {
      var t := ScheduleLocked(s);
      KeptSkip(s.submitted, s.ran, n);
      SkipsAreJustified(s.submitted, s.ran, n);
      assert t.queue == s.queue[n..] == s.submitted[|t.ran|..];
    }
  }

  lemma WakeKeepsInv(rebuild: Inputs -> Built, s: State, expired: bool)
    requires Inv(rebuild, s) && s.phase == Waiting && !s.sync
    ensures Inv(rebuild, WakeUp(s, expired))
  {
    ScheduleKeepsInv(rebuild, s);
    var t := ScheduleLocked(s);
    PhaseKeepsInv(rebuild, t, WakeUp(s, expired).phase);
  }

  lemma PhaseKeepsInv(rebuild: Inputs -> Built, s: State, phase: Phase)
    requires Inv(rebuild, s) && s.phase == Waiting && !s.sync
    requires phase == Waiting || (phase == Taken && s.queue != []) || (phase == Exited && s.done && s.queue == [])
    ensures Inv(rebuild, s.(phase := phase))
  {
  }

  lemma ExecuteKeepsInv(rebuild: Inputs -> Built, s: State)
    requires Inv(rebuild, s) && s.phase == Taken
    ensures Inv(rebuild, Apply(rebuild, s, Execute))
  {
    RunRequestKept(rebuild, s, s.queue[0]);
  }

  lemma PopKeepsInv(rebuild: Inputs -> Built, s: State)
    requires Inv(rebuild, s) && s.phase == Finished
    ensures Inv(rebuild, Apply(rebuild, s, PopFront))
  {
    assert s.queue[1..] == s.submitted[|s.ran|..];
  }

  lemma StepKeepsInv(rebuild: Inputs -> Built, s: State, step: Step)
    requires Inv(rebuild, s) && Enabled(s, step)
    ensures Inv(rebuild, Apply(rebuild, s, step))
  {
    match step
    case Submit(r) => SubmitKeepsInv(rebuild, s, r);
    case Stop =>
    case Wake(expired) => WakeKeepsInv(rebuild, s, expired);
    case Execute => ExecuteKeepsInv(rebuild, s);
    case PopFront => PopKeepsInv(rebuild, s);
  }

  lemma {:induction false} RunKeepsInv(rebuild: Inputs -> Built, sync: bool, steps: seq<Step>)
    requires After(rebuild, sync, steps).Some?
    ensures Inv(rebuild, After(rebuild, sync, steps).value)
    ensures After(rebuild, sync, steps).value.sync == sync
  {
    if steps != [] {
      var prefix, step := steps[..|steps| - 1], steps[|steps| - 1];
      RunKeepsInv(rebuild, sync, prefix);
      var s := After(rebuild, sync, prefix).value;
      assert After(rebuild, sync, steps) == Some(Apply(rebuild, s, step));
      StepKeepsInv(rebuild, s, step);
    }
  }

  // ---------- Reads ----------

  function Reads(effects: seq<Effect>): seq<Effect> {
    if effects == [] then []
    else
      var before, last := effects[..|effects| - 1], effects[|effects| - 1];
      if last.Saw? then Reads(before) + [last] else Reads(before)
  }

  lemma {:induction false} ReadsConcat(a: seq<Effect>, b: seq<Effect>)
    ensures Reads(a + b) == Reads(a) + Reads(b)
  {
    if b == [] {
      assert a + b == a;
    } else {
      var n := |b| - 1;
      assert (a + b)[..|a + b| - 1] == a + b[..n];
      ReadsConcat(a, b[..n]);
    }
  }

  lemma JustifiedShrink(rs: seq<Request>, ran: seq<bool>, n: nat)
    requires n <= |ran| <= |rs| && Justified(rs, ran)
    ensures Justified(rs, ran[..n])
  {
    forall i | 0 <= i < n && !ran[..n][i]
      ensures SkipJustified(rs, i)
    {
      assert !ran[i];
    }
  }

  lemma RunAllSnoc(rebuild: Inputs -> Built, rs: seq<Request>, r: Request)
    ensures var o := RunAll(rebuild, rs);
            RunAll(rebuild, rs + [r]) ==
            Outcome(RunMemory(rebuild, o.mem, r), o.effects + RunEffects(rebuild, o.mem, r))
  {
    assert (rs + [r])[..|rs|] == rs;
  }

  lemma ReadsSnoc(rebuild: Inputs -> Built, rs: seq<Request>, r: Request)
    ensures var o := RunAll(rebuild, rs);
            var o' := RunAll(rebuild, rs + [r]);
            && o'.mem == RunMemory(rebuild, o.mem, r)
            && (r.Update? ==> Reads(o'.effects) == Reads(o.effects))
            && (r.Read? ==> Reads(o'.effects) == Reads(o.effects) + [Saw(r.reader, View(o.mem))])
  {
    RunAllSnoc(rebuild, rs, r);
    var o := RunAll(rebuild, rs);
    var more := RunEffects(rebuild, o.mem, r);
    ReadsConcat(o.effects, more);
    ReadsOfOne(more);
  }

  lemma ReadsOfOne(effects: seq<Effect>)
    requires |effects| <= 1
    ensures Reads(effects) == if effects != [] && effects[0].Saw? then effects else []
  {
    if effects != [] {
      assert effects[..0] == [] && effects == [effects[0]];
      assert Reads(effects) == if effects[0].Saw? then Reads(effects[..0]) + [effects[0]] else Reads(effects[..0]);
    }
  }

  lemma LastNeverSkipped(rs: seq<Request>, ran: seq<bool>)
    requires 0 < |rs| == |ran| && Justified(rs, ran)
    ensures ran[|ran| - 1]
  {
  }

  /** One more request: run by the reference, and by the queue unless skipped. */
  lemma InvisibleStep(rebuild: Inputs -> Built, fast: seq<Request>, all: seq<Request>, r: Request, run: bool)
    requires Reads(RunAll(rebuild, fast).effects) == Reads(RunAll(rebuild, all).effects)
    requires r.Read? ==> run && RunAll(rebuild, fast).mem == RunAll(rebuild, all).mem
    ensures var fast' := if run then fast + [r] else fast;
            && Reads(RunAll(rebuild, fast').effects) == Reads(RunAll(rebuild, all + [r]).effects)
            && (run ==> RunAll(rebuild, fast').mem == RunAll(rebuild, all + [r]).mem)
  {
    ReadsSnoc(rebuild, fast, r);
    ReadsSnoc(rebuild, all, r);
  }

  /** Skipping justified updates is invisible to reads. The two memories can
      only differ just after a skip, and then an update comes next. */
  lemma {:induction false} SkippingInvisible(rebuild: Inputs -> Built, rs: seq<Request>, ran: seq<bool>)
    requires |ran| <= |rs| && Justified(rs, ran)
    ensures Reads(RunAll(rebuild, Kept(rs, ran)).effects) == Reads(RunAll(rebuild, rs[..|ran|]).effects)
    ensures (ran == [] || ran[|ran| - 1]) ==>
              RunAll(rebuild, Kept(rs, ran)).mem == RunAll(rebuild, rs[..|ran|]).mem
  {
    if ran != [] {
      var n := |ran| - 1;
      var before, r := ran[..n], rs[n];
      JustifiedShrink(rs, ran, n);
      SkippingInvisible(rebuild, rs, before);
      TakeOneMore(rs, n);
      var fast, all := Kept(rs, before), rs[..n];
      assert Kept(rs, ran) == if ran[n] then fast + [r] else fast;
      assert rs[..|ran|] == all + [r];
      if r.Read? {
        NotSkippedBeforeRead(rs, ran);
        assert RunAll(rebuild, fast).mem == RunAll(rebuild, all).mem;
      }
      InvisibleStep(rebuild, fast, all, r, ran[n]);
    }
  }

  lemma TakeOneMore(rs: seq<Request>, n: nat)
    requires n < |rs|
    ensures rs[..n + 1] == rs[..n] + [rs[n]]
  {
  }

  /** A read is run, and so was what came before it. */
  lemma NotSkippedBeforeRead(rs: seq<Request>, ran: seq<bool>)
    requires 0 < |ran| <= |rs| && Justified(rs, ran) && rs[|ran| - 1].Read?
    ensures ran[|ran| - 1] && (|ran| > 1 ==> ran[|ran| - 2])
  {
  }

  /** The last update in `rs`, which decides what a read issued next must see. */
  function LatestUpdate(rs: seq<Request>): Option<Request> {
    if rs == [] then None
    else if rs[|rs| - 1].Update? then Some(rs[|rs| - 1])
    else LatestUpdate(rs[..|rs| - 1])
  }

  function ViewAt(rebuild: Inputs -> Built, rs: seq<Request>): Option<Memory> {
    match LatestUpdate(rs)
    case Some(Update(inputs, _, _)) =>
      var ast := rebuild(inputs).ast;
      if ast.Some? then Some(Memory(inputs, ast)) else None
    case _ => None
  }

  /** For each read in `rs`, in order, one callback carrying the inputs and AST
      of the latest update submitted before it (an error when there is none). */
  function PromisedReads(rebuild: Inputs -> Built, rs: seq<Request>): seq<Effect> {
    if rs == [] then []
    else
      var before := rs[..|rs| - 1];
      var r := rs[|rs| - 1];
      if r.Read? then PromisedReads(rebuild, before) + [Saw(r.reader, ViewAt(rebuild, before))]
      else PromisedReads(rebuild, before)
  }

  lemma {:induction false} ReferenceView(rebuild: Inputs -> Built, rs: seq<Request>)
    ensures View(RunAll(rebuild, rs).mem) == ViewAt(rebuild, rs)
  {
    if rs != [] {
      ReferenceView(rebuild, rs[..|rs| - 1]);
    }
  }

  lemma {:induction false} ReferenceKeepsPromise(rebuild: Inputs -> Built, rs: seq<Request>)
    ensures Reads(RunAll(rebuild, rs).effects) == PromisedReads(rebuild, rs)
  {
    if rs != [] {
      var before, r := rs[..|rs| - 1], rs[|rs| - 1];
      ReferenceKeepsPromise(rebuild, before);
      ReferenceView(rebuild, before);
      assert rs == before + [r];
      ReadsSnoc(rebuild, before, r);
    }
  }

  /** Main result on reads: at every moment of every run the reads answered so
      far are exactly the promised ones for the requests decided so far, so when
      the queue is empty every submitted read was answered once, in order, with
      the inputs of the latest update submitted before it. */
  lemma ReadsSeeLatestUpdate(rebuild: Inputs -> Built, sync: bool, steps: seq<Step>, s: State)
    requires After(rebuild, sync, steps) == Some(s)
    ensures |s.ran| <= |s.submitted|
    ensures Reads(s.effects) == PromisedReads(rebuild, s.submitted[..|s.ran|])
    ensures s.queue == [] ==>
              && Reads(s.effects) == PromisedReads(rebuild, s.submitted)
              && View(s.mem) == ViewAt(rebuild, s.submitted)
  {
    RunKeepsInv(rebuild, sync, steps);
    SkippingInvisible(rebuild, s.submitted, s.ran);
    ReferenceKeepsPromise(rebuild, s.submitted[..|s.ran|]);
    if s.queue == [] {
      assert s.submitted[..|s.ran|] == s.submitted;
      ReferenceView(rebuild, s.submitted);
      if s.ran != [] {
        LastNeverSkipped(s.submitted, s.ran);
      }
    }
  }

  /** The synchronous mode is the reference itself. */
  lemma SyncRunsAll(rebuild: Inputs -> Built, steps: seq<Step>, s: State)
    requires After(rebuild, true, steps) == Some(s)
    ensures s.queue == [] && RunAll(rebuild, s.submitted) == Outcome(s.mem, s.effects)
  {
    RunKeepsInv(rebuild, true, steps);
    KeptAll(s.submitted, s.ran);
    assert s.submitted[..|s.ran|] == s.submitted;
  }

  /** The asynchronous queue refines the synchronous mode: fed the same
      requests, both answer the reads identically once the queue is idle, and a
      read issued next would get the same answer. */
  lemma AsyncRefinesSync(rebuild: Inputs -> Built, fast: seq<Step>, slow: seq<Step>, a: State, b: State)
    requires After(rebuild, false, fast) == Some(a) && After(rebuild, true, slow) == Some(b)
    requires a.submitted == b.submitted && a.queue == []
    ensures Reads(a.effects) == Reads(b.effects)
    ensures View(a.mem) == View(b.mem)
  {
    SyncRunsAll(rebuild, slow, b);
    ReadsSeeLatestUpdate(rebuild, false, fast, a);
    ReadsSeeLatestUpdate(rebuild, true, slow, b);
  }

  lemma {:induction false} KeptAll(rs: seq<Request>, ran: seq<bool>)
    requires |ran| <= |rs| && forall i :: 0 <= i < |ran| ==> ran[i]
    ensures Kept(rs, ran) == rs[..|ran|]
  {
    if ran != [] {
      KeptAll(rs, ran[..|ran| - 1]);
    }
  }

  // ---------- Diagnostics ----------

  /** The last update at or after `i` that wants diagnostics. */
  function LastWanting(rs: seq<Request>, i: nat): (j: nat)
    requires i < |rs| && WantsDiags(rs[i])
    ensures i <= j < |rs| && WantsDiags(rs[j])
    ensures forall k :: j < k < |rs| ==> !WantsDiags(rs[k])
    decreases |rs| - i
  {
    if k :| i < k < |rs| && WantsDiags(rs[k]) then LastWanting(rs, k) else i
  }

  lemma LastWantingRan(rs: seq<Request>, ran: seq<bool>, j: nat)
    requires j < |rs| == |ran| && Justified(rs, ran)
    requires WantsDiags(rs[j]) && forall k :: j < k < |rs| ==> !WantsDiags(rs[k])
    ensures ran[j]
  {
  }

  lemma {:induction false} KeptReported(rebuild: Inputs -> Built, rs: seq<Request>, ran: seq<bool>, i: nat)
    requires |ran| <= |rs| && i < |ran| && ran[i] && WantsDiags(rs[i])
    requires rebuild(rs[i].inputs).diags.Some?
    ensures Reported(rs[i].version, rebuild(rs[i].inputs).diags.value) in RunAll(rebuild, Kept(rs, ran)).effects
  {
    var n := |ran| - 1;
    var kept := Kept(rs, ran[..n]);
    if i == n {
      UpdateReports(rebuild, kept, rs[n]);
    } else {
      KeptReported(rebuild, rs, ran[..n], i);
      if ran[n] {
        EffectsStay(rebuild, kept, rs[n]);
      }
    }
  }

  lemma EffectsStay(rebuild: Inputs -> Built, rs: seq<Request>, r: Request)
    ensures forall e :: e in RunAll(rebuild, rs).effects ==> e in RunAll(rebuild, rs + [r]).effects
  {
    RunAllSnoc(rebuild, rs, r);
  }

  lemma UpdateReports(rebuild: Inputs -> Built, rs: seq<Request>, r: Request)
    requires WantsDiags(r) && rebuild(r.inputs).diags.Some?
    ensures Reported(r.version, rebuild(r.inputs).diags.value) in RunAll(rebuild, rs + [r]).effects
  {
    RunAllSnoc(rebuild, rs, r);
  }

  /** Main result on diagnostics. A Yes update that has left the queue was run,
      never skipped. Once the queue is empty every Yes or Auto update is matched
      by one that ran, itself or a later one, that wants diagnostics, and whose
      diagnostics were reported if the build produced any. */
  lemma DiagnosticsNeverLost(rebuild: Inputs -> Built, sync: bool, steps: seq<Step>, s: State, i: nat)
    requires After(rebuild, sync, steps) == Some(s)
    requires i < |s.submitted| && WantsDiags(s.submitted[i])
    ensures |s.ran| <= |s.submitted|
    ensures i < |s.ran| && s.submitted[i].want == Yes ==> s.ran[i]
    ensures s.queue == [] ==>
              exists j ::
                && i <= j < |s.ran| && s.ran[j] && WantsDiags(s.submitted[j])
                && var diags := rebuild(s.submitted[j].inputs).diags;
                  diags.Some? ==> Reported(s.submitted[j].version, diags.value) in s.effects
  {
    RunKeepsInv(rebuild, sync, steps);
    if i < |s.ran| && !s.ran[i] {
      assert SkipJustified(s.submitted, i);
    }
    if s.queue == [] {
      var j := LastWanting(s.submitted, i);
      LastWantingRan(s.submitted, s.ran, j);
      if rebuild(s.submitted[j].inputs).diags.Some? {
        KeptReported(rebuild, s.submitted, s.ran, j);
      }
    }
  }

  lemma {:induction false} ReportedOrigin(rebuild: Inputs -> Built, rs: seq<Request>, ran: seq<bool>, e: Effect) returns (i: nat)
    requires |ran| <= |rs|
    requires e.Reported? && e in RunAll(rebuild, Kept(rs, ran)).effects
    ensures i < |ran| && ran[i] && WantsDiags(rs[i])
    ensures rs[i].version == e.version && rebuild(rs[i].inputs).diags == Some(e.diags)
  {
    if ran == [] {
      assert false;
    }
    var n := |ran| - 1;
    var kept := Kept(rs, ran[..n]);
    if ran[n] {
      RunAllSnoc(rebuild, kept, rs[n]);
      var before := RunAll(rebuild, kept);
      if e in before.effects {
        i := ReportedOrigin(rebuild, rs, ran[..n], e);
      } else {
        i := n;
      }
    } else {
      i := ReportedOrigin(rebuild, rs, ran[..n], e);
    }
  }

  /** Nothing is made up: whatever is reported comes from a submitted update
      that was run and did not ask for No diagnostics. */
  lemma ReportsAreWanted(rebuild: Inputs -> Built, sync: bool, steps: seq<Step>, s: State, e: Effect)
    requires After(rebuild, sync, steps) == Some(s)
    requires e.Reported? && e in s.effects
    ensures exists i ::
              && 0 <= i < |s.ran| && i < |s.submitted| && s.ran[i] && WantsDiags(s.submitted[i])
              && s.submitted[i].version == e.version
              && rebuild(s.submitted[i].inputs).diags == Some(e.diags)
  {
    RunKeepsInv(rebuild, sync, steps);
    var i := ReportedOrigin(rebuild, s.submitted, s.ran, e);
  }

  // ---------- The queue itself ----------

  /** Scheduling leaves a head that may not be dropped; the request
      being run is always the head, so pop_front removes that one; and a waiter
      that sees an empty queue knows that every request was run or skipped. */
  lemma QueueDiscipline(rebuild: Inputs -> Built, sync: bool, steps: seq<Step>, s: State)
    requires After(rebuild, sync, steps) == Some(s)
    ensures s.queue != [] ==> ScheduleLocked(s).queue != [] && !SkipJustified(ScheduleLocked(s).queue, 0)
    ensures s.phase == Taken ==> |s.ran| < |s.submitted| && s.queue != [] && s.queue[0] == s.submitted[|s.ran|]
    ensures s.phase == Finished ==>
              && 0 < |s.ran| <= |s.submitted| && s.queue != []
              && s.queue[0] == s.submitted[|s.ran| - 1] && s.ran[|s.ran| - 1]
    ensures s.queue == [] ==> |s.ran| == |s.submitted|
    ensures s.phase == Exited ==> s.done && s.queue == []
  {
    RunKeepsInv(rebuild, sync, steps);
    if s.queue != [] {
      var n := ScheduleExactly(s);
    }
  }

  /** A request that is not to be delayed: a read, or an update whose diagnostics are
      wanted in any case. */
  predicate Urgent(r: Request) {
    r.Read? || r.want == Yes
  }

  ghost predicate AnyUrgent(q: seq<Request>) {
    exists k :: 0 <= k < |q| && Urgent(q[k])
  }

  lemma UrgentTail(q: seq<Request>)
    requires q != []
    ensures AnyUrgent(q) <==> Urgent(q[0]) || AnyUrgent(q[1..])
  {
    if k :| 0 <= k < |q| && Urgent(q[k]) {
      assert k > 0 ==> q[1..][k - 1] == q[k];
    }
    if AnyUrgent(q[1..]) {
      var k :| 0 <= k < |q[1..]| && Urgent(q[1..][k]);
      assert q[k + 1] == q[1..][k];
    }
  }

  lemma {:induction false} SkippingKeepsUrgent(q: seq<Request>)
    ensures AnyUrgent(q[DeadPrefix(q)..]) <==> AnyUrgent(q)
  {
    if q == [] || !ShouldSkipHead(q) {
      assert q[0..] == q;
    } else {
      UrgentTail(q);
      SkippingKeepsUrgent(q[1..]);
      assert q[DeadPrefix(q)..] == q[1..][DeadPrefix(q) - 1..];
    }
  }

  /** Debouncing: a waiting worker takes a request at once exactly when one of them is
      urgent, or it was told to stop; otherwise when the head's time is up. */
  lemma WakeTakesExactly(s: State, expired: bool)
    requires s.phase == Waiting && s.queue != []
    ensures WakeUp(s, expired).phase == Taken <==> expired || s.done || AnyUrgent(s.queue)
  {
    SkippingKeepsUrgent(s.queue);
    var q := ScheduleLocked(s).queue;
    assert AnyUrgent(q) <==> exists k :: 0 <= k < |q| && (q[k].Read? || q[k].want == Yes);
  }

  /** Steps left before the worker returns, once it has been told to stop. */
  function StepsLeft(s: State): int {
    3 * |s.queue| + match s.phase case Waiting => 1 case Taken => 0 case Finished => -1 case Exited => 0
  }

  /** The only step the worker thread can take next; `expired` is the timer. */
  function NextWorkerStep(s: State, expired: bool): Step {
    match s.phase
    case Taken => Execute
    case Finished => PopFront
    case _ => Wake(expired)
  }

  lemma WakeWhenStopped(s: State, expired: bool)
    requires s.done && s.phase == Waiting
    ensures var t := WakeUp(s, expired);
            && t.done && t.submitted == s.submitted && |t.queue| <= |s.queue|
            && t.phase == if t.queue == [] then Exited else Taken
  {
    assert DeadlineFor(ScheduleLocked(s).queue) != Infinite ==> ScheduleLocked(s).queue != [];
  }

  /** After stop() the worker always has exactly one step to take and every step
      brings it closer to returning, whatever the timer does. */
  lemma StoppedMakesProgress(rebuild: Inputs -> Built, s: State, step: Step)
    requires Inv(rebuild, s) && s.done && !s.sync
    ensures s.phase != Exited ==> Enabled(s, NextWorkerStep(s, false)) && Enabled(s, NextWorkerStep(s, true))
    ensures Enabled(s, step) ==>
              && s.phase != Exited
              && WorkerStep(step)
              && step == NextWorkerStep(s, step.Wake? && step.expired)
    ensures Enabled(s, step) ==>
              var t := Apply(rebuild, s, step);
              t.done && t.submitted == s.submitted && StepsLeft(t) < StepsLeft(s)
  {
    if Enabled(s, step) && step.Wake? {
      WakeWhenStopped(s, step.expired);
    }
  }

  ghost predicate Halted(s: State) {
    forall step :: !Enabled(s, step)
  }

  lemma StoppedHaltsOnlyAtExit(rebuild: Inputs -> Built, s: State)
    requires Inv(rebuild, s) && s.done && !s.sync
    ensures Halted(s) <==> s.phase == Exited
  {
    StoppedMakesProgress(rebuild, s, Stop);
    if s.phase == Exited {
      forall step
        ensures !Enabled(s, step)
      {
        StoppedMakesProgress(rebuild, s, step);
      }
    } else {
      assert Enabled(s, NextWorkerStep(s, false));
    }
  }

  lemma LastStepOfRun(rebuild: Inputs -> Built, steps: seq<Step>, step: Step, t: State) returns (u: State)
    requires After(rebuild, false, steps + [step]) == Some(t)
    ensures After(rebuild, false, steps) == Some(u) && Enabled(u, step) && t == Apply(rebuild, u, step)
  {
    assert (steps + [step])[..|steps|] == steps;
    u := After(rebuild, false, steps).value;
  }

  lemma {:induction false} StoppedRunIsShort(rebuild: Inputs -> Built, steps: seq<Step>, n: nat, s: State, t: State)
    requires n <= |steps| && After(rebuild, false, steps[..n]) == Some(s) && s.done
    requires After(rebuild, false, steps) == Some(t)
    ensures t.done && t.submitted == s.submitted
    ensures |steps| - n + StepsLeft(t) <= StepsLeft(s)
    decreases |steps|
  {
    if |steps| == n {
      assert steps[..n] == steps;
    } else {
      var before, last := steps[..|steps| - 1], steps[|steps| - 1];
      assert steps == before + [last] && before[..n] == steps[..n];
      var u := LastStepOfRun(rebuild, before, last, t);
      RunKeepsInv(rebuild, false, before);
      StoppedRunIsShort(rebuild, before, n, s, u);
      StoppedMakesProgress(rebuild, u, last);
    }
  }

  /** Hence a run takes at most StepsLeft more steps after stop(), and when no step is
      left the worker has returned with every request decided. */
  lemma StopDrains(rebuild: Inputs -> Built, steps: seq<Step>, n: nat, s: State, t: State)
    requires n <= |steps| && After(rebuild, false, steps[..n]) == Some(s) && s.done
    requires After(rebuild, false, steps) == Some(t)
    ensures t.done && t.submitted == s.submitted
    ensures 0 <= StepsLeft(t) && |steps| - n + StepsLeft(t) <= StepsLeft(s)
    ensures Halted(t) <==> t.phase == Exited
    ensures Halted(t) ==> t.queue == [] && |t.ran| == |s.submitted|
  {
    RunKeepsInv(rebuild, false, steps);
    StoppedRunIsShort(rebuild, steps, n, s, t);
    StoppedHaltsOnlyAtExit(rebuild, t);
  }
}
