/**
 Over all runs of the server: what is published for a file only gets newer, and
 once everything is idle the last published diagnostics are the latest ones.
 */
module ServerTheorems {
  import opened Options
  import opened WorkerProtocol
  import opened WorkerTheorems
  import opened TUScheduler
  import opened ServerProtocol

  // ---------- Worker bookkeeping ----------

  lemma InitialReachable(rebuild: Inputs -> Built)
    ensures Reachable(rebuild, Initial(false))
  {
    assert After(rebuild, false, []) == Some(Initial(false));
  }

  lemma StepKeepsStates(rebuild: Inputs -> Built, srv: Server, k: nat, step: Step)
    requires StatesOk(rebuild, srv) && k < |srv.workers| && Enabled(srv.workers[k].state, step)
    ensures StatesOk(rebuild, SetState(srv, k, Apply(rebuild, srv.workers[k].state, step)))
  {
    ReachableStep(rebuild, srv.workers[k].state, step);
  }

  lemma EnsureKeepsStates(rebuild: Inputs -> Built, srv: Server, file: Path)
    requires StatesOk(rebuild, srv)
    ensures StatesOk(rebuild, EnsureWorker(srv, file))
  {
    InitialReachable(rebuild);
  }

  lemma SetStateKeepsFiles(srv: Server, k: nat, state: State)
    requires FilesOk(srv.workers, srv.files) && k < |srv.workers| && state.done == srv.workers[k].state.done
    ensures FilesOk(SetState(srv, k, state).workers, srv.files)
  {
    forall f | f in srv.files
      ensures NewestFor(SetState(srv, k, state).workers, srv.files[f], f)
    {
      assert NewestFor(srv.workers, srv.files[f], f);
    }
  }

  lemma EnsureKeepsFiles(srv: Server, file: Path)
    requires FilesOk(srv.workers, srv.files)
    ensures var t := EnsureWorker(srv, file); FilesOk(t.workers, t.files) && file in t.files
  {
    var t := EnsureWorker(srv, file);
    forall f | f in t.files
      ensures NewestFor(t.workers, t.files[f], f)
    {
      assert f in srv.files ==> NewestFor(srv.workers, srv.files[f], f);
    }
  }

  lemma StopKeepsFiles(rebuild: Inputs -> Built, srv: Server, file: Path)
    requires FilesOk(srv.workers, srv.files) && file in srv.files
    ensures var k := srv.files[file];
            FilesOk(SetState(srv, k, Apply(rebuild, srv.workers[k].state, Stop)).workers, srv.files - {file})
  {
    var t := SetState(srv, srv.files[file], Apply(rebuild, srv.workers[srv.files[file]].state, Stop));
    forall f | f in srv.files - {file}
      ensures NewestFor(t.workers, srv.files[f], f)
    {
      assert NewestFor(srv.workers, srv.files[f], f);
    }
  }

  lemma HandleKeepsFiles(rebuild: Inputs -> Built, srv: Server, e: Event)
    requires FilesOk(srv.workers, srv.files) && EventEnabled(srv, e)
    ensures var t := Handle(rebuild, srv, e); FilesOk(t.workers, t.files)
  {
    match e
    case AddDocument(file, inputs, want) =>
      var s := srv.(internal := Bump(srv.internal, file));
      EnsureKeepsFiles(s, file);
      var t := EnsureWorker(s, file);
      var k := t.files[file];
      SetStateKeepsFiles(t, k, Apply(rebuild, t.workers[k].state, Submit(Update(inputs, want, s.internal[file]))));
    case RemoveDocument(file) =>
      if file in srv.files {
        StopKeepsFiles(rebuild, srv.(internal := Bump(srv.internal, file)), file);
      }
    case ReadAST(file, reader) =>
      if file in srv.files {
        var k := srv.files[file];
        SetStateKeepsFiles(srv, k, Apply(rebuild, srv.workers[k].state, Submit(Read(reader))));
      }
    case Work(k, step) =>
      SetStateKeepsFiles(srv, k, Apply(rebuild, srv.workers[k].state, step));
  }

  lemma HandleKeepsStates(rebuild: Inputs -> Built, srv: Server, e: Event)
    requires StatesOk(rebuild, srv) && EventEnabled(srv, e)
    ensures StatesOk(rebuild, Handle(rebuild, srv, e))
  {
    match e
    case AddDocument(file, inputs, want) =>
      var s := srv.(internal := Bump(srv.internal, file));
      assert StatesOk(rebuild, s);
      EnsureKeepsStates(rebuild, s, file);
      var t := EnsureWorker(s, file);
      StepKeepsStates(rebuild, t, t.files[file], Submit(Update(inputs, want, s.internal[file])));
    case RemoveDocument(file) =>
      if file in srv.files {
        StepKeepsStates(rebuild, srv, srv.files[file], Stop);
      }
    case ReadAST(file, reader) =>
      if file in srv.files {
        StepKeepsStates(rebuild, srv, srv.files[file], Submit(Read(reader)));
      }
    case Work(k, step) =>
      StepKeepsStates(rebuild, srv, k, step);
  }

  lemma {:induction false} RunKeepsWorkers(rebuild: Inputs -> Built, events: seq<Event>)
    requires AfterEvents(rebuild, events).Some?
    ensures var srv := AfterEvents(rebuild, events).value;
            StatesOk(rebuild, srv) && FilesOk(srv.workers, srv.files)
  {
    if events != [] {
      var prefix := events[..|events| - 1];
      RunKeepsWorkers(rebuild, prefix);
      HandleKeepsStates(rebuild, AfterEvents(rebuild, prefix).value, events[|events| - 1]);
      HandleKeepsFiles(rebuild, AfterEvents(rebuild, prefix).value, events[|events| - 1]);
    }
  }

  /** The assertion that no task is started after stop() never fires: client
      calls are possible in every reachable state. */
  lemma ClientNeverBlocked(rebuild: Inputs -> Built, events: seq<Event>, srv: Server, e: Event)
    requires AfterEvents(rebuild, events) == Some(srv)
    ensures !e.Work? ==> EventEnabled(srv, e)
  {
    RunKeepsWorkers(rebuild, events);
  }

  // ---------- The version filter alone ----------

  lemma ConsumeMonotone(srv: Server, file: Path, version: nat, diags: Diags)
    requires PublishedMonotone(srv.reported, srv.published)
    ensures var t := Consume(srv, file, version, diags);
            && PublishedMonotone(t.reported, t.published)
            && PublishedOrSuperseded(t.reported, t.published, Publication(file, version, diags))
  {
  }

  lemma {:induction false} RunPublishesMonotone(rebuild: Inputs -> Built, events: seq<Event>)
    requires AfterEvents(rebuild, events).Some?
    ensures var srv := AfterEvents(rebuild, events).value; PublishedMonotone(srv.reported, srv.published)
  {
    if events != [] {
      var prefix, e := events[..|events| - 1], events[|events| - 1];
      RunPublishesMonotone(rebuild, prefix);
      var srv := AfterEvents(rebuild, prefix).value;
      if e.Work? && e.step.Execute? {
        var s := srv.workers[e.k].state;
        var effects := RunEffects(rebuild, s.mem, s.queue[0]);
        if effects != [] && effects[0].Reported? {
          var t := SetState(srv, e.k, Apply(rebuild, s, e.step));
          ConsumeMonotone(t, srv.workers[e.k].file, effects[0].version, effects[0].diags);
        }
      }
    }
  }

  // ---------- Versions ----------

  /** Every version in use for `file` is older than the counter. */
  ghost predicate FreshFor(srv: Server, file: Path) {
    && Get(srv.reported, file) < Get(srv.internal, file)
    && forall k: nat, i: nat :: IsUpdate(srv.workers, k, i) && srv.workers[k].file == file ==>
         RequestAt(srv.workers, k, i).version < Get(srv.internal, file)
  }

  lemma BumpKeepsVersions(rebuild: Inputs -> Built, srv: Server, file: Path)
    requires VersionInv(rebuild, srv) && Get(srv.internal, file) + 1 < VERSIONS
    ensures var t := srv.(internal := Bump(srv.internal, file)); VersionInv(rebuild, t) && FreshFor(t, file)
  {
  }

  /** `new` holds the requests of `old` and possibly decides some more. */
  ghost predicate SameUpdates(before: seq<Worker>, after: seq<Worker>) {
    && (forall k: nat, i: nat :: IsUpdate(after, k, i) ==>
          && IsUpdate(before, k, i)
          && after[k].file == before[k].file
          && RequestAt(after, k, i) == RequestAt(before, k, i)
          && (Undecided(after, k, i) ==> Undecided(before, k, i)))
  }

  lemma SameUpdatesKeepVersions(rebuild: Inputs -> Built, srv: Server, ws: seq<Worker>)
    requires VersionInv(rebuild, srv) && SameUpdates(srv.workers, ws)
    requires forall k: nat, i: nat :: Delivered(rebuild, ws, k, i) ==> Delivered(rebuild, srv.workers, k, i)
    ensures VersionInv(rebuild, srv.(workers := ws))
  {
  }

  lemma EnsureKeepsVersions(rebuild: Inputs -> Built, srv: Server, file: Path)
    requires VersionInv(rebuild, srv)
    ensures VersionInv(rebuild, EnsureWorker(srv, file))
    ensures FreshFor(srv, file) ==> FreshFor(EnsureWorker(srv, file), file)
  {
    var ws := EnsureWorker(srv, file).workers;
    assert forall k: nat, i: nat :: Delivered(rebuild, ws, k, i) ==> Delivered(rebuild, srv.workers, k, i);
    assert SameUpdates(srv.workers, ws);
    SameUpdatesKeepVersions(rebuild, srv, ws);
  }

  /** A step of worker `k` that neither submits nor runs anything. */
  lemma QuietKeepsVersions(rebuild: Inputs -> Built, srv: Server, k: nat, state: State)
    requires VersionInv(rebuild, srv) && k < |srv.workers|
    requires state.submitted == srv.workers[k].state.submitted
    requires srv.workers[k].state.ran <= state.ran
    requires forall i :: |srv.workers[k].state.ran| <= i < |state.ran| ==> !state.ran[i]
    ensures VersionInv(rebuild, SetState(srv, k, state))
  {
    var ws := SetState(srv, k, state).workers;
    assert forall m: nat, i: nat :: Delivered(rebuild, ws, m, i) ==> Delivered(rebuild, srv.workers, m, i);
    assert SameUpdates(srv.workers, ws);
    SameUpdatesKeepVersions(rebuild, srv, ws);
  }

  /** `after` is `before` with request `r` appended to worker `k`. */
  ghost predicate Grown(before: seq<Worker>, after: seq<Worker>, k: nat, r: Request) {
    && k < |before| == |after|
    && after == before[k := before[k].(state := after[k].state)]
    && after[k].state.submitted == before[k].state.submitted + [r]
    && after[k].state.ran == before[k].state.ran
    && |before[k].state.ran| <= |before[k].state.submitted|
  }

  lemma GrownUpdates(before: seq<Worker>, after: seq<Worker>, k: nat, r: Request, m: nat, i: nat)
    requires Grown(before, after, k, r) && IsUpdate(after, m, i)
    ensures after[m].file == before[m].file
    ensures if m == k && i == |before[k].state.submitted| then RequestAt(after, m, i) == r
            else
              && IsUpdate(before, m, i)
              && RequestAt(after, m, i) == RequestAt(before, m, i)
              && (Undecided(after, m, i) ==> Undecided(before, m, i))
  {
  }

  lemma GrowKeepsOrder(before: seq<Worker>, after: seq<Worker>, k: nat, r: Request)
    requires VersionsOrdered(before) && Grown(before, after, k, r) && NewestFor(before, k, before[k].file)
    requires forall m: nat, i: nat :: r.Update? && IsUpdate(before, m, i) && before[m].file == before[k].file ==>
               RequestAt(before, m, i).version < r.version
    ensures VersionsOrdered(after)
  {
    forall a: nat, i: nat, b: nat, j: nat
      | IsUpdate(after, a, i) && IsUpdate(after, b, j) && after[a].file == after[b].file && (a < b || (a == b && i < j))
      ensures RequestAt(after, a, i).version < RequestAt(after, b, j).version
    {
      GrownUpdates(before, after, k, r, a, i);
      GrownUpdates(before, after, k, r, b, j);
    }
  }

  lemma GrowKeepsUnpublished(before: seq<Worker>, after: seq<Worker>, k: nat, r: Request, published: seq<Publication>)
    requires UndecidedUnpublished(before, published) && Grown(before, after, k, r)
    requires forall p :: 0 <= p < |published| && r.Update? && published[p].file == before[k].file ==> published[p].version < r.version
    ensures UndecidedUnpublished(after, published)
  {
    forall m: nat, i: nat, p: nat
      | IsUpdate(after, m, i) && Undecided(after, m, i) && p < |published| && published[p].file == after[m].file
      ensures published[p].version != RequestAt(after, m, i).version
    {
      GrownUpdates(before, after, k, r, m, i);
    }
  }

  lemma GrowKeepsAccounts(rebuild: Inputs -> Built, srv: Server, after: seq<Worker>, k: nat, r: Request)
    requires DeliveriesAccounted(rebuild, srv.workers, srv.reported, srv.published)
    requires Grown(srv.workers, after, k, r)
    ensures DeliveriesAccounted(rebuild, after, srv.reported, srv.published)
  {
    assert forall m: nat, i: nat :: Delivered(rebuild, after, m, i) ==>
      Delivered(rebuild, srv.workers, m, i) && Delivery(rebuild, after, m, i) == Delivery(rebuild, srv.workers, m, i);
  }

  lemma SendKeepsVersions(rebuild: Inputs -> Built, srv: Server, k: nat, r: Request)
    requires VersionInv(rebuild, srv) && PublishedMonotone(srv.reported, srv.published)
    requires k < |srv.workers| && !srv.workers[k].state.done && !srv.workers[k].state.sync
    requires |srv.workers[k].state.ran| <= |srv.workers[k].state.submitted|
    requires NewestFor(srv.workers, k, srv.workers[k].file)
    requires r.Update? ==> FreshFor(srv, srv.workers[k].file) && r.version == Get(srv.internal, srv.workers[k].file)
    ensures VersionInv(rebuild, Send(rebuild, srv, k, r))
  {
    var after := Send(rebuild, srv, k, r).workers;
    assert Grown(srv.workers, after, k, r);
    GrowKeepsOrder(srv.workers, after, k, r);
    GrowKeepsUnpublished(srv.workers, after, k, r, srv.published);
    GrowKeepsAccounts(rebuild, srv, after, k, r);
    forall m: nat, i: nat | IsUpdate(after, m, i)
      ensures 1 <= RequestAt(after, m, i).version <= Get(srv.internal, after[m].file)
    {
      GrownUpdates(srv.workers, after, k, r, m, i);
    }
  }

  // ---------- Delivery ----------

  /** `after` is `before` with the next request of worker `k` run. */
  ghost predicate RanNext(before: seq<Worker>, after: seq<Worker>, k: nat) {
    && k < |before| == |after|
    && after == before[k := before[k].(state := after[k].state)]
    && after[k].state.submitted == before[k].state.submitted
    && after[k].state.ran == before[k].state.ran + [true]
    && |before[k].state.ran| < |before[k].state.submitted|
  }

  lemma RanNextUpdates(before: seq<Worker>, after: seq<Worker>, k: nat)
    requires RanNext(before, after, k)
    ensures SameUpdates(before, after)
  {
  }

  /** A run that reports nothing, or whose report was accounted for already. */
  lemma RunWithoutReport(rebuild: Inputs -> Built, srv: Server, after: seq<Worker>, k: nat)
    requires VersionInv(rebuild, srv) && RanNext(srv.workers, after, k)
    requires var i := |srv.workers[k].state.ran|;
             Delivered(rebuild, after, k, i) ==>
               PublishedOrSuperseded(srv.reported, srv.published, Delivery(rebuild, after, k, i))
    ensures VersionInv(rebuild, srv.(workers := after))
  {
    RanNextUpdates(srv.workers, after, k);
    RanNextAccounts(rebuild, srv.workers, after, k, srv.reported, srv.published);
  }

  lemma RanNextAccounts(rebuild: Inputs -> Built, before: seq<Worker>, after: seq<Worker>, k: nat,
                        reported: map<Path, nat>, published: seq<Publication>)
    requires DeliveriesAccounted(rebuild, before, reported, published) && RanNext(before, after, k)
    requires var i := |before[k].state.ran|;
             Delivered(rebuild, after, k, i) ==> PublishedOrSuperseded(reported, published, Delivery(rebuild, after, k, i))
    ensures DeliveriesAccounted(rebuild, after, reported, published)
  {
    forall m: nat, j: nat | Delivered(rebuild, after, m, j)
      ensures PublishedOrSuperseded(reported, published, Delivery(rebuild, after, m, j))
    {
      if !(m == k && j == |before[k].state.ran|) {
        assert Delivered(rebuild, before, m, j) && Delivery(rebuild, after, m, j) == Delivery(rebuild, before, m, j);
      }
    }
  }

  lemma ReportStaysUnpublished(srv: Server, after: seq<Worker>, k: nat, version: nat, diags: Diags)
    requires VersionsOrdered(srv.workers) && UndecidedUnpublished(srv.workers, srv.published)
    requires RanNext(srv.workers, after, k)
    requires var i := |srv.workers[k].state.ran|; IsUpdate(srv.workers, k, i) && RequestAt(srv.workers, k, i).version == version
    ensures UndecidedUnpublished(after, Consume(srv, srv.workers[k].file, version, diags).published)
  {
    var i := |srv.workers[k].state.ran|;
    var published := Consume(srv, srv.workers[k].file, version, diags).published;
    forall m: nat, j: nat, p: nat
      | IsUpdate(after, m, j) && Undecided(after, m, j) && p < |published| && published[p].file == after[m].file
      ensures published[p].version != RequestAt(after, m, j).version
    {
      assert IsUpdate(srv.workers, m, j) && Undecided(srv.workers, m, j);
      assert !(m == k && j == i);
      assert RequestAt(after, m, j) == RequestAt(srv.workers, m, j);
      assert IsUpdate(srv.workers, k, i);
    }
  }

  lemma ReportIsStrict(srv: Server, k: nat, i: nat, diags: Diags)
    requires PublishedMonotone(srv.reported, srv.published) && PublishedStrict(srv.published)
    requires UndecidedUnpublished(srv.workers, srv.published)
    requires IsUpdate(srv.workers, k, i) && Undecided(srv.workers, k, i)
    ensures PublishedStrict(Consume(srv, srv.workers[k].file, RequestAt(srv.workers, k, i).version, diags).published)
  {
  }

  lemma ReportKeepsAccounts(rebuild: Inputs -> Built, srv: Server, file: Path, version: nat, diags: Diags)
    requires DeliveriesAccounted(rebuild, srv.workers, srv.reported, srv.published)
    ensures var t := Consume(srv, file, version, diags); DeliveriesAccounted(rebuild, t.workers, t.reported, t.published)
  {
    var t := Consume(srv, file, version, diags);
    forall k: nat, i: nat | Delivered(rebuild, t.workers, k, i)
      ensures PublishedOrSuperseded(t.reported, t.published, Delivery(rebuild, t.workers, k, i))
    {
      assert PublishedOrSuperseded(srv.reported, srv.published, Delivery(rebuild, srv.workers, k, i));
    }
  }

  /** Diagnostics that reach the version filter. */
  lemma RunWithReport(rebuild: Inputs -> Built, srv: Server, after: seq<Worker>, k: nat)
    requires VersionInv(rebuild, srv) && PublishedMonotone(srv.reported, srv.published)
    requires RanNext(srv.workers, after, k)
    requires Delivered(rebuild, after, k, |srv.workers[k].state.ran|)
    ensures var pub := Delivery(rebuild, after, k, |srv.workers[k].state.ran|);
            VersionInv(rebuild, Consume(srv.(workers := after), pub.file, pub.version, pub.diags))
  {
    var i := |srv.workers[k].state.ran|;
    var pub := Delivery(rebuild, after, k, i);
    RanNextUpdates(srv.workers, after, k);
    assert IsUpdate(srv.workers, k, i) && Undecided(srv.workers, k, i);
    assert RequestAt(srv.workers, k, i).version == pub.version && srv.workers[k].file == pub.file;
    var t := Consume(srv, pub.file, pub.version, pub.diags);
    ConsumeMonotone(srv, pub.file, pub.version, pub.diags);
    ReportKeepsAccounts(rebuild, srv, pub.file, pub.version, pub.diags);
    RanNextAccounts(rebuild, srv.workers, after, k, t.reported, t.published);
    ReportStaysUnpublished(srv, after, k, pub.version, pub.diags);
    ReportIsStrict(srv, k, i, pub.diags);
    assert VersionsOrdered(after);
  }

  // ---------- Every event ----------

  ghost predicate ServerInv(rebuild: Inputs -> Built, srv: Server) {
    && StatesOk(rebuild, srv)
    && FilesOk(srv.workers, srv.files)
    && PublishedMonotone(srv.reported, srv.published)
    && VersionInv(rebuild, srv)
  }

  lemma WorkKeepsVersions(rebuild: Inputs -> Built, srv: Server, k: nat, step: Step)
    requires ServerInv(rebuild, srv) && EventEnabled(srv, Work(k, step))
    ensures VersionInv(rebuild, Handle(rebuild, srv, Work(k, step)))
  {
    var before := srv.workers[k].state;
    var after := Apply(rebuild, before, step);
    StateDecides(rebuild, before);
    if step.Execute? {
      var ws := SetState(srv, k, after).workers;
      assert RanNext(srv.workers, ws, k);
      assert before.queue[0] == before.submitted[|before.ran|];
      if RunEffects(rebuild, before.mem, before.queue[0]) != [] && before.queue[0].Update? {
        RunWithReport(rebuild, srv, ws, k);
      } else {
        RunWithoutReport(rebuild, srv, ws, k);
      }
    } else {
      QuietKeepsVersions(rebuild, srv, k, after);
    }
  }

  lemma StateDecides(rebuild: Inputs -> Built, s: State)
    requires Reachable(rebuild, s)
    ensures |s.ran| <= |s.submitted|
    ensures s.phase == Taken ==> |s.ran| < |s.submitted| && s.queue != [] && s.queue[0] == s.submitted[|s.ran|]
  {
    var steps :| After(rebuild, s.sync, steps) == Some(s);
    QueueDiscipline(rebuild, s.sync, steps, s);
    RunKeepsInv(rebuild, s.sync, steps);
  }

  lemma AddKeepsVersions(rebuild: Inputs -> Built, srv: Server, e: Event)
    requires ServerInv(rebuild, srv) && e.AddDocument? && EventEnabled(srv, e)
    requires Get(srv.internal, e.file) + 1 < VERSIONS
    ensures VersionInv(rebuild, Handle(rebuild, srv, e))
  {
    var s := srv.(internal := Bump(srv.internal, e.file));
    BumpKeepsVersions(rebuild, srv, e.file);
    EnsureKeepsVersions(rebuild, s, e.file);
    EnsureKeepsFiles(s, e.file);
    var t := EnsureWorker(s, e.file);
    EnsureKeepsStates(rebuild, s, e.file);
    StateDecides(rebuild, t.workers[t.files[e.file]].state);
    SendKeepsVersions(rebuild, t, t.files[e.file], Update(e.inputs, e.want, s.internal[e.file]));
  }

  lemma HandleKeepsVersions(rebuild: Inputs -> Built, srv: Server, e: Event)
    requires ServerInv(rebuild, srv) && EventEnabled(srv, e)
    requires e.AddDocument? || e.RemoveDocument? ==> Get(srv.internal, e.file) + 1 < VERSIONS
    ensures VersionInv(rebuild, Handle(rebuild, srv, e))
  {
    match e
    case AddDocument(_, _, _) => AddKeepsVersions(rebuild, srv, e);
    case RemoveDocument(file) =>
      BumpKeepsVersions(rebuild, srv, file);
      if file in srv.files {
        var k := srv.files[file];
        var s := srv.(internal := Bump(srv.internal, file));
        QuietKeepsVersions(rebuild, s, k, Apply(rebuild, srv.workers[k].state, Stop));
      }
    case ReadAST(file, reader) =>
      if file in srv.files {
        StateDecides(rebuild, srv.workers[srv.files[file]].state);
        SendKeepsVersions(rebuild, srv, srv.files[file], Read(reader));
      }
    case Work(k, step) => WorkKeepsVersions(rebuild, srv, k, step);
  }

  // ---------- Main results ----------

  predicate Counts(e: Event, file: Path) {
    (e.AddDocument? || e.RemoveDocument?) && e.file == file
  }

  /** How often the version counter of `file` was incremented. */
  function Calls(events: seq<Event>, file: Path): nat {
    if events == [] then 0
    else Calls(events[..|events| - 1], file) + if Counts(events[|events| - 1], file) then 1 else 0
  }

  /** No file's 64-bit version counter has wrapped around. */
  ghost predicate NoOverflow(events: seq<Event>) {
    forall file :: Calls(events, file) < VERSIONS
  }

  lemma NoOverflowPrefix(events: seq<Event>, e: Event)
    requires NoOverflow(events + [e])
    ensures NoOverflow(events)
    ensures e.AddDocument? || e.RemoveDocument? ==> Calls(events, e.file) + 1 < VERSIONS
  {
    assert (events + [e])[..|events|] == events;
    forall file
      ensures Calls(events, file) < VERSIONS
    {
      assert Calls(events + [e], file) < VERSIONS;
    }
    if e.AddDocument? || e.RemoveDocument? {
      assert Calls(events + [e], e.file) < VERSIONS;
    }
  }

  /** One more, in 64 bits. */
  function Incremented(n: nat): nat {
    (n + 1) % VERSIONS
  }

  /** The version after these calls. */
  function VersionAfter(events: seq<Event>, file: Path): nat {
    if events == [] then 0
    else
      var before := VersionAfter(events[..|events| - 1], file);
      if Counts(events[|events| - 1], file) then Incremented(before) else before
  }

  lemma IncrementedIs(n: nat)
    ensures Incremented(n % VERSIONS) == (n + 1) % VERSIONS
    ensures n + 1 < VERSIONS ==> Incremented(n) == n + 1
  {
  }

  /** The version is the number of calls, in 64 bits. */
  lemma {:induction false} VersionIsCalls(events: seq<Event>, file: Path)
    ensures VersionAfter(events, file) == Calls(events, file) % VERSIONS
  {
    if events != [] {
      VersionIsCalls(events[..|events| - 1], file);
      IncrementedIs(Calls(events[..|events| - 1], file));
    }
  }

  lemma {:induction false} VersionIsSmall(events: seq<Event>, file: Path)
    requires Calls(events, file) < VERSIONS
    ensures VersionAfter(events, file) == Calls(events, file)
  {
    if events != [] {
      VersionIsSmall(events[..|events| - 1], file);
      IncrementedIs(Calls(events[..|events| - 1], file));
    }
  }

  lemma BumpIncrements(m: map<Path, nat>, bumped: Path, file: Path)
    ensures Get(Bump(m, bumped), file) == if bumped == file then Incremented(Get(m, file)) else Get(m, file)
  {
  }

  lemma HandleCounts(rebuild: Inputs -> Built, srv: Server, e: Event, file: Path)
    requires EventEnabled(srv, e)
    ensures Get(Handle(rebuild, srv, e).internal, file) ==
            if Counts(e, file) then Incremented(Get(srv.internal, file)) else Get(srv.internal, file)
  {
    match e
    case AddDocument(f, _, _) => BumpIncrements(srv.internal, f, file);
    case RemoveDocument(f) => BumpIncrements(srv.internal, f, file);
    case _ =>
  }

  /** The counter holds the version. */
  lemma {:induction false} CounterIsVersion(rebuild: Inputs -> Built, events: seq<Event>, file: Path)
    requires AfterEvents(rebuild, events).Some?
    ensures Get(AfterEvents(rebuild, events).value.internal, file) == VersionAfter(events, file)
  {
    if events != [] {
      var before := events[..|events| - 1];
      CounterIsVersion(rebuild, before, file);
      HandleCounts(rebuild, AfterEvents(rebuild, before).value, events[|events| - 1], file);
    }
  }

  lemma {:induction false} RunKeepsServerInv(rebuild: Inputs -> Built, events: seq<Event>)
    requires AfterEvents(rebuild, events).Some? && NoOverflow(events)
    ensures ServerInv(rebuild, AfterEvents(rebuild, events).value)
  {
    RunKeepsWorkers(rebuild, events);
    RunPublishesMonotone(rebuild, events);
    if events != [] {
      var prefix, e := events[..|events| - 1], events[|events| - 1];
      assert events == prefix + [e];
      NoOverflowPrefix(prefix, e);
      RunKeepsServerInv(rebuild, prefix);
      if !e.Work? {
        CounterIsVersion(rebuild, prefix, e.file);
        VersionIsSmall(prefix, e.file);
      }
      HandleKeepsVersions(rebuild, AfterEvents(rebuild, prefix).value, e);
    }
  }

  /** Main result on versions: over every run, with old and new workers of a
      file interleaved at will, the versions published for one file never go
      back, and they strictly increase until the 64-bit counter wraps. */
  lemma PublishedVersionsIncrease(rebuild: Inputs -> Built, events: seq<Event>, srv: Server)
    requires AfterEvents(rebuild, events) == Some(srv)
    ensures PublishedMonotone(srv.reported, srv.published)
    ensures NoOverflow(events) ==> PublishedStrict(srv.published)
  {
    RunPublishesMonotone(rebuild, events);
    if NoOverflow(events) {
      RunKeepsServerInv(rebuild, events);
    }
  }

  /** The last addDocument or removeDocument of `file`. */
  function LastDocumentEvent(events: seq<Event>, file: Path): Option<Event> {
    if events == [] then None
    else if Counts(events[|events| - 1], file) then Some(events[|events| - 1])
    else LastDocumentEvent(events[..|events| - 1], file)
  }

  /** The worker in use for `file` was last sent these contents, with the
      current version. */
  predicate HoldsLatest(srv: Server, file: Path, inputs: Inputs, want: WantDiagnostics) {
    && file in srv.files && srv.files[file] < |srv.workers|
    && LatestUpdate(srv.workers[srv.files[file]].state.submitted) ==
       Some(Update(inputs, want, Get(srv.internal, file)))
  }

  lemma LatestUpdateSnoc(rs: seq<Request>, r: Request)
    ensures LatestUpdate(rs + [r]) == if r.Update? then Some(r) else LatestUpdate(rs)
  {
    assert (rs + [r])[..|rs|] == rs;
  }

  /** The worker in use for `file`, and what it was last sent, are unchanged. */
  ghost predicate SameLatest(srv: Server, t: Server, file: Path) {
    && file in srv.files && file in t.files
    && t.files[file] == srv.files[file] < |srv.workers| <= |t.workers|
    && Get(t.internal, file) == Get(srv.internal, file)
    && LatestUpdate(t.workers[t.files[file]].state.submitted) == LatestUpdate(srv.workers[srv.files[file]].state.submitted)
  }

  lemma OtherDocumentsKeepLatest(rebuild: Inputs -> Built, srv: Server, e: Event, file: Path)
    requires FilesOk(srv.workers, srv.files) && EventEnabled(srv, e) && file in srv.files
    requires (e.AddDocument? || e.RemoveDocument?) && e.file != file
    ensures SameLatest(srv, Handle(rebuild, srv, e), file)
  {
    var s := srv.(internal := Bump(srv.internal, e.file));
    if e.AddDocument? {
      var t := EnsureWorker(s, e.file);
      assert t.files[e.file] != t.files[file];
      assert t.workers[t.files[file]] == srv.workers[srv.files[file]];
    } else if e.file in srv.files {
      assert srv.files[e.file] != srv.files[file];
    }
  }

  lemma ReadsKeepLatest(rebuild: Inputs -> Built, srv: Server, e: Event, file: Path)
    requires FilesOk(srv.workers, srv.files) && StatesOk(rebuild, srv) && EventEnabled(srv, e) && file in srv.files
    requires e.ReadAST?
    ensures SameLatest(srv, Handle(rebuild, srv, e), file)
  {
    if e.file in srv.files {
      LatestUpdateSnoc(srv.workers[srv.files[e.file]].state.submitted, Read(e.reader));
    }
  }

  lemma WorkKeepsLatest(rebuild: Inputs -> Built, srv: Server, k: nat, step: Step, file: Path)
    requires FilesOk(srv.workers, srv.files) && EventEnabled(srv, Work(k, step)) && file in srv.files
    ensures SameLatest(srv, Handle(rebuild, srv, Work(k, step)), file)
  {
    var s := SetState(srv, k, Apply(rebuild, srv.workers[k].state, step));
    assert SameLatest(srv, s, file);
  }

  lemma AddHoldsLatest(rebuild: Inputs -> Built, srv: Server, file: Path, inputs: Inputs, want: WantDiagnostics)
    requires FilesOk(srv.workers, srv.files) && EventEnabled(srv, AddDocument(file, inputs, want))
    ensures HoldsLatest(Handle(rebuild, srv, AddDocument(file, inputs, want)), file, inputs, want)
  {
    var internal := Bump(srv.internal, file);
    var s := EnsureWorker(srv.(internal := internal), file);
    LatestUpdateSnoc(s.workers[s.files[file]].state.submitted, Update(inputs, want, internal[file]));
  }

  lemma {:induction false} RunHoldsLatest(rebuild: Inputs -> Built, events: seq<Event>, file: Path, inputs: Inputs, want: WantDiagnostics)
    requires AfterEvents(rebuild, events).Some?
    requires LastDocumentEvent(events, file) == Some(AddDocument(file, inputs, want))
    ensures HoldsLatest(AfterEvents(rebuild, events).value, file, inputs, want)
  {
    var prefix, e := events[..|events| - 1], events[|events| - 1];
    var srv := AfterEvents(rebuild, prefix).value;
    RunKeepsWorkers(rebuild, prefix);
    if Counts(e, file) {
      AddHoldsLatest(rebuild, srv, file, inputs, want);
    } else {
      RunHoldsLatest(rebuild, prefix, file, inputs, want);
      match e
      case ReadAST(_, _) => ReadsKeepLatest(rebuild, srv, e, file);
      case Work(k, step) => WorkKeepsLatest(rebuild, srv, k, step, file);
      case _ => OtherDocumentsKeepLatest(rebuild, srv, e, file);
    }
  }

  lemma {:induction false} LatestUpdateIndex(rs: seq<Request>) returns (i: nat)
    requires LatestUpdate(rs).Some?
    ensures i < |rs| && rs[i].Update? && LatestUpdate(rs) == Some(rs[i])
    ensures i + 1 < |rs| ==> rs[i + 1].Read?
  {
    if rs[|rs| - 1].Update? {
      i := |rs| - 1;
    } else {
      i := LatestUpdateIndex(rs[..|rs| - 1]);
    }
  }

  /** The last update of an idle worker was run, never skipped. */
  lemma LatestUpdateRan(rebuild: Inputs -> Built, s: State) returns (i: nat)
    requires Reachable(rebuild, s) && s.queue == [] && LatestUpdate(s.submitted).Some?
    ensures i < |s.submitted| == |s.ran| && s.ran[i] && LatestUpdate(s.submitted) == Some(s.submitted[i])
  {
    var steps :| After(rebuild, s.sync, steps) == Some(s);
    RunKeepsInv(rebuild, s.sync, steps);
    i := LatestUpdateIndex(s.submitted);
    UpdateBeforeReadRan(s.submitted, s.ran, i);
  }

  lemma UpdateBeforeReadRan(rs: seq<Request>, ran: seq<bool>, i: nat)
    requires i < |ran| == |rs| && Justified(rs, ran)
    requires i + 1 < |rs| ==> rs[i + 1].Read?
    ensures ran[i]
  {
  }

  /** `pub` is published and nothing is published for its file after it. */
  ghost predicate PublishedLast(srv: Server, pub: Publication) {
    exists p :: 0 <= p < |srv.published| && srv.published[p] == pub &&
      forall q :: p < q < |srv.published| ==> srv.published[q].file != pub.file
  }

  lemma NewestPublicationIsLast(srv: Server, pub: Publication)
    requires PublishedStrict(srv.published) && PublishedMonotone(srv.reported, srv.published)
    requires pub in srv.published && Get(srv.reported, pub.file) <= pub.version
    ensures PublishedLast(srv, pub)
  {
    var p :| 0 <= p < |srv.published| && srv.published[p] == pub;
  }

  /** Main result on freshness: if the last addDocument of a file asked for
      diagnostics (Yes or Auto) and the build produced some, then once every
      worker is idle they are the last diagnostics published for that file,
      whatever older workers and older updates did. */
  lemma LatestDiagnosticsWin(rebuild: Inputs -> Built, events: seq<Event>, srv: Server, file: Path, inputs: Inputs, want: WantDiagnostics)
    requires AfterEvents(rebuild, events) == Some(srv) && NoOverflow(events)
    requires LastDocumentEvent(events, file) == Some(AddDocument(file, inputs, want))
    requires want != No && rebuild(inputs).diags.Some?
    requires forall k :: 0 <= k < |srv.workers| ==> srv.workers[k].state.queue == []
    ensures PublishedLast(srv, Publication(file, Get(srv.internal, file), rebuild(inputs).diags.value))
  {
    RunKeepsServerInv(rebuild, events);
    RunHoldsLatest(rebuild, events, file, inputs, want);
    var k := srv.files[file];
    var i := LatestUpdateRan(rebuild, srv.workers[k].state);
    assert Delivered(rebuild, srv.workers, k, i);
    NewestPublicationIsLast(srv, Publication(file, Get(srv.internal, file), rebuild(inputs).diags.value));
  }
}
