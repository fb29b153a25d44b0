/** Where published diagnostics come from. */
module ServerOrigins {
  import opened Options
  import opened Sequences
  import opened WorkerProtocol
  import opened TUScheduler
  import opened ServerProtocol
  import opened ServerTheorems

  /** Event `e` added the document, as the version that it says. */
  predicate IsAdded(events: seq<Event>, e: nat, file: Path, inputs: Inputs, want: WantDiagnostics, version: nat) {
    && e < |events| && events[e] == AddDocument(file, inputs, want)
    && version == VersionAfter(events[..e + 1], file)
  }

  ghost predicate WasAdded(events: seq<Event>, file: Path, r: Request)
    requires r.Update?
  {
    exists e: nat :: IsAdded(events, e, file, r.inputs, r.want, r.version)
  }

  /** Every update that a worker has or had was added. */
  ghost predicate UpdatesWereAdded(events: seq<Event>, ws: seq<Worker>) {
    forall k: nat, i: nat :: IsUpdate(ws, k, i) ==> WasAdded(events, ws[k].file, RequestAt(ws, k, i))
  }

  /** A document was added that wants diagnostics, and these are the ones of its version. */
  ghost predicate IsWanted(rebuild: Inputs -> Built, events: seq<Event>, pub: Publication) {
    exists e: nat, inputs, want ::
      IsAdded(events, e, pub.file, inputs, want, pub.version) && want != No && rebuild(inputs).diags == Some(pub.diags)
  }

  ghost predicate AllWanted(rebuild: Inputs -> Built, events: seq<Event>, published: seq<Publication>) {
    forall p :: 0 <= p < |published| ==> IsWanted(rebuild, events, published[p])
  }

  lemma StillAdded(events: seq<Event>, last: Event, e: nat, file: Path, inputs: Inputs, want: WantDiagnostics, version: nat)
    requires IsAdded(events, e, file, inputs, want, version)
    ensures IsAdded(events + [last], e, file, inputs, want, version)
  {
    assert (events + [last])[..e + 1] == events[..e + 1];
  }

  lemma UpdatesStay(events: seq<Event>, last: Event, before: seq<Worker>, after: seq<Worker>)
    requires UpdatesWereAdded(events, before) && SameUpdates(before, after)
    ensures UpdatesWereAdded(events + [last], after)
  {
    forall k: nat, i: nat | IsUpdate(after, k, i)
      ensures WasAdded(events + [last], after[k].file, RequestAt(after, k, i))
    {
      var r := RequestAt(before, k, i);
      var e: nat :| IsAdded(events, e, before[k].file, r.inputs, r.want, r.version);
      StillAdded(events, last, e, before[k].file, r.inputs, r.want, r.version);
    }
  }

  lemma WantedStay(rebuild: Inputs -> Built, events: seq<Event>, last: Event, published: seq<Publication>)
    requires AllWanted(rebuild, events, published)
    ensures AllWanted(rebuild, events + [last], published)
  {
    forall p | 0 <= p < |published|
      ensures IsWanted(rebuild, events + [last], published[p])
    {
      var pub := published[p];
      var e: nat, inputs, want :|
        IsAdded(events, e, pub.file, inputs, want, pub.version) && want != No && rebuild(inputs).diags == Some(pub.diags);
      StillAdded(events, last, e, pub.file, inputs, want, pub.version);
    }
  }

  /** A worker that changes without getting an update. */
  lemma ChangedWorker(srv: Server, k: nat, state: State)
    requires k < |srv.workers|
    requires forall i :: 0 <= i < |state.submitted| && state.submitted[i].Update? ==>
               i < |srv.workers[k].state.submitted| && srv.workers[k].state.submitted[i] == state.submitted[i]
    requires |srv.workers[k].state.ran| <= |state.ran|
    ensures SameUpdates(srv.workers, SetState(srv, k, state).workers)
  {
  }

  lemma NewWorker(srv: Server, file: Path)
    ensures SameUpdates(srv.workers, EnsureWorker(srv, file).workers)
  {
  }

  /** An added document goes to the worker of its file. */
  lemma AddKeepsOrigins(rebuild: Inputs -> Built, events: seq<Event>, srv: Server, e: Event)
    requires e.AddDocument? && EventEnabled(srv, e) && UpdatesWereAdded(events, srv.workers)
    requires StatesOk(rebuild, srv) && FilesOk(srv.workers, srv.files)
    requires Get(srv.internal, e.file) == VersionAfter(events, e.file)
    ensures UpdatesWereAdded(events + [e], Handle(rebuild, srv, e).workers)
  {
    var s := srv.(internal := Bump(srv.internal, e.file));
    var t := EnsureWorker(s, e.file);
    NewWorker(s, e.file);
    UpdatesStay(events, e, srv.workers, t.workers);
    EnsureKeepsFiles(s, e.file);
    EnsureKeepsStates(rebuild, s, e.file);
    var k := t.files[e.file];
    StateDecides(rebuild, t.workers[k].state);
    var r := Update(e.inputs, e.want, s.internal[e.file]);
    BumpIncrements(srv.internal, e.file, e.file);
    AddedNow(events, e, s.internal[e.file]);
    UpdateSent(events + [e], t.workers, Handle(rebuild, srv, e).workers, k, r);
  }

  lemma AddedNow(events: seq<Event>, e: Event, version: nat)
    requires e.AddDocument? && version == Incremented(VersionAfter(events, e.file))
    ensures IsAdded(events + [e], |events|, e.file, e.inputs, e.want, version)
  {
    assert (events + [e])[..|events| + 1] == events + [e] && (events + [e])[..|events|] == events;
  }

  lemma UpdateSent(events: seq<Event>, before: seq<Worker>, after: seq<Worker>, k: nat, r: Request)
    requires UpdatesWereAdded(events, before) && Grown(before, after, k, r)
    requires r.Update? ==> WasAdded(events, before[k].file, r)
    ensures UpdatesWereAdded(events, after)
  {
    forall m: nat, i: nat | IsUpdate(after, m, i)
      ensures WasAdded(events, after[m].file, RequestAt(after, m, i))
    {
      GrownUpdates(before, after, k, r, m, i);
    }
  }

  lemma WorkIsQuiet(rebuild: Inputs -> Built, s: State, step: Step)
    requires WorkerStep(step) && Enabled(s, step)
    ensures Apply(rebuild, s, step).submitted == s.submitted && |s.ran| <= |Apply(rebuild, s, step).ran|
  {
  }

  lemma HandleKeepsOrigins(rebuild: Inputs -> Built, events: seq<Event>, srv: Server, e: Event)
    requires EventEnabled(srv, e) && UpdatesWereAdded(events, srv.workers)
    requires StatesOk(rebuild, srv) && FilesOk(srv.workers, srv.files)
    requires forall file :: Get(srv.internal, file) == VersionAfter(events, file)
    ensures UpdatesWereAdded(events + [e], Handle(rebuild, srv, e).workers)
  {
    match e
    case AddDocument(_, _, _) => AddKeepsOrigins(rebuild, events, srv, e);
    case RemoveDocument(file) =>
      if file in srv.files {
        var k := srv.files[file];
        ChangedWorker(srv, k, Apply(rebuild, srv.workers[k].state, Stop));
      }
      UpdatesStay(events, e, srv.workers, Handle(rebuild, srv, e).workers);
    case ReadAST(file, reader) =>
      UpdatesStay(events, e, srv.workers, srv.workers);
      if file in srv.files {
        StateDecides(rebuild, srv.workers[srv.files[file]].state);
        UpdateSent(events + [e], srv.workers, Handle(rebuild, srv, e).workers, srv.files[file], Read(reader));
      }
    case Work(k, step) =>
      WorkIsQuiet(rebuild, srv.workers[k].state, step);
      ChangedWorker(srv, k, Apply(rebuild, srv.workers[k].state, step));
      UpdatesStay(events, e, srv.workers, Handle(rebuild, srv, e).workers);
  }

  // ---------- Publications ----------

  /** What a step publishes is the result of the update at the head of the queue. */
  lemma WorkPublishes(rebuild: Inputs -> Built, events: seq<Event>, srv: Server, k: nat, step: Step)
    requires EventEnabled(srv, Work(k, step)) && UpdatesWereAdded(events, srv.workers)
    requires StatesOk(rebuild, srv) && AllWanted(rebuild, events, srv.published)
    ensures AllWanted(rebuild, events, Handle(rebuild, srv, Work(k, step)).published)
  {
    var s := srv.workers[k].state;
    StateDecides(rebuild, s);
    if step.Execute? && s.queue[0].Update? {
      var r := s.queue[0];
      assert IsUpdate(srv.workers, k, |s.ran|) && RequestAt(srv.workers, k, |s.ran|) == r;
      if r.want != No && rebuild(r.inputs).diags.Some? {
        var pub := Publication(srv.workers[k].file, r.version, rebuild(r.inputs).diags.value);
        assert IsWanted(rebuild, events, pub) by {
          var e: nat :| IsAdded(events, e, pub.file, r.inputs, r.want, r.version);
        }
      }
    }
  }

  lemma {:induction false} RunKeepsOrigins(rebuild: Inputs -> Built, events: seq<Event>)
    requires AfterEvents(rebuild, events).Some?
    ensures var srv := AfterEvents(rebuild, events).value;
            UpdatesWereAdded(events, srv.workers) && AllWanted(rebuild, events, srv.published)
  {
    if events != [] {
      var before, e := events[..|events| - 1], events[|events| - 1];
      var srv := AfterEvents(rebuild, before).value;
      assert events == before + [e];
      RunKeepsOrigins(rebuild, before);
      RunKeepsWorkers(rebuild, before);
      forall file
        ensures Get(srv.internal, file) == VersionAfter(before, file)
      {
        CounterIsVersion(rebuild, before, file);
      }
      HandleKeepsOrigins(rebuild, before, srv, e);
      if e.Work? {
        WorkPublishes(rebuild, before, srv, e.k, e.step);
      }
      WantedStay(rebuild, before, e, Handle(rebuild, srv, e).published);
    }
  }

  /** Main result: whatever is published are the diagnostics of a document that was added and
      asked for diagnostics, under the number of the call that added it: the number of
      additions and removals of the file so far, in 64 bits. */
  lemma PublicationsAreWanted(rebuild: Inputs -> Built, events: seq<Event>, srv: Server, pub: Publication)
    requires AfterEvents(rebuild, events) == Some(srv) && pub in srv.published
    ensures exists e: nat, inputs, want ::
              && e < |events| && events[e] == AddDocument(pub.file, inputs, want) && want != No
              && pub.version == Calls(events[..e + 1], pub.file) % 0x1_0000_0000_0000_0000
              && rebuild(inputs).diags == Some(pub.diags)
  {
    RunKeepsOrigins(rebuild, events);
    var p :| 0 <= p < |srv.published| && srv.published[p] == pub;
    var e: nat, inputs, want :|
      IsAdded(events, e, pub.file, inputs, want, pub.version) && want != No && rebuild(inputs).diags == Some(pub.diags);
    VersionIsCalls(events[..e + 1], pub.file);
  }
}
