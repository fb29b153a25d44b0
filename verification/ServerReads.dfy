/**
 Over all runs of the server, with files removed and added again: every read of an AST
 is answered once, with what was last added to its file before it.
 */
module ServerReads {
  import opened Options
  import opened ServerProtocol
  import opened ServerTheorems
  import opened TUScheduler
  import opened WorkerProtocol
  import opened WorkerTheorems

  // ---------- What is promised ----------

  /** What a read of the file must see: the document as last added, or an error when
      the file is not tracked or its build produced no AST. */
  function PromisedView(rebuild: Inputs -> Built, events: seq<Event>, file: Path): Option<Memory> {
    match LastDocumentEvent(events, file)
    case Some(AddDocument(_, inputs, _)) =>
      var ast := rebuild(inputs).ast;
      if ast.Some? then Some(Memory(inputs, ast)) else None
    case _ => None
  }

  /** One answer for every read among the events. */
  function PromisedAnswers(rebuild: Inputs -> Built, events: seq<Event>): multiset<Answer> {
    if events == [] then multiset{}
    else
      var before, e := events[..|events| - 1], events[|events| - 1];
      PromisedAnswers(rebuild, before) +
      if e.ReadAST? then multiset{Answer(e.file, e.reader, PromisedView(rebuild, before, e.file))} else multiset{}
  }

  // ---------- Answers and workers ----------

  function AnswersIn(file: Path, effects: seq<Effect>): multiset<Answer> {
    if effects == [] then multiset{}
    else
      var last := effects[|effects| - 1];
      AnswersIn(file, effects[..|effects| - 1]) +
      if last.Saw? then multiset{Answer(file, last.reader, last.view)} else multiset{}
  }

  lemma {:induction false} AnswersInReads(file: Path, effects: seq<Effect>)
    ensures AnswersIn(file, Reads(effects)) == AnswersIn(file, effects)
  {
    if effects != [] {
      var before := effects[..|effects| - 1];
      AnswersInReads(file, before);
      assert (Reads(before) + [effects[|effects| - 1]])[..|Reads(before)|] == Reads(before);
    }
  }

  lemma AnswersInOneMore(file: Path, effects: seq<Effect>, e: Effect)
    ensures AnswersIn(file, effects + [e]) ==
            AnswersIn(file, effects) + if e.Saw? then multiset{Answer(file, e.reader, e.view)} else multiset{}
  {
    assert (effects + [e])[..|effects|] == effects;
  }

  /** The answers that one worker has given, and those it owes in the end. */
  function Given(w: Worker): multiset<Answer> {
    AnswersIn(w.file, w.state.effects)
  }

  function Owed(rebuild: Inputs -> Built, w: Worker): multiset<Answer> {
    AnswersIn(w.file, PromisedReads(rebuild, w.state.submitted))
  }

  lemma {:induction false} PromisedReadsGrow(rebuild: Inputs -> Built, file: Path, rs: seq<Request>, n: nat)
    requires n <= |rs|
    ensures AnswersIn(file, PromisedReads(rebuild, rs[..n])) <= AnswersIn(file, PromisedReads(rebuild, rs))
    decreases |rs|
  {
    if n == |rs| {
      assert rs[..n] == rs;
    } else {
      var before, r := rs[..|rs| - 1], rs[|rs| - 1];
      assert before[..n] == rs[..n];
      PromisedReadsGrow(rebuild, file, before, n);
      if r.Read? {
        AnswersInOneMore(file, PromisedReads(rebuild, before), Saw(r.reader, ViewAt(rebuild, before)));
      }
    }
  }

  /** A worker gives no answer that it does not owe, and when idle has given all. */
  lemma WorkerKeepsPromise(rebuild: Inputs -> Built, w: Worker)
    requires Reachable(rebuild, w.state)
    ensures Given(w) <= Owed(rebuild, w)
    ensures w.state.queue == [] ==> Given(w) == Owed(rebuild, w)
  {
    var s := w.state;
    var steps :| After(rebuild, s.sync, steps) == Some(s);
    ReadsSeeLatestUpdate(rebuild, s.sync, steps, s);
    AnswersInReads(w.file, s.effects);
    PromisedReadsGrow(rebuild, w.file, s.submitted, |s.ran|);
  }

  // ---------- All workers ----------

  function AllGiven(ws: seq<Worker>): multiset<Answer> {
    if ws == [] then multiset{} else AllGiven(ws[..|ws| - 1]) + Given(ws[|ws| - 1])
  }

  function AllOwed(rebuild: Inputs -> Built, ws: seq<Worker>): multiset<Answer> {
    if ws == [] then multiset{} else AllOwed(rebuild, ws[..|ws| - 1]) + Owed(rebuild, ws[|ws| - 1])
  }

  lemma {:induction false} GivenByOne(ws: seq<Worker>, k: nat, w: Worker, more: multiset<Answer>)
    requires k < |ws| && Given(w) == Given(ws[k]) + more
    ensures AllGiven(ws[k := w]) == AllGiven(ws) + more
  {
    var n := |ws| - 1;
    if k < n {
      assert ws[k := w][..n] == ws[..n][k := w];
      GivenByOne(ws[..n], k, w, more);
    } else {
      assert ws[k := w][..n] == ws[..n];
    }
  }

  lemma {:induction false} OwedByOne(rebuild: Inputs -> Built, ws: seq<Worker>, k: nat, w: Worker, more: multiset<Answer>)
    requires k < |ws| && Owed(rebuild, w) == Owed(rebuild, ws[k]) + more
    ensures AllOwed(rebuild, ws[k := w]) == AllOwed(rebuild, ws) + more
  {
    var n := |ws| - 1;
    if k < n {
      assert ws[k := w][..n] == ws[..n][k := w];
      OwedByOne(rebuild, ws[..n], k, w, more);
    } else {
      assert ws[k := w][..n] == ws[..n];
    }
  }

  lemma NewWorkerOwesNothing(rebuild: Inputs -> Built, srv: Server, file: Path)
    ensures AllGiven(EnsureWorker(srv, file).workers) == AllGiven(srv.workers)
    ensures AllOwed(rebuild, EnsureWorker(srv, file).workers) == AllOwed(rebuild, srv.workers)
  {
    var w := Worker(file, Initial(false));
    assert (srv.workers + [w])[..|srv.workers|] == srv.workers;
    assert Given(w) == multiset{} && Owed(rebuild, w) == multiset{};
  }

  lemma {:induction false} WorkersKeepPromises(rebuild: Inputs -> Built, ws: seq<Worker>)
    requires forall k :: 0 <= k < |ws| ==> Reachable(rebuild, ws[k].state)
    ensures AllGiven(ws) <= AllOwed(rebuild, ws)
    ensures (forall k :: 0 <= k < |ws| ==> ws[k].state.queue == []) ==> AllGiven(ws) == AllOwed(rebuild, ws)
  {
    if ws != [] {
      WorkersKeepPromises(rebuild, ws[..|ws| - 1]);
      WorkerKeepsPromise(rebuild, ws[|ws| - 1]);
    }
  }

  // ---------- Every event ----------

  /** Reads of files that are not tracked, answered with an error at once. */
  function Refused(events: seq<Event>): multiset<Answer> {
    if events == [] then multiset{}
    else
      var before, e := events[..|events| - 1], events[|events| - 1];
      Refused(before) + if e.ReadAST? && !Tracked(before, e.file) then multiset{Answer(e.file, e.reader, None)} else multiset{}
  }

  predicate Tracked(events: seq<Event>, file: Path) {
    var last := LastDocumentEvent(events, file);
    last.Some? && last.value.AddDocument?
  }

  lemma {:induction false} TrackedInFiles(rebuild: Inputs -> Built, events: seq<Event>, file: Path)
    requires AfterEvents(rebuild, events).Some?
    ensures Tracked(events, file) <==> file in AfterEvents(rebuild, events).value.files
  {
    if events != [] {
      TrackedInFiles(rebuild, events[..|events| - 1], file);
    }
  }

  lemma {:induction false} LastDocumentIsDocument(events: seq<Event>, file: Path)
    ensures var last := LastDocumentEvent(events, file); last.Some? ==> Counts(last.value, file)
  {
    if events != [] {
      LastDocumentIsDocument(events[..|events| - 1], file);
    }
  }

  /** The worker of a tracked file owes a new read just what is promised. */
  lemma LiveWorkerView(rebuild: Inputs -> Built, events: seq<Event>, srv: Server, file: Path)
    requires AfterEvents(rebuild, events) == Some(srv) && file in srv.files
    ensures srv.files[file] < |srv.workers| && srv.workers[srv.files[file]].file == file
    ensures ViewAt(rebuild, srv.workers[srv.files[file]].state.submitted) == PromisedView(rebuild, events, file)
  {
    RunKeepsWorkers(rebuild, events);
    TrackedInFiles(rebuild, events, file);
    LastDocumentIsDocument(events, file);
    var last := LastDocumentEvent(events, file).value;
    RunHoldsLatest(rebuild, events, file, last.inputs, last.want);
  }

  /** What an event does to the accounts: the answers given, and those owed by workers. */
  ghost predicate Accounts(rebuild: Inputs -> Built, srv: Server, t: Server, given: multiset<Answer>, owed: multiset<Answer>) {
    && AllGiven(t.workers) == AllGiven(srv.workers) + given
    && AllOwed(rebuild, t.workers) == AllOwed(rebuild, srv.workers) + owed
  }

  /** One worker changes its state. */
  lemma OneWorkerAccounts(rebuild: Inputs -> Built, srv: Server, k: nat, state: State, given: multiset<Answer>, owed: multiset<Answer>)
    requires k < |srv.workers|
    requires Given(srv.workers[k].(state := state)) == Given(srv.workers[k]) + given
    requires Owed(rebuild, srv.workers[k].(state := state)) == Owed(rebuild, srv.workers[k]) + owed
    ensures Accounts(rebuild, srv, SetState(srv, k, state), given, owed)
  {
    var w := srv.workers[k].(state := state);
    GivenByOne(srv.workers, k, w, given);
    OwedByOne(rebuild, srv.workers, k, w, owed);
  }

  /** A worker whose callbacks and requests stay the same. */
  lemma QuietAccounts(rebuild: Inputs -> Built, srv: Server, k: nat, state: State)
    requires k < |srv.workers|
    requires state.effects == srv.workers[k].state.effects && state.submitted == srv.workers[k].state.submitted
    ensures Accounts(rebuild, srv, SetState(srv, k, state), multiset{}, multiset{})
  {
    OneWorkerAccounts(rebuild, srv, k, state, multiset{}, multiset{});
  }

  lemma PromisedOneMore(rebuild: Inputs -> Built, rs: seq<Request>, r: Request)
    ensures PromisedReads(rebuild, rs + [r]) ==
            if r.Read? then PromisedReads(rebuild, rs) + [Saw(r.reader, ViewAt(rebuild, rs))] else PromisedReads(rebuild, rs)
  {
    assert (rs + [r])[..|rs|] == rs;
  }

  /** A request sent to a worker: a read is owed an answer. */
  lemma SendAccounts(rebuild: Inputs -> Built, srv: Server, k: nat, r: Request)
    requires k < |srv.workers| && !srv.workers[k].state.done && !srv.workers[k].state.sync
    ensures var w := srv.workers[k];
            Accounts(rebuild, srv, Send(rebuild, srv, k, r), multiset{},
                     if r.Read? then multiset{Answer(w.file, r.reader, ViewAt(rebuild, w.state.submitted))} else multiset{})
  {
    var w := srv.workers[k];
    var rs := w.state.submitted;
    PromisedOneMore(rebuild, rs, r);
    if r.Read? {
      AnswersInOneMore(w.file, PromisedReads(rebuild, rs), Saw(r.reader, ViewAt(rebuild, rs)));
    }
    OneWorkerAccounts(rebuild, srv, k, Apply(rebuild, w.state, Submit(r)), multiset{},
                      if r.Read? then multiset{Answer(w.file, r.reader, ViewAt(rebuild, rs))} else multiset{});
  }

  lemma AddAccounts(rebuild: Inputs -> Built, srv: Server, e: Event)
    requires StatesOk(rebuild, srv) && e.AddDocument? && EventEnabled(srv, e)
    ensures var t := Handle(rebuild, srv, e); Accounts(rebuild, srv, t, multiset{}, multiset{}) && t.answers == srv.answers
  {
    var s := srv.(internal := Bump(srv.internal, e.file));
    NewWorkerOwesNothing(rebuild, s, e.file);
    var t := EnsureWorker(s, e.file);
    SendAccounts(rebuild, t, t.files[e.file], Update(e.inputs, e.want, s.internal[e.file]));
  }

  lemma RemoveAccounts(rebuild: Inputs -> Built, srv: Server, e: Event)
    requires e.RemoveDocument? && EventEnabled(srv, e)
    ensures var t := Handle(rebuild, srv, e); Accounts(rebuild, srv, t, multiset{}, multiset{}) && t.answers == srv.answers
  {
    if e.file in srv.files {
      var s := srv.(internal := Bump(srv.internal, e.file));
      var k := srv.files[e.file];
      QuietAccounts(rebuild, s, k, Apply(rebuild, s.workers[k].state, Stop));
    }
  }

  /** Running a request gives the answer that the worker's record shows. */
  lemma ExecuteAccounts(rebuild: Inputs -> Built, srv: Server, k: nat) returns (given: multiset<Answer>)
    requires k < |srv.workers| && Enabled(srv.workers[k].state, Execute)
    ensures var t := Handle(rebuild, srv, Work(k, Execute));
            Accounts(rebuild, srv, t, given, multiset{}) && multiset(t.answers) == multiset(srv.answers) + given
  {
    var w := srv.workers[k];
    var effects := RunEffects(rebuild, w.state.mem, w.state.queue[0]);
    var after := Apply(rebuild, w.state, Execute);
    assert after.effects == w.state.effects + effects && after.submitted == w.state.submitted;
    var s := SetState(srv, k, after);
    given := EffectsAnswer(s, w.file, w.state.effects, effects);
    OneWorkerAccounts(rebuild, srv, k, after, given, multiset{});
    assert Handle(rebuild, srv, Work(k, Execute)) == Deliver(s, w.file, effects);
  }

  lemma EffectsAnswer(srv: Server, file: Path, before: seq<Effect>, effects: seq<Effect>) returns (given: multiset<Answer>)
    requires |effects| <= 1
    ensures AnswersIn(file, before + effects) == AnswersIn(file, before) + given
    ensures multiset(Deliver(srv, file, effects).answers) == multiset(srv.answers) + given
    ensures Deliver(srv, file, effects).workers == srv.workers
  {
    given := multiset{};
    if effects == [] {
      assert before + effects == before;
    } else {
      assert effects == [effects[0]];
      AnswersInOneMore(file, before, effects[0]);
      if effects[0].Saw? {
        given := multiset{Answer(file, effects[0].reader, effects[0].view)};
      }
    }
  }

  lemma WorkAccounts(rebuild: Inputs -> Built, srv: Server, k: nat, step: Step) returns (given: multiset<Answer>)
    requires EventEnabled(srv, Work(k, step))
    ensures var t := Handle(rebuild, srv, Work(k, step));
            Accounts(rebuild, srv, t, given, multiset{}) && multiset(t.answers) == multiset(srv.answers) + given
  {
    if step.Execute? {
      given := ExecuteAccounts(rebuild, srv, k);
    } else {
      given := multiset{};
      QuietAccounts(rebuild, srv, k, Apply(rebuild, srv.workers[k].state, step));
    }
  }

  /** The answers given are those refused and those of workers; the answers promised are
      those refused and those that workers owe. */
  ghost predicate Balanced(rebuild: Inputs -> Built, events: seq<Event>, srv: Server) {
    && multiset(srv.answers) == Refused(events) + AllGiven(srv.workers)
    && PromisedAnswers(rebuild, events) == Refused(events) + AllOwed(rebuild, srv.workers)
  }

  lemma OneMoreEvent(rebuild: Inputs -> Built, events: seq<Event>, e: Event)
    ensures PromisedAnswers(rebuild, events + [e]) == PromisedAnswers(rebuild, events) +
            if e.ReadAST? then multiset{Answer(e.file, e.reader, PromisedView(rebuild, events, e.file))} else multiset{}
    ensures Refused(events + [e]) == Refused(events) +
            if e.ReadAST? && !Tracked(events, e.file) then multiset{Answer(e.file, e.reader, None)} else multiset{}
  {
    assert (events + [e])[..|events|] == events;
  }

  lemma NoReadBalances(rebuild: Inputs -> Built, events: seq<Event>, e: Event, srv: Server, t: Server, given: multiset<Answer>)
    requires Balanced(rebuild, events, srv) && !e.ReadAST?
    requires Accounts(rebuild, srv, t, given, multiset{}) && multiset(t.answers) == multiset(srv.answers) + given
    ensures Balanced(rebuild, events + [e], t)
  {
    OneMoreEvent(rebuild, events, e);
  }

  /** A read of a tracked file is owed by its worker. */
  lemma TrackedReadAccounts(rebuild: Inputs -> Built, events: seq<Event>, srv: Server, file: Path, reader: nat)
    requires AfterEvents(rebuild, events) == Some(srv) && file in srv.files && EventEnabled(srv, ReadAST(file, reader))
    ensures var t := Handle(rebuild, srv, ReadAST(file, reader));
            && Accounts(rebuild, srv, t, multiset{}, multiset{Answer(file, reader, PromisedView(rebuild, events, file))})
            && t.answers == srv.answers
  {
    LiveWorkerView(rebuild, events, srv, file);
    RunKeepsWorkers(rebuild, events);
    SendAccounts(rebuild, srv, srv.files[file], Read(reader));
  }

  lemma TrackedReadBalances(rebuild: Inputs -> Built, events: seq<Event>, e: Event, srv: Server, t: Server)
    requires Balanced(rebuild, events, srv) && e.ReadAST? && Tracked(events, e.file) && t.answers == srv.answers
    requires Accounts(rebuild, srv, t, multiset{}, multiset{Answer(e.file, e.reader, PromisedView(rebuild, events, e.file))})
    ensures Balanced(rebuild, events + [e], t)
  {
    var a := Answer(e.file, e.reader, PromisedView(rebuild, events, e.file));
    OneMoreEvent(rebuild, events, e);
    Regroup(Refused(events), AllOwed(rebuild, srv.workers), multiset{a});
    assert AllGiven(t.workers) == AllGiven(srv.workers);
  }

  lemma Regroup(a: multiset<Answer>, b: multiset<Answer>, c: multiset<Answer>)
    ensures a + b + c == a + (b + c)
  {
  }

  lemma SwapLast(a: multiset<Answer>, b: multiset<Answer>, c: multiset<Answer>)
    ensures a + b + c == a + c + b
  {
  }

  lemma RefusedReadBalances(rebuild: Inputs -> Built, events: seq<Event>, e: Event, srv: Server)
    requires Balanced(rebuild, events, srv) && e.ReadAST? && !Tracked(events, e.file)
    ensures Balanced(rebuild, events + [e], Reply(srv, e.file, e.reader, None))
  {
    var a := Answer(e.file, e.reader, None);
    OneMoreEvent(rebuild, events, e);
    MultisetOneMore(srv.answers, a);
    SwapLast(Refused(events), AllGiven(srv.workers), multiset{a});
    SwapLast(Refused(events), AllOwed(rebuild, srv.workers), multiset{a});
  }

  lemma MultisetOneMore(answers: seq<Answer>, a: Answer)
    ensures multiset(answers + [a]) == multiset(answers) + multiset{a}
  {
  }

  lemma ReadBalances(rebuild: Inputs -> Built, events: seq<Event>, srv: Server, file: Path, reader: nat)
    requires AfterEvents(rebuild, events) == Some(srv) && Balanced(rebuild, events, srv)
    requires EventEnabled(srv, ReadAST(file, reader))
    ensures Balanced(rebuild, events + [ReadAST(file, reader)], Handle(rebuild, srv, ReadAST(file, reader)))
  {
    var e := ReadAST(file, reader);
    TrackedInFiles(rebuild, events, file);
    if file in srv.files {
      TrackedReadAccounts(rebuild, events, srv, file, reader);
      TrackedReadBalances(rebuild, events, e, srv, Handle(rebuild, srv, e));
    } else {
      RefusedReadBalances(rebuild, events, e, srv);
    }
  }

  lemma {:induction false} RunStaysBalanced(rebuild: Inputs -> Built, events: seq<Event>)
    requires AfterEvents(rebuild, events).Some?
    ensures Balanced(rebuild, events, AfterEvents(rebuild, events).value)
  {
    if events != [] {
      var before, e := events[..|events| - 1], events[|events| - 1];
      RunStaysBalanced(rebuild, before);
      assert events == before + [e];
      EventBalances(rebuild, before, AfterEvents(rebuild, before).value, e);
    }
  }

  lemma EventBalances(rebuild: Inputs -> Built, events: seq<Event>, srv: Server, e: Event)
    requires AfterEvents(rebuild, events) == Some(srv) && Balanced(rebuild, events, srv) && EventEnabled(srv, e)
    ensures Balanced(rebuild, events + [e], Handle(rebuild, srv, e))
  {
    var t := Handle(rebuild, srv, e);
    match e
    case AddDocument(_, _, _) =>
      RunKeepsWorkers(rebuild, events);
      AddAccounts(rebuild, srv, e);
      NoReadBalances(rebuild, events, e, srv, t, multiset{});
    case RemoveDocument(_) =>
      RemoveAccounts(rebuild, srv, e);
      NoReadBalances(rebuild, events, e, srv, t, multiset{});
    case ReadAST(file, reader) =>
      ReadBalances(rebuild, events, srv, file, reader);
    case Work(k, step) =>
      var given := WorkAccounts(rebuild, srv, k, step);
      NoReadBalances(rebuild, events, e, srv, t, given);
  }

  /** Main result on the reads of a server: in every run, whatever is added, removed and
      added again meanwhile, no read gets an answer but the one promised when it was
      made, none gets two, and once every worker is idle all have been answered. */
  lemma EveryReadIsAnswered(rebuild: Inputs -> Built, events: seq<Event>, srv: Server)
    requires AfterEvents(rebuild, events) == Some(srv)
    ensures multiset(srv.answers) <= PromisedAnswers(rebuild, events)
    ensures (forall k :: 0 <= k < |srv.workers| ==> srv.workers[k].state.queue == []) ==>
              multiset(srv.answers) == PromisedAnswers(rebuild, events)
  {
    RunKeepsWorkers(rebuild, events);
    RunStaysBalanced(rebuild, events);
    WorkersKeepPromises(rebuild, srv.workers);
  }
}
