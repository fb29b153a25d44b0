/**
 ClangdServer over TUScheduler as a state machine: documents are added, removed
 and re-added, so an old and a new worker of one file can run at once, and every
 worker delivers diagnostics through one version filter.
 */
module ServerProtocol {
  import opened Options
  import opened WorkerProtocol
  import opened TUScheduler

  type Path = string

  /** DocVersion is a 64-bit unsigned integer. */
  const VERSIONS := 0x1_0000_0000_0000_0000

  datatype Worker = Worker(file: Path, state: State)

  /** One call of onDiagnosticsReady. */
  datatype Publication = Publication(file: Path, version: nat, diags: Diags)

  /** The callback of one runWithAST call: the inputs and the AST, or an error. */
  datatype Answer = Answer(file: Path, reader: nat, view: Option<Memory>)

  /** `workers` holds every ASTWorker ever created, oldest first; `files` is
      TUScheduler::Files; `internal` and `reported` are the two version maps.
      `published` and `answers` record the callbacks. */
  datatype Server = Server(
    workers: seq<Worker>,
    files: map<Path, nat>,
    internal: map<Path, nat>,
    reported: map<Path, nat>,
    published: seq<Publication>,
    answers: seq<Answer>)

  const START := Server([], map[], map[], map[], [], [])

  datatype Event =
    | AddDocument(file: Path, inputs: Inputs, want: WantDiagnostics)
    | RemoveDocument(file: Path)
    | ReadAST(file: Path, reader: nat)
    | Work(k: nat, step: Step)

  /** operator[] of a StringMap: absent entries read as zero. */
  function Get(m: map<Path, nat>, file: Path): nat {
    if file in m then m[file] else 0
  }

  /** `++InternalVersion[File]`, which wraps around. */
  function Bump(m: map<Path, nat>, file: Path): map<Path, nat> {
    m[file := (Get(m, file) + 1) % VERSIONS]
  }

  /** The version filter of consumeDiagnostics: the new value of
      ReportedDiagnosticVersions, and what has been published. */
  function Filter(reported: map<Path, nat>, published: seq<Publication>, pub: Publication): (map<Path, nat>, seq<Publication>) {
    var last := Get(reported, pub.file);
    if pub.version < last then (reported[pub.file := last], published)
    else (reported[pub.file := pub.version], published + [pub])
  }

  function Consume(srv: Server, file: Path, version: nat, diags: Diags): Server {
    var f := Filter(srv.reported, srv.published, Publication(file, version, diags));
    srv.(reported := f.0, published := f.1)
  }

  function SetState(srv: Server, k: nat, state: State): Server
    requires k < |srv.workers|
  {
    srv.(workers := srv.workers[k := srv.workers[k].(state := state)])
  }

  /** The worker that serves `file`, created when there is none. */
  function EnsureWorker(srv: Server, file: Path): Server {
    if file in srv.files then srv
    else srv.(workers := srv.workers + [Worker(file, Initial(false))], files := srv.files[file := |srv.workers|])
  }

  predicate Live(srv: Server, file: Path) {
    file in srv.files ==> srv.files[file] < |srv.workers| && !srv.workers[srv.files[file]].state.done
  }

  predicate EventEnabled(srv: Server, e: Event) {
    match e
    case Work(k, step) => k < |srv.workers| && WorkerStep(step) && Enabled(srv.workers[k].state, step)
    case _ => Live(srv, e.file)
  }

  function Send(rebuild: Inputs -> Built, srv: Server, k: nat, r: Request): Server
    requires k < |srv.workers| && !srv.workers[k].state.done
  {
    SetState(srv, k, Apply(rebuild, srv.workers[k].state, Submit(r)))
  }

  function Reply(srv: Server, file: Path, reader: nat, view: Option<Memory>): Server {
    srv.(answers := srv.answers + [Answer(file, reader, view)])
  }

  /** The callback that running one request makes, if any. */
  function Deliver(srv: Server, file: Path, effects: seq<Effect>): Server {
    if effects == [] then srv
    else
      match effects[0]
      case Reported(version, diags) => Consume(srv, file, version, diags)
      case Saw(reader, view) => Reply(srv, file, reader, view)
  }

  function Handle(rebuild: Inputs -> Built, srv: Server, e: Event): Server
    requires EventEnabled(srv, e)
  {
    match e
    case AddDocument(file, inputs, want) =>
      var internal := Bump(srv.internal, file);
      var s := EnsureWorker(srv.(internal := internal), file);
      Send(rebuild, s, s.files[file], Update(inputs, want, internal[file]))
    case RemoveDocument(file) =>
      var s := srv.(internal := Bump(srv.internal, file));
      if file !in s.files then s
      else
        var k := s.files[file];
        SetState(s, k, Apply(rebuild, s.workers[k].state, Stop)).(files := s.files - {file})
    case ReadAST(file, reader) =>
      if file !in srv.files then Reply(srv, file, reader, None) else Send(rebuild, srv, srv.files[file], Read(reader))
    case Work(k, step) =>
      var before := srv.workers[k].state;
      var s := SetState(srv, k, Apply(rebuild, before, step));
      if step.Execute? then Deliver(s, srv.workers[k].file, RunEffects(rebuild, before.mem, before.queue[0])) else s
  }

  function AfterEvents(rebuild: Inputs -> Built, events: seq<Event>): Option<Server> {
    if events == [] then Some(START)
    else
      var before := AfterEvents(rebuild, events[..|events| - 1]);
      var e := events[|events| - 1];
      if before.Some? && EventEnabled(before.value, e) then Some(Handle(rebuild, before.value, e)) else None
  }

  // ---------- What every run keeps ----------

  /** Request `i` of worker `k` is an update. */
  predicate IsUpdate(ws: seq<Worker>, k: nat, i: nat) {
    k < |ws| && i < |ws[k].state.submitted| && ws[k].state.submitted[i].Update?
  }

  function RequestAt(ws: seq<Worker>, k: nat, i: nat): Request
    requires IsUpdate(ws, k, i)
  {
    ws[k].state.submitted[i]
  }

  /** Request `i` of worker `k` is still to be run or skipped. */
  predicate Undecided(ws: seq<Worker>, k: nat, i: nat)
    requires k < |ws|
  {
    |ws[k].state.ran| <= i
  }

  /** Request `i` of worker `k` was run and produced diagnostics to report. */
  predicate Delivered(rebuild: Inputs -> Built, ws: seq<Worker>, k: nat, i: nat) {
    && IsUpdate(ws, k, i)
    && var s := ws[k].state;
      i < |s.ran| && s.ran[i] && WantsDiags(s.submitted[i]) && rebuild(s.submitted[i].inputs).diags.Some?
  }

  ghost predicate StatesOk(rebuild: Inputs -> Built, srv: Server) {
    forall k :: 0 <= k < |srv.workers| ==> Reachable(rebuild, srv.workers[k].state) && !srv.workers[k].state.sync
  }

  /** TUScheduler::Files lists exactly the workers that were not stopped, and
      each is the newest one of its file. */
  ghost predicate FilesOk(ws: seq<Worker>, files: map<Path, nat>) {
    && (forall f :: f in files ==>
          files[f] < |ws| && ws[files[f]].file == f && !ws[files[f]].state.done && NewestFor(ws, files[f], f))
    && (forall k :: 0 <= k < |ws| && !ws[k].state.done ==> ws[k].file in files && files[ws[k].file] == k)
  }

  /** No worker of `file` was created after worker `k`. */
  ghost predicate NewestFor(ws: seq<Worker>, k: nat, file: Path) {
    forall m :: k < m < |ws| ==> ws[m].file != file
  }

  ghost predicate VersionsBounded(srv: Server) {
    && (forall k: nat, i: nat :: IsUpdate(srv.workers, k, i) ==>
          1 <= RequestAt(srv.workers, k, i).version <= Get(srv.internal, srv.workers[k].file))
    && (forall f :: Get(srv.reported, f) <= Get(srv.internal, f))
  }

  ghost predicate VersionsOrdered(ws: seq<Worker>) {
    forall k: nat, i: nat, m: nat, j: nat ::
      IsUpdate(ws, k, i) && IsUpdate(ws, m, j) && ws[k].file == ws[m].file && (k < m || (k == m && i < j))
      ==> RequestAt(ws, k, i).version < RequestAt(ws, m, j).version
  }

  ghost predicate UndecidedUnpublished(ws: seq<Worker>, published: seq<Publication>) {
    forall k: nat, i: nat, p: nat ::
      IsUpdate(ws, k, i) && Undecided(ws, k, i) && p < |published| && published[p].file == ws[k].file
      ==> published[p].version != RequestAt(ws, k, i).version
  }

  ghost predicate PublishedMonotone(reported: map<Path, nat>, published: seq<Publication>) {
    && (forall p :: 0 <= p < |published| ==> published[p].version <= Get(reported, published[p].file))
    && (forall p, q :: 0 <= p < q < |published| && published[p].file == published[q].file ==>
          published[p].version <= published[q].version)
  }

  ghost predicate PublishedStrict(published: seq<Publication>) {
    forall p, q :: 0 <= p < q < |published| && published[p].file == published[q].file ==>
      published[p].version < published[q].version
  }

  /** Diagnostics that a worker produced are published, or newer ones were. */
  predicate PublishedOrSuperseded(reported: map<Path, nat>, published: seq<Publication>, pub: Publication) {
    pub in published || pub.version < Get(reported, pub.file)
  }

  /** What running request `i` of worker `k` hands to the version filter. */
  function Delivery(rebuild: Inputs -> Built, ws: seq<Worker>, k: nat, i: nat): Publication
    requires Delivered(rebuild, ws, k, i)
  {
    var r := RequestAt(ws, k, i);
    Publication(ws[k].file, r.version, rebuild(r.inputs).diags.value)
  }

  ghost predicate DeliveriesAccounted(rebuild: Inputs -> Built, ws: seq<Worker>, reported: map<Path, nat>, published: seq<Publication>) {
    forall k: nat, i: nat :: Delivered(rebuild, ws, k, i) ==>
      PublishedOrSuperseded(reported, published, Delivery(rebuild, ws, k, i))
  }

  ghost predicate VersionInv(rebuild: Inputs -> Built, srv: Server) {
    && VersionsBounded(srv)
    && VersionsOrdered(srv.workers)
    && UndecidedUnpublished(srv.workers, srv.published)
    && PublishedStrict(srv.published)
    && DeliveriesAccounted(rebuild, srv.workers, srv.reported, srv.published)
  }
}
