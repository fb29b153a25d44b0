/**
 The request queue of one ASTWorker as a state machine.

 Clients append updates and reads; the worker thread skips dead updates at the
 head, takes the head, runs it, and only then pops it. Each atomic section of
 the source (one critical section, or one run of an action) is one step, so a
 run is any interleaving of client and worker steps.
 */
module WorkerProtocol {
  import opened Options

  type Inputs = string
  type Ast = string
  type Diags = seq<string>

  datatype WantDiagnostics = Yes | No | Auto

  /** What CppFile::rebuild leaves behind and returns. */
  datatype Built = Built(ast: Option<Ast>, diags: Option<Diags>)

  datatype Request =
    | Update(inputs: Inputs, want: WantDiagnostics, version: nat)
    | Read(reader: nat)

  predicate WantsDiags(r: Request) {
    r.Update? && r.want != No
  }

  /** The worker's private state: FileInputs and the AST built from them. */
  datatype Memory = Memory(fileInputs: Inputs, ast: Option<Ast>)

  const INITIAL_MEMORY := Memory("", None)

  /** A callback invoked by the worker thread. */
  datatype Effect =
    | Reported(version: nat, diags: Diags)
    | Saw(reader: nat, view: Option<Memory>)

  function View(m: Memory): Option<Memory> {
    if m.ast.Some? then Some(m) else None
  }

  function RunMemory(rebuild: Inputs -> Built, m: Memory, r: Request): Memory {
    match r
    case Update(inputs, _, _) => Memory(inputs, rebuild(inputs).ast)
    case Read(_) => m
  }

  function RunEffects(rebuild: Inputs -> Built, m: Memory, r: Request): seq<Effect> {
    match r
    case Update(inputs, want, version) =>
      var diags := rebuild(inputs).diags;
      if diags.Some? && want != No then [Reported(version, diags.value)] else []
    case Read(reader) => [Saw(reader, View(m))]
  }

  datatype Outcome = Outcome(mem: Memory, effects: seq<Effect>)

  /** The reference: every request run in submission order, none skipped. */
  function RunAll(rebuild: Inputs -> Built, rs: seq<Request>): Outcome {
    if rs == [] then Outcome(INITIAL_MEMORY, [])
    else
      var before := RunAll(rebuild, rs[..|rs| - 1]);
      var r := rs[|rs| - 1];
      Outcome(RunMemory(rebuild, before.mem, r), before.effects + RunEffects(rebuild, before.mem, r))
  }

  // ---------- Skipping ----------

  /** Is the head of `q` a dead update? */
  predicate ShouldSkipHead(q: seq<Request>)
    requires q != []
  {
    && q[0].Update?
    && |q| > 1
    && q[1].Update?
    && match q[0].want
       case Yes => false
       case No => true
       case Auto => exists k :: 1 <= k < |q| && WantsDiags(q[k])
  }

  /** How many requests the skip loop removes; it stops before the last one. */
  function DeadPrefix(q: seq<Request>): (n: nat)
    ensures n <= |q| && (q != [] ==> n < |q|)
  {
    if q == [] || !ShouldSkipHead(q) then 0 else 1 + DeadPrefix(q[1..])
  }

  datatype Deadline = Zero | Finite | Infinite

  /** The deadline scheduleLocked computes for a queue it has already skipped. */
  function DeadlineFor(q: seq<Request>): Deadline {
    if q == [] then Infinite
    else if exists k :: 0 <= k < |q| && (q[k].Read? || q[k].want == Yes) then Zero
    else Finite
  }

  // ---------- The state machine ----------

  /** Where the worker thread is: before taking a request, holding one that it
      has not run, having run it without popping it, or returned from run(). */
  datatype Phase = Waiting | Taken | Finished | Exited

  /** `queue` .. `mem` are the source's fields. `submitted`, `ran` and `effects`
      record the run: every request ever sent, for each request already decided
      whether it was run, and the callbacks in the order they were made. */
  datatype State = State(
    sync: bool,
    queue: seq<Request>,
    done: bool,
    phase: Phase,
    mem: Memory,
    submitted: seq<Request>,
    ran: seq<bool>,
    effects: seq<Effect>)

  function Initial(sync: bool): State {
    State(sync, [], false, Waiting, INITIAL_MEMORY, [], [], [])
  }

  /** `Wake(expired)` is one pass through the scheduling loop with the mutex
      held; `expired` says whether a finite deadline has passed. It may happen
      at any time, as spurious wake-ups do. */
  datatype Step = Submit(r: Request) | Stop | Wake(expired: bool) | Execute | PopFront

  predicate WorkerStep(step: Step) {
    step.Wake? || step.Execute? || step.PopFront?
  }

  predicate Enabled(s: State, step: Step) {
    match step
    case Submit(_) => !s.done
    case Stop => !s.done
    case Wake(_) => !s.sync && s.phase == Waiting
    case Execute => s.phase == Taken && |s.queue| > 0
    case PopFront => s.phase == Finished && |s.queue| > 0
  }

  function RunRequest(rebuild: Inputs -> Built, s: State, r: Request): State {
    s.(mem := RunMemory(rebuild, s.mem, r),
       effects := s.effects + RunEffects(rebuild, s.mem, r),
       ran := s.ran + [true])
  }

  /** The record of `n` requests skipped. */
  function Skips(n: nat): (r: seq<bool>)
    ensures |r| == n && forall i :: 0 <= i < n ==> !r[i]
  {
    seq(n, _ => false)
  }

  function ScheduleLocked(s: State): State {
    var n := DeadPrefix(s.queue);
    if s.queue == [] then s
    else s.(queue := s.queue[n..], ran := s.ran + Skips(n))
  }

  function WakeUp(s: State, expired: bool): State {
    var t := ScheduleLocked(s);
    var deadline := DeadlineFor(t.queue);
    if deadline == Zero || (deadline == Finite && expired) then t.(phase := Taken)
    else if !t.done then t
    else if t.queue == [] then t.(phase := Exited)
    else t.(phase := Taken)
  }

  function Apply(rebuild: Inputs -> Built, s: State, step: Step): State
    requires Enabled(s, step)
  {
    match step
    case Submit(r) =>
      var t := s.(submitted := s.submitted + [r]);
      if s.sync then RunRequest(rebuild, t, r) else t.(queue := s.queue + [r])
    case Stop => s.(done := true)
    case Wake(expired) => WakeUp(s, expired)
    case Execute => RunRequest(rebuild, s, s.queue[0]).(phase := Finished)
    case PopFront => s.(queue := s.queue[1..], phase := Waiting)
  }

  /** The state after a run, or None when some step was not enabled. */
  function After(rebuild: Inputs -> Built, sync: bool, steps: seq<Step>): Option<State> {
    if steps == [] then Some(Initial(sync))
    else
      var before := After(rebuild, sync, steps[..|steps| - 1]);
      var step := steps[|steps| - 1];
      if before.Some? && Enabled(before.value, step) then Some(Apply(rebuild, before.value, step)) else None
  }
}
