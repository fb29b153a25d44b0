/**
 ASTWorker as the source has it: an object whose deque and fields are updated in
 place. Every method is proved to perform one step of WorkerProtocol (or, for
 Run, a whole run of them), so the theorems about runs speak about this object.
 */
module TUScheduler {
  import opened Options
  import opened Sequences
  import opened WorkerProtocol
  import opened WorkerTheorems

  /** Run the request just taken, then pop it. */
  function ServeHead(rebuild: Inputs -> Built, s: State): State
    requires s.phase == Taken && s.queue != []
  {
    Apply(rebuild, Apply(rebuild, s, Execute), PopFront)
  }

  /** What run() does once stop() was called: the timer no longer matters. */
  function Drain(rebuild: Inputs -> Built, s: State): State
    requires s.done && s.phase == Waiting
    decreases |s.queue|
  {
    var t := WakeUp(s, false);
    if t.phase != Taken || t.queue == [] then t else Drain(rebuild, ServeHead(rebuild, t))
  }

  ghost predicate Reachable(rebuild: Inputs -> Built, s: State) {
    exists steps :: After(rebuild, s.sync, steps) == Some(s)
  }

  lemma ReachableStep(rebuild: Inputs -> Built, s: State, step: Step)
    requires Reachable(rebuild, s) && Enabled(s, step)
    ensures Reachable(rebuild, Apply(rebuild, s, step))
  {
    var steps :| After(rebuild, s.sync, steps) == Some(s);
    assert (steps + [step])[..|steps|] == steps;
    assert After(rebuild, s.sync, steps + [step]) == Some(Apply(rebuild, s, step));
  }

  /** Draining is a legal continuation of any run, so it keeps every promise. */
  lemma {:induction false} DrainIsARun(rebuild: Inputs -> Built, s: State)
    requires Reachable(rebuild, s) && s.done && s.phase == Waiting && !s.sync
    ensures Reachable(rebuild, Drain(rebuild, s))
    ensures var t := Drain(rebuild, s); t.phase == Exited && t.submitted == s.submitted
    decreases |s.queue|
  {
    WakeWhenStopped(s, false);
    ReachableStep(rebuild, s, Wake(false));
    var t := WakeUp(s, false);
    if t.phase != Exited {
      ReachableStep(rebuild, t, Execute);
      ReachableStep(rebuild, Apply(rebuild, t, Execute), PopFront);
      DrainIsARun(rebuild, ServeHead(rebuild, t));
    }
  }

  /** Calls of clients in the order in which they get the mutex: requests, and at the
      end stop(), after which there are none. */
  predicate IsScript(done: bool, calls: seq<Step>) {
    if done then calls == []
    else calls != [] && calls[|calls| - 1] == Stop && forall i :: 0 <= i < |calls| - 1 ==> calls[i].Submit?
  }

  function Sent(calls: seq<Step>): seq<Request> {
    if calls == [] then [] else (if calls[0].Submit? then [calls[0].r] else []) + Sent(calls[1..])
  }

  lemma SkipOneMore(ran: seq<bool>, k: nat)
    ensures ran + Skips(k) + [false] == ran + Skips(k + 1)
  {
    assert Skips(k + 1) == Skips(k) + [false];
  }

  class ASTWorker {
    const runSync: bool
    const rebuild: Inputs -> Built
    var fileInputs: Inputs
    var ast: Option<Ast>
    var done: bool
    var requests: seq<Request>

    ghost var phase: Phase             // where the processing thread is
    ghost var submitted: seq<Request>  // every request ever sent
    ghost var ran: seq<bool>           // which of the decided ones were run
    ghost var effects: seq<Effect>     // the callbacks made so far

    ghost function Value(): State
      reads this
    {
      State(runSync, requests, done, phase, Memory(fileInputs, ast), submitted, ran, effects)
    }

    constructor (runSync: bool, rebuild: Inputs -> Built)
      ensures Value() == Initial(runSync) && this.rebuild == rebuild
    {
      this.runSync, this.rebuild := runSync, rebuild;
      fileInputs, ast, done, requests := "", None, false, [];
      phase, submitted, ran, effects := Waiting, [], [], [];
    }

    /** The closures built by update() and runWithAST(). */
    method RunAction(r: Request)
      modifies this
      ensures Value() == RunRequest(rebuild, old(Value()), r)
    {
      match r {
        case Update(inputs, want, version) =>
          fileInputs := inputs;
          var built := rebuild(inputs);
          ast := built.ast;
          if built.diags.Some? && want != No {
            effects := effects + [Reported(version, built.diags.value)];
          }
        case Read(reader) =>
          if ast.None? {
            effects := effects + [Saw(reader, None)];
          } else {
            effects := effects + [Saw(reader, Some(Memory(fileInputs, ast)))];
          }
      }
      ran := ran + [true];
    }

    method StartTask(r: Request)
      requires Enabled(Value(), Submit(r))
      modifies this
      ensures Value() == Apply(rebuild, old(Value()), Submit(r))
    {
      submitted := submitted + [r];
      if runSync {
        RunAction(r);
        return;
      }
      requests := requests + [r];
    }

    method Stop()
      requires Enabled(Value(), Step.Stop)
      modifies this
      ensures Value() == Apply(rebuild, old(Value()), Step.Stop)
    {
      done := true;
    }

    method ShouldSkipHeadLocked() returns (skip: bool)
      requires requests != []
      ensures skip == ShouldSkipHead(requests) == SkipJustified(requests, 0)
    {
      HeadSkippedExactly(requests);
      if requests[0].Read? {
        return false;
      }
      var next := 1;
      if next == |requests| || requests[next].Read? {
        return false;
      }
      match requests[0].want {
        case Yes => return false;
        case No => return true;
        case Auto =>
          while next < |requests|
            invariant 1 <= next <= |requests|
            invariant forall k :: 1 <= k < next ==> !WantsDiags(requests[k])
          {
            if requests[next].Update? && (requests[next].want == Yes || requests[next].want == Auto) {
              return true;
            }
            next := next + 1;
          }
          return false;
      }
    }

    /** The loop that removes dead heads. */
    method SkipDeadHeads()
      requires requests != []
      modifies this
      ensures Value() == WorkerProtocol.ScheduleLocked(old(Value()))
      ensures requests != [] && !SkipJustified(requests, 0)
    {
      ghost var q := requests;
      ghost var k := 0;
      var skip := ShouldSkipHeadLocked();
      while skip
        invariant requests != [] && skip == ShouldSkipHead(requests) == SkipJustified(requests, 0)
        invariant 0 <= k <= |q| && requests == q[k..]
        invariant DeadPrefix(q) == k + DeadPrefix(requests)
        invariant Value() == old(Value()).(queue := requests, ran := ran) && ran == old(ran) + Skips(k)
        decreases |requests|
      {
        requests := requests[1..];
        SkipOneMore(old(ran), k);
        ran := ran + [false];
        k := k + 1;
        skip := ShouldSkipHeadLocked();
      }
    }

    /** How long the head may wait. */
    method FindDeadline() returns (deadline: Deadline)
      ensures deadline == DeadlineFor(requests)
    {
      if requests == [] {
        return Infinite;
      }
      for i := 0 to |requests|
        invariant forall j :: 0 <= j < i ==> !(requests[j].Read? || requests[j].want == Yes)
      {
        if requests[i].Read? || requests[i].want == Yes {
          return Zero;
        }
      }
      return Finite;
    }

    method ScheduleLocked() returns (deadline: Deadline)
      modifies this
      ensures Value() == WorkerProtocol.ScheduleLocked(old(Value()))
      ensures requests != [] ==> !SkipJustified(requests, 0)
      ensures deadline == DeadlineFor(requests)
    {
      if requests != [] {
        SkipDeadHeads();
      }
      deadline := FindDeadline();
    }

    /** One pass through the scheduling loop of run(), holding the mutex; `next` tells
        whether to wait, to run the head, or to return. */
    method TakeOrWait(expired: bool) returns (next: Phase)
      requires Enabled(Value(), Wake(expired))
      modifies this
      ensures Value() == Apply(rebuild, old(Value()), Wake(expired)) && next == phase
    {
      var deadline := ScheduleLocked();
      var isExpired := deadline == Zero || (deadline == Finite && expired);
      next := Waiting;
      if isExpired {
        next := Taken;
      } else if done {
        next := if requests == [] then Exited else Taken;
      }
      phase := next;
    }

    method RunHead()
      requires Enabled(Value(), Execute)
      modifies this
      ensures Value() == Apply(rebuild, old(Value()), Execute)
    {
      RunAction(requests[0]);
      phase := Finished;
    }

    method PopFront()
      requires Enabled(Value(), Step.PopFront)
      modifies this
      ensures Value() == Apply(rebuild, old(Value()), Step.PopFront)
    {
      requests := requests[1..];
      phase := Waiting;
    }

    /** One call gets the mutex. */
    method TakeCall(calls: seq<Step>) returns (rest: seq<Step>)
      requires calls != [] && IsScript(done, calls) && !runSync && Reachable(rebuild, Value())
      modifies this
      ensures rest == calls[1..] && IsScript(done, rest) && Reachable(rebuild, Value())
      ensures phase == old(phase) && old(requests) <= requests && |requests| <= |old(requests)| + 1
      ensures submitted + Sent(rest) == old(submitted) + Sent(calls)
    {
      rest := calls[1..];
      ReachableStep(rebuild, Value(), calls[0]);
      match calls[0] {
        case Submit(r) =>
          StartTask(r);
          Assoc(old(submitted), [r], Sent(rest));
        case Stop =>
          Stop();
          assert Sent(calls) == [] + Sent(rest);
      }
    }

    /** While the worker does not hold the mutex, any number of calls get it. */
    method LetClientsCall(calls: seq<Step>, atLeast: nat) returns (rest: seq<Step>)
      requires atLeast <= |calls| && IsScript(done, calls) && !runSync && Reachable(rebuild, Value())
      modifies this
      ensures IsScript(done, rest) && |rest| <= |calls| - atLeast && Reachable(rebuild, Value())
      ensures phase == old(phase) && old(requests) <= requests
      ensures 2 * |rest| + |requests| + atLeast <= 2 * |calls| + |old(requests)|
      ensures submitted + Sent(rest) == old(submitted) + Sent(calls)
      ensures calls == [] ==> Value() == old(Value())
    {
      var n: nat :| atLeast <= n <= |calls|;
      rest := calls;
      for i := 0 to n
        invariant |rest| == |calls| - i && IsScript(done, rest) && Reachable(rebuild, Value())
        invariant phase == old(phase) && old(requests) <= requests && |requests| <= |old(requests)| + i
        invariant submitted + Sent(rest) == old(submitted) + Sent(calls)
        invariant i == 0 ==> Value() == old(Value())
      {
        rest := TakeCall(rest);
      }
    }

    /** Runs the head and pops it; calls may come in between. */
    method ServeWhileCalled(calls: seq<Step>) returns (rest: seq<Step>)
      requires phase == Taken && requests != [] && !runSync && IsScript(done, calls) && Reachable(rebuild, Value())
      modifies this
      ensures phase == Waiting && IsScript(done, rest) && Reachable(rebuild, Value())
      ensures 2 * |rest| + |requests| < 2 * |calls| + |old(requests)|
      ensures submitted + Sent(rest) == old(submitted) + Sent(calls)
      ensures calls == [] ==> Value() == ServeHead(rebuild, old(Value()))
    {
      ReachableStep(rebuild, Value(), Execute);
      RunHead();
      rest := LetClientsCall(calls, 0);
      ReachableStep(rebuild, Value(), Step.PopFront);
      PopFront();
    }

    /** One turn of the loop in run(): take the mutex, then serve, wait or return. */
    method OneTurn(calls: seq<Step>) returns (exit: bool, rest: seq<Step>)
      requires !runSync && phase == Waiting && IsScript(done, calls) && Reachable(rebuild, Value())
      modifies this
      ensures Reachable(rebuild, Value()) && IsScript(done, rest)
      ensures submitted + Sent(rest) == old(submitted) + Sent(calls)
      ensures exit ==> phase == Exited && done && requests == []
      ensures !exit ==> phase == Waiting && 2 * |rest| + |requests| < 2 * |calls| + |old(requests)|
      ensures old(done) ==> done && Drain(rebuild, old(Value())) == if exit then Value() else Drain(rebuild, Value())
    {
      var expired: bool := *;
      ghost var before := Value();
      WakeDecides(before, expired);
      DrainStep(rebuild, before, expired);
      ReachableStep(rebuild, before, Wake(expired));
      var next := TakeOrWait(expired);
      exit, rest := next == Exited, calls;
      if next == Taken {
        rest := ServeWhileCalled(rest);
      } else if next == Waiting {
        rest := LetClientsCall(rest, 1);
      }
    }

    /** run(), while clients call: it serves them until stop() and then drains. Whenever
        it does not hold the mutex, calls may come; a wait ends when the head's time is
        up or a call has come. */
    method Run(calls: seq<Step>)
      requires !runSync && phase == Waiting && IsScript(done, calls) && Reachable(rebuild, Value())
      modifies this
      ensures Reachable(rebuild, Value()) && phase == Exited && requests == []
      ensures submitted == old(submitted) + Sent(calls)
      ensures old(done) ==> Value() == Drain(rebuild, old(Value()))
    {
      var rest, exit := calls, false;
      ghost var drained := if done then Drain(rebuild, Value()) else Value();
      while !exit
        invariant !runSync && IsScript(done, rest) && Reachable(rebuild, Value())
        invariant submitted + Sent(rest) == old(submitted) + Sent(calls)
        invariant if exit then phase == Exited && done && requests == [] else phase == Waiting
        invariant old(done) ==> done && drained == if exit then Value() else Drain(rebuild, Value())
        decreases !exit, 2 * |rest| + |requests|
      {
        exit, rest := OneTurn(rest);
      }
    }
  }

  /** Draining takes a step whatever the timer says. */
  lemma DrainStep(rebuild: Inputs -> Built, s: State, expired: bool)
    requires s.phase == Waiting
    ensures s.done ==>
              var t := WakeUp(s, expired);
              Drain(rebuild, s) == if t.phase == Taken && t.queue != [] then Drain(rebuild, ServeHead(rebuild, t)) else t
  {
    WakeDecides(s, expired);
  }

  /** What scheduling can lead to, and that the timer does not matter after stop(). */
  lemma WakeDecides(s: State, expired: bool)
    requires s.phase == Waiting
    ensures var t := WakeUp(s, expired);
            && t.done == s.done && t.submitted == s.submitted && |t.queue| <= |s.queue|
            && (t.phase == Exited ==> s.done && t.queue == [])
            && (t.phase == Taken ==> t.queue != [])
            && (t.phase == Waiting ==> !s.done)
            && t.phase != Finished
    ensures s.done ==> WakeUp(s, expired) == WakeUp(s, false)
  {
    if s.done {
      WakeWhenStopped(s, expired);
      WakeWhenStopped(s, false);
    }
  }
}
