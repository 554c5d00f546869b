/** pAll: a fixed number of workers take the items of a queue in turn and wait for each
    call. They share the index of the next item and the array of results. */
module WorkerPool {

  /** A worker tests the index, waits for a call on the item it has claimed, or is done. */
  datatype Phase = Looping | Waiting(current: nat) | Finished

  /** `calls` records the items the function was called on, in order. */
  datatype Pool<R> = Pool(index: nat, workers: seq<Phase>, results: map<nat, R>, calls: seq<nat>)

  function Start<R>(concurrency: nat): Pool<R> {
    Pool(0, seq(concurrency, _ => Looping), map[], [])
  }

  predicate CanClaim<A, R>(queue: seq<A>, p: Pool<R>, t: nat) {
    t < |p.workers| && p.workers[t].Looping? && p.index < |queue|
  }

  function Claim<A, R>(queue: seq<A>, p: Pool<R>, t: nat): Pool<R>
    requires CanClaim(queue, p, t)
  {
    Pool(p.index + 1, p.workers[t := Waiting(p.index)], p.results, p.calls + [p.index])
  }

  predicate CanExit<A, R>(queue: seq<A>, p: Pool<R>, t: nat) {
    t < |p.workers| && p.workers[t].Looping? && p.index >= |queue|
  }

  function Exit<A, R>(queue: seq<A>, p: Pool<R>, t: nat): Pool<R>
    requires CanExit(queue, p, t)
  {
    p.(workers := p.workers[t := Finished])
  }

  predicate CanResolve<A, R>(queue: seq<A>, p: Pool<R>, t: nat) {
    t < |p.workers| && p.workers[t].Waiting? && p.workers[t].current < |queue|
  }

  function Resolve<A, R>(queue: seq<A>, func: A -> R, p: Pool<R>, t: nat): Pool<R>
    requires CanResolve(queue, p, t)
  {
    var current := p.workers[t].current;
    p.(workers := p.workers[t := Looping], results := p.results[current := func(queue[current])])
  }

  /** One step of one worker. */
  ghost predicate Step<A, R(!new)>(queue: seq<A>, func: A -> R, p: Pool<R>, p': Pool<R>) {
    exists t: nat ::
      || (CanClaim(queue, p, t) && p' == Claim(queue, p, t))
      || (CanExit(queue, p, t) && p' == Exit(queue, p, t))
      || (CanResolve(queue, p, t) && p' == Resolve(queue, func, p, t))
  }

  /** Any interleaving of the workers' steps, from the start. */
  ghost predicate IsRun<A, R(!new)>(queue: seq<A>, func: A -> R, concurrency: nat, ps: seq<Pool<R>>) {
    ps != [] && ps[0] == Start(concurrency) &&
    forall n :: 0 < n < |ps| ==> Step(queue, func, ps[n - 1], ps[n])
  }

  // ----- what every state of a run satisfies -----

  ghost predicate Invariant<A, R(!new)>(queue: seq<A>, func: A -> R, concurrency: nat, p: Pool<R>) {
    && |p.workers| == concurrency && p.index <= |queue|
    // items are claimed in order, each once
    && p.calls == seq(p.index, i => i)
    // a claimed item is waited for by one worker, or has its result
    && (forall t :: 0 <= t < |p.workers| && p.workers[t].Waiting? ==>
         p.workers[t].current < p.index && p.workers[t].current !in p.results)
    && (forall t, u :: 0 <= t < u < |p.workers| && p.workers[t].Waiting? && p.workers[u].Waiting? ==>
         p.workers[t].current != p.workers[u].current)
    && (forall i :: 0 <= i < p.index ==> i in p.results || Waiting(i) in p.workers)
    && (forall i :: i in p.results ==> i < p.index && p.results[i] == func(queue[i]))
    && (forall t :: 0 <= t < |p.workers| && p.workers[t].Finished? ==> p.index == |queue|)
  }

  function Outstanding(workers: seq<Phase>): nat {
    if workers == [] then 0
    else Outstanding(workers[..|workers| - 1]) + (if workers[|workers| - 1].Waiting? then 1 else 0)
  }

  lemma StartKeeps<A, R(!new)>(queue: seq<A>, func: A -> R, concurrency: nat)
    ensures Invariant(queue, func, concurrency, Start(concurrency))
  {
  }

  lemma ClaimKeeps<A, R(!new)>(queue: seq<A>, func: A -> R, concurrency: nat, p: Pool<R>, t: nat)
    requires Invariant(queue, func, concurrency, p) && CanClaim(queue, p, t)
    ensures Invariant(queue, func, concurrency, Claim(queue, p, t))
  {
    var p' := Claim(queue, p, t);
    forall i | 0 <= i < p'.index
      ensures i in p'.results || Waiting(i) in p'.workers
    {
      if i == p.index {
        assert p'.workers[t] == Waiting(i);
      } else if i !in p.results {
        StillWaiting(p.workers, t, Waiting(p.index), i);
      }
    }
  }

  lemma ExitKeeps<A, R(!new)>(queue: seq<A>, func: A -> R, concurrency: nat, p: Pool<R>, t: nat)
    requires Invariant(queue, func, concurrency, p) && CanExit(queue, p, t)
    ensures Invariant(queue, func, concurrency, Exit(queue, p, t))
  {
    var p' := Exit(queue, p, t);
    forall i | 0 <= i < p'.index
      ensures i in p'.results || Waiting(i) in p'.workers
    {
      if i !in p.results {
        StillWaiting(p.workers, t, Finished, i);
      }
    }
  }

  lemma ResolveKeeps<A, R(!new)>(queue: seq<A>, func: A -> R, concurrency: nat, p: Pool<R>, t: nat)
    requires Invariant(queue, func, concurrency, p) && CanResolve(queue, p, t)
    ensures Invariant(queue, func, concurrency, Resolve(queue, func, p, t))
  {
    var p' := Resolve(queue, func, p, t);
    forall i | 0 <= i < p'.index
      ensures i in p'.results || Waiting(i) in p'.workers
    {
      if i !in p'.results {
        StillWaiting(p.workers, t, Looping, i);
      }
    }
  }

  /** Changing one worker leaves the other waiting ones. */
  lemma StillWaiting(workers: seq<Phase>, t: nat, phase: Phase, i: nat)
    requires t < |workers| && Waiting(i) in workers && workers[t] != Waiting(i)
    ensures Waiting(i) in workers[t := phase]
  {
    var u :| 0 <= u < |workers| && workers[u] == Waiting(i);
    assert workers[t := phase][u] == Waiting(i);
  }

  lemma StepKeeps<A, R(!new)>(queue: seq<A>, func: A -> R, concurrency: nat, p: Pool<R>, p': Pool<R>)
    requires Invariant(queue, func, concurrency, p) && Step(queue, func, p, p')
    ensures Invariant(queue, func, concurrency, p')
  {
    hide Invariant, Claim, Exit, Resolve;
    var t: nat :|
      || (CanClaim(queue, p, t) && p' == Claim(queue, p, t))
      || (CanExit(queue, p, t) && p' == Exit(queue, p, t))
      || (CanResolve(queue, p, t) && p' == Resolve(queue, func, p, t));
    if CanClaim(queue, p, t) && p' == Claim(queue, p, t) {
      ClaimKeeps(queue, func, concurrency, p, t);
    } else if CanExit(queue, p, t) && p' == Exit(queue, p, t) {
      ExitKeeps(queue, func, concurrency, p, t);
    } else {
      ResolveKeeps(queue, func, concurrency, p, t);
    }
  }

  lemma {:induction false} RunKeeps<A, R(!new)>(queue: seq<A>, func: A -> R, concurrency: nat, ps: seq<Pool<R>>, n: nat)
    requires IsRun(queue, func, concurrency, ps) && n < |ps|
    ensures Invariant(queue, func, concurrency, ps[n])
  {
    hide Invariant, Step;
    if n == 0 {
      StartKeeps(queue, func, concurrency);
    } else {
      RunKeeps(queue, func, concurrency, ps, n - 1);
      StepKeeps(queue, func, concurrency, ps[n - 1], ps[n]);
    }
  }

  // ----- termination and results -----

  function Remaining(workers: seq<Phase>): nat {
    if workers == [] then 0
    else
      var last := workers[|workers| - 1];
      Remaining(workers[..|workers| - 1]) + (if last.Waiting? then 2 else if last.Looping? then 1 else 0)
  }

  function Weight(phase: Phase): nat {
    if phase.Waiting? then 2 else if phase.Looping? then 1 else 0
  }

  lemma {:induction false} RemainingUpdate(workers: seq<Phase>, t: nat, phase: Phase)
    requires t < |workers|
    ensures Remaining(workers[t := phase]) == Remaining(workers) - Weight(workers[t]) + Weight(phase)
  {
    var n := |workers| - 1;
    var changed := workers[t := phase];
    if t == n {
      assert changed[..n] == workers[..n];
    } else {
      assert changed[..n] == workers[..n][t := phase];
      RemainingUpdate(workers[..n], t, phase);
    }
  }

  /** What is left to do goes down with every step. */
  function Measure<A, R>(queue: seq<A>, p: Pool<R>): int {
    2 * (|queue| - p.index) + Remaining(p.workers)
  }

  lemma StepDecreases<A, R(!new)>(queue: seq<A>, func: A -> R, concurrency: nat, p: Pool<R>, p': Pool<R>)
    requires Invariant(queue, func, concurrency, p) && Step(queue, func, p, p')
    ensures 0 <= Measure(queue, p') < Measure(queue, p)
  {
    StepKeeps(queue, func, concurrency, p, p');
    var t: nat :|
      || (CanClaim(queue, p, t) && p' == Claim(queue, p, t))
      || (CanExit(queue, p, t) && p' == Exit(queue, p, t))
      || (CanResolve(queue, p, t) && p' == Resolve(queue, func, p, t));
    RemainingUpdate(p.workers, t, p'.workers[t]);
  }

  /** No run has more steps than twice the items plus the workers. */
  lemma {:induction false} RunsAreShort<A, R(!new)>(queue: seq<A>, func: A -> R, concurrency: nat,
      ps: seq<Pool<R>>, n: nat)
    requires IsRun(queue, func, concurrency, ps) && n < |ps|
    ensures n + Measure(queue, ps[n]) <= 2 * |queue| + concurrency
    ensures n <= 2 * |queue| + concurrency
  {
    hide Step, Invariant;
    RunKeeps(queue, func, concurrency, ps, n);
    MeasureNonNegative(queue, func, concurrency, ps[n]);
    if n == 0 {
      StartMeasure(concurrency);
    } else {
      RunsAreShort(queue, func, concurrency, ps, n - 1);
      RunKeeps(queue, func, concurrency, ps, n - 1);
      StepDecreases(queue, func, concurrency, ps[n - 1], ps[n]);
    }
  }

  lemma MeasureNonNegative<A, R(!new)>(queue: seq<A>, func: A -> R, concurrency: nat, p: Pool<R>)
    requires Invariant(queue, func, concurrency, p)
    ensures Measure(queue, p) >= 0
  {
  }

  lemma {:induction false} StartMeasure(concurrency: nat)
    ensures Remaining(seq(concurrency, _ => Looping)) == concurrency
  {
    if concurrency > 0 {
      var workers: seq<Phase> := seq(concurrency, _ => Looping);
      assert workers[..concurrency - 1] == seq(concurrency - 1, _ => Looping);
      StartMeasure(concurrency - 1);
    }
  }

  predicate AllFinished<R>(p: Pool<R>) {
    forall t :: 0 <= t < |p.workers| ==> p.workers[t].Finished?
  }

  /** As long as some worker is not done, some step is possible. */
  lemma NeverStuck<A, R(!new)>(queue: seq<A>, func: A -> R, concurrency: nat, p: Pool<R>)
    requires Invariant(queue, func, concurrency, p) && !AllFinished(p)
    ensures exists p' :: Step(queue, func, p, p')
  {
    var t: nat :| t < |p.workers| && !p.workers[t].Finished?;
    if p.workers[t].Waiting? {
      assert CanResolve(queue, p, t);
      assert Step(queue, func, p, Resolve(queue, func, p, t));
    } else if p.index < |queue| {
      assert CanClaim(queue, p, t);
      assert Step(queue, func, p, Claim(queue, p, t));
    } else {
      assert CanExit(queue, p, t);
      assert Step(queue, func, p, Exit(queue, p, t));
    }
  }

  ghost predicate Complete<A, R(!new)>(queue: seq<A>, func: A -> R, p: Pool<R>) {
    (forall i :: 0 <= i < |queue| ==> i in p.results && p.results[i] == func(queue[i])) &&
    (forall i :: i in p.results ==> i < |queue|)
  }

  /** When all workers are done, every item has its result and the function was called on each
      exactly once, in order. Without any worker this fails, unless there is nothing to do. */
  lemma FinishedIsComplete<A, R(!new)>(queue: seq<A>, func: A -> R, concurrency: nat, ps: seq<Pool<R>>)
    requires IsRun(queue, func, concurrency, ps) && AllFinished(ps[|ps| - 1])
    ensures Complete(queue, func, ps[|ps| - 1]) <==> concurrency >= 1 || queue == []
    ensures concurrency >= 1 ==> ps[|ps| - 1].calls == seq(|queue|, i => i)
  {
    var p := ps[|ps| - 1];
    RunKeeps(queue, func, concurrency, ps, |ps| - 1);
    if concurrency >= 1 {
      assert p.workers[0].Finished?;
    } else if queue != [] {
      NoWorkers(queue, func, ps);
      assert 0 !in p.results;
    }
  }

  lemma NoWorkersNoSteps<A, R(!new)>(queue: seq<A>, func: A -> R, p: Pool<R>, p': Pool<R>)
    requires p.workers == []
    ensures !Step(queue, func, p, p')
  {
  }

  lemma NoWorkers<A, R(!new)>(queue: seq<A>, func: A -> R, ps: seq<Pool<R>>)
    requires IsRun(queue, func, 0, ps)
    ensures ps == [Start(0)]
  {
    if |ps| > 1 {
      NoWorkersNoSteps(queue, func, ps[0], ps[1]);
    }
  }

  /** Never more calls under way than workers. */
  lemma {:induction false} OutstandingBound(workers: seq<Phase>)
    ensures Outstanding(workers) <= |workers|
  {
    if workers != [] {
      OutstandingBound(workers[..|workers| - 1]);
    }
  }

  lemma {:induction false} OutstandingUpdate(workers: seq<Phase>, t: nat, phase: Phase)
    requires t < |workers|
    ensures Outstanding(workers[t := phase]) ==
      Outstanding(workers) - (if workers[t].Waiting? then 1 else 0) + (if phase.Waiting? then 1 else 0)
  {
    var n := |workers| - 1;
    var changed := workers[t := phase];
    if t == n {
      assert changed[..n] == workers[..n];
    } else {
      assert changed[..n] == workers[..n][t := phase];
      OutstandingUpdate(workers[..n], t, phase);
    }
  }

  lemma {:induction false} NothingOutstanding(concurrency: nat)
    ensures Outstanding(seq(concurrency, _ => Looping)) == 0
  {
    if concurrency > 0 {
      var workers: seq<Phase> := seq(concurrency, _ => Looping);
      assert workers[..concurrency - 1] == seq(concurrency - 1, _ => Looping);
      NothingOutstanding(concurrency - 1);
    }
  }

  lemma StepCounts<A, R(!new)>(queue: seq<A>, func: A -> R, concurrency: nat, p: Pool<R>, p': Pool<R>)
    requires Invariant(queue, func, concurrency, p) && Step(queue, func, p, p')
    ensures |p'.calls| - |p'.results| - Outstanding(p'.workers) == |p.calls| - |p.results| - Outstanding(p.workers)
  {
    var t: nat :|
      || (CanClaim(queue, p, t) && p' == Claim(queue, p, t))
      || (CanExit(queue, p, t) && p' == Exit(queue, p, t))
      || (CanResolve(queue, p, t) && p' == Resolve(queue, func, p, t));
    OutstandingUpdate(p.workers, t, p'.workers[t]);
  }

  /** At no point are more calls under way than there are workers, and the calls made are
      those with a result and those under way. */
  lemma {:induction false} BoundedConcurrency<A, R(!new)>(queue: seq<A>, func: A -> R, concurrency: nat,
      ps: seq<Pool<R>>, n: nat)
    requires IsRun(queue, func, concurrency, ps) && n < |ps|
    ensures Outstanding(ps[n].workers) <= concurrency
    ensures |ps[n].calls| == |ps[n].results| + Outstanding(ps[n].workers)
  {
    hide Step;
    RunKeeps(queue, func, concurrency, ps, n);
    OutstandingBound(ps[n].workers);
    if n == 0 {
      NothingOutstanding(concurrency);
    } else {
      BoundedConcurrency(queue, func, concurrency, ps, n - 1);
      RunKeeps(queue, func, concurrency, ps, n - 1);
      StepCounts(queue, func, concurrency, ps[n - 1], ps[n]);
    }
  }

  // ----- the program, under any scheduler -----

  lemma ExtendRun<A, R(!new)>(queue: seq<A>, func: A -> R, concurrency: nat, ps: seq<Pool<R>>, p: Pool<R>)
    requires IsRun(queue, func, concurrency, ps) && Step(queue, func, ps[|ps| - 1], p)
    ensures IsRun(queue, func, concurrency, ps + [p])
  {
    hide Step;
    var qs := ps + [p];
    forall n | 0 < n < |qs|
      ensures Step(queue, func, qs[n - 1], qs[n])
    {
      if n < |ps| {
        assert qs[n - 1] == ps[n - 1] && qs[n] == ps[n];
      }
    }
  }

  /** The worker the scheduler resumes next: the first waiting one from a position of its
      choice on, going round. */
  method NextResolved(workers: seq<Phase>, choice: nat) returns (t: nat)
    requires exists u :: 0 <= u < |workers| && workers[u].Waiting?
    ensures t < |workers| && workers[t].Waiting?
  {
    t := choice % |workers|;
    while t < |workers| && !workers[t].Waiting?
      invariant t <= |workers|
    {
      t := t + 1;
    }
    if t == |workers| {
      t := 0;
      while t < |workers| && !workers[t].Waiting?
        invariant t <= |workers| && forall u :: 0 <= u < t ==> !workers[u].Waiting?
      {
        t := t + 1;
      }
    }
  }

  /** From the loop head to the next await: claim an item and call the function on it, or
      finish. */
  method Proceed<A, R(!new)>(queue: seq<A>, func: A -> R, concurrency: nat, p: Pool<R>, t: nat, ghost run: seq<Pool<R>>)
    returns (p': Pool<R>, ghost run': seq<Pool<R>>)
    requires IsRun(queue, func, concurrency, run) && run[|run| - 1] == p
    requires t < |p.workers| && p.workers[t].Looping?
    ensures IsRun(queue, func, concurrency, run') && run'[|run'| - 1] == p' && |run'| == |run| + 1
    ensures |p'.workers| == |p.workers| && !p'.workers[t].Looping?
    ensures forall u :: 0 <= u < |p.workers| && u != t ==> p'.workers[u] == p.workers[u]
  {
    if p.index < |queue| {
      p' := Pool(p.index + 1, p.workers[t := Waiting(p.index)], p.results, p.calls + [p.index]);
      assert CanClaim(queue, p, t) && p' == Claim(queue, p, t);
    } else {
      p' := p.(workers := p.workers[t := Finished]);
      assert CanExit(queue, p, t) && p' == Exit(queue, p, t);
    }
    ExtendRun(queue, func, concurrency, run, p');
    run' := run + [p'];
  }

  /** pAll for a fixed queue and a function that does not fail. Whatever call the scheduler
      lets return next, each item's result ends up in its place. */
  method PAll<A, R(!new)>(queue: seq<A>, func: A -> R, concurrency: nat, scheduler: nat -> nat)
    returns (results: seq<R>)
    requires concurrency >= 1
    ensures |results| == |queue| && forall i :: 0 <= i < |queue| ==> results[i] == func(queue[i])
  {
    hide IsRun, Step, Invariant, Measure;
    var p: Pool<R> := Start(concurrency);
    ghost var run := [p];
    FirstState(queue, func, concurrency);
    var thread := 0;
    while thread < concurrency
      invariant 0 <= thread <= concurrency == |p.workers|
      invariant IsRun(queue, func, concurrency, run) && run != [] && run[|run| - 1] == p
      invariant forall t :: 0 <= t < thread ==> !p.workers[t].Looping?
      invariant forall t :: thread <= t < concurrency ==> p.workers[t].Looping?
    {
      p, run := Proceed(queue, func, concurrency, p, thread, run);
      thread := thread + 1;
    }
    var turn := 0;
    var waiting := AnyWaiting(p.workers);
    while waiting
      invariant |p.workers| == concurrency
      invariant IsRun(queue, func, concurrency, run) && run != [] && run[|run| - 1] == p
      invariant forall t :: 0 <= t < concurrency ==> !p.workers[t].Looping?
      invariant waiting <==> exists t :: 0 <= t < concurrency && p.workers[t].Waiting?
      decreases 2 * |queue| + concurrency + 1 - |run|
    {
      var t := NextResolved(p.workers, scheduler(turn));
      RunsAreShort(queue, func, concurrency, run, |run| - 1);
      p, run := Return(queue, func, concurrency, p, t, run);
      p, run := Proceed(queue, func, concurrency, p, t, run);
      turn := turn + 1;
      waiting := AnyWaiting(p.workers);
    }
    FinishedIsComplete(queue, func, concurrency, run);
    results := seq(|queue|, i requires 0 <= i < |queue| && i in p.results => p.results[i]);
  }

  lemma FirstState<A, R(!new)>(queue: seq<A>, func: A -> R, concurrency: nat)
    ensures IsRun(queue, func, concurrency, [Start(concurrency)])
  {
  }

  method AnyWaiting(workers: seq<Phase>) returns (waiting: bool)
    ensures waiting <==> exists t :: 0 <= t < |workers| && workers[t].Waiting?
  {
    waiting := false;
    var t := 0;
    while t < |workers|
      invariant 0 <= t <= |workers|
      invariant waiting <==> exists u :: 0 <= u < t && workers[u].Waiting?
    {
      waiting := waiting || workers[t].Waiting?;
      t := t + 1;
    }
  }

  /** A call returns: its result is stored at the item claimed for it. */
  method Return<A, R(!new)>(queue: seq<A>, func: A -> R, concurrency: nat, p: Pool<R>, t: nat, ghost run: seq<Pool<R>>)
    returns (p': Pool<R>, ghost run': seq<Pool<R>>)
    requires IsRun(queue, func, concurrency, run) && run[|run| - 1] == p
    requires t < |p.workers| && p.workers[t].Waiting?
    ensures IsRun(queue, func, concurrency, run') && run'[|run'| - 1] == p' && |run'| == |run| + 1
    ensures |p'.workers| == |p.workers| && p'.workers[t].Looping?
    ensures forall u :: 0 <= u < |p.workers| && u != t ==> p'.workers[u] == p.workers[u]
  {
    RunKeeps(queue, func, concurrency, run, |run| - 1);
    var current := p.workers[t].current;
    p' := p.(workers := p.workers[t := Looping], results := p.results[current := func(queue[current])]);
    assert CanResolve(queue, p, t) && p' == Resolve(queue, func, p, t);
    ExtendRun(queue, func, concurrency, run, p');
    run' := run + [p'];
  }
}
