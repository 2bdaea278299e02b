/** The thread pool as a state machine whose steps are the critical sections and the
    callback invocations of submitters, workers and completion polls. */
module ThreadPool {

  /** One submission; distinct submissions are distinct jobs even if malloc reuses memory. */
  type Job = nat

  const POOL_WORKERS: nat := 4

  datatype Worker = Idle | Taken(job: Job) | Worked(job: Job) | Exited

  datatype Phase = Popped | Completed

  datatype Event = Work(job: Job) | Complete(job: Job)

  datatype State = State(
    submitted: set<Job>,        // every job ever submitted
    submitting: set<Job>,       // counted in flight, not yet on the work queue
    work: seq<Job>,             // g_work
    workers: seq<Worker>,
    done: seq<Job>,             // g_done
    polling: map<Job, Phase>,   // taken off g_done by completion polls in progress
    freed: set<Job>,
    inflight: int,              // g_inflight
    shutdown: bool,             // g_pool_shutdown
    inited: bool,               // g_pool_inited
    log: seq<Event>)            // the callbacks made so far

  datatype Step =
    | BeginSubmit(job: Job)
    | PushWork(job: Job)
    | Take(w: nat)
    | DoWork(w: nat)
    | PushDone(w: nat)
    | Exit(w: nat)
    | PopDone
    | DoComplete(job: Job)
    | Account(job: Job)
    | Shutdown
    | Return

  /** The pool as its first submission starts it. */
  const INIT := State({}, {}, [], seq(POOL_WORKERS, _ => Idle), [], map[], {}, 0, false, true, [])

  /** `BeginSubmit` is the count of a call that has found the pool started, at any time before;
      `Return` is the end of a shutdown that has joined the workers and found `g_done` empty. */
  predicate Enabled(s: State, step: Step) {
    match step
    case BeginSubmit(j) => j !in s.submitted
    case PushWork(j) => j in s.submitting
    case Take(w) => w < |s.workers| && s.workers[w] == Idle && s.work != []
    case DoWork(w) => w < |s.workers| && s.workers[w].Taken?
    case PushDone(w) => w < |s.workers| && s.workers[w].Worked?
    case Exit(w) => w < |s.workers| && s.workers[w] == Idle && s.work == [] && s.shutdown
    case PopDone => s.done != []
    case DoComplete(j) => j in s.polling && s.polling[j] == Popped
    case Account(j) => j in s.polling && s.polling[j] == Completed
    case Shutdown => s.inited
    case Return => s.inited && s.shutdown && AllExited(s) && s.done == []
  }

  function Apply(s: State, step: Step): State
    requires Enabled(s, step)
  {
    match step
    case BeginSubmit(j) =>
      s.(submitted := s.submitted + {j}, inflight := s.inflight + 1, submitting := s.submitting + {j})
    case PushWork(j) => s.(submitting := s.submitting - {j}, work := s.work + [j])
    case Take(w) => s.(work := s.work[1..], workers := s.workers[w := Taken(s.work[0])])
    case DoWork(w) => s.(workers := s.workers[w := Worked(s.workers[w].job)], log := s.log + [Work(s.workers[w].job)])
    case PushDone(w) => s.(workers := s.workers[w := Idle], done := s.done + [s.workers[w].job])
    case Exit(w) => s.(workers := s.workers[w := Exited])
    case PopDone => s.(done := s.done[1..], polling := s.polling[s.done[0] := Popped])
    case DoComplete(j) => s.(polling := s.polling[j := Completed], log := s.log + [Complete(j)])
    case Account(j) =>
      s.(inflight := if s.inflight > 0 then s.inflight - 1 else s.inflight,
         polling := s.polling - {j}, freed := s.freed + {j})
    case Shutdown => s.(shutdown := true)
    case Return => s.(inited := false)
  }

  predicate AllExited(s: State) {
    forall w :: 0 <= w < |s.workers| ==> s.workers[w] == Exited
  }

  /** `ts_jobs_pending`. */
  predicate JobsPending(s: State) { s.inited && s.inflight > 0 }

  // ---------- where jobs are ----------

  function Bit(b: bool): nat { if b then 1 else 0 }

  function Count(q: seq<Job>, j: Job): nat {
    if q == [] then 0 else Count(q[..|q| - 1], j) + Bit(q[|q| - 1] == j)
  }

  predicate Holds(w: Worker, j: Job) { (w.Taken? || w.Worked?) && w.job == j }

  function Held(ws: seq<Worker>, j: Job): nat {
    if ws == [] then 0 else Held(ws[..|ws| - 1], j) + Bit(Holds(ws[|ws| - 1], j))
  }

  /** Workers that have run j's work and not yet handed it on. */
  function HeldWorked(ws: seq<Worker>, j: Job): nat {
    if ws == [] then 0 else HeldWorked(ws[..|ws| - 1], j) + Bit(ws[|ws| - 1] == Worked(j))
  }

  /** In how many places job j is. */
  function Places(s: State, j: Job): nat {
    Bit(j in s.submitting) + Count(s.work, j) + Held(s.workers, j) + Count(s.done, j) + Bit(j in s.polling)
      + Bit(j in s.freed)
  }

  /** Places a job can be in only after its `work` has returned. */
  function AfterWork(s: State, j: Job): nat {
    HeldWorked(s.workers, j) + Count(s.done, j) + Bit(j in s.polling) + Bit(j in s.freed)
  }

  /** The same for `complete`. */
  function AfterComplete(s: State, j: Job): nat {
    Bit(j in s.polling && s.polling[j] == Completed) + Bit(j in s.freed)
  }

  /** How often an event is in the log. */
  function Runs(log: seq<Event>, e: Event): nat {
    if log == [] then 0 else Runs(log[..|log| - 1], e) + Bit(log[|log| - 1] == e)
  }

  lemma CountPush(q: seq<Job>, x: Job, j: Job)
    ensures Count(q + [x], j) == Count(q, j) + Bit(x == j)
  {
    assert (q + [x])[..|q|] == q;
  }

  lemma {:induction false} CountPop(q: seq<Job>, j: Job)
    requires q != []
    ensures Count(q, j) == Count(q[1..], j) + Bit(q[0] == j)
  {
    if |q| > 1 {
      CountPop(q[..|q| - 1], j);
      assert q[..|q| - 1][1..] == q[1..][..|q| - 2];
    }
  }

  lemma {:induction false} CountIn(q: seq<Job>, j: Job)
    ensures j in q <==> Count(q, j) > 0
  {
    if q != [] {
      CountIn(q[..|q| - 1], j);
      assert q == q[..|q| - 1] + [q[|q| - 1]];
    }
  }

  lemma {:induction false} HeldSet(ws: seq<Worker>, i: nat, w: Worker, j: Job)
    requires i < |ws|
    ensures Held(ws[i := w], j) == Held(ws, j) - Bit(Holds(ws[i], j)) + Bit(Holds(w, j))
    ensures HeldWorked(ws[i := w], j) == HeldWorked(ws, j) - Bit(ws[i] == Worked(j)) + Bit(w == Worked(j))
  {
    var n := |ws| - 1;
    if i == n {
      assert ws[i := w][..n] == ws[..n];
    } else {
      HeldSet(ws[..n], i, w, j);
      assert ws[i := w][..n] == ws[..n][i := w];
    }
  }

  lemma {:induction false} HeldAtLeast(ws: seq<Worker>, i: nat)
    requires i < |ws| && (ws[i].Taken? || ws[i].Worked?)
    ensures Held(ws, ws[i].job) > 0
  {
    if i < |ws| - 1 { HeldAtLeast(ws[..|ws| - 1], i); }
  }

  lemma {:induction false} HeldByNone(ws: seq<Worker>, j: Job)
    requires forall i :: 0 <= i < |ws| ==> ws[i] == Idle || ws[i] == Exited
    ensures Held(ws, j) == HeldWorked(ws, j) == 0
  {
    if ws != [] { HeldByNone(ws[..|ws| - 1], j); }
  }

  lemma RunsSnoc(log: seq<Event>, x: Event, e: Event)
    ensures Runs(log + [x], e) == Runs(log, e) + Bit(x == e)
  {
    assert (log + [x])[..|log|] == log;
  }

  // ---------- the invariant ----------

  /** A submitted job is in exactly one place, any other in none. */
  ghost predicate OnePlace(s: State) {
    forall j :: Places(s, j) == Bit(j in s.submitted)
  }

  /** g_inflight counts the jobs whose completion has not been accounted for. */
  ghost predicate Counted(s: State) {
    s.freed <= s.submitted && s.inflight == |s.submitted - s.freed|
  }

  /** The log holds one `Work` for each job past its work and one `Complete` for each
      past its completion. */
  ghost predicate Logged(s: State) {
    forall j :: Runs(s.log, Work(j)) == AfterWork(s, j) && Runs(s.log, Complete(j)) == AfterComplete(s, j)
  }

  /** At no time has a job completed more often than it has worked. */
  ghost predicate Ordered(log: seq<Event>) {
    forall k, j :: 0 <= k <= |log| ==> Runs(log[..k], Complete(j)) <= Runs(log[..k], Work(j))
  }

  /** Once shutdown has returned there is no worker left and nothing to complete. */
  ghost predicate Stopped(s: State) {
    !s.inited ==> s.shutdown && AllExited(s) && s.done == []
  }

  ghost predicate Inv(s: State) {
    OnePlace(s) && Counted(s) && Logged(s) && Ordered(s.log) && Stopped(s)
  }

  lemma InvInit()
    ensures Inv(INIT)
  {
    forall j ensures Places(INIT, j) == 0 && AfterWork(INIT, j) == 0 { HeldByNone(INIT.workers, j); }
  }

  // ---------- every step keeps the invariant ----------

  /** Steps move a job from one place to another; only a submission adds one. */
  lemma StepPlaces(s: State, step: Step, j: Job)
    requires Enabled(s, step) && Places(s, j) == Bit(j in s.submitted)
    requires step.PopDone? ==> Places(s, s.done[0]) <= 1
    requires step.Account? ==> Places(s, step.job) <= 1
    ensures Places(Apply(s, step), j) == Bit(j in Apply(s, step).submitted)
  {
    hide Count, Held, HeldWorked, Runs;
    match step {
      case PushWork(x) => CountPush(s.work, x, j);
      case Take(w) => CountPop(s.work, j); HeldSet(s.workers, w, Taken(s.work[0]), j);
      case DoWork(w) => HeldSet(s.workers, w, Worked(s.workers[w].job), j);
      case PushDone(w) => CountPush(s.done, s.workers[w].job, j); HeldSet(s.workers, w, Idle, j);
      case Exit(w) => HeldSet(s.workers, w, Exited, j);
      case PopDone => CountPop(s.done, j); CountIn(s.done, s.done[0]);
      case _ =>
    }
  }

  lemma StepLogged(s: State, step: Step, j: Job)
    requires Enabled(s, step)
    requires Runs(s.log, Work(j)) == AfterWork(s, j) && Runs(s.log, Complete(j)) == AfterComplete(s, j)
    requires step.PopDone? ==> Places(s, s.done[0]) <= 1
    requires step.Account? ==> Places(s, step.job) <= 1
    ensures Runs(Apply(s, step).log, Work(j)) == AfterWork(Apply(s, step), j)
    ensures Runs(Apply(s, step).log, Complete(j)) == AfterComplete(Apply(s, step), j)
  {
    hide Count, Held, HeldWorked, Runs, Holds;
    match step {
      case Take(w) => HeldSet(s.workers, w, Taken(s.work[0]), j);
      case DoWork(w) =>
        var x := s.workers[w].job;
        HeldSet(s.workers, w, Worked(x), j);
        RunsSnoc(s.log, Work(x), Work(j));
        RunsSnoc(s.log, Work(x), Complete(j));
      case PushDone(w) => CountPush(s.done, s.workers[w].job, j); HeldSet(s.workers, w, Idle, j);
      case Exit(w) => HeldSet(s.workers, w, Exited, j);
      case PopDone => CountPop(s.done, j); CountIn(s.done, s.done[0]);
      case DoComplete(x) =>
        RunsSnoc(s.log, Complete(x), Work(j));
        RunsSnoc(s.log, Complete(x), Complete(j));
      case _ =>
    }
  }

  lemma StepCounted(s: State, step: Step)
    requires OnePlace(s) && Counted(s) && Enabled(s, step)
    ensures Counted(Apply(s, step))
    ensures step.Account? ==> s.inflight > 0
  {
    hide Places, OnePlace;
    if step.BeginSubmit? {
      CountUp(s.submitted, s.freed, step.job);
    } else if step.Account? {
      AccountsLive(s, step.job);
      CountDown(s.submitted, s.freed, step.job);
    }
  }

  lemma CountUp(all: set<Job>, freed: set<Job>, j: Job)
    requires freed <= all && j !in all
    ensures |(all + {j}) - freed| == |all - freed| + 1
  {
    assert (all + {j}) - freed == (all - freed) + {j};
  }

  lemma CountDown(all: set<Job>, freed: set<Job>, j: Job)
    requires freed <= all && j in all - freed
    ensures |all - (freed + {j})| == |all - freed| - 1
  {
    assert all - (freed + {j}) == (all - freed) - {j};
  }

  lemma AccountsLive(s: State, j: Job)
    requires OnePlace(s) && j in s.polling
    ensures j in s.submitted - s.freed
  {
    assert Places(s, j) == Bit(j in s.submitted);
  }

  lemma OrderedSnoc(log: seq<Event>, e: Event)
    requires Ordered(log)
    requires e.Complete? ==> Runs(log, Complete(e.job)) < Runs(log, Work(e.job))
    ensures Ordered(log + [e])
  {
    forall k, j | 0 <= k <= |log + [e]| ensures Runs((log + [e])[..k], Complete(j)) <= Runs((log + [e])[..k], Work(j)) {
      if k <= |log| {
        assert (log + [e])[..k] == log[..k];
      } else {
        assert (log + [e])[..k] == log + [e] && log[..|log|] == log;
        RunsSnoc(log, e, Complete(j));
        RunsSnoc(log, e, Work(j));
        assert Runs(log[..|log|], Complete(j)) <= Runs(log[..|log|], Work(j));
      }
    }
  }

  lemma StepOrdered(s: State, step: Step)
    requires Inv(s) && Enabled(s, step)
    ensures Ordered(Apply(s, step).log)
  {
    if step.DoWork? {
      OrderedSnoc(s.log, Work(s.workers[step.w].job));
    } else if step.DoComplete? {
      assert Places(s, step.job) <= 1;
      assert Runs(s.log, Work(step.job)) == AfterWork(s, step.job)
        && Runs(s.log, Complete(step.job)) == AfterComplete(s, step.job);
      OrderedSnoc(s.log, Complete(step.job));
    }
  }

  lemma StepStopped(s: State, step: Step)
    requires Stopped(s) && Enabled(s, step)
    ensures Stopped(Apply(s, step))
  {
  }

  lemma StepInv(s: State, step: Step)
    requires Inv(s) && Enabled(s, step)
    ensures Inv(Apply(s, step))
  {
    StepCounted(s, step);
    StepOrdered(s, step);
    StepStopped(s, step);
    if step.PopDone? { assert Places(s, s.done[0]) <= 1; }
    if step.Account? { assert Places(s, step.job) <= 1; }
    forall j ensures Places(Apply(s, step), j) == Bit(j in Apply(s, step).submitted) {
      StepPlaces(s, step, j);
    }
    forall j
      ensures Runs(Apply(s, step).log, Work(j)) == AfterWork(Apply(s, step), j)
      ensures Runs(Apply(s, step).log, Complete(j)) == AfterComplete(Apply(s, step), j)
    {
      StepLogged(s, step, j);
    }
  }

  // ---------- whole runs ----------

  ghost predicate CanRun(s: State, steps: seq<Step>)
    decreases |steps|
  {
    steps == [] || (Enabled(s, steps[0]) && CanRun(Apply(s, steps[0]), steps[1..]))
  }

  ghost function Execute(s: State, steps: seq<Step>): State
    requires CanRun(s, steps)
    decreases |steps|
  {
    if steps == [] then s else Execute(Apply(s, steps[0]), steps[1..])
  }

  lemma {:induction false} ExecuteInv(s: State, steps: seq<Step>)
    requires Inv(s) && CanRun(s, steps)
    ensures Inv(Execute(s, steps))
    decreases |steps|
  {
    if steps != [] {
      hide Inv, Enabled, Apply;
      StepInv(s, steps[0]);
      ExecuteInv(Apply(s, steps[0]), steps[1..]);
    }
  }

  lemma {:induction false} ExecuteSnoc(s: State, steps: seq<Step>, step: Step)
    requires CanRun(s, steps) && Enabled(Execute(s, steps), step)
    ensures CanRun(s, steps + [step]) && Execute(s, steps + [step]) == Apply(Execute(s, steps), step)
    decreases |steps|
  {
    if steps == [] {
      assert [step][1..] == [];
    } else {
      assert (steps + [step])[1..] == steps[1..] + [step];
      hide Enabled, Apply;
      ExecuteSnoc(Apply(s, steps[0]), steps[1..], step);
    }
  }

  lemma {:induction false} RunsPositive(log: seq<Event>, e: Event)
    ensures Runs(log, e) > 0 <==> e in log
  {
    if log != [] {
      RunsPositive(log[..|log| - 1], e);
      assert log == log[..|log| - 1] + [log[|log| - 1]];
    }
  }

  /** In every run each job works at most once and completes at most once, never before
      it has worked; both have happened exactly once when the job is freed. */
  lemma WorkThenComplete(steps: seq<Step>, j: Job)
    requires CanRun(INIT, steps)
    ensures var s := Execute(INIT, steps);
      && Runs(s.log, Work(j)) <= 1 && Runs(s.log, Complete(j)) <= Runs(s.log, Work(j))
      && (j in s.freed ==> Runs(s.log, Complete(j)) == 1)
      && (j !in s.submitted ==> Runs(s.log, Work(j)) == 0)
      && (forall i :: 0 <= i < |s.log| && s.log[i] == Complete(j) ==> Work(j) in s.log[..i])
  {
    InvInit();
    ExecuteInv(INIT, steps);
    var s := Execute(INIT, steps);
    assert Places(s, j) == Bit(j in s.submitted);
    HeldWorkedHeld(s.workers, j);
    OrderedWhole(s.log, j);
    forall i | 0 <= i < |s.log| && s.log[i] == Complete(j) ensures Work(j) in s.log[..i] {
      WorkedBefore(s.log, i);
    }
  }

  lemma OrderedWhole(log: seq<Event>, j: Job)
    requires Ordered(log)
    ensures Runs(log, Complete(j)) <= Runs(log, Work(j))
  {
    assert log[..|log|] == log;
  }

  lemma WorkedBefore(log: seq<Event>, i: nat)
    requires Ordered(log) && i < |log| && log[i].Complete?
    ensures Work(log[i].job) in log[..i]
  {
    var j := log[i].job;
    assert log[..i + 1] == log[..i] + [Complete(j)];
    RunsSnoc(log[..i], Complete(j), Complete(j));
    RunsSnoc(log[..i], Complete(j), Work(j));
    assert Runs(log[..i + 1], Complete(j)) <= Runs(log[..i + 1], Work(j));
    RunsPositive(log[..i], Work(j));
  }

  lemma {:induction false} HeldWorkedHeld(ws: seq<Worker>, j: Job)
    ensures HeldWorked(ws, j) <= Held(ws, j)
  {
    if ws != [] { HeldWorkedHeld(ws[..|ws| - 1], j); }
  }

  lemma FreedRan(s: State, j: Job)
    requires Inv(s) && j in s.submitted && j in s.freed
    ensures RanOnce(s, j)
  {
    assert Places(s, j) == 1;
    HeldWorkedHeld(s.workers, j);
  }

  ghost predicate RanOnce(s: State, j: Job) {
    Runs(s.log, Work(j)) == 1 && Runs(s.log, Complete(j)) == 1
  }

  /** Until shutdown has returned, `ts_jobs_pending` says 0 exactly when every submitted job
      has been accounted for, and then the `work` and the `complete` of every job submitted
      so far have run once. */
  lemma NothingPending(steps: seq<Step>)
    requires CanRun(INIT, steps) && Execute(INIT, steps).inited
    ensures var s := Execute(INIT, steps);
      && s.inflight >= 0
      && (JobsPending(s) <==> exists j :: j in s.submitted && j !in s.freed)
      && (!JobsPending(s) ==> forall j :: j in s.submitted ==> RanOnce(s, j))
  {
    InvInit();
    ExecuteInv(INIT, steps);
    var s := Execute(INIT, steps);
    if s.inflight > 0 {
      assert s.submitted - s.freed != {};
      var j :| j in s.submitted - s.freed;
    } else {
      assert s.submitted - s.freed == {};
      forall j | j in s.submitted ensures RanOnce(s, j) {
        assert j !in s.submitted - s.freed;
        FreedRan(s, j);
      }
    }
  }

  /** The guard around the decrement never blocks it. */
  lemma DecrementNeverBlocked(steps: seq<Step>, j: Job)
    requires CanRun(INIT, steps) && Enabled(Execute(INIT, steps), Account(j))
    ensures Apply(Execute(INIT, steps), Account(j)).inflight == Execute(INIT, steps).inflight - 1
  {
    InvInit();
    ExecuteInv(INIT, steps);
    StepCounted(Execute(INIT, steps), Account(j));
  }

  // ---------- completion poll ----------

  /** The queues, workers and submitters, which a poll leaves alone. */
  ghost predicate SameElsewhere(s: State, t: State) {
    && t.polling == s.polling && t.work == s.work && t.workers == s.workers
    && t.submitting == s.submitting && t.submitted == s.submitted && t.shutdown == s.shutdown && t.inited == s.inited
  }

  ghost predicate PollEnabled(t: State)
  {
    && t.done != []
    && Enabled(t, PopDone)
    && Enabled(Apply(t, PopDone), DoComplete(t.done[0]))
    && Enabled(Apply(Apply(t, PopDone), DoComplete(t.done[0])), Account(t.done[0]))
  }

  /** One turn of the poll loop. */
  ghost function PollTurn(t: State): State
    requires PollEnabled(t)
  {
    Apply(Apply(Apply(t, PopDone), DoComplete(t.done[0])), Account(t.done[0]))
  }

  lemma PollTurnShape(t: State)
    requires t.done != [] && t.done[0] !in t.polling
    ensures PollEnabled(t) && SameElsewhere(t, PollTurn(t))
    ensures PollTurn(t).done == t.done[1..] && PollTurn(t).freed == t.freed + {t.done[0]}
    ensures t.inflight > 0 ==> PollTurn(t).inflight == t.inflight - 1
  {
    var job := t.done[0];
    assert t.polling[job := Popped][job := Completed] - {job} == t.polling;
  }

  lemma PollTurnInv(t: State)
    requires Inv(t) && PollEnabled(t)
    ensures Inv(PollTurn(t))
  {
    hide Inv, Enabled, Apply;
    var t1 := Apply(t, PopDone);
    StepInv(t, PopDone);
    var t2 := Apply(t1, DoComplete(t.done[0]));
    StepInv(t1, DoComplete(t.done[0]));
    StepInv(t2, Account(t.done[0]));
  }

  lemma DoneFirst(t: State)
    requires Inv(t) && t.done != []
    ensures t.done[0] !in t.polling && t.inflight > 0
  {
    var job := t.done[0];
    CountIn(t.done, job);
    assert Places(t, job) == Bit(job in t.submitted);
    assert job in t.submitted - t.freed;
  }

  lemma NotStarted(s: State)
    requires Inv(s) && !s.inited
    ensures s.done == [] && CanRun(s, []) && Execute(s, []) == s
  {
  }

  /** A completion poll that nothing interrupts: pops, completes and accounts for every
      finished job, in queue order.  On a pool that is not started it does nothing. */
  method CompletionPoll(s: State) returns (t: State, n: nat, ghost steps: seq<Step>)
    requires Inv(s)
    ensures CanRun(s, steps) && t == Execute(s, steps) && Inv(t)
    ensures n == |s.done| && t.done == [] && t.inflight == s.inflight - n
    ensures t.freed == s.freed + (set j | j in s.done) && SameElsewhere(s, t)
  {
    hide Inv, Enabled, Apply;
    t, n, steps := s, 0, [];
    if !s.inited {
      NotStarted(s);
      return;
    }
    while t.done != []
      invariant n <= |s.done| && t.done == s.done[n..]
      invariant CanRun(s, steps) && t == Execute(s, steps) && Inv(t)
      invariant t.inflight == s.inflight - n
      invariant t.freed == s.freed + (set j | j in s.done[..n]) && SameElsewhere(s, t)
      decreases |t.done|
    {
      hide CanRun, Execute;
      var job := t.done[0];
      DoneFirst(t);
      PollTurnShape(t);
      PollTurnInv(t);
      ExecuteSnoc(s, steps, PopDone);
      steps := steps + [PopDone];
      t := Apply(t, PopDone);
      ExecuteSnoc(s, steps, DoComplete(job));
      steps := steps + [DoComplete(job)];
      t := Apply(t, DoComplete(job));
      ExecuteSnoc(s, steps, Account(job));
      steps := steps + [Account(job)];
      t := Apply(t, Account(job));
      assert s.done[..n + 1] == s.done[..n] + [job];
      n := n + 1;
    }
  }

  // ---------- shutdown ----------

  /** No submission is under way when the flag is set, and none starts afterwards. */
  ghost predicate Orderly(s: State, steps: seq<Step>)
    requires CanRun(s, steps)
    decreases |steps|
  {
    steps == [] ||
      (&& (steps[0].Shutdown? ==> s.submitting == {})
       && (s.shutdown ==> !steps[0].BeginSubmit? && !steps[0].PushWork?)
       && Orderly(Apply(s, steps[0]), steps[1..]))
  }

  ghost predicate ShutdownInv(s: State) {
    && (s.shutdown ==> s.submitting == {})
    && (forall w :: 0 <= w < |s.workers| && s.workers[w] == Exited ==> s.shutdown && s.work == [])
    && |s.workers| == POOL_WORKERS
  }

  lemma {:induction false} OrderlyShutdown(s: State, steps: seq<Step>)
    requires ShutdownInv(s) && CanRun(s, steps) && Orderly(s, steps)
    ensures ShutdownInv(Execute(s, steps))
    decreases |steps|
  {
    if steps != [] {
      OrderlyShutdown(Apply(s, steps[0]), steps[1..]);
    }
  }

  /** Once every worker has exited in an orderly run, each job has worked, and waits
      for completion, is being completed, or is freed. */
  lemma AllWorkDone(steps: seq<Step>, j: Job)
    requires CanRun(INIT, steps) && Orderly(INIT, steps) && AllExited(Execute(INIT, steps))
    ensures var s := Execute(INIT, steps);
      && s.work == [] && s.submitting == {}
      && (j in s.submitted ==> Runs(s.log, Work(j)) == 1 && (j in s.done || j in s.polling || j in s.freed))
  {
    InvInit();
    ExecuteInv(INIT, steps);
    OrderlyShutdown(INIT, steps);
    var s := Execute(INIT, steps);
    hide CanRun, Execute, Orderly, Ordered;
    assert s.workers[0] == Exited;
    HeldByNone(s.workers, j);
    assert Places(s, j) == Bit(j in s.submitted);
    CountIn(s.done, j);
  }

  /** The jobs a state has not completed and accounted for, once all workers have exited
      and nothing waits on `g_done`. */
  ghost function Stranded(s: State): set<Job> {
    s.submitting + (set j | j in s.work) + s.polling.Keys
  }

  /** The end of a shutdown, after any run at all: the final completion poll completes every
      job that has worked and is not in some other poll's hands, so that what is left in the
      count is exactly the stranded jobs; and then nothing is said to be pending, stranded
      jobs or not.  After an orderly run none of them was left untaken. */
  method FinalPoll(s: State, ghost steps: seq<Step>) returns (t: State, n: nat, ghost more: seq<Step>)
    requires CanRun(INIT, steps) && s == Execute(INIT, steps) && s.inited && AllExited(s)
    ensures CanRun(s, more) && t == Execute(s, more) && !t.inited && !JobsPending(t)
    ensures t.submitted == s.submitted && t.freed == s.submitted - Stranded(s) && t.inflight == |Stranded(s)|
    ensures forall j :: j in t.freed ==> RanOnce(t, j)
    ensures Orderly(INIT, steps) ==> Stranded(s) == s.polling.Keys
  {
    hide CanRun, Execute, Orderly, Inv, OnePlace, Stranded, AllExited, Runs;
    InvInit();
    ExecuteInv(INIT, steps);
    FlagIsSet(steps);
    t, n, more := CompletionPoll(s);
    StrandedSame(s, t);
    Polled(t);
    ExecuteSnoc(s, more, Return);
    more := more + [Return];
    t := Apply(t, Return);
    if Orderly(INIT, steps) {
      AllWorkDone(steps, 0);
      OnlyPolling(s);
    }
  }

  lemma FlagIsSet(steps: seq<Step>)
    requires CanRun(INIT, steps) && AllExited(Execute(INIT, steps))
    ensures Execute(INIT, steps).shutdown
  {
    ExitNeedsFlag(INIT, steps);
    hide CanRun, Execute;
    assert Execute(INIT, steps).workers[0] == Exited;
  }

  lemma StrandedSame(s: State, t: State)
    requires SameElsewhere(s, t)
    ensures Stranded(s) == Stranded(t) && (AllExited(s) <==> AllExited(t))
  {
  }

  lemma OnlyPolling(s: State)
    requires s.work == [] && s.submitting == {}
    ensures Stranded(s) == s.polling.Keys
  {
  }

  /** With `g_done` empty and no worker left, all but the stranded jobs are freed. */
  lemma Polled(t: State)
    requires Inv(t) && AllExited(t) && t.done == []
    ensures t.freed == t.submitted - Stranded(t) && t.inflight == |Stranded(t)|
    ensures forall j :: j in t.freed ==> RanOnce(t, j)
  {
    hide Ordered, Logged, AllExited, Stranded;
    forall j
      ensures j in t.freed <==> j in t.submitted && j !in Stranded(t)
      ensures j in Stranded(t) ==> j in t.submitted
    {
      ExitedPlaces(t, j);
    }
    FreedAll(t, Stranded(t));
  }

  /** With no worker left a job is with a submitter, on a queue, with a poll, or freed. */
  lemma ExitedPlaces(s: State, j: Job)
    requires OnePlace(s) && AllExited(s)
    ensures j in s.submitted <==> j in Stranded(s) || j in s.done || j in s.freed
    ensures j in Stranded(s) ==> j !in s.done && j !in s.freed
  {
    HeldByNone(s.workers, j);
    CountIn(s.work, j);
    CountIn(s.done, j);
    assert Places(s, j) == Bit(j in s.submitted);
  }

  lemma FreedAll(t: State, left: set<Job>)
    requires Inv(t) && left <= t.submitted
    requires forall j :: j in t.freed <==> j in t.submitted && j !in left
    ensures t.freed == t.submitted - left && t.inflight == |left|
    ensures forall j :: j in t.freed ==> RanOnce(t, j)
  {
    assert t.submitted - t.freed == left;
    forall j | j in t.freed ensures RanOnce(t, j) {
      FreedRan(t, j);
    }
  }

  // ---------- which jobs are sure to run ----------

  /** A job that is still to be taken when the last worker exits is never run, whatever
      happens afterwards.  It stays in the count for ever, but keeps the pool pending only
      until shutdown returns. */
  lemma {:induction false} LostForever(s: State, steps: seq<Step>, j: Job)
    requires Inv(s) && AllExited(s) && (j in s.work || j in s.submitting) && CanRun(s, steps)
    ensures var t := Execute(s, steps);
      j !in t.freed && t.inflight > 0 && (JobsPending(t) <==> t.inited) && Runs(t.log, Work(j)) == 0
    decreases |steps|
  {
    if steps == [] {
      UntakenIsStuck(s, j);
    } else {
      StepInv(s, steps[0]);
      StaysUntaken(s, steps[0], j);
      hide Inv, Enabled, Apply, AllExited;
      LostForever(Apply(s, steps[0]), steps[1..], j);
    }
  }

  lemma UntakenIsStuck(s: State, j: Job)
    requires Inv(s) && AllExited(s) && (j in s.work || j in s.submitting)
    ensures j !in s.freed && s.inflight > 0 && Runs(s.log, Work(j)) == 0
  {
    CountIn(s.work, j);
    HeldByNone(s.workers, j);
    assert Places(s, j) == Bit(j in s.submitted);
    assert Runs(s.log, Work(j)) == AfterWork(s, j);
    assert j in s.submitted - s.freed;
  }

  lemma StaysUntaken(s: State, step: Step, j: Job)
    requires AllExited(s) && (j in s.work || j in s.submitting) && Enabled(s, step)
    ensures AllExited(Apply(s, step)) && (j in Apply(s, step).work || j in Apply(s, step).submitting)
  {
    if step == PushWork(j) { assert Apply(s, step).work[|s.work|] == j; }
  }

  /** Once all workers have exited, the jobs that have not run are exactly those still to be taken. */
  lemma RunUnlessUntaken(steps: seq<Step>, j: Job)
    requires CanRun(INIT, steps) && AllExited(Execute(INIT, steps)) && j in Execute(INIT, steps).submitted
    ensures var s := Execute(INIT, steps);
      Runs(s.log, Work(j)) == 1 <==> j !in s.work && j !in s.submitting
  {
    InvInit();
    ExecuteInv(INIT, steps);
    Untaken(Execute(INIT, steps), j);
  }

  lemma Untaken(s: State, j: Job)
    requires Inv(s) && AllExited(s) && j in s.submitted
    ensures Runs(s.log, Work(j)) == 1 <==> j !in s.work && j !in s.submitting
  {
    HeldByNone(s.workers, j);
    CountIn(s.work, j);
    assert Places(s, j) == 1;
    assert Runs(s.log, Work(j)) == AfterWork(s, j);
  }

  /** `ts_thread_pool_submit` has returned for j. */
  predicate Pushed(s: State, j: Job) { j in s.submitted && j !in s.submitting }

  /** However the run goes on from s, j has run once if it was submitted at all by the time
      all workers have exited. */
  ghost predicate AlwaysRuns(s: State, j: Job) {
    forall more :: CanRun(s, more) && AllExited(Execute(s, more)) && j in Execute(s, more).submitted ==>
      Runs(Execute(s, more).log, Work(j)) == 1
  }

  /** j's push is over, and it is not on the queue with nobody left to take it. */
  ghost predicate Safe(s: State, j: Job) { Pushed(s, j) && (AllExited(s) ==> j !in s.work) }

  /** A worker exits only from an empty queue, and j does not come back to it. */
  lemma SafeStep(s: State, step: Step, j: Job)
    requires Inv(s) && Enabled(s, step) && Safe(s, j)
    ensures Safe(Apply(s, step), j)
  {
    var t := Apply(s, step);
    if AllExited(t) && !AllExited(s) {
      ExitCompletes(s, step);
    } else if step.Take? {
      assert j in t.work ==> j in s.work;
    }
  }

  lemma ExitCompletes(s: State, step: Step)
    requires Enabled(s, step) && AllExited(Apply(s, step)) && !AllExited(s)
    ensures Apply(s, step).work == []
  {
    var w :| 0 <= w < |s.workers| && s.workers[w] != Exited;
    assert Apply(s, step).workers[w] == Exited;
  }

  lemma {:induction false} SafeRun(s: State, more: seq<Step>, j: Job)
    requires Inv(s) && Safe(s, j) && CanRun(s, more)
    ensures Inv(Execute(s, more)) && Safe(Execute(s, more), j)
    decreases |more|
  {
    if more != [] {
      hide Inv, Enabled, Apply, Safe;
      StepInv(s, more[0]);
      SafeStep(s, more[0], j);
      SafeRun(Apply(s, more[0]), more[1..], j);
    }
  }

  lemma ExtendFrom(s: State, steps: seq<Step>, step: Step) returns (longer: seq<Step>, t: State)
    requires CanRun(s, steps) && Enabled(Execute(s, steps), step)
    ensures CanRun(s, longer) && t == Execute(s, longer) == Apply(Execute(s, steps), step)
  {
    ExecuteSnoc(s, steps, step);
    longer := steps + [step];
    t := Execute(s, longer);
  }

  /** The flag is set and the submitters have not moved. */
  ghost predicate Closing(s: State, t: State) {
    && t.shutdown && t.submitting == s.submitting && t.submitted == s.submitted && |t.workers| == |s.workers|
    && t.inited == s.inited
  }

  ghost predicate Free(w: Worker) { w == Idle || w == Exited }

  /** Every busy worker can finish its job. */
  lemma Finish(s: State) returns (more: seq<Step>, t: State)
    requires Stopped(s)
    ensures CanRun(s, more) && t == Execute(s, more) && Closing(s, t)
    ensures forall w :: 0 <= w < |t.workers| ==> Free(t.workers[w])
  {
    hide CanRun, Execute;
    Still(s);
    more, t := [], s;
    if s.inited { more, t := ExtendFrom(s, more, Shutdown); }
    for w := 0 to |s.workers|
      invariant CanRun(s, more) && t == Execute(s, more) && Closing(s, t)
      invariant forall v :: 0 <= v < w ==> Free(t.workers[v])
    {
      if t.workers[w].Taken? {
        more, t := ExtendFrom(s, more, DoWork(w));
      }
      if t.workers[w].Worked? {
        more, t := ExtendFrom(s, more, PushDone(w));
      }
    }
  }

  /** A free worker that is still there can empty the queue. */
  lemma Drain(s: State, start: seq<Step>, w: nat) returns (more: seq<Step>, t: State)
    requires CanRun(s, start) && Closing(s, Execute(s, start))
    requires forall v :: 0 <= v < |s.workers| ==> Free(Execute(s, start).workers[v])
    requires w < |s.workers| && Execute(s, start).workers[w] == Idle
    ensures CanRun(s, more) && t == Execute(s, more) && Closing(s, t) && t.work == []
    ensures forall v :: 0 <= v < |t.workers| ==> Free(t.workers[v])
  {
    hide CanRun, Execute;
    more, t := start, Execute(s, start);
    while t.work != []
      invariant CanRun(s, more) && t == Execute(s, more) && Closing(s, t) && t.workers[w] == Idle
      invariant forall v :: 0 <= v < |t.workers| ==> Free(t.workers[v])
      decreases |t.work|
    {
      more, t := ExtendFrom(s, more, Take(w));
      more, t := ExtendFrom(s, more, DoWork(w));
      more, t := ExtendFrom(s, more, PushDone(w));
    }
  }

  /** With the queue empty every worker can leave. */
  lemma Leave(s: State, start: seq<Step>) returns (more: seq<Step>, t: State)
    requires CanRun(s, start) && Closing(s, Execute(s, start)) && Execute(s, start).work == []
    requires forall v :: 0 <= v < |s.workers| ==> Free(Execute(s, start).workers[v])
    ensures CanRun(s, more) && t == Execute(s, more) && Closing(s, t) && AllExited(t)
  {
    hide CanRun, Execute;
    more, t := start, Execute(s, start);
    for w := 0 to |s.workers|
      invariant CanRun(s, more) && t == Execute(s, more) && Closing(s, t) && t.work == []
      invariant forall v :: 0 <= v < |t.workers| ==> Free(t.workers[v])
      invariant forall v :: 0 <= v < w ==> t.workers[v] == Exited
    {
      if t.workers[w] == Idle {
        more, t := ExtendFrom(s, more, Exit(w));
      }
    }
  }

  /** From any state the workers can leave without the submitters moving. */
  lemma Close(s: State) returns (more: seq<Step>, t: State)
    requires Stopped(s)
    ensures CanRun(s, more) && t == Execute(s, more) && Closing(s, t) && AllExited(t)
  {
    hide CanRun, Execute;
    more, t := Finish(s);
    if w :| 0 <= w < |t.workers| && t.workers[w] == Idle {
      more, t := Drain(s, more, w);
      more, t := Leave(s, more);
    }
  }

  /** A job not pushed yet can be lost, from any state whatever: the workers leave first. */
  lemma CanBeLost(s: State, j: Job) returns (more: seq<Step>)
    requires Stopped(s) && !Pushed(s, j)
    ensures CanRun(s, more) && AllExited(Execute(s, more)) && Execute(s, more).shutdown
    ensures j in Execute(s, more).work && (j in s.submitting || j in Execute(s, more).submitted)
    ensures j in s.submitting ==> Execute(s, more).submitted == s.submitted
    ensures Execute(s, more).inited == s.inited
  {
    hide CanRun, Execute;
    var t;
    more, t := Close(s);
    if j !in s.submitting { more, t := ExtendFrom(s, more, BeginSubmit(j)); }
    more, t := ExtendFrom(s, more, PushWork(j));
    assert t.work[|t.work| - 1] == j;
  }

  /** A submitted job is sure to run, in every interleaving from a reachable state, if and
      only if its push is over and it does not lie on the queue with all workers gone. */
  lemma SureExactly(steps: seq<Step>, j: Job)
    requires CanRun(INIT, steps)
    ensures AlwaysRuns(Execute(INIT, steps), j) <==> Safe(Execute(INIT, steps), j)
  {
    InvInit();
    ExecuteInv(INIT, steps);
    var s := Execute(INIT, steps);
    hide CanRun, Execute, Inv, Runs;
    if Safe(s, j) {
      forall more | CanRun(s, more) && AllExited(Execute(s, more)) && j in Execute(s, more).submitted
        ensures Runs(Execute(s, more).log, Work(j)) == 1
      {
        SafeRun(s, more, j);
        Untaken(Execute(s, more), j);
      }
    } else {
      LosesSome(s, j);
    }
  }

  lemma LosesSome(s: State, j: Job)
    requires Inv(s) && !Safe(s, j)
    ensures !AlwaysRuns(s, j)
  {
    var more := [];
    if !Pushed(s, j) {
      more := CanBeLost(s, j);
    } else {
      Still(s);
    }
    ExecuteInv(s, more);
    hide CanRun, Execute;
    QueuedIsSubmitted(Execute(s, more), j);
    Untaken(Execute(s, more), j);
  }

  lemma QueuedIsSubmitted(s: State, j: Job)
    requires OnePlace(s) && j in s.work
    ensures j in s.submitted
  {
    CountIn(s.work, j);
    assert Places(s, j) == Bit(j in s.submitted);
  }

  /** What a submitter can check: at the moment the shutdown flag is set a job is sure to
      run exactly if its `ts_thread_pool_submit` has returned. */
  lemma SureIffPushedBeforeFlag(steps: seq<Step>, j: Job)
    requires CanRun(INIT, steps) && !Execute(INIT, steps).shutdown
    ensures CanRun(INIT, steps + [Shutdown])
    ensures AlwaysRuns(Execute(INIT, steps + [Shutdown]), j) <==> Pushed(Execute(INIT, steps), j)
  {
    hide CanRun, Execute, Inv, AlwaysRuns;
    FlagNotSet(steps);
    SureExactly(steps + [Shutdown], j);
    ExitNeedsFlag(INIT, steps);
    SafeAtFlag(Execute(INIT, steps), j);
  }

  lemma SafeAtFlag(s: State, j: Job)
    requires |s.workers| == POOL_WORKERS && s.inited && forall w :: 0 <= w < |s.workers| ==> s.workers[w] != Exited
    ensures Safe(Apply(s, Shutdown), j) == Pushed(s, j)
  {
    assert s.workers[0] != Exited;
  }

  lemma FlagNotSet(steps: seq<Step>)
    requires CanRun(INIT, steps) && !Execute(INIT, steps).shutdown
    ensures Execute(INIT, steps).inited && CanRun(INIT, steps + [Shutdown]) && Inv(Execute(INIT, steps + [Shutdown]))
    ensures Execute(INIT, steps + [Shutdown]) == Apply(Execute(INIT, steps), Shutdown)
  {
    InvInit();
    ExecuteInv(INIT, steps);
    ExecuteSnoc(INIT, steps, Shutdown);
    ExecuteInv(INIT, steps + [Shutdown]);
  }

  lemma {:induction false} ExitNeedsFlag(s: State, steps: seq<Step>)
    requires CanRun(s, steps) && |s.workers| == POOL_WORKERS
    requires !s.shutdown ==> forall w :: 0 <= w < |s.workers| ==> s.workers[w] != Exited
    ensures var t := Execute(s, steps);
      |t.workers| == POOL_WORKERS && (!t.shutdown ==> forall w :: 0 <= w < |t.workers| ==> t.workers[w] != Exited)
    decreases |steps|
  {
    if steps != [] { ExitNeedsFlag(Apply(s, steps[0]), steps[1..]); }
  }

  // ---------- what the answer 0 means once shutdown has returned ----------

  /** Once shutdown has returned nothing is said to be pending.  Every submitted job has then
      run work and complete once if and only if none is still to be taken, on its way to the
      queue, or in the hands of a poll that has not called its `complete` yet. */
  lemma DoneAfterReturn(steps: seq<Step>)
    requires CanRun(INIT, steps) && !Execute(INIT, steps).inited
    ensures var s := Execute(INIT, steps);
      && !JobsPending(s)
      && ((forall j :: j in s.submitted ==> RanOnce(s, j)) <==>
          s.work == [] && s.submitting == {} && forall j :: j in s.polling ==> s.polling[j] == Completed)
  {
    InvInit();
    ExecuteInv(INIT, steps);
    hide CanRun, Execute;
    AllAfterReturn(Execute(INIT, steps));
  }

  lemma AllAfterReturn(s: State)
    requires Inv(s) && !s.inited
    ensures (forall j :: j in s.submitted ==> RanOnce(s, j)) <==>
      s.work == [] && s.submitting == {} && forall j :: j in s.polling ==> s.polling[j] == Completed
  {
    forall j
      ensures j in s.submitted ==> (RanOnce(s, j) <==> j !in s.work && j !in s.submitting && Called(s, j))
      ensures j in s.work || j in s.submitting || j in s.polling ==> j in s.submitted
    {
      AfterReturn(s, j);
    }
    hide Inv, RanOnce;
    assert s.work != [] ==> s.work[0] in s.work && s.work[0] in s.submitted;
    if forall j :: j in s.submitted ==> RanOnce(s, j) {
      assert s.submitting == {};
    }
  }

  /** No poll still has to call j's `complete`. */
  ghost predicate Called(s: State, j: Job) { j in s.polling ==> s.polling[j] == Completed }

  lemma AfterReturn(s: State, j: Job)
    requires Inv(s) && AllExited(s) && s.done == []
    ensures j in s.submitted ==> (RanOnce(s, j) <==> j !in s.work && j !in s.submitting && Called(s, j))
    ensures j in s.work || j in s.submitting || j in s.polling ==> j in s.submitted
  {
    HeldByNone(s.workers, j);
    CountIn(s.work, j);
    assert Places(s, j) == Bit(j in s.submitted);
    assert Runs(s.log, Work(j)) == AfterWork(s, j) && Runs(s.log, Complete(j)) == AfterComplete(s, j);
  }

  /** However the run goes on from s, once shutdown has returned and no poll still has to call
      j's `complete`, j has run work and complete once if it was submitted at all. */
  ghost predicate AlwaysDone(s: State, j: Job) {
    forall more :: CanRun(s, more) && DoneWith(Execute(s, more), j) ==> RanOnce(Execute(s, more), j)
  }

  /** Shutdown has returned, and the polls are through with j. */
  ghost predicate DoneWith(t: State, j: Job) { !t.inited && j in t.submitted && Called(t, j) }

  /** No submission begins on the way from s to t. */
  ghost predicate NoneBegun(s: State, t: State) { t.submitted == s.submitted }

  /** However the run goes on from s without a new submission, the answer 0 given once shutdown
      has returned is right about every job the polls are through with. */
  ghost predicate AnswerRight(s: State) {
    forall more, j :: CanRun(s, more) && NoneBegun(s, Execute(s, more)) && DoneWith(Execute(s, more), j) ==>
      RanOnce(Execute(s, more), j)
  }

  /** A poll can empty `g_done`. */
  lemma {:induction false} PollAll(s: State) returns (more: seq<Step>, t: State)
    requires Inv(s)
    ensures CanRun(s, more) && t == Execute(s, more) && Inv(t) && SameElsewhere(s, t) && t.done == []
    decreases |s.done|
  {
    if s.done == [] {
      Still(s);
      more, t := [], s;
    } else {
      DoneFirst(s);
      PollTurnShape(s);
      PollTurnInv(s);
      var job := s.done[0];
      var rest;
      rest, t := PollAll(PollTurn(s));
      more := [PopDone, DoComplete(job), Account(job)] + rest;
      ThreeSteps(s, PopDone, DoComplete(job), Account(job), rest);
    }
  }

  lemma ThreeSteps(s: State, a: Step, b: Step, c: Step, rest: seq<Step>)
    requires Enabled(s, a) && Enabled(Apply(s, a), b) && Enabled(Apply(Apply(s, a), b), c)
    requires CanRun(Apply(Apply(Apply(s, a), b), c), rest)
    ensures CanRun(s, [a, b, c] + rest)
    ensures Execute(s, [a, b, c] + rest) == Execute(Apply(Apply(Apply(s, a), b), c), rest)
  {
    assert [a, b, c] + rest == [a] + ([b] + ([c] + rest));
    OneStep(Apply(Apply(s, a), b), c, rest);
    OneStep(Apply(s, a), b, [c] + rest);
    OneStep(s, a, [b] + ([c] + rest));
    hide Enabled, Apply, CanRun, Execute;
  }

  lemma OneStep(s: State, a: Step, rest: seq<Step>)
    requires Enabled(s, a) && CanRun(Apply(s, a), rest)
    ensures CanRun(s, [a] + rest) && Execute(s, [a] + rest) == Execute(Apply(s, a), rest)
  {
    hide Enabled, Apply;
    assert ([a] + rest)[1..] == rest;
  }

  lemma {:induction false} ExecuteConcat(s: State, a: seq<Step>, b: seq<Step>)
    requires CanRun(s, a) && CanRun(Execute(s, a), b)
    ensures CanRun(s, a + b) && Execute(s, a + b) == Execute(Execute(s, a), b)
    decreases |a|
  {
    if a == [] {
      assert a + b == b;
    } else {
      assert (a + b)[1..] == a[1..] + b;
      hide Enabled, Apply;
      ExecuteConcat(Apply(s, a[0]), a[1..], b);
    }
  }

  /** A job not pushed yet can be lost before shutdown returns. */
  lemma LostBeforeReturn(s: State, j: Job) returns (more: seq<Step>)
    requires Inv(s) && s.inited && !Pushed(s, j)
    ensures CanRun(s, more) && DoneWith(Execute(s, more), j) && !RanOnce(Execute(s, more), j)
    ensures j in s.submitting ==> NoneBegun(s, Execute(s, more))
  {
    var first := CanBeLost(s, j);
    ExecuteInv(s, first);
    var u := Execute(s, first);
    QueuedIsSubmitted(u, j);
    var polls, v := PollAll(u);
    ExecuteConcat(s, first, polls);
    var t;
    hide CanRun, Execute, Inv;
    more, t := ExtendFrom(s, first + polls, Return);
    ExecuteInv(s, more);
    QueuedNotRun(t, j);
  }

  lemma QueuedNotRun(t: State, j: Job)
    requires Inv(t) && AllExited(t) && t.done == [] && j in t.work
    ensures j in t.submitted && j !in t.polling && !RanOnce(t, j)
  {
    AfterReturn(t, j);
    CountIn(t.work, j);
    assert Places(t, j) == 1;
  }

  /** At the moment the shutdown flag is set, a job is sure to have run work and complete once
      by the time shutdown has returned, and so the answer 0 to be right about it, exactly if its
      `ts_thread_pool_submit` has returned. */
  lemma DoneIffPushedBeforeFlag(steps: seq<Step>, j: Job)
    requires CanRun(INIT, steps) && !Execute(INIT, steps).shutdown
    ensures CanRun(INIT, steps + [Shutdown])
    ensures AlwaysDone(Execute(INIT, steps + [Shutdown]), j) <==> Pushed(Execute(INIT, steps), j)
  {
    SureIffPushedBeforeFlag(steps, j);
    FlagNotSet(steps);
    var s := Execute(INIT, steps + [Shutdown]);
    assert s == Execute(INIT, steps).(shutdown := true);
    hide CanRun, Execute, AlwaysRuns, Inv, RanOnce;
    if Pushed(s, j) {
      RunsThenDone(s, j);
    } else {
      var more := LostBeforeReturn(s, j);
    }
  }

  lemma RunsThenDone(s: State, j: Job)
    requires Inv(s) && AlwaysRuns(s, j)
    ensures AlwaysDone(s, j)
  {
    forall more | CanRun(s, more) && DoneWith(Execute(s, more), j) ensures RanOnce(Execute(s, more), j) {
      ExecuteInv(s, more);
      hide CanRun, Execute;
      var t := Execute(s, more);
      assert Runs(t.log, Work(j)) == 1;
      Untaken(t, j);
      AfterReturn(t, j);
    }
  }

  lemma WrongWhenLost(s: State, j: Job)
    requires Inv(s) && s.inited && j in s.submitting
    ensures !AnswerRight(s)
  {
    hide CanRun, Execute, Inv, RanOnce;
    var more := LostBeforeReturn(s, j);
  }

  lemma AllDoneIsRight(s: State)
    requires forall j :: j in s.submitted ==> AlwaysDone(s, j)
    ensures AnswerRight(s)
  {
    hide CanRun, Execute, RanOnce;
  }

  lemma FlagOnly(s: State)
    requires s.inited
    ensures Enabled(s, Shutdown) && Apply(s, Shutdown) == s.(shutdown := true)
  {
  }

  lemma SureOne(steps: seq<Step>, j: Job)
    requires CanRun(INIT, steps) && !Execute(INIT, steps).shutdown
    requires j in Execute(INIT, steps).submitted && j !in Execute(INIT, steps).submitting
    ensures CanRun(INIT, steps + [Shutdown]) && AlwaysDone(Execute(INIT, steps + [Shutdown]), j)
  {
    assert Pushed(Execute(INIT, steps), j);
    hide *;
    DoneIffPushedBeforeFlag(steps, j);
  }

  lemma AllSure(steps: seq<Step>)
    requires CanRun(INIT, steps) && !Execute(INIT, steps).shutdown && Execute(INIT, steps).submitting == {}
    ensures CanRun(INIT, steps + [Shutdown])
    ensures forall j :: j in Execute(INIT, steps + [Shutdown]).submitted ==>
      AlwaysDone(Execute(INIT, steps + [Shutdown]), j)
  {
    FlagNotSet(steps);
    hide *;
    FlagOnly(Execute(INIT, steps));
    var s, t := Execute(INIT, steps), Execute(INIT, steps + [Shutdown]);
    assert t.submitted == s.submitted;
    forall j | j in s.submitted ensures AlwaysDone(t, j) {
      SureOne(steps, j);
    }
  }

  /** So the answer 0 after shutdown is right, in every interleaving without later submissions,
      if and only if every submission had returned when the flag was set. */
  lemma AnswerRightIff(steps: seq<Step>)
    requires CanRun(INIT, steps) && !Execute(INIT, steps).shutdown
    ensures CanRun(INIT, steps + [Shutdown])
    ensures AnswerRight(Execute(INIT, steps + [Shutdown])) <==> Execute(INIT, steps).submitting == {}
  {
    FlagNotSet(steps);
    hide *;
    if Execute(INIT, steps).submitting == {} {
      AllSure(steps);
      AllDoneIsRight(Execute(INIT, steps + [Shutdown]));
    } else {
      var j :| j in Execute(INIT, steps).submitting;
      FlagOnly(Execute(INIT, steps));
      WrongWhenLost(Execute(INIT, steps + [Shutdown]), j);
    }
  }

  /** A run in which the answer is wrong: job 7 was submitted and never ran, shutdown has
      returned, and nothing is pending. */
  lemma SilentlyDropped() returns (steps: seq<Step>)
    ensures CanRun(INIT, steps)
    ensures var s := Execute(INIT, steps);
      !s.inited && !JobsPending(s) && s.inflight == 1 && 7 in s.submitted && Runs(s.log, Work(7)) == 0
  {
    var late := LateSubmissionIsLost();
    steps := late;
    InvInit();
    ExecuteInv(INIT, late);
    hide CanRun, Execute;
    steps := Extend(late, Return);
    ExecuteInv(INIT, steps);
    var s := Execute(INIT, steps);
    UntakenIsStuck(s, 7);
  }

  // ---------- starting again ----------

  /** What `ts_thread_pool_init` makes of a pool that has been shut down: the count is zero, and
      both queues are initialised again, whatever was on them. */
  function Restarted(s: State): State {
    s.(inited := true, shutdown := false, inflight := 0, work := [], done := [],
       workers := seq(POOL_WORKERS, _ => Idle))
  }

  /** The restarted pool counts and places its jobs right exactly if no job of its former life
      was outstanding. */
  lemma RestartKeepsInv(s: State)
    requires Inv(s) && !s.inited
    ensures Inv(Restarted(s)) <==> s.submitted == s.freed
  {
    var t := Restarted(s);
    assert Counted(t) ==> s.submitted - s.freed == {};
    if s.submitted == s.freed {
      assert s.submitted - s.freed == {};
      forall j
        ensures Places(t, j) == Bit(j in t.submitted)
        ensures Runs(t.log, Work(j)) == AfterWork(t, j) && Runs(t.log, Complete(j)) == AfterComplete(t, j)
      {
        RestartedPlaces(s, j);
      }
    }
  }

  lemma RestartedPlaces(s: State, j: Job)
    requires Inv(s) && !s.inited && s.submitted == s.freed
    ensures var t := Restarted(s);
      && Places(t, j) == Bit(j in t.submitted)
      && Runs(t.log, Work(j)) == AfterWork(t, j) && Runs(t.log, Complete(j)) == AfterComplete(t, j)
  {
    HeldByNone(s.workers, j);
    HeldByNone(Restarted(s).workers, j);
    assert Places(s, j) == Bit(j in s.submitted);
    assert Runs(s.log, Work(j)) == AfterWork(s, j) && Runs(s.log, Complete(j)) == AfterComplete(s, j);
  }

  /** In no place, and not run: so it stays. */
  ghost predicate Nowhere(s: State, j: Job) {
    j in s.submitted && Places(s, j) == 0 && Runs(s.log, Work(j)) == 0
  }

  /** A job that was on the work queue is in no place afterwards, ... */
  lemma RestartForgets(s: State, j: Job)
    requires Inv(s) && !s.inited && j in s.work
    ensures Nowhere(Restarted(s), j)
  {
    QueuedNotRun(s, j);
    UntakenIsStuck(s, j);
    HeldByNone(s.workers, j);
    HeldByNone(Restarted(s).workers, j);
    CountIn(s.work, j);
    assert Places(s, j) == 1;
  }

  lemma NowhereStep(s: State, step: Step, j: Job)
    requires Enabled(s, step) && Nowhere(s, j)
    ensures Nowhere(Apply(s, step), j)
  {
    hide Count, Held, HeldWorked, Runs;
    match step {
      case PushWork(x) => CountPush(s.work, x, j);
      case Take(w) => CountPop(s.work, j); HeldSet(s.workers, w, Taken(s.work[0]), j);
      case DoWork(w) =>
        HeldSet(s.workers, w, Worked(s.workers[w].job), j);
        HeldAtLeast(s.workers, w);
        RunsSnoc(s.log, Work(s.workers[w].job), Work(j));
      case PushDone(w) =>
        HeldAtLeast(s.workers, w);
        CountPush(s.done, s.workers[w].job, j);
        HeldSet(s.workers, w, Idle, j);
      case Exit(w) => HeldSet(s.workers, w, Exited, j);
      case PopDone => CountPop(s.done, j);
      case DoComplete(x) => RunsSnoc(s.log, Complete(x), Work(j));
      case _ =>
    }
  }

  /** ... and never runs, whatever the restarted pool does. */
  lemma {:induction false} ForgottenForever(s: State, more: seq<Step>, j: Job)
    requires Nowhere(s, j) && CanRun(s, more)
    ensures j in Execute(s, more).submitted && Runs(Execute(s, more).log, Work(j)) == 0
    decreases |more|
  {
    if more != [] {
      NowhereStep(s, more[0], j);
      hide Enabled, Apply, Nowhere;
      ForgottenForever(Apply(s, more[0]), more[1..], j);
    }
  }

  /** One such run: the submission overlaps the shutdown. */
  lemma LateSubmissionIsLost() returns (steps: seq<Step>)
    ensures CanRun(INIT, steps) && !Orderly(INIT, steps)
    ensures var s := Execute(INIT, steps);
      && AllExited(s) && s.work == [7] && s.submitted == {7} && s.inflight == 1
      && s.shutdown && s.inited && s.done == []
  {
    hide CanRun, Execute, Orderly;
    steps := [];
    assert CanRun(INIT, steps) && Execute(INIT, steps) == INIT by { Still(INIT); }
    steps := Extend(steps, BeginSubmit(7));
    steps := Extend(steps, Shutdown);
    steps := Extend(steps, Exit(0));
    steps := Extend(steps, Exit(1));
    steps := Extend(steps, Exit(2));
    steps := Extend(steps, Exit(3));
    steps := Extend(steps, PushWork(7));
    if Orderly(INIT, steps) {
      AllWorkDone(steps, 7);
    }
  }

  lemma Still(s: State)
    ensures CanRun(s, []) && Execute(s, []) == s
  {
  }

  lemma Extend(steps: seq<Step>, step: Step) returns (longer: seq<Step>)
    requires CanRun(INIT, steps) && Enabled(Execute(INIT, steps), step)
    ensures CanRun(INIT, longer) && Execute(INIT, longer) == Apply(Execute(INIT, steps), step)
  {
    ExecuteSnoc(INIT, steps, step);
    longer := steps + [step];
  }
}
