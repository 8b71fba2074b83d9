/**
  `coro::thread_pool` of `src/coro/thread_pool.cpp`, as a transition system.

  A step is one atomic operation of one thread: a load or update of an atomic, or a region under `wait_mutex`.
  A worker that has evaluated the predicate of `wait` and is about to block still holds the mutex and is a state of
  its own, because `shutdown` changes `running` and notifies without holding it. Condition variables may wake up
  spuriously. A run is any interleaving of the workers, of any number of scheduling threads, and of `shutdown`.
 */
module ThreadPool {
  import opened Counting

  type Handle = nat

  datatype Worker =
    | Test                        // about to load `running`
    | Enter                       // saw `running`; about to lock and evaluate the predicate
    | Checked                     // holds the lock, found the queue empty and `running` set
    | Blocked
    | Woken                       // notified; about to lock and evaluate the predicate again
    | Busy(draining: bool, adding: bool) // resuming a handle, outside or inside a `schedule` that has counted
    | Done(draining: bool)        // the handle came back; about to decrement `num_jobs`
    | DrainTest                   // second loop: about to load `num_jobs`
    | DrainEnter                  // second loop: about to lock and look at the queue
    | Exited

  /** How far `shutdown` is. `running` is set as long as it was not called. */
  datatype Stop = NotCalled | Flagged | Notified

  datatype Pool = Pool(
    workers: seq<Worker>, jobs: seq<Handle>, numJobs: int, stop: Stop,
    admitted: nat,          // calls from other threads that saw `running` set and have not counted their job yet
    counted: nat,           // calls from other threads that have counted their job and not pushed it yet
    // history
    enqueued: seq<Handle>, resumed: seq<Handle>, finished: nat,
    late: seq<Handle>,      // pushed when every worker had exited
    missed: nat)            // workers that were `Checked` when `shutdown` notified

  function Start(concurrency: nat): Pool {
    Pool(seq(if concurrency == 0 then 4 else concurrency, i => Test), [], 0, NotCalled, 0, 0, [], [], 0, [], 0)
  }

  datatype Step =
    | Load(w: nat)
    | Check(w: nat)
    | Block(w: nat)
    | Finish(w: nat)
    | Retire(w: nat)
    | DrainLoad(w: nat)
    | Drain(w: nat)
    | Spurious(w: nat)
    | NestedCount(w: nat)                         // the handle a worker resumes calls `schedule`
    | NestedPush(w: nat, h: Handle, wake: nat)
    | Admit
    | OuterCount
    | OuterPush(h: Handle, wake: nat)
    | Exchange                                    // `shutdown` clears `running`
    | NotifyAll

  predicate IsChecked(w: Worker) { w == Checked }
  predicate IsBlocked(w: Worker) { w == Blocked }
  predicate IsExited(w: Worker) { w == Exited }
  predicate InJob(w: Worker) { w.Busy? || w.Done? }
  predicate Adding(w: Worker) { w.Busy? && w.adding }
  /** On the way to look at the queue, and not waiting for anything but the mutex. */
  predicate Heading(w: Worker) { w in {Test, Enter, Woken, DrainTest, DrainEnter} }
  /** In the second loop, or past it. */
  predicate Draining(w: Worker) {
    w in {DrainTest, DrainEnter, Exited} || ((w.Busy? || w.Done?) && w.draining)
  }

  predicate Free(s: Pool) { Count(s.workers, IsChecked) == 0 }
  predicate AllExited(s: Pool) { Count(s.workers, IsExited) == |s.workers| }

  predicate At(s: Pool, w: nat, states: set<Worker>) {
    w < |s.workers| && s.workers[w] in states
  }

  /** `notify_one` picks some blocked worker, if there is one. */
  predicate Notifies(s: Pool, wake: nat) {
    Count(s.workers, IsBlocked) > 0 ==> At(s, wake, {Blocked})
  }

  predicate Enabled(s: Pool, step: Step) {
    match step
    case Load(w) => At(s, w, {Test})
    case Check(w) => At(s, w, {Enter, Woken}) && Free(s)
    case Block(w) => At(s, w, {Checked})
    case Finish(w) => At(s, w, {Busy(false, false), Busy(true, false)})
    case Retire(w) => At(s, w, {Done(false), Done(true)})
    case DrainLoad(w) => At(s, w, {DrainTest})
    case Drain(w) => At(s, w, {DrainEnter}) && Free(s)
    case Spurious(w) => At(s, w, {Blocked})
    case NestedCount(w) => At(s, w, {Busy(false, false), Busy(true, false)})
    case NestedPush(w, _, wake) => At(s, w, {Busy(false, true), Busy(true, true)}) && Free(s) && Notifies(s, wake)
    case Admit => s.stop == NotCalled
    case OuterCount => s.admitted > 0
    case OuterPush(_, wake) => s.counted > 0 && Free(s) && Notifies(s, wake)
    case Exchange => s.stop == NotCalled
    case NotifyAll => s.stop == Flagged
  }

  function Move(s: Pool, w: nat, x: Worker): Pool
    requires w < |s.workers|
  {
    s.(workers := s.workers[w := x])
  }

  function Pop(s: Pool, w: nat, draining: bool): Pool
    requires w < |s.workers| && s.jobs != []
  {
    Move(s, w, Busy(draining, false)).(jobs := s.jobs[1..], resumed := s.resumed + [s.jobs[0]])
  }

  function Push(s: Pool, h: Handle, wake: nat): Pool {
    var s' := s.(jobs := s.jobs + [h], enqueued := s.enqueued + [h]);
    if At(s, wake, {Blocked}) then Move(s', wake, Woken) else s'
  }

  function Wake(w: Worker): Worker {
    if w == Blocked then Woken else w
  }

  function Apply(s: Pool, step: Step): Pool
    requires Enabled(s, step)
  {
    match step
    case Load(w) => Move(s, w, if s.stop == NotCalled then Enter else DrainTest)
    case Check(w) =>
      if s.jobs != [] then Pop(s, w, false)
      else Move(s, w, if s.stop == NotCalled then Checked else Test)
    case Block(w) => Move(s, w, Blocked)
    case Finish(w) => Move(s, w, Done(s.workers[w].draining))
    case Retire(w) =>
      Move(s, w, if s.workers[w].draining then DrainTest else Test).(numJobs := s.numJobs - 1, finished := s.finished + 1)
    case DrainLoad(w) => Move(s, w, if s.numJobs > 0 then DrainEnter else Exited)
    case Drain(w) => if s.jobs != [] then Pop(s, w, true) else Move(s, w, Exited)
    case Spurious(w) => Move(s, w, Woken)
    case NestedCount(w) => Move(s, w, Busy(s.workers[w].draining, true)).(numJobs := s.numJobs + 1)
    case NestedPush(w, h, wake) => Push(Move(s, w, Busy(s.workers[w].draining, false)), h, wake)
    case Admit => s.(admitted := s.admitted + 1)
    case OuterCount => s.(admitted := s.admitted - 1, counted := s.counted + 1, numJobs := s.numJobs + 1)
    case OuterPush(h, wake) =>
      Push(s.(counted := s.counted - 1, late := if AllExited(s) then s.late + [h] else s.late), h, wake)
    case Exchange => s.(stop := Flagged)
    case NotifyAll =>
      s.(stop := Notified, missed := Count(s.workers, IsChecked),
         workers := seq(|s.workers|, i requires 0 <= i < |s.workers| => Wake(s.workers[i])))
  }

  ghost predicate IsRun(s: Pool, steps: seq<Step>)
    decreases |steps|
  {
    steps == [] || (Enabled(s, steps[0]) && IsRun(Apply(s, steps[0]), steps[1..]))
  }

  function Final(s: Pool, steps: seq<Step>): Pool
    requires IsRun(s, steps)
    decreases |steps|
  {
    if steps == [] then s else Final(Apply(s, steps[0]), steps[1..])
  }

  // ---------------------------------------------------------------- invariants

  /** `num_jobs` counts the queue, the handles being resumed, and the calls that are about to push. */
  ghost predicate Counted(s: Pool) {
    s.numJobs == |s.jobs| + Count(s.workers, InJob) + Count(s.workers, Adding) + s.counted
  }

  /** Handles leave the queue in the order they entered it, each once; what was taken is finished or being resumed. */
  ghost predicate Order(s: Pool) {
    && s.enqueued == s.resumed + s.jobs
    && |s.resumed| == s.finished + Count(s.workers, InJob)
  }

  ghost predicate Mutex(s: Pool) {
    Count(s.workers, IsChecked) <= 1 && (Count(s.workers, IsChecked) > 0 ==> s.jobs == [])
  }

  /** While a worker sleeps, every queued handle has a worker of its own on its way to the queue. */
  ghost predicate NoSleep(s: Pool) {
    Count(s.workers, IsBlocked) > 0 ==> |s.jobs| <= Count(s.workers, Heading)
  }

  ghost predicate Stopping(s: Pool) {
    && s.workers != []
    && (s.stop == NotCalled ==> Count(s.workers, Draining) == 0)
    && (s.stop == Notified ==> Count(s.workers, IsBlocked) + Count(s.workers, IsChecked) <= s.missed <= 1)
  }

  /** The queue is empty when the last worker exits. */
  ghost predicate Drained(s: Pool) {
    if AllExited(s) then s.jobs == s.late else s.late == []
  }

  ghost predicate Inv(s: Pool) {
    Counted(s) && Order(s) && Mutex(s) && NoSleep(s) && Stopping(s) && Drained(s)
  }

  /** What the invariants say about the workers. */
  datatype Tally = Tally(checked: nat, blocked: nat, exited: nat, inJob: nat, adding: nat, heading: nat, draining: nat)

  function Of(ws: seq<Worker>): Tally {
    Tally(Count(ws, IsChecked), Count(ws, IsBlocked), Count(ws, IsExited), Count(ws, InJob),
          Count(ws, Adding), Count(ws, Heading), Count(ws, Draining))
  }

  lemma Moved(ws: seq<Worker>, w: nat, x: Worker)
    requires w < |ws|
    ensures Of(ws[w := x]).checked == Of(ws).checked - One(IsChecked(ws[w])) + One(IsChecked(x))
    ensures Of(ws[w := x]).blocked == Of(ws).blocked - One(IsBlocked(ws[w])) + One(IsBlocked(x))
    ensures Of(ws[w := x]).exited == Of(ws).exited - One(IsExited(ws[w])) + One(IsExited(x))
    ensures ws[w] != Exited ==> Of(ws).exited < |ws|
    ensures Of(ws[w := x]).inJob == Of(ws).inJob - One(InJob(ws[w])) + One(InJob(x))
    ensures Of(ws[w := x]).adding == Of(ws).adding - One(Adding(ws[w])) + One(Adding(x))
    ensures Of(ws[w := x]).heading == Of(ws).heading - One(Heading(ws[w])) + One(Heading(x))
    ensures Of(ws[w := x]).draining == Of(ws).draining - One(Draining(ws[w])) + One(Draining(x))
  {
    CountUpdate(ws, w, x, IsChecked);
    CountUpdate(ws, w, x, IsBlocked);
    CountUpdate(ws, w, x, IsExited);
    CountAll(ws, IsExited);
    CountUpdate(ws, w, x, InJob);
    CountUpdate(ws, w, x, Adding);
    CountUpdate(ws, w, x, Heading);
    CountUpdate(ws, w, x, Draining);
  }

  lemma LoopKeeps(s: Pool, step: Step)
    requires Enabled(s, step) && Inv(s) && (step.Load? || step.Block? || step.DrainLoad? || step.Spurious?)
    ensures Inv(Apply(s, step))
  {
    Moved(s.workers, step.w, Apply(s, step).workers[step.w]);
  }

  lemma FinishKeeps(s: Pool, step: Step)
    requires Enabled(s, step) && Inv(s) && step.Finish?
    ensures Inv(Apply(s, step))
  {
    Moved(s.workers, step.w, Apply(s, step).workers[step.w]);
  }

  lemma RetireKeeps(s: Pool, step: Step)
    requires Enabled(s, step) && Inv(s) && step.Retire?
    ensures Inv(Apply(s, step))
  {
    Moved(s.workers, step.w, Apply(s, step).workers[step.w]);
  }

  lemma NestedCountKeeps(s: Pool, step: Step)
    requires Enabled(s, step) && Inv(s) && step.NestedCount?
    ensures Inv(Apply(s, step))
  {
    Moved(s.workers, step.w, Apply(s, step).workers[step.w]);
  }

  lemma {:induction false} JobKeeps(s: Pool, step: Step)
    requires Enabled(s, step) && Inv(s) && (step.Finish? || step.Retire? || step.NestedCount?)
    ensures Inv(Apply(s, step))
  {
    if step.Finish? { FinishKeeps(s, step); } else if step.Retire? { RetireKeeps(s, step); } else { NestedCountKeeps(s, step); }
  }

  lemma PopKeeps(s: Pool, w: nat, draining: bool)
    requires Inv(s) && w < |s.workers| && s.jobs != [] && Heading(s.workers[w])
    requires draining == Draining(s.workers[w])
    ensures Inv(Pop(s, w, draining))
  {
    Moved(s.workers, w, Busy(draining, false));
    Moved(Pop(s, w, draining).workers, w, Busy(draining, false));
    FirstMoves(s.resumed, s.jobs);
  }

  lemma FirstMoves(resumed: seq<Handle>, jobs: seq<Handle>)
    requires jobs != []
    ensures resumed + jobs == resumed + [jobs[0]] + jobs[1..]
  {
  }

  lemma TakeKeeps(s: Pool, step: Step)
    requires Enabled(s, step) && Inv(s) && (step.Check? || step.Drain?)
    ensures Inv(Apply(s, step))
  {
    if s.jobs != [] {
      PopKeeps(s, step.w, step.Drain?);
    } else {
      Moved(s.workers, step.w, Apply(s, step).workers[step.w]);
    }
  }

  /** Everything but the workers and the place the call came from is the same for both kinds of pushes. */
  lemma PushKeeps(s: Pool, h: Handle, wake: nat)
    requires Order(s) && Free(s) && NoSleep(s) && Stopping(s) && Notifies(s, wake)
    requires if AllExited(s) then s.jobs + [h] == s.late else s.late == []
    requires s.numJobs == |s.jobs| + 1 + Count(s.workers, InJob) + Count(s.workers, Adding) + s.counted
    ensures Inv(Push(s, h, wake))
  {
    assert s.resumed + (s.jobs + [h]) == s.resumed + s.jobs + [h];
    if At(s, wake, {Blocked}) {
      Moved(s.workers, wake, Woken);
    }
  }

  lemma NestedPushKeeps(s: Pool, step: Step)
    requires Enabled(s, step) && Inv(s) && step.NestedPush?
    ensures Inv(Apply(s, step))
  {
    var s' := Move(s, step.w, Busy(s.workers[step.w].draining, false));
    Moved(s.workers, step.w, s'.workers[step.w]);
    Moved(s'.workers, step.w, s'.workers[step.w]);
    PushKeeps(s', step.h, step.wake);
  }

  lemma OuterPushKeeps(s: Pool, step: Step)
    requires Enabled(s, step) && Inv(s) && step.OuterPush?
    ensures Inv(Apply(s, step))
  {
    var s' := s.(counted := s.counted - 1, late := if AllExited(s) then s.late + [step.h] else s.late);
    PushKeeps(s', step.h, step.wake);
  }

  lemma NotifyAllKeeps(s: Pool)
    requires s.stop == Flagged && Inv(s)
    ensures Inv(Apply(s, NotifyAll))
  {
    var ws := Apply(s, NotifyAll).workers;
    CountSame(s.workers, ws, IsChecked);
    CountSame(s.workers, ws, IsExited);
    CountSame(s.workers, ws, InJob);
    CountSame(s.workers, ws, Adding);
    CountZero(ws, IsBlocked);
  }

  lemma StepKeeps(s: Pool, step: Step)
    requires Enabled(s, step) && Inv(s)
    ensures Inv(Apply(s, step))
  {
    if step.Load? || step.Block? || step.DrainLoad? || step.Spurious? {
      LoopKeeps(s, step);
    } else if step.Finish? || step.Retire? || step.NestedCount? {
      JobKeeps(s, step);
    } else if step.Check? || step.Drain? {
      TakeKeeps(s, step);
    } else if step.NestedPush? {
      NestedPushKeeps(s, step);
    } else if step.OuterPush? {
      OuterPushKeeps(s, step);
    } else if step.NotifyAll? {
      NotifyAllKeeps(s);
    }
  }

  lemma {:induction false} RunKeeps(s: Pool, steps: seq<Step>)
    requires IsRun(s, steps) && Inv(s)
    ensures Inv(Final(s, steps))
    decreases |steps|
  {
    if steps == [] {
    } else {
      StepKeeps(s, steps[0]);
      RunKeeps(Apply(s, steps[0]), steps[1..]);
    }
  }

  lemma StartInv(concurrency: nat)
    ensures Inv(Start(concurrency))
  {
    var ws := Start(concurrency).workers;
    CountZero(ws, IsChecked);
    CountZero(ws, IsBlocked);
    CountZero(ws, IsExited);
    CountZero(ws, InJob);
    CountZero(ws, Adding);
    CountZero(ws, Draining);
  }

  // ---------------------------------------------------------------- safety in every run

  lemma Reachable(concurrency: nat, steps: seq<Step>)
    requires IsRun(Start(concurrency), steps)
    ensures Inv(Final(Start(concurrency), steps))
  {
    StartInv(concurrency);
    RunKeeps(Start(concurrency), steps);
  }

  /** `num_jobs` is at least one whenever a worker decrements it. */
  lemma NeverUnderflows(s: Pool, w: nat)
    requires Inv(s) && Enabled(s, Retire(w))
    ensures s.numJobs > 0
  {
    CountZero(s.workers, InJob);
  }

  /** Once every worker has exited, each handle pushed while one was left was resumed exactly once and came back,
      in the order of the pushes; the queue holds what was pushed later. */
  lemma ExitedMeansDone(concurrency: nat, steps: seq<Step>)
    requires IsRun(Start(concurrency), steps)
    ensures var s := Final(Start(concurrency), steps);
      AllExited(s) ==> s.enqueued == s.resumed + s.late && s.finished == |s.resumed| && s.jobs == s.late
  {
    Reachable(concurrency, steps);
    var s := Final(Start(concurrency), steps);
    if AllExited(s) {
      CountAll(s.workers, IsExited);
      CountZero(s.workers, InJob);
    }
  }

  /** Calls of other threads that saw `running` set and have not pushed yet. */
  function InFlight(s: Pool): nat {
    s.admitted + s.counted
  }

  lemma {:induction false} NoneArrive(s: Pool, steps: seq<Step>)
    requires IsRun(s, steps) && s.stop != NotCalled && InFlight(s) == 0
    ensures Final(s, steps).late == s.late && InFlight(Final(s, steps)) == 0
    decreases |steps|
  {
    if steps == [] {
    } else {
      NoneArrive(Apply(s, steps[0]), steps[1..]);
    }
  }
}
