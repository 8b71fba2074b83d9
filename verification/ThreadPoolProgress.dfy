/** How far the workers of the thread pool get: `src/coro/thread_pool.cpp`. */
module ThreadPoolProgress {
  import opened Counting
  import opened ThreadPool

  function RunningWeight(w: Worker): nat {
    match w
    case Test => 4
    case Enter => 3
    case Woken => 3
    case Checked => 2
    case Blocked => 1
    case Busy(_, adding) => if adding then 17 else 6
    case Done(_) => 5
    case DrainTest => 2
    case DrainEnter => 1
    case Exited => 0
  }

  function StoppedWeight(w: Worker): nat {
    match w
    case Test => 3
    case Enter => 4
    case Woken => 4
    case Blocked => 5
    case Checked => 6
    case _ => RunningWeight(w)
  }

  /** Bounds how many steps the workers can take when nothing new is scheduled. */
  function Work(s: Pool): nat {
    8 * |s.jobs| + Sum(s.workers, Weight(s))
  }

  /** A step of a worker that is not the start of a new `schedule`; a spurious wakeup only after `shutdown`. */
  predicate Works(s: Pool, step: Step) {
    match step
    case NestedCount(_) => false
    case Spurious(_) => s.stop != NotCalled
    case Admit => false
    case OuterCount => false
    case OuterPush(_, _) => false
    case Exchange => false
    case NotifyAll => false
    case _ => true
  }

  function Weight(s: Pool): Worker -> nat {
    if s.stop == NotCalled then RunningWeight else StoppedWeight
  }

  lemma PushDecreases(s: Pool, step: Step)
    requires Enabled(s, step) && step.NestedPush?
    ensures Work(Apply(s, step)) < Work(s)
  {
    var x := Busy(s.workers[step.w].draining, false);
    SumUpdate(s.workers, step.w, x, Weight(s));
    if At(s, step.wake, {Blocked}) {
      SumUpdate(s.workers[step.w := x], step.wake, Woken, Weight(s));
    }
  }

  lemma PopDecreases(s: Pool, w: nat, draining: bool)
    requires w < |s.workers| && s.jobs != [] && Heading(s.workers[w])
    ensures Work(Pop(s, w, draining)) < Work(s)
  {
    SumUpdate(s.workers, w, Busy(draining, false), Weight(s));
  }

  lemma MoveDecreases(s: Pool, w: nat, x: Worker, s': Pool)
    requires w < |s.workers| && Weight(s)(x) < Weight(s)(s.workers[w])
    requires s'.workers == s.workers[w := x] && s'.jobs == s.jobs && s'.stop == s.stop
    ensures Work(s') < Work(s)
  {
    SumUpdate(s.workers, w, x, Weight(s));
  }

  lemma WorkDecreases(s: Pool, step: Step)
    requires Enabled(s, step) && Works(s, step)
    ensures Work(Apply(s, step)) < Work(s) && Apply(s, step).stop == s.stop
  {
    if step.NestedPush? {
      PushDecreases(s, step);
    } else if (step.Check? || step.Drain?) && s.jobs != [] {
      PopDecreases(s, step.w, step.Drain?);
    } else {
      MoveDecreases(s, step.w, Apply(s, step).workers[step.w], Apply(s, step));
    }
  }

  ghost predicate AllWork(s: Pool, steps: seq<Step>)
    requires IsRun(s, steps)
    decreases |steps|
  {
    steps == [] || (Works(s, steps[0]) && AllWork(Apply(s, steps[0]), steps[1..]))
  }

  /** The workers settle: with no new scheduling, at most `Work(s)` steps are possible. */
  lemma {:induction false} Settles(s: Pool, steps: seq<Step>)
    requires IsRun(s, steps) && AllWork(s, steps)
    ensures |steps| <= Work(s)
    decreases |steps|
  {
    if steps == [] {
    } else {
      WorkDecreases(s, steps[0]);
      Settles(Apply(s, steps[0]), steps[1..]);
    }
  }

  /** The step of a worker that waits for nothing but the mutex; `wake` is used when it pushes. */
  function Next(s: Pool, w: nat, wake: nat): Step
    requires w < |s.workers|
  {
    match s.workers[w]
    case Test => Load(w)
    case Enter => Check(w)
    case Woken => Check(w)
    case Checked => Block(w)
    case Busy(_, adding) => if adding then NestedPush(w, 0, wake) else Finish(w)
    case Done(_) => Retire(w)
    case DrainTest => DrainLoad(w)
    case DrainEnter => Drain(w)
    case _ => Spurious(w)
  }

  lemma SomeWake(s: Pool) returns (wake: nat)
    ensures Notifies(s, wake)
  {
    CountZero(s.workers, IsBlocked);
    wake := 0;
    if Count(s.workers, IsBlocked) > 0 {
      wake :| 0 <= wake < |s.workers| && IsBlocked(s.workers[wake]);
    }
  }

  lemma CanMove(s: Pool, w: nat) returns (step: Step)
    requires w < |s.workers| && s.workers[w] != Exited && s.workers[w] != Blocked
    ensures Enabled(s, step) && Works(s, step) && !step.Spurious?
  {
    var v := w;
    CountZero(s.workers, IsChecked);
    if !Free(s) {
      v :| 0 <= v < |s.workers| && IsChecked(s.workers[v]);
    }
    var wake := SomeWake(s);
    step := Next(s, v, wake);
  }

  /** No worker can move, spurious wakeups aside. */
  ghost predicate Settled(s: Pool) {
    forall step :: Enabled(s, step) && Works(s, step) ==> step.Spurious?
  }

  lemma OnlyAsleep(s: Pool)
    requires Settled(s)
    ensures forall w :: 0 <= w < |s.workers| ==> s.workers[w] == Exited || s.workers[w] == Blocked
  {
    forall w | 0 <= w < |s.workers|
      ensures s.workers[w] == Exited || s.workers[w] == Blocked
    {
      if s.workers[w] != Exited && s.workers[w] != Blocked { var _ := CanMove(s, w); }
    }
  }

  /** When the workers have settled, every handle they were given was resumed and came back: no wakeup was lost.
      If `shutdown` has notified, all of them have exited, unless it missed one. */
  lemma SettledMeansDone(s: Pool)
    requires Inv(s) && Settled(s)
    ensures s.enqueued == s.resumed + s.late && s.finished == |s.resumed|
    ensures s.stop == Notified && s.missed == 0 ==> AllExited(s)
  {
    OnlyAsleep(s);
    CountZero(s.workers, InJob);
    CountZero(s.workers, Heading);
    CountAll(s.workers, IsExited);
    CountZero(s.workers, IsBlocked);
  }

  /** After `shutdown` has cleared `running` the workers can always run to their ends. */
  lemma {:induction false} CanExit(s: Pool) returns (steps: seq<Step>)
    requires s.stop != NotCalled
    ensures IsRun(s, steps) && AllExited(Final(s, steps)) && InFlight(Final(s, steps)) == InFlight(s)
    ensures Final(s, steps).stop == s.stop
    decreases Work(s)
  {
    steps := [];
    if !AllExited(s) {
      CountAll(s.workers, IsExited);
      var w :| 0 <= w < |s.workers| && !IsExited(s.workers[w]);
      var step := Spurious(w);
      if s.workers[w] != Blocked { step := CanMove(s, w); }
      WorkDecreases(s, step);
      var rest := CanExit(Apply(s, step));
      steps := [step] + rest;
      assert steps[1..] == rest;
    }
  }
}
