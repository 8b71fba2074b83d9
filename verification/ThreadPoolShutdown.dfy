/** What `shutdown` of the thread pool can lose, and when it does not return: `src/coro/thread_pool.cpp`. */
module ThreadPoolShutdown {
  import opened Counting
  import opened ThreadPool
  import opened ThreadPoolProgress

  lemma {:induction false} RunThen(s: Pool, steps: seq<Step>, more: seq<Step>)
    requires IsRun(s, steps) && IsRun(Final(s, steps), more)
    ensures IsRun(s, steps + more) && Final(s, steps + more) == Final(Final(s, steps), more)
    decreases |steps|
  {
    if steps == [] {
      assert steps + more == more;
    } else {
      assert (steps + more)[1..] == steps[1..] + more;
      RunThen(Apply(s, steps[0]), steps[1..], more);
    }
  }

  /** A run in which every worker exits and a handle that was pushed is never resumed. */
  ghost predicate Loses(s: Pool, steps: seq<Step>) {
    IsRun(s, steps) && AllExited(Final(s, steps)) && Final(s, steps).jobs != []
  }

  lemma LosesOne(s: Pool) returns (steps: seq<Step>)
    requires Inv(s) && s.stop != NotCalled && InFlight(s) > 0
    ensures Loses(s, steps)
  {
    var drain := CanExit(s);
    var s1 := Final(s, drain);
    RunKeeps(s, drain);
    CountAll(s1.workers, IsExited);
    CountZero(s1.workers, IsChecked);
    CountZero(s1.workers, IsBlocked);
    if s1.counted == 0 {
      RunTwo(s1, OuterCount, OuterPush(0, 0));
      steps := drain + [OuterCount, OuterPush(0, 0)];
      RunThen(s, drain, [OuterCount, OuterPush(0, 0)]);
    } else {
      RunOne(s1, OuterPush(0, 0));
      steps := drain + [OuterPush(0, 0)];
      RunThen(s, drain, [OuterPush(0, 0)]);
    }
  }

  lemma RunOne(s: Pool, step: Step)
    requires Enabled(s, step)
    ensures IsRun(s, [step]) && Final(s, [step]) == Apply(s, step)
  {
    assert [step][1..] == [];
  }

  lemma RunTwo(s: Pool, first: Step, second: Step)
    requires Enabled(s, first) && Enabled(Apply(s, first), second)
    ensures IsRun(s, [first, second]) && Final(s, [first, second]) == Apply(Apply(s, first), second)
  {
    RunOne(Apply(s, first), second);
    assert [first, second][1..] == [second];
  }

  /** `shutdown` leaves a handle behind in some run exactly when a call of another thread that saw `running` set
      has not pushed its handle yet when `running` falls. */
  lemma ShutdownDrainsExactly(s: Pool)
    requires Inv(s) && s.stop == NotCalled
    ensures InFlight(s) == 0 <==> !exists steps :: Loses(Apply(s, Exchange), steps)
  {
    var s' := Apply(s, Exchange);
    StepKeeps(s, Exchange);
    if InFlight(s) > 0 {
      var steps := LosesOne(s');
    } else {
      forall steps | IsRun(s', steps)
        ensures !Loses(s', steps)
      {
        NoneArrive(s', steps);
        RunKeeps(s', steps);
        CountImplies(s.workers, IsExited, Draining);
      }
    }
  }

  // ---------------------------------------------------------------- when `shutdown` never returns

  /** No thread can do anything, spurious wakeups aside: no worker, no caller, and not `shutdown` itself. */
  ghost predicate Stuck(s: Pool) {
    forall step :: Enabled(s, step) ==> step.Spurious?
  }

  /** A run after which `shutdown` waits forever for a worker that only a spurious wakeup can free. */
  ghost predicate Hangs(s: Pool, steps: seq<Step>) {
    IsRun(s, steps) && Stuck(Final(s, steps)) && !AllExited(Final(s, steps))
  }

  /** Being stuck is `shutdown` having notified, all workers asleep or gone, and no call under way. */
  lemma StuckExactly(s: Pool)
    ensures Stuck(s) <==> s.stop == Notified && InFlight(s) == 0 && Settled(s)
  {
    if Stuck(s) {
      assert !Enabled(s, Admit) && !Enabled(s, NotifyAll) && !Enabled(s, OuterCount);
      OnlyAsleep(s);
      CountZero(s.workers, IsChecked);
      if s.counted > 0 {
        var wake := SomeWake(s);
        assert Enabled(s, OuterPush(0, wake));
      }
    } else if Settled(s) {
      OnlyAsleep(s);
    }
  }

  lemma BlockedSettles(s: Pool)
    requires forall w :: 0 <= w < |s.workers| ==> s.workers[w] == Exited || s.workers[w] == Blocked
    ensures Settled(s)
  {
  }

  /** Nothing is queued or about to be, and worker `w` sleeps. */
  ghost predicate Quiet(s: Pool, w: nat) {
    s.stop == Notified && s.jobs == [] && Count(s.workers, Adding) == 0 && InFlight(s) == 0 && At(s, w, {Blocked})
  }

  lemma QuietStays(s: Pool, w: nat, step: Step)
    requires Quiet(s, w) && Enabled(s, step) && Works(s, step) && !step.Spurious?
    ensures Quiet(Apply(s, step), w)
  {
    CountZero(s.workers, Adding);
    var s' := Apply(s, step);
    CountUpdate(s.workers, step.w, s'.workers[step.w], Adding);
  }

  lemma {:induction false} SleepsOn(s: Pool, w: nat) returns (steps: seq<Step>)
    requires Quiet(s, w)
    ensures Hangs(s, steps)
    decreases Work(s)
  {
    steps := [];
    CountAll(s.workers, IsExited);
    if v :| 0 <= v < |s.workers| && s.workers[v] != Exited && s.workers[v] != Blocked {
      var step := CanMove(s, v);
      QuietStays(s, w, step);
      WorkDecreases(s, step);
      var rest := SleepsOn(Apply(s, step), w);
      steps := [step] + rest;
      assert steps[1..] == rest;
    } else {
      BlockedSettles(s);
      StuckExactly(s);
    }
  }

  lemma HangsOnce(s: Pool) returns (steps: seq<Step>)
    requires Inv(s) && s.stop == Flagged && Count(s.workers, IsChecked) > 0
    requires Count(s.workers, Adding) == 0 && InFlight(s) == 0
    ensures Hangs(s, steps)
  {
    CountZero(s.workers, IsChecked);
    var w :| 0 <= w < |s.workers| && IsChecked(s.workers[w]);
    var s1 := Apply(s, NotifyAll);
    CountSame(s.workers, s1.workers, Adding);
    var s2 := Apply(s1, Block(w));
    CountUpdate(s1.workers, w, Blocked, Adding);
    RunTwo(s, NotifyAll, Block(w));
    var rest := SleepsOn(s2, w);
    RunThen(s, [NotifyAll, Block(w)], rest);
    steps := [NotifyAll, Block(w)] + rest;
  }

  /** Every worker that `shutdown` may miss will be notified by a push that is already under way. */
  ghost predicate Covered(s: Pool) {
    && s.stop != NotCalled
    && (Count(s.workers, IsChecked) + (if s.stop == Notified then Count(s.workers, IsBlocked) else 0) > 0 ==>
          Count(s.workers, Adding) + InFlight(s) > 0)
  }

  lemma CoveredNotified(s: Pool)
    requires Covered(s) && s.stop == Flagged
    ensures Covered(Apply(s, NotifyAll))
  {
    var ws := Apply(s, NotifyAll).workers;
    CountSame(s.workers, ws, IsChecked);
    CountSame(s.workers, ws, Adding);
    CountZero(ws, IsBlocked);
  }

  lemma CoveredPush(s: Pool, step: Step)
    requires Covered(s) && Inv(s) && Enabled(s, step) && (step.NestedPush? || step.OuterPush?)
    ensures Covered(Apply(s, step))
  {
    var ws := s.workers;
    if step.NestedPush? {
      ws := ws[step.w := Busy(s.workers[step.w].draining, false)];
      Moved(s.workers, step.w, Busy(s.workers[step.w].draining, false));
    }
    if At(s, step.wake, {Blocked}) {
      Moved(ws, step.wake, Woken);
    }
  }

  lemma CoveredMove(s: Pool, step: Step)
    requires Covered(s) && Inv(s) && Enabled(s, step) && !step.NestedPush?
    requires Works(s, step) || step.NestedCount? || step.Spurious?
    ensures Covered(Apply(s, step))
  {
    Moved(s.workers, step.w, Apply(s, step).workers[step.w]);
  }

  lemma CoveredStays(s: Pool, step: Step)
    requires Covered(s) && Inv(s) && Enabled(s, step)
    ensures Covered(Apply(s, step))
  {
    if step.NestedPush? || step.OuterPush? {
      CoveredPush(s, step);
    } else if step.NotifyAll? {
      CoveredNotified(s);
    } else if Works(s, step) || step.NestedCount? || step.Spurious? {
      CoveredMove(s, step);
    }
  }

  lemma {:induction false} CoveredRun(s: Pool, steps: seq<Step>)
    requires Covered(s) && Inv(s) && IsRun(s, steps)
    ensures !Hangs(s, steps) && Covered(Final(s, steps))
    decreases |steps|
  {
    if steps == [] {
      StuckExactly(s);
      if Stuck(s) {
        OnlyAsleep(s);
        CountZero(s.workers, Adding);
        CountZero(s.workers, IsBlocked);
        CountAll(s.workers, IsExited);
      }
    } else {
      CoveredStays(s, steps[0]);
      StepKeeps(s, steps[0]);
      CoveredRun(Apply(s, steps[0]), steps[1..]);
    }
  }

  /** Once `running` has fallen, some run never lets `shutdown` return exactly when, at that moment, a worker has
      evaluated its predicate and not blocked yet, and nobody is about to push: no resumed handle, and no call of
      another thread that saw `running` set. */
  lemma ShutdownHangsExactly(s: Pool)
    requires Inv(s) && s.stop == Flagged
    ensures (exists steps :: Hangs(s, steps)) <==>
              Count(s.workers, IsChecked) > 0 && Count(s.workers, Adding) == 0 && InFlight(s) == 0
  {
    if Count(s.workers, IsChecked) > 0 && Count(s.workers, Adding) == 0 && InFlight(s) == 0 {
      var steps := HangsOnce(s);
    } else {
      forall steps | IsRun(s, steps)
        ensures !Hangs(s, steps)
      {
        CoveredRun(s, steps);
      }
    }
  }

  /** Both failures happen to a pool of any size. */
  lemma LossIsReachable(concurrency: nat) returns (steps: seq<Step>)
    ensures Loses(Start(concurrency), steps)
  {
    var s := Start(concurrency);
    RunTwo(s, Admit, Exchange);
    Reachable(concurrency, [Admit, Exchange]);
    var rest := LosesOne(Final(s, [Admit, Exchange]));
    RunThen(s, [Admit, Exchange], rest);
    steps := [Admit, Exchange] + rest;
  }

  lemma Predicate(concurrency: nat) returns (s2: Pool)
    ensures IsRun(Start(concurrency), [Load(0), Check(0)]) && s2 == Final(Start(concurrency), [Load(0), Check(0)])
    ensures s2.stop == NotCalled && Count(s2.workers, IsChecked) > 0 && Count(s2.workers, Adding) == 0 && InFlight(s2) == 0
  {
    var s1 := Apply(Start(concurrency), Load(0));
    CountZero(s1.workers, IsChecked);
    s2 := Apply(s1, Check(0));
    RunTwo(Start(concurrency), Load(0), Check(0));
    assert IsChecked(s2.workers[0]);
    CountZero(s2.workers, IsChecked);
    CountZero(s2.workers, Adding);
  }

  lemma HangIsReachable(concurrency: nat) returns (steps: seq<Step>)
    ensures Hangs(Start(concurrency), steps)
  {
    var s := Start(concurrency);
    var s2 := Predicate(concurrency);
    RunOne(s2, Exchange);
    RunThen(s, [Load(0), Check(0)], [Exchange]);
    var first := [Load(0), Check(0)] + [Exchange];
    Reachable(concurrency, first);
    var rest := HangsOnce(Final(s, first));
    RunThen(s, first, rest);
    steps := first + rest;
  }
}
