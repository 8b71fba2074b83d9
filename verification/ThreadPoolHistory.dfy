/** What the thread pool does with the handles it is given, said by the steps of a run. */
module ThreadPoolHistory {
  import opened Counting
  import opened ThreadPool

  /** The handle that a step pushes. */
  function Pushes(step: Step): seq<Handle> {
    match step case NestedPush(_, h, _) => [h] case OuterPush(h, _) => [h] case _ => []
  }

  /** The handles that the calls of a run push, in order. */
  function Scheduled(steps: seq<Step>): seq<Handle> {
    if steps == [] then [] else Pushes(steps[0]) + Scheduled(steps[1..])
  }

  function Counts(step: Step): int {
    match step case NestedCount(_) => 1 case OuterCount => 1 case Retire(_) => -1 case _ => 0
  }

  /** How many times a run counts a job up, less how many times it counts one down. */
  function Balance(steps: seq<Step>): int {
    if steps == [] then 0 else Counts(steps[0]) + Balance(steps[1..])
  }

  lemma StepRecords(s: Pool, step: Step)
    requires Enabled(s, step)
    ensures var s' := Apply(s, step);
      && s'.enqueued == s.enqueued + Pushes(step) && s'.numJobs == s.numJobs + Counts(step)
      && |s'.workers| == |s.workers| && (s'.stop == NotCalled <==> s.stop == NotCalled && step != Exchange)
  {
  }

  /** The queue is given exactly the handles that are scheduled, in the order of the calls, and `num_jobs` counts them;
      the number of workers never changes. */
  lemma {:induction false} RunRecords(s: Pool, steps: seq<Step>)
    requires IsRun(s, steps)
    ensures var s' := Final(s, steps);
      s'.enqueued == s.enqueued + Scheduled(steps) && s'.numJobs == s.numJobs + Balance(steps) && |s'.workers| == |s.workers|
    decreases |steps|
  {
    if steps != [] {
      StepRecords(s, steps[0]);
      RunRecords(Apply(s, steps[0]), steps[1..]);
    }
  }

  /** `running` falls with `shutdown` and only then. */
  lemma {:induction false} RunStops(s: Pool, steps: seq<Step>)
    requires IsRun(s, steps) && s.stop == NotCalled
    ensures Final(s, steps).stop == NotCalled <==> Exchange !in steps
    decreases |steps|
  {
    if steps != [] {
      StepRecords(s, steps[0]);
      assert steps == [steps[0]] + steps[1..];
      if steps[0] == Exchange { StaysStopped(Apply(s, steps[0]), steps[1..]); } else { RunStops(Apply(s, steps[0]), steps[1..]); }
    }
  }

  lemma {:induction false} StaysStopped(s: Pool, steps: seq<Step>)
    requires IsRun(s, steps) && s.stop != NotCalled
    ensures Final(s, steps).stop != NotCalled
    decreases |steps|
  {
    if steps != [] {
      StepRecords(s, steps[0]);
      StaysStopped(Apply(s, steps[0]), steps[1..]);
    }
  }

  /** In every interleaving the handles that were resumed are, in order and each once, the first of those that were
      scheduled, the others are in the queue; when all workers have exited, only what was pushed behind them is left. */
  lemma ScheduledAreResumed(concurrency: nat, steps: seq<Step>)
    requires IsRun(Start(concurrency), steps)
    ensures var s := Final(Start(concurrency), steps);
      && |s.workers| == (if concurrency == 0 then 4 else concurrency)
      && s.resumed + s.jobs == Scheduled(steps) && s.numJobs == Balance(steps) >= 0
      && (AllExited(s) ==> s.resumed + s.late == Scheduled(steps)) && (s.stop == NotCalled <==> Exchange !in steps)
  {
    RunRecords(Start(concurrency), steps);
    RunStops(Start(concurrency), steps);
    Reachable(concurrency, steps);
    assert [] + Scheduled(steps) == Scheduled(steps);
  }
}
