/**
  `util::resource_pool` of `include/util/resource_pool.hpp`, as a transition system.

  Every member function holds `mu` for its whole body, except while it waits; so one step is one critical section:
  a call up to its return or its wait, or what a woken waiter does when it gets the lock back. A run is any
  interleaving of such steps of any number of threads, with spurious wakeups.
 */
module ResourcePool {
  import opened Collections
  import opened Counting

  /** Where a thread is: outside `get`, waiting in it, or notified but not yet running again. */
  datatype Thread = Outside | Blocked | Woken

  /** A resource is named by the number of the `make` call that created it. */
  datatype Pool = Pool(
    targetSize: nat, maxSize: nat,
    idle: seq<nat>, numWaiting: int, numBorrowed: int,
    handles: seq<nat>,      // the resources of the live `borrowed_resource` handles
    threads: seq<Thread>,
    made: nat)

  function Start(targetSize: nat, maxSize: nat, threads: nat): Pool {
    Pool(targetSize, maxSize, [], 0, 0, [], seq(threads, i => Outside), 0)
  }

  datatype Step =
    | GetIdle(t: nat)           // `get` finds an idle resource
    | GetMade(t: nat)           // `get` makes a resource
    | GetThrows(t: nat)         // `get` counts a resource and then `make` throws
    | GetWaits(t: nat)          // `get` waits
    | Spurious(t: nat)          // a waiter wakes up without being notified
    | Resumes(t: nat)           // a woken waiter gets the lock and tests its condition
    | TryGet(t: nat)
    | Put(h: nat, w: nat)       // a handle is destroyed; `w` is the waiter that is notified, if there is one
    | Overwrite(h: nat)         // live handle `h` is assigned from another one, live or moved from: no `put`

  predicate IsBlocked(t: Thread) { t == Blocked }
  predicate IsWoken(t: Thread) { t == Woken }

  function Last(s: seq<nat>): nat
    requires s != []
  {
    s[|s| - 1]
  }

  function Front(s: seq<nat>): seq<nat>
    requires s != []
  {
    s[..|s| - 1]
  }

  /** Takes the resource at the back of the idle ones. */
  function Borrow(s: Pool): Pool
    requires s.idle != []
  {
    s.(idle := Front(s.idle), numBorrowed := s.numBorrowed + 1, handles := s.handles + [Last(s.idle)])
  }

  predicate At(s: Pool, t: nat, state: Thread) {
    t < |s.threads| && s.threads[t] == state
  }

  predicate Enabled(s: Pool, step: Step) {
    match step
    case GetIdle(t) => At(s, t, Outside) && s.idle != []
    case GetMade(t) => At(s, t, Outside) && s.idle == [] && s.numBorrowed < s.maxSize
    case GetThrows(t) => At(s, t, Outside) && s.idle == [] && s.numBorrowed < s.maxSize
    case GetWaits(t) => At(s, t, Outside) && s.idle == [] && s.numBorrowed >= s.maxSize
    case Spurious(t) => At(s, t, Blocked)
    case Resumes(t) => At(s, t, Woken)
    case TryGet(t) => At(s, t, Outside)
    case Put(h, w) => h < |s.handles| && (Count(s.threads, IsBlocked) > 0 ==> At(s, w, Blocked))
    case Overwrite(h) => h < |s.handles|
  }

  /** `put` keeps the resource unless there are enough idle ones and nobody waits. */
  predicate Keeps(s: Pool) {
    |s.idle| < s.targetSize || s.numWaiting != 0
  }

  function Notify(s: Pool, w: nat): Pool {
    if At(s, w, Blocked) then s.(threads := s.threads[w := Woken]) else s
  }

  function Apply(s: Pool, step: Step): Pool
    requires Enabled(s, step)
  {
    match step
    case GetIdle(_) => Borrow(s)
    case GetMade(_) => s.(numBorrowed := s.numBorrowed + 1, handles := s.handles + [s.made], made := s.made + 1)
    case GetThrows(_) => s.(numBorrowed := s.numBorrowed + 1)
    case GetWaits(t) => s.(numWaiting := s.numWaiting + 1, threads := s.threads[t := Blocked])
    case Spurious(t) => s.(threads := s.threads[t := Woken])
    case Resumes(t) =>
      if s.idle == [] then s.(threads := s.threads[t := Blocked])
      else Borrow(s.(numWaiting := s.numWaiting - 1, threads := s.threads[t := Outside]))
    case TryGet(_) => if s.idle == [] then s else Borrow(s)
    case Put(h, w) =>
      var s' := s.(numBorrowed := s.numBorrowed - 1, handles := Without(s.handles, h));
      if Keeps(s) then Notify(s'.(idle := s.idle + [s.handles[h]]), w) else s'
    case Overwrite(h) => s.(handles := Without(s.handles, h))
  }

  ghost predicate IsRun(s: Pool, steps: seq<Step>)
    decreases |steps|
  {
    steps == [] || (Enabled(s, steps[0]) && IsRun(Apply(s, steps[0]), steps[1..]))
  }

  function Final(s: Pool, steps: seq<Step>): Pool
    requires IsRun(s, steps)
    decreases |steps|
  {
    if steps == [] then s else Final(Apply(s, steps[0]), steps[1..])
  }

  // ---------------------------------------------------------------- what every step keeps

  /** Steps that count a resource as borrowed although no handle holds it. */
  predicate Leaks(step: Step) {
    step.GetThrows? || step.Overwrite?
  }

  ghost function Owned(s: Pool): multiset<nat> {
    multiset(s.idle) + multiset(s.handles)
  }

  /** No resource is idle and borrowed at once, held twice, or held before it was made. */
  ghost predicate Ownership(s: Pool) {
    forall r :: r in Owned(s) ==> Owned(s)[r] == 1 && r < s.made
  }

  ghost predicate Capacity(s: Pool, leaked: nat) {
    && s.numBorrowed == |s.handles| + leaked
    && |s.idle| + s.numBorrowed <= s.maxSize
  }

  ghost predicate Waiters(s: Pool) {
    && s.numWaiting == Count(s.threads, IsBlocked) + Count(s.threads, IsWoken)
    && (s.numWaiting > 0 ==> |s.idle| + s.numBorrowed == s.maxSize)
    && (Count(s.threads, IsBlocked) > 0 ==> |s.idle| <= Count(s.threads, IsWoken))
  }

  lemma Parts(s: seq<nat>, i: nat)
    requires i < |s|
    ensures multiset(s) == multiset(Without(s, i)) + multiset{s[i]} && |Without(s, i)| == |s| - 1
  {
    assert s == s[..i] + [s[i]] + s[i + 1..];
  }

  lemma BorrowOwned(s: Pool)
    requires s.idle != []
    ensures Owned(Borrow(s)) == Owned(s)
  {
    assert s.idle == Front(s.idle) + [Last(s.idle)];
  }

  lemma MadeOwned(s: Pool, step: Step)
    requires Enabled(s, step) && step.GetMade? && Ownership(s)
    ensures Ownership(Apply(s, step))
  {
    assert Owned(Apply(s, step)) == Owned(s) + multiset{s.made};
  }

  lemma SmallerOwned(s: Pool, s': Pool)
    requires Ownership(s) && Owned(s') <= Owned(s) && s'.made == s.made
    ensures Ownership(s')
  {
    forall r | r in Owned(s')
      ensures Owned(s')[r] == 1 && r < s'.made
    {
      assert r in Owned(s) && Owned(s')[r] <= Owned(s)[r];
    }
  }

  lemma PutOwned(s: Pool, step: Step)
    requires Enabled(s, step) && (step.Put? || step.Overwrite?)
    ensures Owned(Apply(s, step)) <= Owned(s)
  {
    Parts(s.handles, step.h);
    var s' := Apply(s, step);
    assert s'.handles == Without(s.handles, step.h);
    assert s'.idle == s.idle || s'.idle == s.idle + [s.handles[step.h]];
    if s'.idle != s.idle {
      assert multiset(s'.idle) == multiset(s.idle) + multiset{s.handles[step.h]};
    }
  }

  lemma StepOwned(s: Pool, step: Step)
    requires Enabled(s, step) && !step.GetMade?
    ensures Owned(Apply(s, step)) <= Owned(s)
  {
    match step
    case GetIdle(_) => BorrowOwned(s);
    case TryGet(_) => if s.idle != [] { BorrowOwned(s); }
    case Resumes(t) =>
      if s.idle != [] { BorrowOwned(s.(numWaiting := s.numWaiting - 1, threads := s.threads[t := Outside])); }
    case Put(_, _) => PutOwned(s, step);
    case Overwrite(_) => PutOwned(s, step);
    case _ =>
  }

  lemma StepOwnership(s: Pool, step: Step)
    requires Enabled(s, step) && Ownership(s)
    ensures Ownership(Apply(s, step))
  {
    if step.GetMade? {
      MadeOwned(s, step);
    } else {
      StepOwned(s, step);
      SmallerOwned(s, Apply(s, step));
    }
  }

  lemma StepCapacity(s: Pool, step: Step, leaked: nat)
    requires Enabled(s, step) && Capacity(s, leaked)
    ensures Capacity(Apply(s, step), leaked + One(Leaks(step)))
  {
  }

  lemma Switched(threads: seq<Thread>, t: nat, x: Thread)
    requires t < |threads|
    ensures var next := threads[t := x];
      && Count(next, IsBlocked) == Count(threads, IsBlocked) - One(IsBlocked(threads[t])) + One(IsBlocked(x))
      && Count(next, IsWoken) == Count(threads, IsWoken) - One(IsWoken(threads[t])) + One(IsWoken(x))
  {
    CountUpdate(threads, t, x, IsBlocked);
    CountUpdate(threads, t, x, IsWoken);
  }

  lemma SleepWaiters(s: Pool, step: Step, leaked: nat)
    requires Enabled(s, step) && (step.GetWaits? || step.Spurious?) && Capacity(s, leaked) && Waiters(s)
    ensures Waiters(Apply(s, step))
  {
    Switched(s.threads, step.t, if step.GetWaits? then Blocked else Woken);
  }

  lemma ResumeWaiters(s: Pool, step: Step, leaked: nat)
    requires Enabled(s, step) && step.Resumes? && Capacity(s, leaked) && Waiters(s)
    ensures Waiters(Apply(s, step))
  {
    Switched(s.threads, step.t, if s.idle == [] then Blocked else Outside);
  }

  lemma PutWaiters(s: Pool, step: Step, leaked: nat)
    requires Enabled(s, step) && step.Put? && Capacity(s, leaked) && Waiters(s)
    ensures Waiters(Apply(s, step))
  {
    if At(s, step.w, Blocked) { Switched(s.threads, step.w, Woken); }
  }

  lemma OtherWaiters(s: Pool, step: Step, leaked: nat)
    requires Enabled(s, step) && !step.GetWaits? && !step.Spurious? && !step.Resumes? && !step.Put?
    requires Capacity(s, leaked) && Waiters(s)
    ensures Waiters(Apply(s, step))
  {
  }

  lemma {:induction false} StepWaiters(s: Pool, step: Step, leaked: nat)
    requires Enabled(s, step) && Capacity(s, leaked) && Waiters(s)
    ensures Waiters(Apply(s, step))
  {
    match step
    case GetWaits(_) => SleepWaiters(s, step, leaked);
    case Spurious(_) => SleepWaiters(s, step, leaked);
    case Resumes(_) => ResumeWaiters(s, step, leaked);
    case Put(_, _) => PutWaiters(s, step, leaked);
    case _ => OtherWaiters(s, step, leaked);
  }

  function LeakCount(steps: seq<Step>): nat {
    if steps == [] then 0 else One(Leaks(steps[0])) + LeakCount(steps[1..])
  }

  ghost predicate Inv(s: Pool, leaked: nat) {
    Ownership(s) && Capacity(s, leaked) && Waiters(s)
  }

  lemma {:induction false} RunKeeps(s: Pool, steps: seq<Step>, leaked: nat)
    requires IsRun(s, steps) && Inv(s, leaked)
    ensures Inv(Final(s, steps), leaked + LeakCount(steps))
    decreases |steps|
  {
    if steps == [] {
    } else {
      StepOwnership(s, steps[0]);
      StepCapacity(s, steps[0], leaked);
      StepWaiters(s, steps[0], leaked);
      RunKeeps(Apply(s, steps[0]), steps[1..], leaked + One(Leaks(steps[0])));
    }
  }

  lemma StartInv(targetSize: nat, maxSize: nat, threads: nat)
    ensures Inv(Start(targetSize, maxSize, threads), 0)
  {
    CountZero(Start(targetSize, maxSize, threads).threads, IsBlocked);
    CountZero(Start(targetSize, maxSize, threads).threads, IsWoken);
  }

  // ---------------------------------------------------------------- what holds in every run

  /** In every reachable state the invariants hold; `num_borrowed` is the number of live handles
      exactly when no `make` has thrown and no live handle has been assigned over. */
  lemma Reachable(targetSize: nat, maxSize: nat, threads: nat, steps: seq<Step>)
    requires IsRun(Start(targetSize, maxSize, threads), steps)
    ensures var s := Final(Start(targetSize, maxSize, threads), steps);
      && Inv(s, LeakCount(steps)) && 0 <= s.numBorrowed
      && (s.numBorrowed == |s.handles| <==> forall i :: 0 <= i < |steps| ==> !Leaks(steps[i]))
  {
    StartInv(targetSize, maxSize, threads);
    RunKeeps(Start(targetSize, maxSize, threads), steps, 0);
    LeakFree(steps);
  }

  lemma {:induction false} LeakFree(steps: seq<Step>)
    ensures LeakCount(steps) == 0 <==> forall i :: 0 <= i < |steps| ==> !Leaks(steps[i])
  {
    if steps == [] {
    } else {
      LeakFree(steps[1..]);
      assert forall i :: 1 <= i < |steps| ==> steps[i] == steps[1..][i - 1];
    }
  }

  /** No lost wakeup: when every notified waiter has run and somebody still waits,
      nothing is idle and the limit is exhausted. */
  lemma NoLostWakeup(targetSize: nat, maxSize: nat, threads: nat, steps: seq<Step>, t: nat)
    requires IsRun(Start(targetSize, maxSize, threads), steps)
    ensures var s := Final(Start(targetSize, maxSize, threads), steps);
      At(s, t, Blocked) && Count(s.threads, IsWoken) == 0 ==>
        s.idle == [] && |s.handles| + LeakCount(steps) == maxSize
  {
    Reachable(targetSize, maxSize, threads, steps);
    var s := Final(Start(targetSize, maxSize, threads), steps);
    SizesKept(Start(targetSize, maxSize, threads), steps);
    CountZero(s.threads, IsBlocked);
  }

  lemma {:induction false} SizesKept(s: Pool, steps: seq<Step>)
    requires IsRun(s, steps)
    ensures Final(s, steps).maxSize == s.maxSize && Final(s, steps).targetSize == s.targetSize
    decreases |steps|
  {
    if steps == [] {
    } else {
      SizesKept(Apply(s, steps[0]), steps[1..]);
    }
  }

  /** A resource that is returned while somebody waits is never dropped: the waiter that is notified gets
      this very resource if it runs next, and the other idle ones stay. */
  lemma PutServesWaiters(s: Pool, h: nat, w: nat, leaked: nat)
    requires Inv(s, leaked) && Enabled(s, Put(h, w)) && At(s, w, Blocked)
    ensures var s1 := Apply(s, Put(h, w));
      && s1.idle == s.idle + [s.handles[h]] && Enabled(s1, Resumes(w))
      && var s2 := Apply(s1, Resumes(w));
         && s2.idle == s.idle && s2.handles == Without(s.handles, h) + [s.handles[h]] && At(s2, w, Outside)
         && s2.numBorrowed == s.numBorrowed && s2.numWaiting == s.numWaiting - 1
  {
    CountZero(s.threads, IsBlocked);
    assert IsBlocked(s.threads[w]);
    assert Front(s.idle + [s.handles[h]]) == s.idle;
  }

  /** From any state: once every handle that still counts was assigned over, nothing is ever idle again,
      and a `get` waits for a notification that no step can send. */
  lemma {:induction false} LeaksStarve(s: Pool, steps: seq<Step>, leaked: nat)
    requires IsRun(s, steps) && Inv(s, leaked) && leaked == s.maxSize
    ensures var s' := Final(s, steps); s'.handles == [] && s'.idle == [] && s'.made == s.made
    ensures forall i :: 0 <= i < |steps| ==> steps[i].GetWaits? || steps[i].Spurious? || steps[i].Resumes? || steps[i].TryGet?
    decreases |steps|
  {
    if steps == [] {
    } else {
      StepOwnership(s, steps[0]);
      StepCapacity(s, steps[0], leaked);
      StepWaiters(s, steps[0], leaked);
      LeaksStarve(Apply(s, steps[0]), steps[1..], leaked);
      assert forall i :: 1 <= i < |steps| ==> steps[i] == steps[1..][i - 1];
    }
  }

  /** Such a state is reachable in every pool: `make` has to throw as often as there are slots. */
  lemma StarvationIsReachable(targetSize: nat, maxSize: nat, threads: nat) returns (steps: seq<Step>)
    requires threads > 0
    ensures var s := Start(targetSize, maxSize, threads);
      IsRun(s, steps) && LeakCount(steps) == maxSize && Inv(Final(s, steps), maxSize) && Final(s, steps).maxSize == maxSize
  {
    var s := Start(targetSize, maxSize, threads);
    steps := ThrowAll(s, maxSize);
    Reachable(targetSize, maxSize, threads, steps);
    SizesKept(s, steps);
  }

  lemma {:induction false} ThrowAll(s: Pool, k: nat) returns (steps: seq<Step>)
    requires At(s, 0, Outside) && s.idle == [] && s.numBorrowed + k == s.maxSize
    ensures IsRun(s, steps) && LeakCount(steps) == k
    decreases k
  {
    steps := [];
    if k == 0 {
    } else {
      var rest := ThrowAll(Apply(s, GetThrows(0)), k - 1);
      steps := [GetThrows(0)] + rest;
      assert steps[1..] == rest;
    }
  }
}
