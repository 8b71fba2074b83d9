/** What the resource pool does with the resources that are returned, and which resource a caller gets. */
module ResourcePoolLaws {
  import opened Collections
  import opened Counting
  import opened ResourcePool

  /** The threads that wait are those counted as waiting. */
  lemma NobodyWaits(s: Pool, w: nat)
    requires Waiters(s) && s.numWaiting == 0
    ensures !At(s, w, Blocked) && !At(s, w, Woken)
  {
    CountZero(s.threads, IsBlocked);
    CountZero(s.threads, IsWoken);
    if w < |s.threads| { assert IsBlocked(s.threads[w]) || IsWoken(s.threads[w]) || s.threads[w] == Outside; }
  }

  /** With nobody waiting, a returned resource becomes the last idle one if fewer than the target size were idle, and
      is dropped otherwise. */
  lemma PutExactly(s: Pool, h: nat, w: nat, leaked: nat)
    requires Inv(s, leaked) && Enabled(s, Put(h, w)) && s.numWaiting == 0
    ensures var s' := Apply(s, Put(h, w));
      && s'.idle == (if |s.idle| < s.targetSize then s.idle + [s.handles[h]] else s.idle)
      && s'.handles == s.handles[..h] + s.handles[h + 1..] && s'.made == s.made && s'.numWaiting == 0
      && s'.threads == s.threads && s'.numBorrowed == s.numBorrowed - 1
  {
    NobodyWaits(s, w);
  }

  /** With somebody waiting it is kept, whatever the target size is. */
  lemma PutForWaiters(s: Pool, h: nat, w: nat)
    requires Enabled(s, Put(h, w)) && s.numWaiting != 0
    ensures Apply(s, Put(h, w)).idle == s.idle + [s.handles[h]]
  {
  }

  /** What a call does at a thread that is in no call: it takes the last idle resource if there is one; otherwise it makes
      one if the limit allows, and waits if not. No other resource is touched. */
  lemma GetExactly(s: Pool, t: nat)
    requires At(s, t, Outside)
    ensures Enabled(s, GetIdle(t)) <==> s.idle != []
    ensures Enabled(s, GetMade(t)) <==> s.idle == [] && s.numBorrowed < s.maxSize
    ensures Enabled(s, GetWaits(t)) <==> s.idle == [] && s.numBorrowed >= s.maxSize
    ensures s.idle != [] ==> Takes(s, Apply(s, GetIdle(t)))
    ensures s.idle == [] && s.numBorrowed < s.maxSize ==>
      var s' := Apply(s, GetMade(t)); s'.handles == s.handles + [s.made] && s'.made == s.made + 1 && s'.idle == []
  {
  }

  /** The last idle resource has been borrowed. */
  predicate Takes(s: Pool, s': Pool)
    requires s.idle != []
  {
    && s'.idle + [s.idle[|s.idle| - 1]] == s.idle && s'.handles == s.handles + [s.idle[|s.idle| - 1]]
    && s'.made == s.made && s'.numBorrowed == s.numBorrowed + 1
  }

  /** `try_get` borrows the last idle resource if there is one, and changes nothing otherwise. */
  lemma TryGetExactly(s: Pool, t: nat)
    requires Enabled(s, TryGet(t))
    ensures if s.idle != [] then Takes(s, Apply(s, TryGet(t))) else Apply(s, TryGet(t)) == s
  {
  }

  /** A waiter that gets the lock takes the last idle resource and stops waiting, or waits on. */
  lemma ResumesExactly(s: Pool, t: nat)
    requires Enabled(s, Resumes(t))
    ensures var s' := Apply(s, Resumes(t));
      if s.idle != [] then Takes(s, s') && At(s', t, Outside) && s'.numWaiting == s.numWaiting - 1
      else s' == s.(threads := s.threads[t := Blocked])
  {
  }

  /** A resource that was kept is the next to be borrowed, and none is made. */
  lemma KeptIsNext(s: Pool, h: nat, w: nat, t: nat, leaked: nat)
    requires Inv(s, leaked) && Enabled(s, Put(h, w)) && s.numWaiting == 0 && |s.idle| < s.targetSize && At(s, t, Outside)
    ensures var s1 := Apply(s, Put(h, w));
      && Enabled(s1, GetIdle(t)) && Enabled(s1, TryGet(t)) && !Enabled(s1, GetMade(t))
      && (forall s2 :: s2 in {Apply(s1, GetIdle(t)), Apply(s1, TryGet(t))} ==>
            s2.idle == s.idle && s2.made == s.made && s2.handles == s1.handles + [s.handles[h]])
  {
    PutExactly(s, h, w, leaked);
    assert Front(s.idle + [s.handles[h]]) == s.idle;
  }

  /** Only a `get` that finds nothing idle makes a resource. */
  lemma MadeExactly(s: Pool, step: Step)
    requires Enabled(s, step)
    ensures Apply(s, step).made == s.made + (if step.GetMade? then 1 else 0)
    ensures step.GetMade? ==> s.idle == [] && s.numBorrowed < s.maxSize
  {
  }

  /** Over a run in which nobody has to wait, no more resources are idle than the target size. */
  lemma {:induction false} IdleBounded(s: Pool, steps: seq<Step>, leaked: nat)
    requires IsRun(s, steps) && Inv(s, leaked) && s.numWaiting == 0 && |s.idle| <= s.targetSize
    requires forall i :: 0 <= i < |steps| ==> !steps[i].GetWaits?
    ensures Final(s, steps).numWaiting == 0 && |Final(s, steps).idle| <= s.targetSize
    decreases |steps|
  {
    if steps == [] {
    } else {
      var step := steps[0];
      StepOwnership(s, step);
      StepCapacity(s, step, leaked);
      StepWaiters(s, step, leaked);
      NoWaitStep(s, step, leaked);
      assert forall i :: 0 <= i < |steps[1..]| ==> steps[1..][i] == steps[i + 1];
      IdleBounded(Apply(s, step), steps[1..], leaked + One(Leaks(step)));
    }
  }

  lemma NoWaitStep(s: Pool, step: Step, leaked: nat)
    requires Enabled(s, step) && Inv(s, leaked) && s.numWaiting == 0 && |s.idle| <= s.targetSize && !step.GetWaits?
    ensures var s' := Apply(s, step); s'.numWaiting == 0 && |s'.idle| <= s.targetSize == s'.targetSize
  {
    match step
    case Put(h, w) => PutExactly(s, h, w, leaked);
    case Spurious(t) => NobodyWaits(s, t);
    case Resumes(t) => NobodyWaits(s, t);
    case _ =>
  }

  /** The same from a new pool. */
  lemma IdleWithinTarget(targetSize: nat, maxSize: nat, threads: nat, steps: seq<Step>)
    requires IsRun(Start(targetSize, maxSize, threads), steps) && forall i :: 0 <= i < |steps| ==> !steps[i].GetWaits?
    ensures |Final(Start(targetSize, maxSize, threads), steps).idle| <= targetSize
  {
    StartInv(targetSize, maxSize, threads);
    IdleBounded(Start(targetSize, maxSize, threads), steps, 0);
  }
}
