/**
  The ends of the I/O stack: `io::reader` and `io::writer` as objects over a byte sequence.

  A byte is a `char` of the same code. How much a call moves and whether it fails is fixed in advance by a plan
  of replies, so that a statement for every plan covers every pattern of short counts and errors; a spent plan
  stands for a closed peer. Every run that ends makes finitely many calls and is therefore covered.
 */
module Streams {
  import opened Text

  /** `std::error_condition`; `NoError` is the one that converts to false. */
  datatype Error = NoError | Closed | IllegalBytes | BadNumber | NumberTooLarge | ValueTooLarge | Other(code: nat)

  /** Moves at most `limit` bytes and reports `err`. */
  datatype Reply = Reply(limit: nat, err: Error)

  function Min(a: int, b: int): int {
    if a <= b then a else b
  }

  /** `before` with `got` written over it from `lo` on. */
  function Put(before: string, lo: nat, got: string): (after: string)
    requires lo + |got| <= |before|
    ensures |after| == |before| && after[lo..lo + |got|] == got
  {
    before[..lo] + got + before[lo + |got|..]
  }

  lemma PutNothing(before: string, lo: nat)
    requires lo <= |before|
    ensures Put(before, lo, "") == before
  {
  }

  /** Two writes side by side are one. */
  lemma PutTwice(before: string, lo: nat, a: string, b: string)
    requires lo + |a| + |b| <= |before|
    ensures Put(Put(before, lo, a), lo + |a|, b) == Put(before, lo, a + b)
  {
    var first := Put(before, lo, a);
    assert first[..lo + |a|] == before[..lo] + a;
    assert first[lo + |a| + |b|..] == before[lo + |a| + |b|..];
  }

  /** What is taken off a stream in two goes. */
  lemma TakeTwice(a: string, b: string, r0: string, r1: string, r2: string)
    requires a + r1 == r0 && b + r2 == r1
    ensures a + b + r2 == r0
  {
  }

  /** Every reply of a plan is without error and allows at least `least` bytes. */
  ghost predicate AtLeast(plan: seq<Reply>, least: nat) {
    forall i :: 0 <= i < |plan| ==> plan[i].limit >= least && plan[i].err == NoError
  }

  /** How many bytes are left whenever a source is asked for several and gives a single one, although there are more. It
      is asked for `capacity` bytes each time. */
  function LoneReads(left: nat, plan: seq<Reply>, capacity: nat): (lone: set<nat>)
    ensures forall r :: r in lone ==> 1 < r <= left
    decreases |plan|
  {
    if plan == [] then {}
    else
      var later := LoneReads(left - Min(Min(plan[0].limit, capacity), left), plan[1..], capacity);
      if plan[0].limit == 1 && 1 < capacity && 1 < left then {left} + later else later
  }

  /** The two agree up to `left`. */
  ghost predicate Kept(before: set<nat>, after: set<nat>, left: int) {
    forall r: nat :: r <= left ==> (r in before <==> r in after)
  }

  lemma KeptTwice(a: set<nat>, b: set<nat>, c: set<nat>, m: int, n: int)
    requires Kept(a, b, m) && Kept(b, c, n) && n <= m
    ensures Kept(a, c, n)
  {
  }

  /** A read that delivers something changes nothing for what is left behind its first byte. */
  lemma LoneStep(left: nat, plan: seq<Reply>, capacity: nat, count: nat)
    requires plan != [] && count == Min(Min(plan[0].limit, capacity), left) && (left > 0 ==> count > 0)
    ensures var before, after := LoneReads(left, plan, capacity), LoneReads(left - count, plan[1..], capacity);
      Kept(before, after, left - 1) && Kept(before, after, left - count)
  {
  }

  /** A source that gives two bytes whenever it is asked for several never gives a single one. */
  lemma NoLone(left: nat, plan: seq<Reply>, capacity: nat)
    requires capacity <= 1 || AtLeast(plan, 2)
    ensures LoneReads(left, plan, capacity) == {}
    decreases |plan|
  {
  }

  /** The unread suffix of what a peer sends. */
  class Source {
    var unread: string
    var plan: seq<Reply>

    constructor (content: string, replies: seq<Reply>)
      ensures unread == content && plan == replies
    {
      unread, plan := content, replies;
    }

    /** Reads into `data[lo..hi]`: `got` comes off the front of `unread`, and nothing else is written. */
    method Read(data: array<char>, lo: nat, hi: nat) returns (count: nat, err: Error, ghost got: string)
      requires lo <= hi <= data.Length
      modifies this, data
      ensures count == |got| == (if old(plan) == [] then 0 else Min(Min(old(plan[0].limit), hi - lo), |old(unread)|))
      ensures err == (if old(plan) == [] then Closed else old(plan[0].err))
      ensures plan == if old(plan) == [] then [] else old(plan[1..])
      ensures got + unread == old(unread) && data[..] == Put(old(data[..]), lo, got)
      ensures old(Steady()) && lo < hi ==> Steady()
      ensures old(Steady()) && lo < hi && old(unread) != "" ==> err == NoError && count > 0
      ensures old(Steady()) && lo < hi ==>
        Kept(old(Lone(hi - lo)), Lone(hi - lo), |old(unread)| - 1) && Kept(old(Lone(hi - lo)), Lone(hi - lo), |unread|)
    {
      if plan == [] {
        got := "";
        PutNothing(data[..], lo);
        return 0, Closed, got;
      }
      count, err := Min(Min(plan[0].limit, hi - lo), |unread|), plan[0].err;
      got := unread[..count];
      if Steady() && lo < hi { LoneStep(|unread|, plan, hi - lo, count); }
      forall i | 0 <= i < count { data[lo + i] := unread[i]; }
      unread := unread[count..];
      plan := plan[1..];
    }

    /** How much there will be left whenever it gives a single byte of several, if it is asked for `size` each time. */
    ghost function Lone(size: nat): set<nat>
      reads this
    {
      LoneReads(|unread|, plan, size)
    }

    /** Until the content is exhausted every read delivers something, without error. */
    ghost predicate Steady()
      reads this
    {
      |unread| <= |plan| && AtLeast(plan, 1)
    }
  }

  /** `n` calls used up plan `before` as far as `after`; the last one reported `err`, and none before it an error.
      Behind its plan an endless sink reports no error, any other `Closed`. */
  ghost predicate Spent(before: seq<Reply>, after: seq<Reply>, endless: bool, n: nat, err: Error) {
    && after == before[Min(n, |before|)..]
    && if err == NoError then AllWell(before, Min(n, |before|)) && (n > |before| ==> endless)
       else if n <= |before| then n > 0 && before[n - 1].err == err && AllWell(before, n - 1)
       else n == |before| + 1 && !endless && err == Closed && AllWell(before, |before|)
  }

  ghost predicate AllWell(plan: seq<Reply>, n: nat)
    requires n <= |plan|
  {
    forall i :: 0 <= i < n ==> plan[i].err == NoError
  }

  /** `Spent`, folded. */
  ghost predicate Uses(before: seq<Reply>, after: seq<Reply>, endless: bool, n: nat, err: Error) {
    forall k: nat {:trigger Look(k)} :: k == 9 && Look(k) ==> Spent(before, after, endless, n, err)
  }

  lemma UsesNothing(plan: seq<Reply>, endless: bool)
    ensures Uses(plan, plan, endless, 0, NoError)
  {
  }

  lemma UsesOne(plan: seq<Reply>, endless: bool)
    ensures plan != [] ==> Uses(plan, plan[1..], endless, 1, plan[0].err)
    ensures plan == [] ==> Uses(plan, plan, endless, 1, if endless then NoError else Closed)
  {
  }

  lemma UsesTwice(a: seq<Reply>, b: seq<Reply>, c: seq<Reply>, endless: bool, m: nat, n: nat, err: Error)
    requires Uses(a, b, endless, m, NoError) && Uses(b, c, endless, n, err)
    ensures Uses(a, c, endless, m + n, err)
  {
    assert Look(9);
    SpentTwice(a, b, c, endless, m, n, err);
  }

  lemma SpentTwice(a: seq<Reply>, b: seq<Reply>, c: seq<Reply>, endless: bool, m: nat, n: nat, err: Error)
    requires Spent(a, b, endless, m, NoError) && Spent(b, c, endless, n, err)
    ensures Spent(a, c, endless, m + n, err)
  {
    if m <= |a| {
      DropTwice(a, m, Min(n, |b|));
      if err == NoError || n > |b| { WellTwice(a, b, m, Min(n, |b|)); } else { BadLater(a, b, m, n); }
    }
  }

  lemma DropTwice(a: seq<Reply>, m: nat, k: nat)
    requires m + k <= |a|
    ensures a[m..][k..] == a[m + k..]
  {
  }

  lemma BadLater(a: seq<Reply>, b: seq<Reply>, m: nat, n: nat)
    requires m <= |a| && b == a[m..] && 0 < n <= |b| && AllWell(a, m) && AllWell(b, n - 1)
    ensures a[m + n - 1] == b[n - 1] && AllWell(a, m + n - 1)
  {
    WellTwice(a, b, m, n - 1);
  }

  /** The first reply that reports an error, or the number of replies. */
  function FirstBad(plan: seq<Reply>): (f: nat)
    ensures f <= |plan| && AllWell(plan, f) && (f < |plan| ==> plan[f].err != NoError)
  {
    if plan == [] || plan[0].err != NoError then 0
    else
      var f := 1 + FirstBad(plan[1..]);
      assert forall i :: 1 <= i < f ==> plan[i] == plan[1..][i - 1];
      f
  }

  /** Calls succeed up to the first reply with an error. */
  lemma SpentUpTo(plan: seq<Reply>, after: seq<Reply>, endless: bool, n: nat, err: Error)
    requires Spent(plan, after, endless, n, err)
    ensures var f := FirstBad(plan);
      if err == NoError then n <= f || (endless && f == |plan|)
      else n == f + 1 && (f == |plan| ==> !endless) && err == if f < |plan| then plan[f].err else Closed
  {
  }

  lemma WellTwice(a: seq<Reply>, b: seq<Reply>, m: nat, n: nat)
    requires m <= |a| && b == a[m..] && n <= |b| && AllWell(a, m)
    ensures AllWell(b, n) ==> AllWell(a, m + n)
  {
    if AllWell(b, n) {
      forall i | 0 <= i < m + n
        ensures a[i].err == NoError
      {
        if i >= m { assert b[i - m] == a[i]; }
      }
    }
  }

  /** What has been written to a peer. Calls answer as planned; behind the plan they all succeed or all fail. */
  class Sink {
    var written: string
    var plan: seq<Reply>
    const whole: bool    // a call without error writes everything, as a socket does
    const endless: bool
    ghost var calls: nat

    constructor (replies: seq<Reply>, whole: bool, endless: bool)
      ensures written == "" && plan == replies && this.whole == whole && this.endless == endless && calls == 0
    {
      written, plan, calls := "", replies, 0;
      this.whole, this.endless := whole, endless;
    }

    function Accepted(plan: seq<Reply>, size: nat): nat {
      if plan == [] then (if endless then size else 0)
      else if whole && plan[0].err == NoError then size
      else Min(plan[0].limit, size)
    }

    function Reported(plan: seq<Reply>): Error {
      if plan != [] then plan[0].err else if endless then NoError else Closed
    }

    /** No call ever fails. */
    ghost predicate Reliable()
      reads this
    {
      endless && forall i :: 0 <= i < |plan| ==> plan[i].err == NoError
    }

    method Write(data: string) returns (count: nat, err: Error)
      modifies this
      ensures count == Accepted(old(plan), |data|) && err == Reported(old(plan))
      ensures plan == if old(plan) == [] then [] else old(plan[1..])
      ensures written == old(written) + data[..count]
      ensures old(Reliable()) ==> err == NoError && Reliable()
      ensures calls == old(calls) + 1 && Uses(old(plan), plan, endless, 1, err)
    {
      UsesOne(plan, endless);
      count, err := Accepted(plan, |data|), Reported(plan);
      written := written + data[..count];
      if plan != [] { plan := plan[1..]; }
      calls := calls + 1;
    }
  }

  const CRLF := "\r\n"

  /** Writes `part`, of a message that goes on with `after`: until an error the sink holds a prefix of `goal`. */
  method Send(sink: Sink, part: string, ghost after: string, ghost goal: string) returns (count: nat, err: Error)
    requires sink.whole && sink.written + (part + after) == goal
    modifies sink
    ensures err == NoError ==> sink.written == old(sink.written) + part && count == |part|
    ensures err == NoError ==> sink.written + after == goal
    ensures sink.written <= goal && count <= |part|
    ensures old(sink.Reliable()) ==> err == NoError && sink.Reliable()
  {
    count, err := sink.Write(part);
    assert part == part[..count] + part[count..];
    assert goal == old(sink.written) + part[..count] + (part[count..] + after);
    assert err == NoError ==> part[..count] == part;
  }
}
