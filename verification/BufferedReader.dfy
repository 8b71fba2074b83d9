/** `io::buffered_reader` of `src/io/buffered_reader.cpp`. */
module BufferedReading {
  import opened Text
  import opened Streams

  class BufferedReader {
    const impl: Source
    const capacity: nat
    var buf: string
    var err: Error

    constructor (impl: Source, capacity: nat)
      ensures Valid() && this.impl == impl && this.capacity == capacity && buf == ""
    {
      this.impl, this.capacity := impl, capacity;
      buf, err := "", NoError;
    }

    ghost predicate Valid()
      reads this
    {
      |buf| <= capacity
    }

    /** What the reader has yet to deliver: the buffered bytes and then the unread ones. */
    ghost function Remaining(): string
      reads this, impl
    {
      buf + impl.unread
    }

    ghost predicate Steady()
      reads this, impl
    {
      capacity > 0 && impl.Steady()
    }

    /** What one read of the source puts into the empty buffer. */
    ghost function OneFill(): nat
      reads this, impl
    {
      if impl.plan == [] then 0 else Min(Min(impl.plan[0].limit, capacity), |impl.unread|)
    }

    ghost function NextError(): Error
      reads this, impl
    {
      if impl.plan == [] then Closed else impl.plan[0].err
    }

    /** Every read of the source fills the buffer, as long as there is enough. */
    ghost predicate Ample()
      reads this, impl
    {
      Steady() && AtLeast(impl.plan, capacity)
    }

    /** How much there will be left whenever the source gives a single byte of several. */
    ghost function Lone(): set<nat>
      reads this, impl
    {
      impl.Lone(capacity)
    }

    /** `lone` and `Lone()` agree up to what is left; folded. */
    ghost predicate Tracks(lone: set<nat>)
      reads this, impl
    {
      forall k: nat {:trigger Look(k)} :: k == 13 && Look(k) ==> Kept(lone, Lone(), |Remaining()|)
    }

    lemma Tracked(lone: set<nat>)
      requires Tracks(lone)
      ensures Kept(lone, Lone(), |Remaining()|)
    {
      assert Look(13);
    }

    lemma StartTracking(lone: set<nat>)
      requires Kept(lone, Lone(), |Remaining()|)
      ensures Tracks(lone)
    {
    }

    twostate lemma TracksOn(lone: set<nat>)
      requires old(Tracks(lone)) && Kept(old(Lone()), Lone(), |Remaining()|) && |Remaining()| <= |old(Remaining())|
      ensures Tracks(lone)
    {
      assert Look(13);
      KeptTwice(lone, old(Lone()), Lone(), |old(Remaining())|, |Remaining()|);
    }

    /** Tops the buffer up with one read. */
    method Fill()
      requires Valid()
      modifies `buf, `err, impl
      ensures Valid() && Remaining() == old(Remaining()) && old(buf) <= buf
      ensures |impl.plan| <= |old(impl.plan)|
      ensures |old(buf)| < capacity && old(impl.plan) == [] ==> err == Closed
      ensures |old(buf)| < capacity ==> impl.plan == if old(impl.plan) == [] then [] else old(impl.plan[1..])
      ensures |old(buf)| < capacity && old(impl.plan) != [] ==> |impl.plan| < |old(impl.plan)|
      ensures old(buf) == "" && capacity > 0 ==> |buf| == old(OneFill()) && err == old(NextError())
      ensures old(Steady()) ==> Steady()
      ensures old(Steady()) && old(impl.unread) != "" && |old(buf)| < capacity ==> |buf| > |old(buf)| && err == NoError
      ensures old(Steady()) && old(buf) == "" ==> Kept(old(Lone()), Lone(), |Remaining()| - 1)
    {
      if |buf| == capacity { return; }
      var room := new char[capacity - |buf|];
      var count, e, got := impl.Read(room, 0, room.Length);
      assert room[..count] == room[..][0..count] == got;
      assert buf + got + impl.unread == buf + (got + impl.unread);
      buf := buf + room[..count];
      err := e;
    }

    /** The first byte that a read would deliver, if one can be had. */
    method Peek() returns (next: char, have: bool)
      requires Valid()
      modifies `buf, `err, impl
      ensures Valid() && Remaining() == old(Remaining())
      ensures have ==> buf != "" && next == buf[0] == old(Remaining())[0]
      ensures !have ==> next == 0 as char && buf == ""
      ensures |impl.plan| <= |old(impl.plan)|
      ensures !have && capacity > 0 ==> old(impl.plan) == [] || |impl.plan| < |old(impl.plan)|
      ensures old(Steady()) ==> Steady() && (have <==> old(Remaining()) != "")
      ensures old(Steady()) ==> Kept(old(Lone()), Lone(), |Remaining()| - 1)
    {
      if buf != "" { return buf[0], true; }
      Fill();
      if buf == "" { return 0 as char, false; }
      return buf[0], true;
    }

    /** Moves the first `n` buffered bytes to `data[lo..]` and shifts the others to the front. */
    method Take(data: array<char>, lo: nat, n: nat) returns (ghost got: string)
      requires Valid() && n <= |buf| && lo + n <= data.Length
      modifies `buf, data
      ensures Valid() && |got| == n && got + buf == old(buf) && got + Remaining() == old(Remaining())
      ensures data[..] == Put(old(data[..]), lo, got)
    {
      forall i | 0 <= i < n { data[lo + i] := buf[i]; }
      got := buf[..n];
      assert buf + impl.unread == got + (buf[n..] + impl.unread);
      buf := buf[n..];
    }

    /** One read past the empty buffer, behind `got`. */
    method BypassOnce(data: array<char>, lo: nat, total: nat, ghost got: string, ghost orig: string, ghost all: string)
      returns (count: nat, e: Error, ghost got': string)
      requires lo + total + capacity <= data.Length && total == |got|
      requires got + impl.unread == all && lo + total <= |orig| && data[..] == Put(orig, lo, got)
      modifies impl, data
      ensures count <= capacity && |got'| == total + count && got' + impl.unread == all
      ensures lo + |got'| <= |orig| && data[..] == Put(orig, lo, got')
      ensures count == (if old(impl.plan) == [] then 0 else Min(Min(old(impl.plan[0].limit), capacity), |old(impl.unread)|))
      ensures e == old(NextError()) && impl.plan == if old(impl.plan) == [] then [] else old(impl.plan[1..])
      ensures old(Steady()) ==> Steady() && (old(impl.unread) != "" ==> e == NoError && count > 0)
      ensures old(Steady()) ==> Kept(old(Lone()), Lone(), |impl.unread|)
    {
      ghost var was, more := impl.unread, "";
      count, e, more := impl.Read(data, lo + total, lo + total + capacity);
      PutTwice(orig, lo, got, more);
      TakeTwice(got, more, all, was, impl.unread);
      got' := got + more;
    }

    /** Reads past the empty buffer straight into `data`, in steps of the capacity, while more than that is missing. */
    method Bypass(data: array<char>, lo: nat, hi: nat) returns (total: nat, e: Error, ghost got: string)
      requires Valid() && buf == "" && lo <= hi <= data.Length
      modifies impl, data
      ensures total == |got| <= hi - lo && (e == NoError ==> hi - lo - total <= capacity)
      ensures hi - lo <= capacity ==> impl.plan == old(impl.plan)
      ensures got + impl.unread == old(impl.unread) && data[..] == Put(old(data[..]), lo, got)
      ensures |impl.plan| <= |old(impl.plan)|
      ensures hi - lo <= capacity ==> total == 0 && e == NoError
      ensures hi - lo > capacity && e == NoError ==> |impl.plan| < |old(impl.plan)|
      ensures e != NoError ==> total < hi - lo
      ensures old(Steady()) ==> Steady() && (e != NoError ==> impl.unread == "" && total < hi - lo)
      ensures old(Ample()) ==> Ample()
      ensures old(Steady()) ==> Kept(old(Lone()), Lone(), |impl.unread|)
      ensures old(Steady()) && hi - lo > capacity && old(impl.unread) != "" ==> total > 0
    {
      total, e, got := 0, NoError, "";
      ghost var orig, all, lone := data[..], impl.unread, Lone();
      PutNothing(orig, lo);
      assert "" + all == all;
      while hi - lo - total > capacity
        invariant total == |got| <= hi - lo && (total == 0 || hi - lo > capacity)
        invariant hi - lo <= capacity ==> impl.plan == old(impl.plan)
        invariant got + impl.unread == all && data[..] == Put(orig, lo, got)
        invariant |impl.plan| <= |old(impl.plan)| && (|impl.plan| < |old(impl.plan)| || total == 0)
        invariant old(Steady()) ==> Steady() && Kept(lone, Lone(), |impl.unread|)
        invariant old(Ample()) ==> Ample()
        invariant old(Steady()) && all != "" && |impl.plan| < |old(impl.plan)| ==> total > 0
        decreases |impl.plan|
      {
        ghost var was, left := Lone(), |impl.unread|;
        var count, err;
        count, err, got := BypassOnce(data, lo, total, got, orig, all);
        if old(Steady()) { KeptTwice(lone, was, Lone(), left, |impl.unread|); }
        total := total + count;
        if err != NoError { return total, err, got; }
      }
    }

    /** The last part, through the buffer: an error is reported only if it left the request unfulfilled. */
    method ReadRest(data: array<char>, lo: nat, hi: nat) returns (count: nat, e: Error, ghost got: string)
      requires Valid() && buf == "" && lo <= hi <= data.Length && hi - lo <= capacity
      modifies `buf, `err, impl, data
      ensures Valid() && count == |got| <= hi - lo
      ensures got + Remaining() == old(Remaining()) && data[..] == Put(old(data[..]), lo, got)
      ensures |impl.plan| <= |old(impl.plan)|
      ensures count < hi - lo && e == NoError ==> |impl.plan| < |old(impl.plan)|
      ensures count == hi - lo ==> e == NoError
      ensures lo < hi ==> count == Min(hi - lo, old(OneFill())) && (count < hi - lo ==> e == old(NextError()))
      ensures old(Steady()) ==> Steady()
      ensures old(Steady()) && lo < hi && old(impl.unread) != "" ==> count > 0
      ensures old(Steady()) && hi - lo <= |old(impl.unread)| ==> e == NoError
      ensures old(Ample()) ==> count == Min(hi - lo, |old(impl.unread)|)
      ensures old(Steady()) ==> Kept(old(Lone()), Lone(), |Remaining()|)
    {
      if lo == hi {
        got := "";
        PutNothing(data[..], lo);
        assert "" + Remaining() == Remaining();
        return 0, NoError, got;
      }
      Fill();
      count := Min(hi - lo, |buf|);
      got := Take(data, lo, count);
      e := if count < hi - lo then err else NoError;
    }

    /** `read` when the buffer is empty. */
    method ReadEmpty(data: array<char>, lo: nat, hi: nat) returns (count: nat, e: Error, ghost got: string)
      requires Valid() && buf == "" && lo < hi <= data.Length
      modifies `buf, `err, impl, data
      ensures Valid() && count == |got| <= hi - lo
      ensures got + Remaining() == old(Remaining()) && data[..] == Put(old(data[..]), lo, got)
      ensures |impl.plan| <= |old(impl.plan)|
      ensures count < hi - lo && e == NoError ==> |impl.plan| < |old(impl.plan)|
      ensures hi - lo <= capacity ==>
        count == Min(hi - lo, old(OneFill())) && e == if count < hi - lo then old(NextError()) else NoError
      ensures old(Steady()) ==> Steady()
      ensures old(Steady()) && hi - lo <= |old(impl.unread)| ==> e == NoError
      ensures old(Steady()) && old(impl.unread) != "" ==> count > 0
      ensures old(Ample()) ==> count == Min(hi - lo, |old(impl.unread)|)
      ensures count == hi - lo ==> e == NoError
      ensures old(Steady()) ==> Kept(old(Lone()), Lone(), |Remaining()|)
    {
      ghost var orig, r0, lone := data[..], Remaining(), Lone();
      count, e, got := Bypass(data, lo, hi);
      assert Remaining() == impl.unread;
      if e != NoError { return; }
      ghost var first, r1, mid := got, Remaining(), Lone();
      var more, failed, second := ReadRest(data, lo + count, hi);
      if old(Steady()) { KeptTwice(lone, mid, Lone(), |r1|, |Remaining()|); }
      PutTwice(orig, lo, first, second);
      TakeTwice(first, second, r0, r1, Remaining());
      count, e, got := count + more, failed, first + second;
    }

    /** `read`: what is delivered comes off the front of `Remaining()`, however the source behaves. */
    method Read(data: array<char>, lo: nat, hi: nat) returns (count: nat, e: Error, ghost got: string)
      requires Valid() && lo <= hi <= data.Length
      modifies `buf, `err, impl, data
      ensures Valid() && count == |got| <= hi - lo
      ensures got + Remaining() == old(Remaining()) && data[..] == Put(old(data[..]), lo, got)
      ensures |impl.plan| <= |old(impl.plan)|
      // what is in the buffer is delivered without asking the source
      ensures hi - lo <= |old(buf)| ==> count == hi - lo && e == NoError && impl.plan == old(impl.plan)
      ensures Min(hi - lo, |old(buf)|) <= count
      ensures count == 0 && e == NoError && lo < hi ==> |impl.plan| < |old(impl.plan)|
      // the source is asked only once for what the buffer can hold
      ensures hi - lo <= |old(buf)| + capacity ==>
        count == Min(hi - lo, |old(buf)| + old(OneFill())) && e == if count < hi - lo then old(NextError()) else NoError
      // over a steady source
      ensures old(Steady()) ==> Steady()
      ensures old(Steady()) && hi - lo <= |old(Remaining())| ==> e == NoError
      ensures old(Steady()) && lo < hi && old(Remaining()) != "" ==> count > 0
      ensures old(Ample()) ==> count == Min(hi - lo, |old(Remaining())|)
      ensures count == hi - lo ==> e == NoError
      ensures old(Steady()) ==> Kept(old(Lone()), Lone(), |Remaining()|)
    {
      ghost var orig, r0 := data[..], Remaining();
      count, e := Min(hi - lo, |buf|), NoError;
      got := Take(data, lo, count);
      if lo + count == hi { return; }
      ghost var first, r1 := got, Remaining();
      var more, failed, second := ReadEmpty(data, lo + count, hi);
      PutTwice(orig, lo, first, second);
      TakeTwice(first, second, r0, r1, Remaining());
      count, e, got := count + more, failed, first + second;
    }
  }

  datatype Op = Read(size: nat) | Peek

  /** What an operation gave its caller. */
  datatype Shown = Got(data: string, err: Error) | Saw(next: char, have: bool)

  /** What the reads among the operations delivered, one after the other. */
  function Delivered(shown: seq<Shown>): string {
    if shown == [] then ""
    else Delivered(shown[..|shown| - 1]) + (match shown[|shown| - 1] case Got(data, _) => data case Saw(_, _) => "")
  }

  function Last(shown: seq<Shown>): Shown
    requires shown != []
  {
    shown[|shown| - 1]
  }

  /** The operation before was a peek that saw a byte. */
  predicate JustSeen(prior: seq<Shown>) {
    prior != [] && Last(prior).Saw? && Last(prior).have
  }

  /** A read gives at most what it was asked for, and something if a peek has just seen a byte;
      a peek sees the first byte that is not delivered yet. */
  ghost predicate Agrees(content: string, op: Op, prior: seq<Shown>, s: Shown) {
    var n := |Delivered(prior)|;
    match op
    case Read(size) => s.Got? && |s.data| <= size && (JustSeen(prior) && size > 0 ==> s.data != "")
    case Peek => s.Saw? && (s.have ==> n < |content| && content[n] == s.next)
  }

  /** Over a steady source a read gives something and a peek sees something as long as there is something. */
  ghost predicate Prompt(content: string, op: Op, prior: seq<Shown>, s: Shown) {
    var n := |Delivered(prior)|;
    match op
    case Read(size) => s.Got? && (size > 0 && n < |content| ==> s.data != "") && (size <= |content| - n ==> s.err == NoError)
    case Peek => s.Saw? && (s.have <==> n < |content|)
  }

  method Perform(r: BufferedReader, op: Op, ghost content: string, ghost prior: seq<Shown>) returns (s: Shown)
    requires r.Valid() && Delivered(prior) + r.Remaining() == content && (JustSeen(prior) ==> r.buf != "")
    modifies r, r.impl
    ensures r.Valid() && Delivered(prior) + (if s.Got? then s.data else "") + r.Remaining() == content
    ensures Agrees(content, op, prior, s) && (s.Saw? && s.have ==> r.buf != "")
    ensures old(r.Steady()) ==> r.Steady() && Prompt(content, op, prior, s)
  {
    ghost var before := Delivered(prior);
    match op
    case Read(n) =>
      var data := new char[n];
      ghost var was := r.Remaining();
      var count, e, got := r.Read(data, 0, n);
      assert data[..count] == data[..][0..count] == got;
      TakeTwice(before, got, content, was, r.Remaining());
      s := Got(data[..count], e);
    case Peek =>
      var next, have := r.Peek();
      assert have ==> content[|before|] == r.Remaining()[0];
      s := Saw(next, have);
      assert before + "" == before;
  }

  ghost predicate AllAgree(content: string, ops: seq<Op>, shown: seq<Shown>)
    requires |shown| <= |ops|
  {
    forall k :: 0 <= k < |shown| ==> Agrees(content, ops[k], shown[..k], shown[k])
  }

  ghost predicate AllPrompt(content: string, ops: seq<Op>, shown: seq<Shown>)
    requires |shown| <= |ops|
  {
    forall k :: 0 <= k < |shown| ==> Prompt(content, ops[k], shown[..k], shown[k])
  }

  lemma DeliveredSnoc(shown: seq<Shown>, s: Shown)
    ensures Delivered(shown + [s]) == Delivered(shown) + (if s.Got? then s.data else "")
  {
    assert (shown + [s])[..|shown|] == shown;
  }

  lemma AgreeSnoc(content: string, ops: seq<Op>, shown: seq<Shown>, s: Shown)
    requires |shown| < |ops| && AllAgree(content, ops, shown) && Agrees(content, ops[|shown|], shown, s)
    ensures AllAgree(content, ops, shown + [s])
  {
    var n, more := |shown|, shown + [s];
    assert more[..n] == shown;
    assert forall k :: 0 <= k < n ==> more[..k] == shown[..k] && more[k] == shown[k];
  }

  lemma PromptSnoc(content: string, ops: seq<Op>, shown: seq<Shown>, s: Shown)
    requires |shown| < |ops| && AllPrompt(content, ops, shown) && Prompt(content, ops[|shown|], shown, s)
    ensures AllPrompt(content, ops, shown + [s])
  {
    var n, more := |shown|, shown + [s];
    assert more[..n] == shown;
    assert forall k :: 0 <= k < n ==> more[..k] == shown[..k] && more[k] == shown[k];
  }

  /** Any sequence of reads and peeks over any source, errors and short reads included: what the reads delivered, what
      is buffered and what is unread make up the content, and every operation shows its caller what comes next. */
  method RunOps(content: string, replies: seq<Reply>, capacity: nat, ops: seq<Op>)
    returns (shown: seq<Shown>, buffered: string, unread: string)
    ensures |shown| == |ops| && AllAgree(content, ops, shown)
    ensures Delivered(shown) + (buffered + unread) == content && |buffered| <= capacity
    ensures capacity > 0 && |content| <= |replies| && (forall i :: 0 <= i < |replies| ==> replies[i].limit > 0 && replies[i].err == NoError)
      ==> AllPrompt(content, ops, shown)
  {
    var source := new Source(content, replies);
    var r := new BufferedReader(source, capacity);
    ghost var steady := r.Steady();
    shown := [];
    assert "" + content == content;
    for k := 0 to |ops|
      invariant r.Valid() && r.impl == source && r.capacity == capacity && |shown| == k
      invariant Delivered(shown) + r.Remaining() == content && AllAgree(content, ops, shown)
      invariant JustSeen(shown) ==> r.buf != ""
      invariant steady ==> r.Steady() && AllPrompt(content, ops, shown)
    {
      var s := Perform(r, ops[k], content, shown);
      DeliveredSnoc(shown, s);
      AgreeSnoc(content, ops, shown, s);
      if steady { PromptSnoc(content, ops, shown, s); }
      shown := shown + [s];
    }
    buffered, unread := r.buf, source.unread;
  }
}
