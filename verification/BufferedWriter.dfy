/** `io::buffered_writer` of `src/io/buffered_writer.cpp`. */
module BufferedWriting {
  import opened Text
  import opened Streams

  class BufferedWriter {
    const impl: Sink
    const capacity: nat
    var buf: string

    constructor (impl: Sink, capacity: nat)
      requires impl.endless ==> capacity > 0
      ensures Valid() && this.impl == impl && this.capacity == capacity && buf == ""
    {
      this.impl, this.capacity, buf := impl, capacity, "";
    }

    /** Without room in the buffer `write` never ends, unless the sink fails. */
    ghost predicate Valid()
      reads this
    {
      |buf| <= capacity && (impl.endless ==> capacity > 0)
    }

    /** What has been accepted: the bytes in the sink and then the buffered ones. */
    ghost function Total(): string
      reads this, impl
    {
      impl.written + buf
    }

    /** The write that first fills the buffer ends in a flush that is cut short without an error being reported. */
    ghost predicate ShortFlush(data: string)
      reads this, impl
    {
      && |buf| + |data| > capacity && impl.plan != [] && impl.plan[0].err == NoError
      && impl.Accepted(impl.plan, capacity) < capacity
    }

    /** One attempt to write the buffer out; what was not accepted moves to the front. */
    method FlushAvailable() returns (count: nat, err: Error)
      requires Valid()
      modifies `buf, impl
      ensures Valid() && Total() == old(Total()) && old(impl.written) <= impl.written
      ensures count == impl.Accepted(old(impl.plan), |old(buf)|) && |buf| == |old(buf)| - count
      ensures err == impl.Reported(old(impl.plan)) && (old(impl.Reliable()) ==> impl.Reliable())
      ensures impl.calls == old(impl.calls) + 1 && Uses(old(impl.plan), impl.plan, impl.endless, 1, err)
    {
      count, err := impl.Write(buf);
      assert buf == buf[..count] + buf[count..];
      assert impl.written + buf[count..] == old(impl.written) + (buf[..count] + buf[count..]);
      buf := buf[count..];
    }

    /** One write of `data[total..hi]`, behind `data[start..total]`. */
    method WriteOnce(data: string, ghost start: nat, total: nat, hi: nat, ghost base: string, ghost origin: seq<Reply>, ghost n: nat)
      returns (count: nat, err: Error)
      requires start <= total <= hi <= |data| && impl.written == base + data[start..total]
      requires Uses(origin, impl.plan, impl.endless, n, NoError)
      modifies impl
      ensures count <= hi - total && impl.written == base + data[start..total + count]
      ensures impl.calls == old(impl.calls) + 1 && Uses(origin, impl.plan, impl.endless, n + 1, err)
      ensures impl.whole && err == NoError ==> count == hi - total
      ensures err == NoError && count == 0 ==> |impl.plan| < |old(impl.plan)| || (impl.endless && hi == total)
      ensures |impl.plan| <= |old(impl.plan)|
      ensures old(impl.Reliable()) ==> err == NoError && impl.Reliable()
    {
      ghost var was := impl.plan;
      count, err := impl.Write(data[total..hi]);
      UsesTwice(origin, was, impl.plan, impl.endless, n, 1, err);
      Advanced(base, data, start, total, hi, count);
    }

    /** Writes past the empty buffer in steps of the capacity while more than that is left. */
    method Bypass(data: string, start: nat) returns (total: nat, err: Error)
      requires start <= |data| && Valid()
      modifies impl
      ensures start <= total <= |data| && impl.written == old(impl.written) + data[start..total]
      ensures err == NoError ==> |data| - total <= capacity && (start < |data| ==> total < |data|)
      ensures old(impl.Reliable()) ==> err == NoError && impl.Reliable()
      ensures impl.calls >= old(impl.calls) && Uses(old(impl.plan), impl.plan, impl.endless, impl.calls - old(impl.calls), err)
      ensures err != NoError ==> impl.calls > old(impl.calls)
      ensures impl.whole && capacity > 0 ==>
        Shares(|data| - start, if err == NoError then |data| - total else 0, capacity, impl.calls - old(impl.calls), err)
    {
      UsesNothing(impl.plan, impl.endless);
      total, err := start, NoError;
      assert impl.written == impl.written + data[start..start];
      ghost var n, from: nat := 0, |data| - start;
      while |data| - total > capacity
        invariant start <= total <= |data| && (start < |data| ==> total < |data|)
        invariant impl.written == old(impl.written) + data[start..total]
        invariant old(impl.Reliable()) ==> impl.Reliable()
        invariant impl.calls == old(impl.calls) + n && Uses(old(impl.plan), impl.plan, impl.endless, n, NoError)
        invariant impl.whole && capacity > 0 ==> Passing(from, |data| - total, capacity, n)
        decreases |data| - total, |impl.plan|
      {
        var count, e := WriteOnce(data, start, total, total + capacity, old(impl.written), old(impl.plan), n);
        if impl.whole && capacity > 0 { PassingOn(from, |data| - total, capacity, n, e); }
        total, n := total + count, n + 1;
        if e != NoError { return total, e; }
      }
      if impl.whole && capacity > 0 { PassedOn(from, |data| - total, capacity, n); }
    }

    /** `write`: without an error everything is accepted in order, and with one the sink holds a prefix of it,
        unless a flush was cut short silently; then bytes are lost whenever no error is reported. */
    method Write(data: string) returns (count: nat, err: Error)
      requires Valid()
      modifies `buf, impl
      ensures Valid()
      ensures err == NoError ==> count == |data|
      ensures err == NoError ==> (Total() == old(Total()) + data <==> !old(ShortFlush(data)))
      ensures !old(ShortFlush(data)) ==> impl.written <= old(Total()) + data
      ensures old(impl.Reliable()) ==> err == NoError && impl.Reliable()
      ensures impl.calls >= old(impl.calls) && Uses(old(impl.plan), impl.plan, impl.endless, impl.calls - old(impl.calls), err)
      ensures impl.whole ==> Costs(Op.Write(data), capacity, |old(buf)|, |buf|, impl.calls - old(impl.calls), err)
      ensures |old(buf)| + |data| <= capacity ==> impl.written == old(impl.written) && impl.calls == old(impl.calls)
    {
      UsesNothing(impl.plan, impl.endless);
      if data == "" {
        assert Total() + data == Total();
        return 0, NoError;
      }
      var total := Min(capacity - |buf|, |data|);
      assert impl.written + (buf + data[..total]) == Total() + data[..total];
      buf := buf + data[..total];
      if total == |data| {
        assert data[..total] == data;
        return |data|, NoError;
      }
      assert |buf| == capacity;
      count, err := FlushAvailable();
      assert Total() == old(Total()) + data[..total];
      if err != NoError {
        assert old(Total()) + data == Total() + data[total..];
        return;
      }
      ghost var kept, sent, was, calls := buf, impl.written, impl.plan, impl.calls;
      count, err := WriteRest(data, total);
      UsesTwice(old(impl.plan), was, impl.plan, impl.endless, 1, impl.calls - calls, err);
      if impl.whole {
        WriteCosts(data, capacity, |old(buf)|, |buf|, if err == NoError then |buf| else 0, impl.calls - calls, err);
      }
      RestWritten(old(Total()), data, total, sent, kept);
    }

    /** Writes from `start` on, as if the buffer were empty: what does not fill it is left in it. */
    method WriteRest(data: string, start: nat) returns (count: nat, err: Error)
      requires Valid() && start <= |data|
      modifies `buf, impl
      ensures Valid() && impl.written <= old(impl.written) + data[start..]
      ensures err == NoError ==> count == |data| && Total() == old(impl.written) + data[start..]
      ensures old(impl.Reliable()) ==> err == NoError && impl.Reliable()
      ensures impl.calls >= old(impl.calls) && Uses(old(impl.plan), impl.plan, impl.endless, impl.calls - old(impl.calls), err)
      ensures err != NoError ==> impl.calls > old(impl.calls)
      ensures start < |data| && err == NoError ==> capacity > 0
      ensures impl.whole && capacity > 0 ==>
        Shares(|data| - start, if err == NoError then |buf| else 0, capacity, impl.calls - old(impl.calls), err)
    {
      count, err := Bypass(data, start);
      assert data[start..] == data[start..count] + data[count..];
      assert old(impl.written) + data[start..] == impl.written + data[count..];
      if err != NoError { return; }
      buf := data[count..];
      count := |data|;
    }

    /** `flush`: writes the buffer out completely; after an error the buffer still holds all of it. */
    method Flush() returns (count: nat, err: Error)
      requires Valid()
      modifies `buf, impl
      ensures Valid() && impl.written <= old(Total()) && count <= |old(buf)|
      ensures err == NoError ==> buf == "" && impl.written == old(Total()) && count == |old(buf)|
      ensures err != NoError ==> buf == old(buf) && impl.written == old(impl.written) + buf[..count]
      ensures old(impl.Reliable()) ==> err == NoError && impl.Reliable()
      ensures impl.calls >= old(impl.calls) && Uses(old(impl.plan), impl.plan, impl.endless, impl.calls - old(impl.calls), err)
      ensures impl.whole ==> Costs(Op.Flush, capacity, |old(buf)|, |buf|, impl.calls - old(impl.calls), err)
    {
      UsesNothing(impl.plan, impl.endless);
      count, err := 0, NoError;
      assert impl.written == impl.written + buf[0..0];
      while count < |buf|
        invariant count <= |buf| && buf == old(buf)
        invariant impl.written == old(impl.written) + buf[0..count]
        invariant old(impl.Reliable()) ==> impl.Reliable()
        invariant impl.calls >= old(impl.calls) && Uses(old(impl.plan), impl.plan, impl.endless, impl.calls - old(impl.calls), NoError)
        invariant impl.whole ==>
          if impl.calls == old(impl.calls) then count == 0 else impl.calls == old(impl.calls) + 1 && count == |buf| > 0
        decreases |buf| - count, |impl.plan|
      {
        var more, e := WriteOnce(buf, 0, count, |buf|, old(impl.written), old(impl.plan), impl.calls - old(impl.calls));
        count := count + more;
        if e != NoError {
          Prefixed(old(impl.written), buf, count);
          return count, e;
        }
      }
      assert buf[0..count] == buf;
      buf := "";
    }
  }

  lemma Advanced(base: string, data: string, start: nat, total: nat, hi: nat, count: nat)
    requires start <= total <= total + count <= hi <= |data|
    ensures base + data[start..total] + data[total..hi][..count] == base + data[start..total + count]
  {
    assert data[start..total] + data[total..hi][..count] == data[start..total + count];
  }

  lemma Prefixed(base: string, data: string, count: nat)
    requires count <= |data|
    ensures data[0..count] == data[..count] && base + data[..count] <= base + data
  {
    assert base + data == base + data[..count] + data[count..];
  }

  /** What a flush kept back is missing from what is written behind it. */
  lemma RestWritten(all: string, data: string, i: nat, sent: string, kept: string)
    requires i <= |data| && sent + kept == all + data[..i]
    ensures sent + data[i..] == all + data <==> kept == ""
  {
    assert all + data == all + data[..i] + data[i..] == sent + kept + data[i..];
    if kept == "" {
      assert sent + kept == sent;
    } else {
      assert |sent + data[i..]| < |sent + kept + data[i..]|;
    }
  }

  datatype Op = Write(data: string) | Flush

  /** How often a write passes on what does not fit the empty buffer. */
  function Steps(rest: nat, capacity: nat): nat
    requires capacity > 0
  {
    if rest <= capacity then 0 else 1 + Steps(rest - capacity, capacity)
  }

  /** What is left for the buffer then. */
  function Leftover(rest: nat, capacity: nat): (n: nat)
    requires capacity > 0
    ensures n <= capacity
  {
    if rest <= capacity then rest else Leftover(rest - capacity, capacity)
  }

  /** `n` steps lead from `from` to `rest`; folded. */
  ghost predicate Passing(from: nat, rest: nat, capacity: nat, n: nat)
    requires capacity > 0
  {
    forall k: nat {:trigger Look(k)} :: k == 17 && Look(k) ==>
      n + Steps(rest, capacity) == Steps(from, capacity) && Leftover(rest, capacity) == Leftover(from, capacity)
  }

  /** `n` calls for what did not fit, of which `rest` is left; folded. */
  ghost predicate Shares(from: nat, rest: nat, capacity: nat, n: nat, err: Error)
    requires capacity > 0
  {
    forall k: nat {:trigger Look(k)} :: k == 18 && Look(k) ==>
      if err == NoError then n == Steps(from, capacity) && rest == Leftover(from, capacity) else n <= Steps(from, capacity)
  }

  lemma PassingOn(from: nat, rest: nat, capacity: nat, n: nat, err: Error)
    requires 0 < capacity < rest && Passing(from, rest, capacity, n)
    ensures Passing(from, rest - capacity, capacity, n + 1) && (err != NoError ==> Shares(from, 0, capacity, n + 1, err))
  {
    assert Look(17);
  }

  lemma PassedOn(from: nat, rest: nat, capacity: nat, n: nat)
    requires 0 < capacity && rest <= capacity && Passing(from, rest, capacity, n)
    ensures Shares(from, rest, capacity, n, NoError)
  {
    assert Look(17);
  }

  /** The flush of a full buffer and the rest of the write. */
  lemma WriteCosts(data: string, capacity: nat, before: nat, after: nat, rest: nat, n: nat, err: Error)
    requires before <= capacity < before + |data|
    requires err == NoError ==> capacity > 0 && rest == after
    requires capacity > 0 ==> Shares(|data| - (capacity - before), rest, capacity, n, err)
    requires err != NoError ==> n > 0
    ensures Costs(Op.Write(data), capacity, before, after, n + 1, err)
  {
    assert Look(18);
  }

  /** How many bytes are buffered, and how many calls the sink has had. */
  datatype Load = Load(buffered: nat, calls: nat)

  /** What a successful operation adds, over a sink that accepts everything. Without room a write goes on until the sink
      fails, which takes up to `most` calls. */
  function Loaded(l: Load, op: Op, capacity: nat, most: nat): (l': Load)
    requires l.buffered <= capacity
    ensures l'.buffered <= capacity && l.calls <= l'.calls
  {
    match op
    case Flush => Load(0, if l.buffered == 0 then l.calls else l.calls + 1)
    case Write(d) =>
      if |d| <= capacity - l.buffered then l.(buffered := l.buffered + |d|)
      else if capacity == 0 then Load(0, l.calls + most)
      else
        var rest := |d| - (capacity - l.buffered);
        Load(Leftover(rest, capacity), l.calls + 1 + Steps(rest, capacity))
  }

  function Loads(ops: seq<Op>, capacity: nat, most: nat): (l: Load)
    ensures l.buffered <= capacity
  {
    if ops == [] then Load(0, 0) else Loaded(Loads(ops[..|ops| - 1], capacity, most), ops[|ops| - 1], capacity, most)
  }

  /** `n` calls for an operation that went from `before` to `after` buffered bytes: as many as `Loaded` says, or up to that
      many if the last one failed. */
  ghost predicate Costs(op: Op, capacity: nat, before: nat, after: nat, n: nat, err: Error)
    requires before <= capacity
  {
    var l := Loaded(Load(before, 0), op, capacity, n + 1);
    if err == NoError then Load(after, n) == l else 0 < n <= l.calls
  }

  /** The data of all writes, in order. */
  function Payload(ops: seq<Op>): string {
    if ops == [] then "" else Payload(ops[..|ops| - 1]) + DataOf(ops[|ops| - 1])
  }

  function DataOf(op: Op): string {
    match op case Write(d) => d case Flush => ""
  }

  method Perform(w: BufferedWriter, op: Op) returns (err: Error)
    requires w.Valid() && w.impl.whole
    modifies w, w.impl
    ensures w.Valid() && w.impl.calls >= old(w.impl.calls)
    ensures Uses(old(w.impl.plan), w.impl.plan, w.impl.endless, w.impl.calls - old(w.impl.calls), err)
    ensures Costs(op, w.capacity, |old(w.buf)|, |w.buf|, w.impl.calls - old(w.impl.calls), err)
    ensures match op {
      case Write(d) => w.impl.written <= old(w.Total()) + d && (err == NoError ==> w.Total() == old(w.Total()) + d)
      case Flush => w.impl.written <= old(w.Total()) && (err == NoError ==> w.buf == "" && w.impl.written == old(w.Total()))
    }
  {
    var count;
    match op
    case Write(d) => count, err := w.Write(d);
    case Flush => count, err := w.Flush();
  }

  lemma PayloadSnoc(ops: seq<Op>, k: nat)
    requires k < |ops|
    ensures Payload(ops[..k + 1]) == Payload(ops[..k]) + DataOf(ops[k])
  {
    var next := ops[..k + 1];
    assert next[..k] == ops[..k] && next[k] == ops[k];
  }

  lemma LoadsSnoc(ops: seq<Op>, k: nat, capacity: nat, most: nat)
    requires k < |ops|
    ensures Loads(ops[..k + 1], capacity, most) == Loaded(Loads(ops[..k], capacity, most), ops[k], capacity, most)
  {
    var next := ops[..k + 1];
    assert next[..k] == ops[..k] && next[k] == ops[k];
  }

  /** The first `k` operations lead to `l`; folded. */
  ghost predicate LeadsTo(ops: seq<Op>, k: nat, capacity: nat, most: nat, l: Load)
    requires k <= |ops|
  {
    forall i: nat {:trigger Look(i)} :: i == 16 && Look(i) ==> l == Loads(ops[..k], capacity, most)
  }

  lemma LeadsOn(ops: seq<Op>, k: nat, capacity: nat, most: nat, l: Load)
    requires k < |ops| && l.buffered <= capacity && LeadsTo(ops, k, capacity, most, l)
    ensures LeadsTo(ops, k + 1, capacity, most, Loaded(l, ops[k], capacity, most))
  {
    assert Look(16);
    LoadsSnoc(ops, k, capacity, most);
  }

  lemma {:induction false} LoadsGrow(ops: seq<Op>, k: nat, capacity: nat, most: nat)
    requires k <= |ops|
    ensures Loads(ops[..k], capacity, most).calls <= Loads(ops, capacity, most).calls
    decreases |ops| - k
  {
    if k < |ops| {
      LoadsSnoc(ops, k, capacity, most);
      LoadsGrow(ops, k + 1, capacity, most);
    } else {
      assert ops[..k] == ops;
    }
  }

  /** The calls so far and those of an operation. */
  lemma CostsAdd(op: Op, capacity: nat, l: Load, after: nat, n: nat, err: Error, most: nat)
    requires l.buffered <= capacity && Costs(op, capacity, l.buffered, after, n, err) && (err != NoError ==> n <= most)
    ensures var next := Loaded(l, op, capacity, most);
      if err == NoError then Load(after, l.calls + n) == next else l.calls < l.calls + n <= next.calls
  {
  }

  /** An operation behind others that took the writer to `l`. */
  method PerformNext(w: BufferedWriter, op: Op, ghost origin: seq<Reply>, ghost l: Load) returns (err: Error)
    requires w.Valid() && w.impl.whole && l == Load(|w.buf|, w.impl.calls)
    requires Uses(origin, w.impl.plan, w.impl.endless, w.impl.calls, NoError)
    modifies w, w.impl
    ensures w.Valid() && Uses(origin, w.impl.plan, w.impl.endless, w.impl.calls, err)
    ensures var next := Loaded(l, op, w.capacity, |origin| + 1);
      if err == NoError then Load(|w.buf|, w.impl.calls) == next else l.calls < w.impl.calls <= next.calls
    ensures w.impl.written <= old(w.Total()) + DataOf(op)
    ensures err == NoError ==> w.Total() == old(w.Total()) + DataOf(op) && (op == Flush ==> w.buf == "")
  {
    ghost var was, total := w.impl.plan, w.Total();
    err := Perform(w, op);
    RunStep(op, w.capacity, origin, was, w.impl.plan, w.impl.endless, l, |w.buf|, w.impl.calls - l.calls, err);
    assert total + "" == total;
    assert w.buf == "" ==> w.Total() == w.impl.written;
  }

  /** Operation `k` of a run, behind the others. */
  method PerformAt(w: BufferedWriter, ops: seq<Op>, k: nat, ghost origin: seq<Reply>, ghost l: Load, ghost next: Load)
    returns (err: Error)
    requires w.Valid() && w.impl.whole && k < |ops| && w.Total() == Payload(ops[..k]) && l == Load(|w.buf|, w.impl.calls)
    requires Uses(origin, w.impl.plan, w.impl.endless, w.impl.calls, NoError)
    requires next == Loaded(l, ops[k], w.capacity, |origin| + 1)
    modifies w, w.impl
    ensures w.Valid() && Uses(origin, w.impl.plan, w.impl.endless, w.impl.calls, err)
    ensures if err == NoError then Load(|w.buf|, w.impl.calls) == next else l.calls < w.impl.calls <= next.calls
    ensures err == NoError ==> w.Total() == Payload(ops[..k + 1]) && (ops[k] == Flush ==> w.buf == "")
    ensures err != NoError ==> w.impl.written <= Payload(ops[..k + 1])
  {
    PayloadSnoc(ops, k);
    err := PerformNext(w, ops[k], origin, l);
  }

  lemma RunStep(op: Op, capacity: nat, origin: seq<Reply>, was: seq<Reply>, plan: seq<Reply>, endless: bool,
                l: Load, after: nat, n: nat, err: Error)
    requires Uses(origin, was, endless, l.calls, NoError) && Uses(was, plan, endless, n, err)
    requires l.buffered <= capacity && Costs(op, capacity, l.buffered, after, n, err)
    ensures Uses(origin, plan, endless, l.calls + n, err)
    ensures var next := Loaded(l, op, capacity, |origin| + 1);
      if err == NoError then Load(after, l.calls + n) == next else l.calls < l.calls + n <= next.calls
  {
    UsesTwice(origin, was, plan, endless, l.calls, n, err);
    CallsBounded(origin, plan, endless, l.calls + n, err);
    CostsAdd(op, capacity, l, after, n, err, |origin| + 1);
  }

  lemma CallsBounded(origin: seq<Reply>, after: seq<Reply>, endless: bool, n: nat, err: Error)
    requires Uses(origin, after, endless, n, err)
    ensures err != NoError ==> n <= |origin| + 1
  {
    assert Look(9);
  }

  /** The first call that fails is one of operation `done`, or comes after all operations. */
  ghost predicate EndsAt(ops: seq<Op>, capacity: nat, replies: seq<Reply>, endless: bool, done: nat, err: Error) {
    var f, most := FirstBad(replies), |replies| + 1;
    && done <= |ops| && (done == |ops| <==> err == NoError)
    && (done == |ops| <==> (endless && f == |replies|) || Loads(ops, capacity, most).calls <= f)
    && (done < |ops| ==>
          && Loads(ops[..done], capacity, most).calls <= f < Loads(ops[..done + 1], capacity, most).calls
          && err == if f < |replies| then replies[f].err else Closed)
  }

  lemma RunEnds(ops: seq<Op>, capacity: nat, replies: seq<Reply>, after: seq<Reply>, endless: bool, done: nat,
                l: Load, calls: nat, err: Error)
    requires Uses(replies, after, endless, calls, err) && done <= |ops| && (done == |ops| <==> err == NoError)
    requires l.buffered <= capacity && LeadsTo(ops, done, capacity, |replies| + 1, l)
    requires if done == |ops| then calls == l.calls
             else l.calls < calls <= Loaded(l, ops[done], capacity, |replies| + 1).calls
    ensures EndsAt(ops, capacity, replies, endless, done, err)
    ensures done == |ops| ==> l.buffered == Loads(ops, capacity, |replies| + 1).buffered
  {
    assert Look(9) && Look(16);
    SpentUpTo(replies, after, endless, calls, err);
    if done < |ops| {
      LoadsSnoc(ops, done, capacity, |replies| + 1);
      LoadsGrow(ops, done + 1, capacity, |replies| + 1);
    } else {
      assert ops[..done] == ops;
    }
  }

  /** Any run of writes and flushes, up to its first error, over a sink that writes everything or reports an error:
      `done` operations succeed, and the sink followed by the buffer is the data of those. The run ends early exactly when
      the operations make more calls than succeed, in the operation whose call fails and with its error. */
  method RunOps(capacity: nat, replies: seq<Reply>, endless: bool, ops: seq<Op>)
    returns (written: string, buffered: string, done: nat, err: Error)
    requires endless ==> capacity > 0
    ensures EndsAt(ops, capacity, replies, endless, done, err) && |buffered| <= capacity
    ensures done == |ops| ==> written + buffered == Payload(ops) && |buffered| == Loads(ops, capacity, |replies| + 1).buffered
    ensures done == |ops| && ops != [] && ops[|ops| - 1] == Flush ==> buffered == ""
    ensures done < |ops| ==> written <= Payload(ops[..done + 1])
  {
    var sink := new Sink(replies, true, endless);
    var w := new BufferedWriter(sink, capacity);
    done, err := 0, NoError;
    assert ops[..0] == [];
    UsesNothing(replies, endless);
    ghost var l := Load(0, 0);
    while done < |ops|
      invariant done <= |ops| && w.Valid() && w.impl == sink && w.capacity == capacity && fresh(w) && err == NoError
      invariant w.Total() == Payload(ops[..done])
      invariant done > 0 && ops[done - 1] == Flush ==> w.buf == ""
      invariant Uses(replies, sink.plan, endless, sink.calls, NoError)
      invariant l == Load(|w.buf|, sink.calls) && LeadsTo(ops, done, capacity, |replies| + 1, l)
    {
      LeadsOn(ops, done, capacity, |replies| + 1, l);
      ghost var next := Loaded(l, ops[done], capacity, |replies| + 1);
      err := PerformAt(w, ops, done, replies, l, next);
      if err != NoError { break; }
      l := next;
      done := done + 1;
    }
    assert ops[..|ops|] == ops;
    RunEnds(ops, capacity, replies, sink.plan, endless, done, l, sink.calls, err);
    written, buffered := sink.written, w.buf;
  }
}
