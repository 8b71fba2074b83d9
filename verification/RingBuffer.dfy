/** `util::ring_buffer` of `include/util/ring_buffer.hpp`. */
module Ring {

  /** A bounded queue that drops its oldest element when it overflows. */
  function Pushed<T>(queue: seq<T>, x: T, capacity: nat): seq<T>
    requires |queue| <= capacity && capacity > 0
  {
    if |queue| == capacity then queue[1..] + [x] else queue + [x]
  }

  function Popped<T>(queue: seq<T>): seq<T> {
    if queue == [] then [] else queue[1..]
  }

  /** `(begin + i) % n` for indices that wrap around at most once. */
  lemma Wrap(begin: nat, i: nat, n: nat)
    requires begin < n && i <= n
    ensures (begin + i) % n == if begin + i < n then begin + i else begin + i - n
  {
    if begin + i >= n {
      assert begin + i == (begin + i - n) + 1 * n;
      assert (begin + i - n) % n == begin + i - n;
    }
  }

  /** `size` cells from `begin` on, continued at the start. */
  function Window<T>(cells: seq<T>, begin: nat, size: nat): (queue: seq<T>)
    requires begin < |cells| && size <= |cells|
    ensures |queue| == size
  {
    if begin + size <= |cells| then cells[begin..begin + size] else cells[begin..] + cells[..begin + size - |cells|]
  }

  lemma WrapTwice(begin: nat, i: nat, n: nat)
    requires 0 < n
    ensures (begin + i % n) % n == (begin + i) % n
  {
    var q := i / n;
    assert begin + i == begin + i % n + q * n;
    ModPlus(begin + i % n, q, n);
  }

  lemma {:induction false} ModPlus(a: nat, q: nat, n: nat)
    requires 0 < n
    ensures (a + q * n) % n == a % n
  {
    if q == 0 {
    } else {
      ModPlus(a, q - 1, n);
      assert a + q * n == (a + (q - 1) * n) + n;
      ModOne(a + (q - 1) * n, n);
    }
  }

  lemma ModOne(a: nat, n: nat)
    requires 0 < n
    ensures (a + n) % n == a % n
  {
    var d: int := (a + n) / n - 1 - a / n;
    assert d * n == a % n - (a + n) % n;
    Multiple(d, n);
  }

  lemma Multiple(d: int, n: int)
    requires 0 < n
    ensures d >= 1 ==> d * n >= n
    ensures d <= -1 ==> d * n <= -n
    ensures d == 0 ==> d * n == 0
  {
  }

  lemma WindowAt<T>(cells: seq<T>, begin: nat, size: nat, i: nat)
    requires begin < |cells| && i < size <= |cells|
    ensures Window(cells, begin, size)[i] == cells[(begin + i) % |cells|]
  {
    Wrap(begin, i, |cells|);
  }

  /** Writing the cell behind the window and growing it. */
  lemma WindowGrow<T>(cells: seq<T>, begin: nat, size: nat, x: T)
    requires begin < |cells| && size < |cells|
    ensures Window(cells[(begin + size) % |cells| := x], begin, size + 1) == Window(cells, begin, size) + [x]
  {
    Wrap(begin, size, |cells|);
  }

  /** Writing over the oldest cell of a full window and moving it on. */
  lemma WindowMove<T>(cells: seq<T>, begin: nat, x: T)
    requires begin < |cells|
    ensures var n := |cells|;
      Window(cells[(begin + n) % n := x], (begin + 1) % n, n) == Window(cells, begin, n)[1..] + [x]
  {
    Wrap(begin, |cells|, |cells|);
    Wrap(begin, 1, |cells|);
  }

  lemma WindowPush<T>(cells: seq<T>, begin: nat, size: nat, x: T)
    requires begin < |cells| && size <= |cells|
    ensures var next := cells[(begin + size) % |cells| := x];
      size < |cells| ==> Window(next, begin, size + 1) == Pushed(Window(cells, begin, size), x, |cells|)
    ensures var next := cells[(begin + size) % |cells| := x];
      size == |cells| ==> Window(next, (begin + 1) % |cells|, size) == Pushed(Window(cells, begin, size), x, |cells|)
  {
    if size < |cells| { WindowGrow(cells, begin, size, x); } else { WindowMove(cells, begin, x); }
  }

  lemma WindowPop<T>(cells: seq<T>, begin: nat, size: nat)
    requires begin < |cells| && size <= |cells|
    ensures var size' := if size == 0 then 0 else size - 1;
      Window(cells, (begin + 1) % |cells|, size') == Popped(Window(cells, begin, size))
  {
    Wrap(begin, 1, |cells|);
    if size > 0 {
      var n, w := |cells|, Window(cells, begin, size);
      if begin + 1 == n {
        assert w[1..] == cells[..size - 1];
      } else if begin + size <= n {
        assert w[1..] == cells[begin + 1..begin + size];
      } else {
        assert w[1..] == cells[begin + 1..] + cells[..begin + size - n];
      }
    }
  }

  class RingBuffer<T(0)> {
    const values: array<T>
    var begin: nat
    var currentSize: nat

    constructor (capacity: nat)
      requires capacity > 0
      ensures Valid() && Contents() == [] && values.Length == capacity && fresh(values)
    {
      values := new T[capacity];
      begin, currentSize := 0, 0;
    }

    ghost predicate Valid()
      reads this
    {
      begin < values.Length && currentSize <= values.Length
    }

    /** The stored elements, the oldest first. */
    ghost function Contents(): (queue: seq<T>)
      requires Valid()
      reads this, values
    {
      Window(values[..], begin, currentSize)
    }

    method Push(x: T)
      requires Valid()
      modifies this, values
      ensures Valid() && Contents() == Pushed(old(Contents()), x, values.Length)
    {
      WindowPush(values[..], begin, currentSize, x);
      ghost var next := values[..][(begin + currentSize) % values.Length := x];
      values[(begin + currentSize) % values.Length] := x;
      assert values[..] == next;
      if currentSize + 1 > values.Length {
        begin := (begin + 1) % values.Length;
      } else {
        currentSize := currentSize + 1;
      }
    }

    /** On an empty buffer the result is whatever is stored, and `begin` moves all the same. */
    method Pop() returns (x: T)
      requires Valid()
      modifies this
      ensures Valid() && Contents() == Popped(old(Contents()))
      ensures old(Contents()) != [] ==> x == old(Contents())[0]
    {
      WindowPop(values[..], begin, currentSize);
      x := values[begin];
      begin := (begin + 1) % values.Length;
      if currentSize != 0 { currentSize := currentSize - 1; }
    }

    /** Any index is allowed: one past the contents gives what the cell it wraps around to holds. */
    method At(i: nat) returns (x: T)
      requires Valid()
      ensures i < currentSize ==> x == Contents()[i]
      ensures x == Window(values[..], begin, values.Length)[i % values.Length]
    {
      if i < currentSize { WindowAt(values[..], begin, currentSize, i); }
      WindowAt(values[..], begin, values.Length, i % values.Length);
      WrapTwice(begin, i, values.Length);
      x := values[(begin + i) % values.Length];
    }
  }

  datatype Op<T> = Push(x: T) | Pop

  /** The bounded queue after a run. */
  function Fifo<T>(ops: seq<Op<T>>, capacity: nat): (queue: seq<T>)
    requires capacity > 0
    ensures |queue| <= capacity
  {
    if ops == [] then []
    else
      var queue := Fifo(ops[..|ops| - 1], capacity);
      match ops[|ops| - 1]
      case Push(x) => Pushed(queue, x, capacity)
      case Pop => Popped(queue)
  }

  /** Everything that was pushed. */
  function Values<T>(ops: seq<Op<T>>): seq<T> {
    if ops == [] then []
    else Values(ops[..|ops| - 1]) + if ops[|ops| - 1].Push? then [ops[|ops| - 1].x] else []
  }

  /** How many elements there are: a push adds one while there is room, a pop takes one while there is any. */
  function Level<T>(ops: seq<Op<T>>, capacity: nat): (n: nat) {
    if ops == [] then 0
    else
      var n := Level(ops[..|ops| - 1], capacity);
      if ops[|ops| - 1].Push? then (if n < capacity then n + 1 else n) else (if n > 0 then n - 1 else 0)
  }

  /** `queue` is the end of `all`. */
  ghost predicate EndOf<T>(queue: seq<T>, all: seq<T>) {
    |queue| <= |all| && queue == all[|all| - |queue|..]
  }

  lemma EndPushed<T>(queue: seq<T>, all: seq<T>, x: T, capacity: nat)
    requires EndOf(queue, all) && |queue| <= capacity && capacity > 0
    ensures EndOf(Pushed(queue, x, capacity), all + [x])
  {
  }

  lemma EndPopped<T>(queue: seq<T>, all: seq<T>)
    requires EndOf(queue, all)
    ensures EndOf(Popped(queue), all + [])
  {
    assert all + [] == all;
  }

  /** After any run, the buffer holds the elements that were pushed last, in order, as many as the level says. */
  lemma {:induction false} FifoIsLatest<T>(ops: seq<Op<T>>, capacity: nat)
    requires capacity > 0
    ensures |Fifo(ops, capacity)| == Level(ops, capacity) && EndOf(Fifo(ops, capacity), Values(ops))
    decreases |ops|
  {
    if ops != [] {
      var before := ops[..|ops| - 1];
      FifoIsLatest(before, capacity);
      match ops[|ops| - 1]
      case Push(x) => EndPushed(Fifo(before, capacity), Values(before), x, capacity);
      case Pop => EndPopped(Fifo(before, capacity), Values(before));
    }
  }

  lemma FifoStep<T>(ops: seq<Op<T>>, k: nat, capacity: nat)
    requires k < |ops| && capacity > 0
    ensures Fifo(ops[..k + 1], capacity) ==
      match ops[k] { case Push(x) => Pushed(Fifo(ops[..k], capacity), x, capacity) case Pop => Popped(Fifo(ops[..k], capacity)) }
  {
    assert ops[..k + 1][..k] == ops[..k] && ops[..k + 1][k] == ops[k];
  }

  /** After any run of pushes and pops, indexing and size agree with the bounded queue. */
  method RunOps<T(0)>(ops: seq<Op<T>>, capacity: nat) returns (all: seq<T>)
    requires capacity > 0
    ensures all == Fifo(ops, capacity)
    ensures |all| == Level(ops, capacity) && EndOf(all, Values(ops))
  {
    var ring := new RingBuffer<T>(capacity);
    assert ops[..0] == [];
    for k := 0 to |ops|
      invariant ring.Valid() && ring.values.Length == capacity && fresh(ring) && fresh(ring.values)
      invariant ring.Contents() == Fifo(ops[..k], capacity)
    {
      FifoStep(ops, k, capacity);
      match ops[k] {
        case Push(x) => ring.Push(x);
        case Pop => var _ := ring.Pop();
      }
    }
    assert ops[..|ops|] == ops;
    FifoIsLatest(ops, capacity);
    all := ReadBack(ring);
  }

  /** All elements, by index. */
  method ReadBack<T(0)>(ring: RingBuffer<T>) returns (all: seq<T>)
    requires ring.Valid()
    ensures all == ring.Contents()
  {
    all := [];
    ghost var contents := ring.Contents();
    for i := 0 to ring.currentSize
      invariant all == contents[..i]
    {
      var x := ring.At(i);
      all := all + [x];
    }
  }
}
