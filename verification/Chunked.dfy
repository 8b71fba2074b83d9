/** The chunked transfer coding of `src/http/chunked_writer.cpp` and `src/http/chunked_reader.cpp`. */
module Chunked {
  import opened Text
  import opened Decimal
  import opened Streams
  import opened BufferedReading

  // ---------------------------------------------------------------- framing

  const MAX_CHUNK := 99_999_999

  /** The largest number that fits the eight characters of the size buffer. */
  lemma MaxChunkValue()
    ensures MaxDecimal(8) == MAX_CHUNK
  {
    assert MaxDecimal(4) == 9999;
    assert MaxDecimal(6) == 999_999;
  }

  function Frame(d: string): string {
    Digits(|d|) + CRLF + d + CRLF
  }

  function Frames(chunks: seq<string>): string {
    if chunks == [] then "" else Frame(chunks[0]) + Frames(chunks[1..])
  }

  function Flat(chunks: seq<string>): string {
    if chunks == [] then "" else chunks[0] + Flat(chunks[1..])
  }

  /** `data` in pieces of at most `size`. */
  function Cut(data: string, size: nat): seq<string> {
    if data == "" then []
    else if size == 0 || |data| <= size then [data]
    else [data[..size]] + Cut(data[size..], size)
  }

  function ChunkSize(data: string): nat {
    Min(MAX_CHUNK, |data|)
  }

  /** Every chunk that `write` takes off `data` lies inside it. */
  ghost predicate Writable(data: string) {
    |data| <= MAX_CHUNK || exists q: nat :: |data| == q * MAX_CHUNK
  }

  lemma Monotone(a: nat, b: nat, c: nat)
    ensures a <= b ==> a * c <= b * c
  {
  }

  /** `write` always takes `min(max, size)` bytes, not what is left; this stays in range exactly for `Writable` data. */
  lemma WritableExactly(data: string)
    ensures Writable(data) <==> forall k: nat :: k * ChunkSize(data) < |data| ==> (k + 1) * ChunkSize(data) <= |data|
  {
    var n, c := |data|, ChunkSize(data);
    if Writable(data) {
      var q: nat :| n == q * c by {
        if n <= MAX_CHUNK { assert n == 1 * c; }
      }
      forall k: nat | k * c < n ensures (k + 1) * c <= n {
        Monotone(q, k, c);
        Monotone(k + 1, q, c);
      }
    } else {
      var q := n / c;
      assert n == q * c + n % c;
      assert q * c < n && (q + 1) * c > n;
    }
  }

  lemma {:induction false} FramesConcat(a: seq<string>, b: seq<string>)
    ensures Frames(a + b) == Frames(a) + Frames(b)
  {
    if a == [] {
      assert a + b == b;
    } else {
      assert (a + b)[1..] == a[1..] + b;
      FramesConcat(a[1..], b);
      assert Frame(a[0]) + (Frames(a[1..]) + Frames(b)) == Frame(a[0]) + Frames(a[1..]) + Frames(b);
    }
  }

  lemma {:induction false} FlatConcat(a: seq<string>, b: seq<string>)
    ensures Flat(a + b) == Flat(a) + Flat(b)
  {
    if a == [] {
      assert a + b == b;
    } else {
      assert (a + b)[1..] == a[1..] + b;
      FlatConcat(a[1..], b);
    }
  }

  lemma {:induction false} CutFlat(data: string, size: nat)
    ensures Flat(Cut(data, size)) == data
    ensures forall i :: 0 <= i < |Cut(data, size)| ==> Cut(data, size)[i] != "" && (size > 0 ==> |Cut(data, size)[i]| <= size)
  {
    if data != "" && 0 < size < |data| {
      CutFlat(data[size..], size);
      assert data == data[..size] + data[size..];
    } else {
      assert Flat([data]) == data + Flat([data][1..]) == data;
    }
  }

  lemma CutStep(rest: string, size: nat)
    requires 0 < size <= |rest|
    ensures Frames(Cut(rest, size)) == Frame(rest[..size]) + Frames(Cut(rest[size..], size))
  {
    if |rest| == size {
      assert rest[..size] == rest;
      assert Frames([rest]) == Frame(rest) + Frames([rest][1..]);
    } else {
      assert ([rest[..size]] + Cut(rest[size..], size))[1..] == Cut(rest[size..], size);
    }
  }

  // ---------------------------------------------------------------- chunked_writer

  /** What `write` sends for `data`. */
  function Encoded(data: string): string {
    Frames(Cut(data, ChunkSize(data)))
  }

  /** What one round sent: as much as was accepted of the size, the line end, the payload and its end. */
  datatype Round = Round(size: string, gap: string, payload: string, end: string)

  function Sent(r: Round): string {
    r.size + r.gap + r.payload + r.end
  }

  predicate Pieces(r: Round, d: string) {
    r.size <= Digits(|d|) && r.gap <= CRLF && r.payload <= d && r.end <= CRLF
  }

  function Woven(rounds: seq<Round>): string {
    if rounds == [] then "" else Woven(rounds[..|rounds| - 1]) + Sent(rounds[|rounds| - 1])
  }

  /** The payload of all rounds. */
  function Carried(rounds: seq<Round>): string {
    if rounds == [] then "" else Carried(rounds[..|rounds| - 1]) + rounds[|rounds| - 1].payload
  }

  /** A plan after `n` calls. */
  function Later(plan: seq<Reply>, n: nat): seq<Reply> {
    if n <= |plan| then plan[n..] else []
  }

  /** Round `i` sends a chunk of `data` from where the rounds before it ended, and carries what the sink accepts of it;
      the last one stops where there is an error. */
  ghost predicate AllFit(sink: Sink, rounds: seq<Round>, data: string, plan: seq<Reply>, err: Error) {
    forall i :: 0 <= i < |rounds| ==>
      Fits(rounds, i, data) && (err == NoError || i < |rounds| - 1 ==> Carries(sink, rounds[i], i, data, plan))
  }

  ghost predicate Fits(rounds: seq<Round>, i: nat, data: string)
    requires i < |rounds|
  {
    FitsAt(rounds[i], data, |Carried(rounds[..i])|)
  }

  ghost predicate FitsAt(r: Round, data: string, p: nat) {
    p + ChunkSize(data) <= |data| && Pieces(r, data[p..p + ChunkSize(data)])
  }

  ghost predicate Carries(sink: Sink, r: Round, i: nat, data: string, plan: seq<Reply>) {
    |r.payload| == sink.Accepted(Later(plan, 4 * i + 2), ChunkSize(data))
  }

  lemma LaterTwice(plan: seq<Reply>, m: nat, n: nat)
    ensures Later(Later(plan, m), n) == Later(plan, m + n)
  {
  }

  lemma WovenSnoc(rounds: seq<Round>, r: Round)
    ensures Woven(rounds + [r]) == Woven(rounds) + Sent(r)
  {
    assert (rounds + [r])[..|rounds|] == rounds;
  }

  lemma CarriedSnoc(data: string, rounds: seq<Round>, r: Round, count: nat, more: nat)
    requires count + ChunkSize(data) <= |data| && Carried(rounds) == data[..count]
    requires r.payload <= data[count..count + ChunkSize(data)] && more == |r.payload|
    ensures Carried(rounds + [r]) == data[..count + more]
  {
    assert (rounds + [r])[..|rounds|] == rounds;
    assert r.payload == data[count..count + more];
  }

  lemma FitsStill(rounds: seq<Round>, r: Round, i: nat, data: string)
    requires i < |rounds| && Fits(rounds, i, data)
    ensures Fits(rounds + [r], i, data)
  {
    var more := rounds + [r];
    assert more[..i] == rounds[..i] && more[i] == rounds[i];
  }

  lemma FitsLast(rounds: seq<Round>, r: Round, data: string, count: nat)
    requires FitsAt(r, data, count) && |Carried(rounds)| == count
    ensures Fits(rounds + [r], |rounds|, data)
  {
    var more := rounds + [r];
    assert more[..|rounds|] == rounds && more[|rounds|] == r;
  }

  lemma FitsSnoc(sink: Sink, rounds: seq<Round>, r: Round, data: string, plan: seq<Reply>, err: Error, count: nat)
    requires FitsAt(r, data, count) && |Carried(rounds)| == count && AllFit(sink, rounds, data, plan, NoError)
    requires err == NoError ==> Carries(sink, r, |rounds|, data, plan)
    ensures AllFit(sink, rounds + [r], data, plan, err)
  {
    var more := rounds + [r];
    forall i | 0 <= i < |more|
      ensures Fits(more, i, data) && (err == NoError || i < |more| - 1 ==> Carries(sink, more[i], i, data, plan))
    {
      if i < |rounds| { FitsStill(rounds, r, i, data); } else { FitsLast(rounds, r, data, count); }
    }
  }

  /** What a round sends of a chunk, and that it sends all of it over a whole parent unless there is an error; folded. */
  ghost predicate Sends(r: Round, d: string, whole: bool, err: Error) {
    forall k: nat {:trigger Look(k)} :: k == 21 && Look(k) ==>
      Pieces(r, d) && (whole ==> Sent(r) <= Frame(d) && (err == NoError ==> Sent(r) == Frame(d)))
  }

  /** What the rounds sent and carried; folded. */
  ghost predicate Recorded(data: string, rounds: seq<Round>, woven: string, count: nat)
    requires count <= |data|
  {
    forall k: nat {:trigger Look(k)} :: k == 20 && Look(k) ==> Totals(data, rounds, woven, count)
  }

  ghost predicate Totals(data: string, rounds: seq<Round>, woven: string, count: nat)
    requires count <= |data|
  {
    woven == Woven(rounds) && Carried(rounds) == data[..count]
  }

  /** `AllFit`, and what the rounds left of the plan; folded. */
  ghost predicate Fitting(sink: Sink, data: string, plan: seq<Reply>, rounds: seq<Round>, now: seq<Reply>, err: Error) {
    forall k: nat {:trigger Look(k)} :: k == 22 && Look(k) ==>
      AllFit(sink, rounds, data, plan, err) && (err == NoError ==> UsedUp(plan, rounds, now))
  }

  ghost predicate UsedUp(plan: seq<Reply>, rounds: seq<Round>, now: seq<Reply>) {
    now == Later(plan, 4 * |rounds|)
  }

  lemma UsedMore(plan: seq<Reply>, rounds: seq<Round>, now: seq<Reply>, r: Round)
    requires UsedUp(plan, rounds, now)
    ensures UsedUp(plan, rounds + [r], Later(now, 4)) && Later(now, 2) == Later(plan, 4 * |rounds| + 2)
  {
    LaterTwice(plan, 4 * |rounds|, 2);
    LaterTwice(plan, 4 * |rounds|, 4);
  }

  lemma NothingRecorded(sink: Sink, data: string, plan: seq<Reply>)
    ensures Recorded(data, [], "", 0) && Fitting(sink, data, plan, [], plan, NoError)
  {
  }

  lemma RecordedMore(data: string, rounds: seq<Round>, woven: string, count: nat, r: Round, whole: bool, err: Error)
    requires count + ChunkSize(data) <= |data| && Recorded(data, rounds, woven, count)
    requires Sends(r, data[count..count + ChunkSize(data)], whole, err) && count + |r.payload| <= |data|
    ensures Recorded(data, rounds + [r], woven + Sent(r), count + |r.payload|)
  {
    assert Look(20) && Look(21);
    WovenSnoc(rounds, r);
    CarriedSnoc(data, rounds, r, count, |r.payload|);
  }

  lemma FittingMore(sink: Sink, data: string, plan: seq<Reply>, rounds: seq<Round>, woven: string, count: nat, r: Round,
                    now: seq<Reply>, now': seq<Reply>, err: Error)
    requires count + ChunkSize(data) <= |data| && Recorded(data, rounds, woven, count)
    requires Fitting(sink, data, plan, rounds, now, NoError) && Sends(r, data[count..count + ChunkSize(data)], sink.whole, err)
    requires err == NoError ==> now' == Later(now, 4) && |r.payload| == sink.Accepted(Later(now, 2), ChunkSize(data))
    ensures Fitting(sink, data, plan, rounds + [r], now', err)
  {
    SendsPieces(r, data, count, sink.whole, err);
    CarriedSize(data, rounds, woven, count);
    assert Look(22);
    UsedMore(plan, rounds, now, r);
    FitsSnoc(sink, rounds, r, data, plan, err, count);
  }

  lemma SendsPieces(r: Round, data: string, count: nat, whole: bool, err: Error)
    requires count + ChunkSize(data) <= |data| && Sends(r, data[count..count + ChunkSize(data)], whole, err)
    ensures FitsAt(r, data, count)
  {
    assert Look(21);
  }

  lemma CarriedSize(data: string, rounds: seq<Round>, woven: string, count: nat)
    requires count <= |data| && Recorded(data, rounds, woven, count)
    ensures |Carried(rounds)| == count
  {
    assert Look(20);
  }

  lemma RecordedIs(sink: Sink, data: string, plan: seq<Reply>, rounds: seq<Round>, woven: string, count: nat, now: seq<Reply>, err: Error)
    requires count <= |data| && Recorded(data, rounds, woven, count) && Fitting(sink, data, plan, rounds, now, err)
    ensures woven == Woven(rounds) && Carried(rounds) == data[..count] && AllFit(sink, rounds, data, plan, err)
  {
    assert Look(20) && Look(22);
  }

  class ChunkedWriter {
    const parent: Sink

    constructor (parent: Sink)
      ensures this.parent == parent
    {
      this.parent := parent;
    }

    /** Sends one chunk. What the parent does not accept without reporting an error is passed over. */
    method WriteChunk(d: string) returns (count: nat, err: Error, ghost r: Round)
      modifies parent
      ensures parent.written == old(parent.written) + Sent(r) && Sends(r, d, parent.whole, err) && count == |r.payload| <= |d|
      ensures err == NoError ==> parent.plan == Later(old(parent.plan), 4)
      ensures err == NoError ==> count == parent.Accepted(Later(old(parent.plan), 2), |d|)
      ensures err == NoError && count < |d| ==> |parent.plan| < |old(parent.plan)|
      ensures parent.whole && err == NoError ==> count == |d|
      ensures old(parent.Reliable()) ==> err == NoError && parent.Reliable()
    {
      ghost var w := parent.written;
      r := Round("", "", "", "");
      var n, e := parent.Write(Digits(|d|));
      r := r.(size := Digits(|d|)[..n]);
      SentSize(w, d, r);
      if e != NoError { return 0, e, r; }
      n, e := parent.Write(CRLF);
      r := r.(gap := CRLF[..n]);
      SentGap(w, d, r);
      if e != NoError { return 0, e, r; }
      count, e := parent.Write(d);
      r := r.(payload := d[..count]);
      SentPayload(w, d, r);
      if e != NoError { return count, e, r; }
      n, e := parent.Write(CRLF);
      r := r.(end := CRLF[..n]);
      SentEnd(w, d, r);
      err := e;
    }

    lemma SentSize(w: string, d: string, r: Round)
      requires r.size <= Digits(|d|) && r.gap == r.payload == r.end == ""
      ensures w + Sent(r) == w + r.size && Sent(r) <= Frame(d)
    {
      assert Sent(r) == r.size;
      FrameParts(d);
    }

    lemma SentGap(w: string, d: string, r: Round)
      requires r.size <= Digits(|d|) && r.gap <= CRLF && r.payload == r.end == ""
      ensures w + Sent(r) == w + r.size + r.gap && (r.size == Digits(|d|) ==> Sent(r) <= Frame(d))
    {
      Associate(w, r.size, r.gap);
      assert Sent(r) == r.size + r.gap;
      FrameParts(d);
    }

    lemma SentPayload(w: string, d: string, r: Round)
      requires r.payload <= d && r.end == ""
      ensures w + Sent(r) == w + r.size + r.gap + r.payload
      ensures r.size == Digits(|d|) && r.gap == CRLF ==> Sent(r) <= Frame(d)
    {
      var a := r.size + r.gap;
      assert Sent(r) == a + r.payload;
      Associate(w, r.size, r.gap);
      Associate(w, a, r.payload);
      FrameParts(d);
      PrefixInside(a, r.payload, d, CRLF);
    }

    lemma PrefixInside(a: string, p: string, d: string, c: string)
      requires p <= d
      ensures a + p <= a + (d + c)
    {
      assert d == p + d[|p|..];
      assert a + (d + c) == a + p + (d[|p|..] + c);
    }

    lemma SentEnd(w: string, d: string, r: Round)
      requires r.end <= CRLF
      ensures w + Sent(r) == w + r.size + r.gap + r.payload + r.end
      ensures r.size == Digits(|d|) && r.gap == CRLF && r.payload == d ==> Sent(r) <= Frame(d) && (r.end == CRLF ==> Sent(r) == Frame(d))
    {
      assert r.size + r.gap + r.payload + r.end == Sent(r);
    }

    lemma FrameParts(d: string)
      ensures Frame(d) == Digits(|d|) + (CRLF + (d + CRLF))
      ensures Frame(d) == Digits(|d|) + CRLF + (d + CRLF)
    {
      Associate(Digits(|d|) + CRLF, d, CRLF);
      Associate(Digits(|d|), CRLF, d + CRLF);
    }

    /** The frames that are still to be sent from position `count` on. */
    static ghost function Todo(data: string, count: nat): string
      requires count <= |data|
    {
      Frames(Cut(data[count..], ChunkSize(data)))
    }

    static lemma NextFrame(data: string, count: nat)
      requires 0 < ChunkSize(data) && count + ChunkSize(data) <= |data|
      ensures Frame(data[count..count + ChunkSize(data)]) + Todo(data, count + ChunkSize(data)) == Todo(data, count)
    {
      var size, left := ChunkSize(data), data[count..];
      assert left[..size] == data[count..count + size] && left[size..] == data[count + size..];
      CutStep(left, size);
    }

    static lemma Further(woven: string, sent: string, frame: string, todo: string, all: string)
      requires sent <= frame && woven + (frame + todo) == all
      ensures woven + sent <= all && (sent == frame ==> woven + sent + todo == all)
    {
      assert frame == sent + frame[|sent|..];
      assert all == woven + sent + (frame[|sent|..] + todo);
    }

    /** A position that the loop of `write` can reach. */
    static ghost predicate OnGrid(data: string, count: nat) {
      exists k: nat :: count == k * ChunkSize(data)
    }

    static lemma GridStep(data: string, count: nat)
      requires Writable(data) && OnGrid(data, count) && count < |data|
      ensures 0 < ChunkSize(data) && count + ChunkSize(data) <= |data| && OnGrid(data, count + ChunkSize(data))
    {
      WritableExactly(data);
      var k: nat :| count == k * ChunkSize(data);
      assert (k + 1) * ChunkSize(data) == count + ChunkSize(data);
    }

    static lemma GridNext(data: string, count: nat)
      requires OnGrid(data, count)
      ensures OnGrid(data, count + ChunkSize(data))
    {
      var k: nat :| count == k * ChunkSize(data);
      assert (k + 1) * ChunkSize(data) == count + ChunkSize(data);
    }

    /** Where the loop leaves the data. */
    static lemma GridLeft(data: string, count: nat)
      requires OnGrid(data, count) && count < |data| < count + ChunkSize(data)
      ensures !Writable(data)
    {
      if Writable(data) { GridStep(data, count); }
    }

    /** Where it reaches the end. */
    static lemma GridDone(data: string)
      requires OnGrid(data, |data|)
      ensures Writable(data)
    {
    }

    static lemma GridStart(data: string)
      ensures OnGrid(data, 0)
    {
      assert 0 == 0 * ChunkSize(data);
    }

    /** Over a whole parent, what was sent and what is still to be sent; folded. */
    static ghost predicate Ahead(data: string, goal: string, woven: string, count: nat)
      requires count <= |data|
    {
      forall k: nat {:trigger Look(k)} :: k == 19 && Look(k) ==> ToSend(data, goal, woven, count)
    }

    static ghost predicate ToSend(data: string, goal: string, woven: string, count: nat)
      requires count <= |data|
    {
      OnGrid(data, count) && woven + Todo(data, count) == goal
    }

    static lemma AheadStart(data: string)
      ensures Ahead(data, Encoded(data), "", 0)
    {
      GridStart(data);
      assert data[0..] == data;
      assert "" + Encoded(data) == Encoded(data);
    }

    static lemma AheadMore(data: string, goal: string, woven: string, count: nat, r: Round, base: string, err: Error)
      requires 0 < ChunkSize(data) && count + ChunkSize(data) <= |data| && Ahead(data, goal, woven, count)
      requires Sends(r, data[count..count + ChunkSize(data)], true, err)
      ensures base + (woven + Sent(r)) <= base + goal
      ensures err == NoError ==> Ahead(data, goal, woven + Sent(r), count + ChunkSize(data))
    {
      assert Look(19) && Look(21);
      var size, sent := ChunkSize(data), Sent(r);
      NextFrame(data, count);
      Further(woven, sent, Frame(data[count..count + size]), Todo(data, count + size), goal);
      PrefixBehind(base, woven + sent, goal);
      GridNext(data, count);
    }

    static lemma AheadLeft(data: string, goal: string, woven: string, count: nat, base: string)
      requires count < |data| < count + ChunkSize(data) && Ahead(data, goal, woven, count)
      ensures !Writable(data) && base + woven <= base + goal
    {
      assert Look(19);
      GridLeft(data, count);
      PrefixBehind(base, woven, goal);
    }

    static lemma AheadDone(data: string, goal: string, woven: string)
      requires Ahead(data, goal, woven, |data|)
      ensures Writable(data) && woven == goal
    {
      assert Look(19);
      NothingLeft(data, woven);
      GridDone(data);
    }

    static lemma PrefixBehind(base: string, a: string, b: string)
      requires a <= b
      ensures base + a <= base + b
    {
      assert b == a + b[|a|..];
      assert base + b == base + a + b[|a|..];
    }

    /** One round of the loop of `write`, behind `woven`. */
    method WriteRound(data: string, count: nat, ghost base: string, ghost goal: string, ghost woven: string)
      returns (more: nat, err: Error, ghost r: Round)
      requires 0 < ChunkSize(data) && count + ChunkSize(data) <= |data| && parent.written == base + woven
      requires parent.whole ==> Ahead(data, goal, woven, count)
      modifies parent
      ensures |r.payload| == more <= ChunkSize(data) && Sends(r, data[count..count + ChunkSize(data)], parent.whole, err)
      ensures parent.written == base + (woven + Sent(r))
      ensures err == NoError ==> parent.plan == Later(old(parent.plan), 4)
      ensures err == NoError ==> more == parent.Accepted(Later(old(parent.plan), 2), ChunkSize(data))
      ensures err == NoError && more == 0 ==> |parent.plan| < |old(parent.plan)|
      ensures parent.whole && err == NoError ==> Ahead(data, goal, woven + Sent(r), count + more)
      ensures parent.whole ==> parent.written <= base + goal
      ensures old(parent.Reliable()) ==> err == NoError && parent.Reliable()
    {
      more, err, r := WriteChunk(data[count..count + ChunkSize(data)]);
      Associate(base, woven, Sent(r));
      if parent.whole { AheadMore(data, goal, woven, count, r, base, err); }
    }

    /** The same, with the record of the rounds. */
    method RecordRound(data: string, count: nat, ghost plan: seq<Reply>, ghost base: string, ghost goal: string,
                       ghost rounds: seq<Round>, ghost woven: string)
      returns (more: nat, err: Error, ghost r: Round)
      requires 0 < ChunkSize(data) && count + ChunkSize(data) <= |data| && parent.written == base + woven
      requires parent.whole ==> Ahead(data, goal, woven, count)
      requires Recorded(data, rounds, woven, count) && Fitting(parent, data, plan, rounds, parent.plan, NoError)
      modifies parent
      ensures count + more <= |data| && parent.written == base + (woven + Sent(r))
      ensures Recorded(data, rounds + [r], woven + Sent(r), count + more)
      ensures Fitting(parent, data, plan, rounds + [r], parent.plan, err)
      ensures err == NoError && more == 0 ==> |parent.plan| < |old(parent.plan)|
      ensures parent.whole && err == NoError ==> Ahead(data, goal, woven + Sent(r), count + more)
      ensures parent.whole ==> parent.written <= base + goal
      ensures old(parent.Reliable()) ==> err == NoError && parent.Reliable()
    {
      ghost var now := parent.plan;
      more, err, r := WriteRound(data, count, base, goal, woven);
      RecordedMore(data, rounds, woven, count, r, parent.whole, err);
      FittingMore(parent, data, plan, rounds, woven, count, r, now, parent.plan, err);
    }

    /** `write`, over any parent. The loop takes a chunk of the same size each time, so that it may leave the data; then
        the source has no defined behaviour, and the model stops. Over a parent that writes everything or reports an
        error this happens exactly for data that are not `Writable`. */
    method Write(data: string) returns (count: nat, err: Error, left: bool, ghost rounds: seq<Round>)
      modifies parent
      ensures count <= |data| && Carried(rounds) == data[..count] && parent.written == old(parent.written) + Woven(rounds)
      ensures AllFit(parent, rounds, data, old(parent.plan), err)
      ensures left ==> err == NoError && count < |data| < count + ChunkSize(data)
      ensures !left && err == NoError ==> count == |data|
      ensures parent.whole && err == NoError ==> (left <==> !Writable(data))
      ensures parent.whole && err == NoError && !left ==> parent.written == old(parent.written) + Encoded(data)
      ensures parent.whole ==> parent.written <= old(parent.written) + Encoded(data)
      ensures old(parent.Reliable()) ==> err == NoError && parent.Reliable()
    {
      ghost var woven;
      AheadStart(data);
      count, err, left, rounds, woven := WriteRounds(data, parent.plan, parent.written, Encoded(data));
      RecordedIs(parent, data, old(parent.plan), rounds, woven, count, parent.plan, err);
      if parent.whole && err == NoError {
        if left { AheadLeft(data, Encoded(data), woven, count, old(parent.written)); } else { AheadDone(data, Encoded(data), woven); }
      }
    }

    /** The loop of `write`. */
    method WriteRounds(data: string, ghost plan: seq<Reply>, ghost base: string, ghost goal: string)
      returns (count: nat, err: Error, left: bool, ghost rounds: seq<Round>, ghost woven: string)
      requires parent.plan == plan && parent.written == base && Ahead(data, goal, "", 0)
      modifies parent
      ensures count <= |data| && parent.written == base + woven && Recorded(data, rounds, woven, count)
      ensures Fitting(parent, data, plan, rounds, parent.plan, err)
      ensures left ==> err == NoError && count < |data| < count + ChunkSize(data)
      ensures !left && err == NoError ==> count == |data|
      ensures parent.whole ==> if err == NoError then Ahead(data, goal, woven, count) else parent.written <= base + goal
      ensures old(parent.Reliable()) ==> err == NoError && parent.Reliable()
    {
      count, err, left, rounds, woven := 0, NoError, false, [], "";
      assert base + "" == base;
      NothingRecorded(parent, data, plan);
      while count < |data|
        invariant count <= |data| && parent.written == base + woven
        invariant Recorded(data, rounds, woven, count) && Fitting(parent, data, plan, rounds, parent.plan, NoError)
        invariant parent.whole ==> Ahead(data, goal, woven, count)
        invariant old(parent.Reliable()) ==> parent.Reliable()
        decreases |data| - count, |parent.plan|
      {
        if count + ChunkSize(data) > |data| { return count, NoError, true, rounds, woven; }
        var more, failed;
        ghost var r;
        more, failed, r := RecordRound(data, count, plan, base, goal, rounds, woven);
        rounds, woven, count := rounds + [r], woven + Sent(r), count + more;
        if failed != NoError { return count, failed, false, rounds, woven; }
      }
    }

    static lemma NothingLeft(data: string, written: string)
      ensures written + Todo(data, |data|) == written
    {
      assert data[|data|..] == "";
      assert Todo(data, |data|) == "" && written + "" == written;
    }
  }

  // ---------------------------------------------------------------- chunked_reader

  /** A size line: digits, accumulated in a `size_t`, and a line end. Gives the size and the text behind the line. */
  function SizeLine(s: string, acc: nat): Option<(nat, string)> {
    if s == "" then None
    else if IsDigit(s[0]) then SizeLine(s[1..], (acc * 10 + DigitValue(s[0])) % UINT64)
    else if |s| >= 2 && s[0] == '\r' && s[1] == '\n' then Some((acc, s[2..]))
    else None
  }

  lemma SizeLineDigit(d: nat, rest: string, acc: nat)
    requires d < 10 && acc * 10 + d < UINT64
    ensures SizeLine([Digit(d)] + rest, acc) == SizeLine(rest, acc * 10 + d)
  {
    assert ([Digit(d)] + rest)[1..] == rest;
  }

  lemma {:induction false} SizeLineDigits(n: nat, rest: string)
    requires n < UINT64
    ensures SizeLine(Digits(n) + rest, 0) == SizeLine(rest, n)
  {
    if n < 10 {
      SizeLineDigit(n, rest, 0);
    } else {
      var d := [Digit(n % 10)];
      assert Digits(n) + rest == Digits(n / 10) + (d + rest);
      SizeLineDigits(n / 10, d + rest);
      SizeLineDigit(n % 10, rest, n / 10);
    }
  }

  /** `goal` is what the rest of a size line gives. */
  ghost predicate Reads(goal: Option<(nat, string)>, rest: string, acc: nat) {
    forall k: nat {:trigger Look(k)} :: k == 14 && Look(k) ==> goal == SizeLine(rest, acc)
  }

  lemma ReadsOn(goal: Option<(nat, string)>, r: string, acc: nat)
    requires Reads(goal, r, acc)
    ensures r == "" ==> goal == None
    ensures r != "" && IsDigit(r[0]) ==> Reads(goal, r[1..], (acc * 10 + DigitValue(r[0])) % UINT64)
    ensures r != "" && !IsDigit(r[0]) ==>
      goal == if |r| >= 2 && r[0] == '\r' && r[1] == '\n' then Some((acc, r[1..][1..])) else None
  {
    assert Look(14);
    assert |r| >= 2 ==> r[1..][1..] == r[2..];
  }

  /** The size line of a frame gives back the length of the payload. */
  lemma SizeLineOfFrame(n: nat, rest: string)
    requires n < UINT64
    ensures SizeLine(Digits(n) + CRLF + rest, 0) == Some((n, rest))
  {
    SizeLineDigits(n, CRLF + rest);
    assert Digits(n) + CRLF + rest == Digits(n) + (CRLF + rest);
    assert (CRLF + rest)[2..] == rest;
  }

  /** A size in digits, perhaps none, the line end, and what follows. */
  ghost predicate Spells(s: string, d: string, n: nat, rest: string) {
    (forall j :: 0 <= j < |d| ==> IsDigit(d[j])) && s == d + "\r\n" + rest && n == Value(d) % UINT64
  }

  lemma Wraps(v: nat, d: nat)
    ensures (v % UINT64 * 10 + d) % UINT64 == (v * 10 + d) % UINT64
  {
    var q: int := v / UINT64;
    assert v * 10 + d == v % UINT64 * 10 + d + q * 10 * UINT64;
    SameRemainder(v % UINT64 * 10 + d, q * 10);
  }

  lemma SameRemainder(a: int, q: int)
    ensures (a + q * UINT64) % UINT64 == a % UINT64
  {
  }

  lemma {:induction false} SizeLineAfter(s: string, k: nat)
    requires k <= |s| && forall j :: 0 <= j < k ==> IsDigit(s[j])
    ensures SizeLine(s, 0) == SizeLine(s[k..], Value(s[..k]) % UINT64)
  {
    if k == 0 {
      assert s[0..] == s;
    } else {
      SizeLineAfter(s, k - 1);
      assert s[k - 1..][1..] == s[k..] && s[..k][..k - 1] == s[..k - 1];
      Wraps(Value(s[..k - 1]), DigitValue(s[k - 1]));
    }
  }

  /** A text begins with a size line exactly when it is digits, a line end and a rest; the size is the number that the
      digits spell, as far as it fits. */
  lemma SizeLineExactly(s: string, n: nat, rest: string)
    ensures SizeLine(s, 0) == Some((n, rest)) <==> exists d :: Spells(s, d, n, rest)
  {
    var k := DigitCount(s);
    SizeLineAfter(s, k);
    if SizeLine(s, 0) == Some((n, rest)) {
      assert s == s[..k] + "\r\n" + s[k..][2..];
      assert Spells(s, s[..k], n, rest);
    }
    if d :| Spells(s, d, n, rest) {
      CutsAt(s, d, rest, k);
    }
  }

  lemma CutsAt(s: string, d: string, rest: string, k: nat)
    requires s == d + "\r\n" + rest && k == DigitCount(s) && forall j :: 0 <= j < |d| ==> IsDigit(d[j])
    ensures k == |d| && s[..k] == d && s[k..][2..] == rest && s[k..][..2] == "\r\n"
  {
    assert s[|d|] == '\r' && forall j :: 0 <= j < |d| ==> s[j] == d[j];
  }

  class ChunkedReader {
    const parent: BufferedReader
    var current: nat  // what is left of the chunk being read

    constructor (parent: BufferedReader)
      ensures this.parent == parent && current == 0
    {
      this.parent, current := parent, 0;
    }

    /** The source is steady and gives single bytes as `lone` says. */
    ghost predicate Foreseen(lone: set<nat>)
      reads parent, parent.impl
    {
      parent.Steady() && parent.Tracks(lone)
    }

    /** How many bytes can be had without asking the source more than once. */
    ghost function AtOnce(): nat
      reads parent, parent.impl
    {
      |parent.buf| + parent.OneFill()
    }

    /** Reads one byte; `next` stays as it was when none was delivered. */
    method ReadByte(last: char) returns (next: char, err: Error, ghost got: string)
      requires parent.Valid()
      modifies parent, parent.impl
      ensures parent.Valid() && |parent.impl.plan| <= |old(parent.impl.plan)|
      ensures got + parent.Remaining() == old(parent.Remaining()) && (got == [next] || (got == "" && next == last))
      ensures old(parent.Steady()) ==> parent.Steady() && Kept(old(parent.Lone()), parent.Lone(), |parent.Remaining()|)
      ensures old(parent.Steady()) && old(parent.Remaining()) != "" ==> err == NoError && got != ""
    {
      var cell := new char[1][last];
      ghost var orig := cell[..];
      assert orig[0] == last;
      var count, e, got1 := parent.Read(cell, 0, 1);
      PutNothing(orig, 0);
      next, err, got := cell[0], e, got1;
      assert next == cell[..][0];
      assert count == 1 ==> got == cell[..][0..1] == [next];
    }

    /** Over any source, what is accepted is a size line; over a steady one every size line is accepted, and of anything
        that does not begin like one the first byte is taken. */
    method GetNextChunkSize() returns (err: Error)
      requires parent.Valid()
      modifies `current, parent, parent.impl
      ensures parent.Valid() && |parent.impl.plan| <= |old(parent.impl.plan)| && |parent.Remaining()| <= |old(parent.Remaining())|
      ensures err == NoError ==> SizeLine(old(parent.Remaining()), 0) == Some((current, parent.Remaining()))
      ensures old(parent.Steady()) ==> parent.Steady() && Kept(old(parent.Lone()), parent.Lone(), |parent.Remaining()|)
      ensures old(parent.Steady()) && SizeLine(old(parent.Remaining()), 0).Some? ==> err == NoError
      ensures old(parent.Steady()) && NoSize(old(parent.Remaining())) ==>
        err == IllegalBytes && current == 0 && parent.Remaining() == old(parent.Remaining())[1..]
    {
      ghost var lone := parent.Lone();
      parent.StartTracking(lone);
      err := SizeLoop(lone, SizeLine(parent.Remaining(), 0));
      if old(parent.Steady()) { parent.Tracked(lone); }
    }

    /** The loop over the bytes of a size line; `goal` is what the line says. */
    method SizeLoop(ghost lone: set<nat>, ghost goal: Option<(nat, string)>) returns (err: Error)
      requires parent.Valid() && Reads(goal, parent.Remaining(), 0)
      modifies `current, parent, parent.impl
      ensures parent.Valid() && |parent.impl.plan| <= |old(parent.impl.plan)| && |parent.Remaining()| <= |old(parent.Remaining())|
      ensures err == NoError ==> goal == Some((current, parent.Remaining()))
      ensures old(parent.Steady()) ==> parent.Steady() && (goal.Some? ==> err == NoError)
      ensures old(Foreseen(lone)) ==> Foreseen(lone)
      ensures old(parent.Steady()) && NoSize(old(parent.Remaining())) ==>
        err == IllegalBytes && current == 0 && parent.Remaining() == old(parent.Remaining())[1..]
    {
      current := 0;
      ghost var start := parent.Remaining();
      var done := false;
      err := NoError;
      while !done
        invariant parent.Valid() && |parent.impl.plan| <= |old(parent.impl.plan)| && |parent.Remaining()| <= |start|
        invariant !done ==> Reads(goal, parent.Remaining(), current) && (NoSize(start) ==> current == 0 && parent.Remaining() == start)
        invariant done && err == NoError ==> goal == Some((current, parent.Remaining()))
        invariant done && old(parent.Steady()) && goal.Some? ==> err == NoError
        invariant done && old(parent.Steady()) && NoSize(start) ==> err == IllegalBytes && current == 0 && parent.Remaining() == start[1..]
        invariant old(parent.Steady()) ==> parent.Steady()
        invariant old(Foreseen(lone)) ==> Foreseen(lone)
        decreases !done, |parent.Remaining()|
      {
        done, err := SizeByte(lone, goal);
      }
    }

    /** One round of the loop: a digit, or the end of the line. */
    method SizeByte(ghost lone: set<nat>, ghost goal: Option<(nat, string)>) returns (done: bool, err: Error)
      requires parent.Valid() && Reads(goal, parent.Remaining(), current)
      modifies `current, parent, parent.impl
      ensures parent.Valid() && |parent.impl.plan| <= |old(parent.impl.plan)| && |parent.Remaining()| <= |old(parent.Remaining())|
      ensures !done ==> Reads(goal, parent.Remaining(), current) && |parent.Remaining()| < |old(parent.Remaining())|
      ensures !done ==> !NoSize(old(parent.Remaining()))
      ensures done ==> current == old(current)
      ensures done && err == NoError ==> goal == Some((current, parent.Remaining()))
      ensures old(parent.Steady()) ==> parent.Steady() && (done && goal.Some? ==> err == NoError)
      ensures old(parent.Steady()) && NoSize(old(parent.Remaining())) ==>
        err == IllegalBytes && parent.Remaining() == old(parent.Remaining())[1..]
      ensures old(Foreseen(lone)) ==> Foreseen(lone)
    {
      ReadsOn(goal, parent.Remaining(), current);
      var next, e, got := NextByte(0 as char, lone);
      if e != NoError { return true, e; }
      if IsDigit(next) {
        current := (current * 10 + DigitValue(next)) % UINT64;
        return false, NoError;
      } else if next == '\r' {
        err := SizeEnd(next, lone);
        return true, err;
      } else {
        return true, IllegalBytes;
      }
    }

    /** The byte behind the CR, which should be an LF. */
    method SizeEnd(last: char, ghost lone: set<nat>) returns (err: Error)
      requires parent.Valid() && last != '\n'
      modifies parent, parent.impl
      ensures parent.Valid() && |parent.impl.plan| <= |old(parent.impl.plan)| && |parent.Remaining()| <= |old(parent.Remaining())|
      ensures err == NoError ==> "\n" <= old(parent.Remaining()) && parent.Remaining() == old(parent.Remaining())[1..]
      ensures old(parent.Steady()) ==> parent.Steady() && ("\n" <= old(parent.Remaining()) ==> err == NoError)
      ensures old(Foreseen(lone)) ==> Foreseen(lone)
    {
      var next, e, got := NextByte(last, lone);
      if e != NoError { return e; }
      return if next == '\n' then NoError else IllegalBytes;
    }

    /** `ReadByte`, behind other reads. */
    method NextByte(last: char, ghost lone: set<nat>) returns (next: char, err: Error, ghost got: string)
      requires parent.Valid()
      modifies parent, parent.impl
      ensures parent.Valid() && |parent.impl.plan| <= |old(parent.impl.plan)|
      ensures got == "" ==> next == last && parent.Remaining() == old(parent.Remaining())
      ensures got != "" ==> old(parent.Remaining()) != "" && next == old(parent.Remaining())[0]
      ensures got != "" ==> parent.Remaining() == old(parent.Remaining())[1..]
      ensures old(parent.Steady()) ==> parent.Steady()
      ensures old(Foreseen(lone)) ==> Foreseen(lone)
      ensures old(parent.Steady()) && old(parent.Remaining()) != "" ==> err == NoError && got != ""
    {
      ghost var r, tracked := parent.Remaining(), Foreseen(lone);
      next, err, got := ReadByte(last);
      assert got != "" ==> r[0] == next && r[1..] == parent.Remaining();
      assert got == "" ==> "" + parent.Remaining() == parent.Remaining();
      if tracked { parent.TracksOn(lone); }
    }

    /** Accepts the end of a chunk when at least one of the two bytes is right, or when only one byte can be had and
        this is the first. It takes the end off exactly when both bytes can be had at once. */
    method ValidateEndOfChunk() returns (err: Error, ghost got: string)
      requires parent.Valid()
      modifies parent, parent.impl
      ensures parent.Valid() && |parent.impl.plan| <= |old(parent.impl.plan)|
      ensures got + parent.Remaining() == old(parent.Remaining()) && |got| <= 2
      ensures |got| == 2 ==> err == Verdict(got)
      ensures |got| < 2 && err == NoError ==> got == "\r"
      ensures 2 <= |old(parent.buf)| + parent.capacity ==>
        |got| == Min(2, old(AtOnce())) && (|got| < 2 && old(parent.NextError()) != NoError ==> err == old(parent.NextError()))
      ensures 2 <= |old(parent.buf)| + parent.capacity && |got| < 2 && old(parent.NextError()) == NoError ==> err == Verdict(got)
      ensures old(parent.Steady()) ==> parent.Steady() && Kept(old(parent.Lone()), parent.Lone(), |parent.Remaining()|)
      ensures old(parent.Steady()) && CRLF <= old(parent.Remaining()) ==> err == NoError
      ensures old(parent.Steady()) && 2 <= |old(parent.Remaining())| ==>
        (|got| == 2 <==> |old(parent.Remaining())| !in old(parent.Lone()))
    {
      ghost var r := parent.Remaining();
      if parent.Steady() && 2 <= |r| { BothAtOnce(|parent.buf|, |parent.impl.unread|, parent.impl.plan, parent.capacity); }
      var count, e, end;
      count, e, end, got := ReadEnd();
      EndBytes(r, got, parent.Remaining());
      if e != NoError { return e, got; }
      return if end[0] != '\r' && end[1] != '\n' then IllegalBytes else NoError, got;
    }

    /** The read behind it: up to two bytes into a zeroed array. */
    method ReadEnd() returns (count: nat, err: Error, end: seq<char>, ghost got: string)
      requires parent.Valid()
      modifies parent, parent.impl
      ensures parent.Valid() && |parent.impl.plan| <= |old(parent.impl.plan)| && count == |got| <= 2
      ensures got + parent.Remaining() == old(parent.Remaining())
      ensures |end| == 2 && end == got + [0 as char, 0 as char][count..]
      ensures count == 2 ==> err == NoError
      ensures 2 <= |old(parent.buf)| + parent.capacity ==>
        count == Min(2, old(AtOnce())) && err == if count < 2 then old(parent.NextError()) else NoError
      ensures old(parent.Steady()) ==> parent.Steady() && Kept(old(parent.Lone()), parent.Lone(), |parent.Remaining()|)
      ensures old(parent.Steady()) && 2 <= |old(parent.Remaining())| ==> err == NoError && count > 0
      ensures old(parent.Steady()) && 2 <= |old(parent.Remaining())| && parent.capacity == 1 ==> count == 2
    {
      var cells := new char[2][0 as char, 0 as char];
      ghost var orig := cells[..];
      count, err, got := parent.Read(cells, 0, 2);
      end := cells[..];
      assert orig == [0 as char, 0 as char];
      assert Put(orig, 0, got) == got + [0 as char, 0 as char][count..];
    }

    /** A chunk end whose two bytes arrive apart passes unnoticed and makes the next size line fail. */
    method EndThenNext() returns (err: Error)
      requires parent.Valid() && parent.capacity >= 2
      modifies `current, parent, parent.impl
      ensures parent.Valid()
      ensures CRLF <= old(parent.Remaining()) && old(AtOnce()) == 1 ==> err != NoError
    {
      ghost var r, got := parent.Remaining(), "";
      err, got := ValidateEndOfChunk();
      if err != NoError { return; }
      EndBytes(r, got, parent.Remaining());
      assert CRLF <= r ==> r[1..] != "" && r[1..][0] == CRLF[1] == '\n';
      err := GetNextChunkSize();
    }

    /** The unread input is the frames of `chunks`, up to here, followed by `tail`. */
    ghost predicate On(chunks: seq<string>, tail: string)
      reads this, parent, parent.impl
    {
      forall k: nat {:trigger Look(k)} :: Look(k) ==> Framed(current, parent.Remaining(), chunks, tail)
    }

    /** The same, behind the second byte of a chunk end that was taken apart. */
    ghost predicate Halved(chunks: seq<string>, tail: string)
      reads this, parent, parent.impl
    {
      forall k: nat {:trigger Look(k)} :: Look(k) ==>
        Sized(chunks) && current == 0 && parent.Remaining() == "\n" + (Frames(chunks) + tail)
    }

    /** After a read: in front of the frames of `rest`, or behind a chunk end that was taken apart. */
    ghost predicate Stands(rest: seq<string>, tail: string, ends: seq<nat>)
      reads this, parent, parent.impl
    {
      if Apart(ends) then Halved(rest, tail) else On(rest, tail)
    }

    /** The check of a chunk end in front of `x`. */
    method TakeEnd(ghost x: string, ghost lone: set<nat>) returns (err: Error, ghost end: nat)
      requires parent.Valid()
      modifies parent, parent.impl
      ensures parent.Valid() && |parent.impl.plan| <= |old(parent.impl.plan)|
      ensures old(parent.Remaining()) == CRLF + x && err == NoError ==> parent.Remaining() == if end == 2 then x else "\n" + x
      ensures old(parent.Steady()) ==> parent.Steady()
      ensures old(parent.Steady()) && old(parent.Remaining()) == CRLF + x ==> err == NoError
      ensures old(Foreseen(lone)) ==> Foreseen(lone)
      ensures old(Foreseen(lone)) && old(parent.Remaining()) == CRLF + x ==> (end == 2 <==> |x| + 2 !in lone)
    {
      ghost var r, got, tracked := parent.Remaining(), "", Foreseen(lone);
      if tracked { parent.Tracked(lone); }
      EndCut(x);
      err, got := ValidateEndOfChunk();
      if tracked { parent.TracksOn(lone); }
      EndBytes(r, got, parent.Remaining());
      end := |got|;
    }

    /** Reads a size line and, for the last chunk, its end. */
    method NextChunk(ghost rest: seq<string>, ghost tail: string, ghost lone: set<nat>) returns (err: Error, last: bool)
      requires parent.Valid() && current == 0
      modifies `current, parent, parent.impl
      ensures parent.Valid() && |parent.impl.plan| <= |old(parent.impl.plan)|
      ensures err == NoError && !last ==> current > 0
      ensures old(On(rest, tail)) && rest != [] && err == NoError ==> !last && On(rest, tail)
      ensures old(On(rest, tail)) && rest == [] && tail == "" ==> err != NoError
      ensures old(On(rest, tail)) && rest == [] && LAST_CHUNK <= tail && err == NoError ==> last
      ensures old(Halved(rest, tail)) ==> err != NoError
      ensures old(parent.Steady()) ==> parent.Steady()
      ensures old(Foreseen(lone)) ==> parent.Tracks(lone)
      ensures old(parent.Steady()) && old(On(rest, tail)) && (rest != [] || LAST_CHUNK <= tail) ==> err == NoError
      ensures old(parent.Steady()) && old(Halved(rest, tail)) ==> err == IllegalBytes && current == 0 && On(rest, tail)
      ensures old(Foreseen(lone)) && old(On(rest, tail)) && rest == [] && LAST_CHUNK <= tail ==>
        |tail| - 3 in lone || parent.Remaining() == tail[5..]
    {
      ghost var tracked := Foreseen(lone);
      assert Look(0);
      if On(rest, tail) { SizeOfNext(rest, tail); }
      if Halved(rest, tail) { NoSizeLine(Frames(rest) + tail); }
      err := GetNextChunkSize();
      if tracked { parent.TracksOn(lone); }
      last := false;
      if err != NoError { return; }
      if current == 0 {
        ghost var end;
        err, end := TakeEnd(if LAST_CHUNK <= tail then tail[5..] else "", lone);
        last := true;
      }
    }

    /** One payload read inside a chunk. */
    method TakePayload(data: array<char>, lo: nat, hi: nat, ghost rest: seq<string>, ghost tail: string, ghost lone: set<nat>)
      returns (count: nat, err: Error, ghost got: string, ghost rest': seq<string>)
      requires parent.Valid() && lo < hi <= data.Length && 0 < current
      modifies `current, parent, parent.impl, data
      ensures parent.Valid() && count == |got| <= hi - lo && |parent.impl.plan| <= |old(parent.impl.plan)|
      ensures err == NoError && count == 0 ==> |parent.impl.plan| < |old(parent.impl.plan)|
      ensures data[..] == Put(old(data[..]), lo, got) && (err != NoError ==> current > 0)
      ensures old(On(rest, tail)) ==> got + Flat(rest') == Flat(rest)
      ensures old(On(rest, tail)) && current > 0 ==> On(rest', tail) && Passed(rest, rest', [])
      ensures old(On(rest, tail)) && current == 0 ==> AtEnd(rest, rest', parent.Remaining(), tail)
      ensures old(parent.Steady()) ==> parent.Steady() && (old(On(rest, tail)) ==> err == NoError)
      ensures old(Foreseen(lone)) ==> Foreseen(lone)
    {
      ghost var tracked := Foreseen(lone);
      assert Look(0);
      var amount := Min(hi - lo, current);
      ghost var ok := On(rest, tail);
      count, err, got := parent.Read(data, lo, lo + amount);
      if tracked { parent.TracksOn(lone); }
      current := current - count;
      rest' := rest;
      if ok {
        AfterRead(rest, tail, got, parent.Remaining());
        AfterPassed(rest, count);
        rest' := After(rest, count);
      }
    }

    /** One payload read inside a chunk and, when it ends the chunk, the check of its end;
        `ends` says how many bytes of the end this took. */
    method ReadPayload(data: array<char>, lo: nat, hi: nat, ghost rest: seq<string>, ghost tail: string, ghost lone: set<nat>)
      returns (count: nat, err: Error, ghost got: string, ghost rest': seq<string>, ghost ends: seq<nat>)
      requires parent.Valid() && lo < hi <= data.Length && 0 < current
      modifies `current, parent, parent.impl, data
      ensures parent.Valid() && count == |got| <= hi - lo && |parent.impl.plan| <= |old(parent.impl.plan)|
      ensures err == NoError && count == 0 ==> |parent.impl.plan| < |old(parent.impl.plan)|
      ensures data[..] == Put(old(data[..]), lo, got) && |ends| <= 1 && Whole(ends)
      ensures old(On(rest, tail)) ==> got + Flat(rest') == Flat(rest) && Passed(rest, rest', ends)
      ensures old(On(rest, tail)) && err == NoError ==> Stands(rest', tail, ends)
      ensures old(parent.Steady()) ==> parent.Steady()
      ensures old(Foreseen(lone)) ==> parent.Tracks(lone)
      ensures old(parent.Steady()) && old(On(rest, tail)) ==> err == NoError
      ensures old(Foreseen(lone)) && old(On(rest, tail)) ==> Told(rest, tail, ends, lone)
    {
      ends := [];
      count, err, got, rest' := TakePayload(data, lo, hi, rest, tail, lone);
      if err != NoError { return; }
      if current == 0 {
        ghost var end;
        err, end := TakeEnd(Frames(rest') + tail, lone);
        ends := [end];
        if old(On(rest, tail)) { assert Passed(rest, rest', [end]); }
      }
    }

    /** One round of the loop of `read`; `last` after the terminating chunk. */
    method ReadRound(data: array<char>, lo: nat, hi: nat, ghost rest: seq<string>, ghost tail: string, ghost lone: set<nat>)
      returns (count: nat, err: Error, last: bool, ghost got: string, ghost rest': seq<string>, ghost ends: seq<nat>)
      requires parent.Valid() && lo < hi <= data.Length
      modifies `current, parent, parent.impl, data
      ensures parent.Valid() && count == |got| <= hi - lo && |parent.impl.plan| <= |old(parent.impl.plan)|
      ensures err == NoError && count == 0 && !last ==> |parent.impl.plan| < |old(parent.impl.plan)|
      ensures data[..] == Put(old(data[..]), lo, got) && Whole(ends)
      ensures old(On(rest, tail)) && Fair(1, rest, tail) ==> got + Flat(rest') == Flat(rest) && Passed(rest, rest', ends)
      ensures old(On(rest, tail)) && Flat(rest) != "" && err == NoError ==> !last && Stands(rest', tail, ends)
      ensures old(On(rest, tail)) && Flat(rest) == "" && tail == "" ==> err != NoError
      ensures old(On(rest, tail)) && Flat(rest) == "" && LAST_CHUNK <= tail ==> ends == [] && (err == NoError ==> last)
      ensures old(Halved(rest, tail)) ==> err != NoError && got == ""
      ensures old(parent.Steady()) ==> parent.Steady()
      ensures old(Foreseen(lone)) ==> parent.Tracks(lone)
      ensures old(parent.Steady()) && old(On(rest, tail)) && (Flat(rest) != "" || LAST_CHUNK <= tail) ==> err == NoError
      ensures old(parent.Steady()) && old(Halved(rest, tail)) ==> err == IllegalBytes && current == 0 && On(rest, tail)
      ensures old(Foreseen(lone)) && old(On(rest, tail)) && Fair(1, rest, tail) ==>
        Told(rest, tail, ends, lone)
      ensures old(Foreseen(lone)) && old(On(rest, tail)) && Flat(rest) == "" && LAST_CHUNK <= tail ==>
        |tail| - 3 in lone || parent.Remaining() == tail[5..]
    {
      if On(rest, tail) {
        assert Look(0);
        FlatEmpty(rest);
      }
      count, last, got, rest', ends := 0, false, "", rest, [];
      PutNothing(data[..], lo);
      assert "" + Flat(rest) == Flat(rest);
      if Halved(rest, tail) { assert Look(0); }
      if current == 0 {
        err, last := NextChunk(rest, tail, lone);
        if err != NoError || last { return; }
      }
      count, err, got, rest', ends := ReadPayload(data, lo, hi, rest, tail, lone);
    }

    /** Whether a request has a well-defined end: there is enough payload, or something known follows it. */
    static ghost predicate Fair(n: nat, chunks: seq<string>, tail: string) {
      n <= |Flat(chunks)| || tail == "" || LAST_CHUNK <= tail
    }

    /** `got` has been delivered of the payload of `chunks`, `rest` is left, and `ends` were passed. */
    static ghost predicate Split(chunks: seq<string>, got: string, rest: seq<string>, ends: seq<nat>) {
      got + Flat(rest) == Flat(chunks) && Passed(chunks, rest, ends) && Whole(ends)
    }

    /** The next round of `read`, behind what was delivered already; `ok` when the reader stands in frames. */
    method ReadStep(data: array<char>, lo: nat, count: nat, hi: nat, ghost orig: string, ghost ok: bool, ghost chunks: seq<string>,
                    ghost tail: string, ghost lone: set<nat>, ghost got: string, ghost rest: seq<string>, ghost ends: seq<nat>)
      returns (count': nat, err: Error, last: bool, ghost got': string, ghost rest': seq<string>, ghost ends': seq<nat>)
      requires parent.Valid() && lo + count < hi <= data.Length && count == |got|
      requires hi <= |orig| && data[..] == Put(orig, lo, got)
      requires ok ==> Split(chunks, got, rest, ends) && Stands(rest, tail, ends) && Fair(hi - lo, chunks, tail)
      modifies `current, parent, parent.impl, data
      ensures parent.Valid() && count <= count' == |got'| <= hi - lo && data[..] == Put(orig, lo, got')
      ensures |parent.impl.plan| <= |old(parent.impl.plan)|
      ensures err == NoError && count' == count && !last ==> |parent.impl.plan| < |old(parent.impl.plan)|
      ensures ok ==> Split(chunks, got', rest', ends')
      ensures ok && err == NoError ==> if last then Flat(rest') == "" && LAST_CHUNK <= tail else Stands(rest', tail, ends')
      ensures ok && Apart(ends) ==> err != NoError && ends' == ends && got' == got
      ensures ok && err == NoError && last ==> |got'| == |got| && Flat(rest) == ""
      ensures ok && Flat(rest) == "" && tail == "" ==> err != NoError
      ensures old(Halved(rest, tail)) ==> err != NoError && got' == got && rest' == rest && ends' == ends
      ensures old(parent.Steady()) ==> parent.Steady()
      ensures old(Foreseen(lone)) ==> parent.Tracks(lone)
      ensures old(parent.Steady()) && old(Halved(rest, tail)) ==> err == IllegalBytes && current == 0 && On(rest, tail)
      ensures old(parent.Steady()) && ok && !Apart(ends) && (Flat(rest) != "" || LAST_CHUNK <= tail) ==> err == NoError
      ensures old(Foreseen(lone)) && ok && Told(chunks, tail, ends, lone) ==>
        Told(chunks, tail, ends', lone)
      ensures old(Foreseen(lone)) && ok && !Apart(ends) && Flat(rest) == "" && LAST_CHUNK <= tail ==>
        |tail| - 3 in lone || parent.Remaining() == tail[5..]
    {
      ghost var halved := Halved(rest, tail);
      var more, failed, ending, piece, rest1, ends1 := ReadRound(data, lo + count, hi, rest, tail, lone);
      PutTwice(orig, lo, got, piece);
      count', err, last, got' := count + more, failed, ending, got + piece;
      rest', ends' := rest, ends;
      assert piece == "" ==> got + piece == got;
      if ok && !Apart(ends) && !halved {
        SplitMore(chunks, got, rest, ends, piece, rest1, ends1);
        ToldMore(chunks, rest, tail, ends, ends1, lone);
        rest', ends' := rest1, ends + ends1;
      }
    }

    /** What holds of a request for `n` bytes whatever the source does: what is delivered is the payload in order, and
        without an error it is all that was asked for, or all there is before a terminating chunk. */
    ghost predicate Served(n: nat, got: string, err: Error, rest: seq<string>, ends: seq<nat>, chunks: seq<string>, tail: string)
      reads this, parent, parent.impl
    {
      && Split(chunks, got, rest, ends)
      && (err == NoError ==>
            if n <= |Flat(chunks)| then |got| == n && Stands(rest, tail, ends) else Flat(rest) == "" && LAST_CHUNK <= tail)
    }

    /** What holds over a steady source as well: a request for payload that is there fails exactly behind a chunk end
        that was taken apart, and then the rest of that end is gone too; one for more than is there fails if nothing
        follows the last chunk, and otherwise only behind such an end. */
    ghost predicate Granted(n: nat, got: string, err: Error, rest: seq<string>, ends: seq<nat>, chunks: seq<string>, tail: string)
      reads this, parent, parent.impl
    {
      if n <= |Flat(chunks)| then
        && (err == NoError <==> !Apart(ends) || |got| == n)
        && (err != NoError ==> err == IllegalBytes && |got| < n && current == 0 && On(rest, tail))
      else
        (tail == "" ==> err != NoError) && (LAST_CHUNK <= tail && !Apart(ends) ==> err == NoError)
    }

    /** Where the loop of `read` stops without an error: with all that was asked for, or at a terminating chunk. */
    ghost predicate Stopped(n: nat, got: string, last: bool, rest: seq<string>, ends: seq<nat>, tail: string)
      reads this, parent, parent.impl
    {
      if last then Flat(rest) == "" && LAST_CHUNK <= tail && |got| < n else |got| == n && Stands(rest, tail, ends)
    }

    /** Where it fails over a steady source: behind a chunk end that was taken apart, or where nothing follows. */
    ghost predicate Failed(n: nat, got: string, err: Error, rest: seq<string>, ends: seq<nat>, tail: string)
      reads this, parent, parent.impl
    {
      && |got| < n
      && ((Apart(ends) && err == IllegalBytes && current == 0 && On(rest, tail)) || (Flat(rest) == "" && !(LAST_CHUNK <= tail)))
    }

    /** The loop of `read`; `ok` when the reader stands in frames. */
    method ReadLoop(data: array<char>, lo: nat, hi: nat, ghost ok: bool, ghost chunks: seq<string>, ghost tail: string,
                    ghost lone: set<nat>)
      returns (count: nat, err: Error, last: bool, ghost got: string, ghost rest: seq<string>, ghost ends: seq<nat>)
      requires parent.Valid() && lo <= hi <= data.Length && (ok ==> On(chunks, tail) && Fair(hi - lo, chunks, tail))
      modifies `current, parent, parent.impl, data
      ensures parent.Valid() && count == |got| <= hi - lo && data[..] == Put(old(data[..]), lo, got)
      ensures lo == hi ==> err == NoError && current == old(current) && parent.Remaining() == old(parent.Remaining())
      ensures lo == hi ==> ends == [] && rest == chunks
      ensures ok ==> Split(chunks, got, rest, ends) && (err == NoError ==> Stopped(hi - lo, got, last, rest, ends, tail))
      ensures old(Halved(chunks, tail)) && lo < hi ==> err != NoError && got == "" && rest == chunks && ends == []
      ensures old(parent.Steady()) ==> parent.Steady()
      ensures old(Foreseen(lone)) ==> parent.Tracks(lone) && (ok ==> Told(chunks, tail, ends, lone))
      ensures old(parent.Steady()) && ok && err != NoError ==> Failed(hi - lo, got, err, rest, ends, tail)
      ensures old(parent.Steady()) && old(Halved(chunks, tail)) && lo < hi ==> err == IllegalBytes && current == 0 && On(chunks, tail)
      ensures old(Foreseen(lone)) && ok && hi - lo > |Flat(chunks)| && LAST_CHUNK <= tail && err == NoError ==>
        |tail| - 3 in lone || parent.Remaining() == tail[5..]
    {
      count, err, last, got, rest, ends := 0, NoError, false, "", chunks, [];
      ghost var orig := data[..];
      PutNothing(orig, lo);
      assert "" + Flat(chunks) == Flat(chunks);
      while count < hi - lo
        invariant !last && parent.Valid() && count == |got| <= hi - lo && err == NoError && data[..] == Put(orig, lo, got)
        invariant ok ==> Split(chunks, got, rest, ends) && Stands(rest, tail, ends)
        invariant old(Halved(chunks, tail)) ==> got == "" && Halved(rest, tail) && rest == chunks && ends == []
        invariant lo == hi ==> current == old(current) && parent.Remaining() == old(parent.Remaining())
        invariant lo == hi ==> rest == chunks && ends == []
        invariant old(parent.Steady()) ==> parent.Steady()
        invariant old(Foreseen(lone)) ==> parent.Tracks(lone) && (ok ==> Told(chunks, tail, ends, lone))
        decreases hi - lo - count, |parent.impl.plan|
      {
        count, err, last, got, rest, ends := ReadStep(data, lo, count, hi, orig, ok, chunks, tail, lone, got, rest, ends);
        if err != NoError || last { return; }
      }
    }

    /** `read`: what is delivered is the payload of the chunks, whatever the sizes of the requests. */
    method Read(data: array<char>, lo: nat, hi: nat, ghost chunks: seq<string>, ghost tail: string, ghost lone: set<nat>)
      returns (count: nat, err: Error, ghost got: string, ghost rest: seq<string>, ghost ends: seq<nat>)
      requires parent.Valid() && lo <= hi <= data.Length
      modifies `current, parent, parent.impl, data
      ensures parent.Valid() && count == |got| <= hi - lo && data[..] == Put(old(data[..]), lo, got)
      ensures lo == hi ==> err == NoError && current == old(current) && parent.Remaining() == old(parent.Remaining())
      ensures lo == hi ==> ends == [] && rest == chunks
      ensures old(On(chunks, tail)) && Fair(hi - lo, chunks, tail) ==> Served(hi - lo, got, err, rest, ends, chunks, tail)
      ensures old(Halved(chunks, tail)) && lo < hi ==> err != NoError && got == "" && rest == chunks && ends == []
      ensures old(parent.Steady()) ==> parent.Steady()
      ensures old(parent.Steady()) && old(On(chunks, tail)) && Fair(hi - lo, chunks, tail) ==>
        Granted(hi - lo, got, err, rest, ends, chunks, tail)
      ensures old(parent.Steady()) && old(Halved(chunks, tail)) && lo < hi ==>
        err == IllegalBytes && current == 0 && On(chunks, tail)
      // where the source gives single bytes decides which chunk ends are taken apart
      ensures old(parent.Steady()) && Kept(lone, old(parent.Lone()), |old(parent.Remaining())|) ==>
        && Kept(lone, parent.Lone(), |parent.Remaining()|)
        && (old(On(chunks, tail)) && Fair(hi - lo, chunks, tail) ==> Told(chunks, tail, ends, lone))
        && (old(On(chunks, tail)) && hi - lo > |Flat(chunks)| && LAST_CHUNK <= tail && err == NoError ==>
              |tail| - 3 in lone || parent.Remaining() == tail[5..])
    {
      var last;
      ghost var tracked := parent.Steady() && Kept(lone, parent.Lone(), |parent.Remaining()|);
      if tracked { parent.StartTracking(lone); }
      count, err, last, got, rest, ends :=
        ReadLoop(data, lo, hi, On(chunks, tail) && Fair(hi - lo, chunks, tail), chunks, tail, lone);
      if tracked { parent.Tracked(lone); }
    }
  }

  lemma EndBytes(r: string, got: string, rest: string)
    requires got + rest == r && |got| <= 2
    ensures |got| == 2 && CRLF <= r ==> got == CRLF && rest == r[2..]
    ensures |got| == 1 && CRLF <= r ==> got == "\r" && rest == r[1..]
    ensures |got| == 0 ==> rest == r
    ensures CRLF <= r ==> |r[2..]| != |r[1..]| && |r| != |r[2..]|
  {
    if CRLF <= r {
      assert r[..2] == CRLF;
      assert r[0] == '\r' && r[1] == '\n';
    }
  }

  lemma EndCut(x: string)
    ensures CRLF <= CRLF + x && (CRLF + x)[2..] == x && (CRLF + x)[1..] == "\n" + x && "\n" + x != x
  {
    assert |"\n" + x| == |x| + 1;
  }

  /** Two bytes can be had at once unless the source is to be asked and gives a single one. */
  lemma BothAtOnce(buffered: nat, left: nat, plan: seq<Reply>, capacity: nat)
    requires capacity > 0 && left <= |plan| && AtLeast(plan, 1) && 2 <= buffered + left
    ensures capacity == 1 ==> LoneReads(left, plan, capacity) == {}
    ensures capacity > 1 ==>
      (buffered + left in LoneReads(left, plan, capacity) <==>
         buffered + (if plan == [] then 0 else Min(Min(plan[0].limit, capacity), left)) < 2)
  {
    if capacity == 1 { NoLone(left, plan, capacity); }
  }

  /** Text that does not begin like a size line. */
  predicate NoSize(s: string) {
    s != "" && !IsDigit(s[0]) && s[0] != '\r'
  }

  lemma NoSizeLine(x: string)
    ensures NoSize("\n" + x) && ("\n" + x)[1..] == x && SizeLine("\n" + x, 0) == None
  {
  }

  /** What the bytes of a chunk end are worth: one right byte is enough. */
  function Verdict(got: string): Error {
    if (|got| > 0 && got[0] == '\r') || (|got| > 1 && got[1] == '\n') then NoError else IllegalBytes
  }

  // ---------------------------------------------------------------- what a run has passed

  /** The last chunk end was taken apart; `ends` says for each end how many of its bytes the read for both took. */
  predicate Apart(ends: seq<nat>) {
    ends != [] && ends[|ends| - 1] != 2
  }

  /** All ends but possibly the last were taken whole. */
  ghost predicate Whole(ends: seq<nat>) {
    forall i :: 0 <= i < |ends| - 1 ==> ends[i] == 2
  }

  /** What is left when the reader is at the end of a chunk. */
  function EndLeft(chunks: seq<string>, i: nat, tail: string): nat
    requires i < |chunks|
  {
    |Frames(chunks[i + 1..])| + |tail| + 2
  }

  /** An end was taken whole exactly when the source does not give a single byte there. */
  ghost predicate Told(chunks: seq<string>, tail: string, ends: seq<nat>, lone: set<nat>) {
    |ends| <= |chunks| && forall i :: 0 <= i < |ends| ==> (ends[i] == 2 <==> EndLeft(chunks, i, tail) !in lone)
  }

  lemma ToldMore(chunks: seq<string>, rest: seq<string>, tail: string, ends: seq<nat>, more: seq<nat>, lone: set<nat>)
    requires Passed(chunks, rest, ends)
    ensures Told(chunks, tail, ends, lone) && Told(rest, tail, more, lone) ==> Told(chunks, tail, ends + more, lone)
  {
    forall j | 0 <= j < |rest|
      ensures EndLeft(rest, j, tail) == EndLeft(chunks, |ends| + j, tail)
    {
      assert rest[j + 1..] == rest[1..][j..] == chunks[|ends| + 1..][j..] == chunks[|ends| + j + 1..];
    }
  }

  /** `rest` is what is left of `all` behind as many chunk ends as `ends` has, directly behind the last of them if that
      was taken apart. */
  ghost predicate Passed(all: seq<string>, rest: seq<string>, ends: seq<nat>) {
    && |ends| + |rest| == |all|
    && (rest != [] ==> rest[1..] == all[|ends| + 1..] && |rest[0]| <= |all[|ends|]|)
    && (Apart(ends) ==> rest == all[|ends|..])
  }

  /** The payload of the first chunk has been read, and its end is next. */
  ghost predicate AtEnd(chunks: seq<string>, rest: seq<string>, r: string, tail: string) {
    && chunks != [] && rest == chunks[1..] && Sized(rest) && r == CRLF + (Frames(rest) + tail)
    && forall n: nat :: Passed(chunks, rest, [n])
  }

  lemma AfterPassed(chunks: seq<string>, count: nat)
    requires chunks != [] && count <= |chunks[0]|
    ensures count < |chunks[0]| ==> Passed(chunks, After(chunks, count), [])
    ensures count == |chunks[0]| ==> forall n: nat :: Passed(chunks, After(chunks, count), [n])
  {
    var after := After(chunks, count);
    if count < |chunks[0]| {
      assert after[1..] == chunks[1..];
    } else {
      assert after != [] ==> after[1..] == chunks[2..];
    }
  }

  /** Two deliveries, of which the first left no chunk end apart. */
  lemma SplitMore(chunks: seq<string>, got: string, rest: seq<string>, ends: seq<nat>,
                  piece: string, rest1: seq<string>, ends1: seq<nat>)
    requires ChunkedReader.Split(chunks, got, rest, ends) && !Apart(ends) && ChunkedReader.Split(rest, piece, rest1, ends1)
    ensures ChunkedReader.Split(chunks, got + piece, rest1, ends + ends1) && (Apart(ends + ends1) <==> Apart(ends1))
  {
    TakeTwice(got, piece, Flat(chunks), Flat(rest), Flat(rest1));
    PassedMore(chunks, rest, rest1, ends, ends1);
  }

  lemma PassedMore(all: seq<string>, mid: seq<string>, rest: seq<string>, ends: seq<nat>, more: seq<nat>)
    requires Passed(all, mid, ends) && Passed(mid, rest, more) && !Apart(ends) && Whole(ends) && Whole(more)
    ensures Passed(all, rest, ends + more) && Whole(ends + more)
  {
    if more == [] {
      assert ends + more == ends;
    } else {
      assert Apart(ends + more) == Apart(more);
      assert mid[1..] == all[|ends| + 1..];
      assert forall i :: 1 <= i < |mid| ==> mid[i] == mid[1..][i - 1] == all[|ends| + i];
      assert mid[|more|..] == all[|ends| + |more|..];
      assert rest != [] ==> mid[|more| + 1..] == all[|ends| + |more| + 1..];
    }
  }

  lemma FlatEmpty(chunks: seq<string>)
    ensures Sized(chunks) ==> (Flat(chunks) == "" <==> chunks == [])
  {
  }

  const LAST_CHUNK := "0\r\n\r\n"

  ghost predicate Sized(chunks: seq<string>) {
    forall i :: 0 <= i < |chunks| ==> 0 < |chunks[i]| < UINT64
  }

  /** `r` is the unread part of the frames of `chunks` and then `tail`, `current` bytes before the end of a payload. */
  ghost predicate Framed(current: nat, r: string, chunks: seq<string>, tail: string) {
    Sized(chunks) && if current == 0 then r == Frames(chunks) + tail else InChunk(current, r, chunks, tail)
  }

  ghost predicate InChunk(current: nat, r: string, chunks: seq<string>, tail: string) {
    && Sized(chunks) && chunks != [] && |chunks[0]| == current
    && r == chunks[0] + (CRLF + (Frames(chunks[1..]) + tail))
  }

  /** The chunks after `count` bytes of the first have been read. */
  ghost function After(chunks: seq<string>, count: nat): seq<string>
    requires chunks != [] && count <= |chunks[0]|
  {
    if count == |chunks[0]| then chunks[1..] else [chunks[0][count..]] + chunks[1..]
  }

  lemma AfterRead(chunks: seq<string>, tail: string, got: string, r: string)
    requires chunks != [] && Sized(chunks) && |got| <= |chunks[0]|
    requires got + r == chunks[0] + (CRLF + (Frames(chunks[1..]) + tail))
    ensures got + Flat(After(chunks, |got|)) == Flat(chunks) && Sized(After(chunks, |got|))
    ensures |got| == |chunks[0]| ==> r == CRLF + (Frames(chunks[1..]) + tail)
    ensures |got| < |chunks[0]| ==> InChunk(|chunks[0]| - |got|, r, After(chunks, |got|), tail)
  {
    var x := CRLF + (Frames(chunks[1..]) + tail);
    var n := |got|;
    assert (got + r)[..n] == got && (got + r)[n..] == r;
    assert (chunks[0] + x)[..n] == chunks[0][..n] && (chunks[0] + x)[n..] == chunks[0][n..] + x;
    if n == |chunks[0]| {
      assert chunks[0][..n] == chunks[0] && "" + x == x;
    } else {
      var after := After(chunks, n);
      assert after[1..] == chunks[1..];
      assert got + (chunks[0][n..] + Flat(chunks[1..])) == chunks[0] + Flat(chunks[1..]);
    }
  }

  lemma SizeOfLast(tail: string)
    requires LAST_CHUNK <= tail
    ensures SizeLine(tail, 0) == Some((0, CRLF + tail[5..])) && (CRLF + tail[5..])[2..] == tail[5..]
  {
    assert tail[0] == '0' && tail[1] == '\r' && tail[2] == '\n' && tail[3] == '\r' && tail[4] == '\n';
    var s := tail[1..];
    assert SizeLine(tail, 0) == SizeLine(s, 0);
    assert SizeLine(s, 0) == Some((0, s[2..]));
    assert s[2..] == CRLF + tail[5..];
  }

  /** What the size line at the front of the frames says. */
  lemma SizeOfNext(chunks: seq<string>, tail: string)
    requires Sized(chunks)
    ensures chunks != [] ==>
      SizeLine(Frames(chunks) + tail, 0) == Some((|chunks[0]|, chunks[0] + (CRLF + (Frames(chunks[1..]) + tail))))
    ensures chunks == [] && tail == "" ==> SizeLine(Frames(chunks) + tail, 0) == None
    ensures chunks == [] && LAST_CHUNK <= tail ==>
      SizeLine(Frames(chunks) + tail, 0) == Some((0, CRLF + tail[5..])) && (CRLF + tail[5..])[2..] == tail[5..]
  {
    if chunks != [] {
      var rest := chunks[0] + (CRLF + (Frames(chunks[1..]) + tail));
      SizeLineOfFrame(|chunks[0]|, rest);
      assert Frames(chunks) + tail == Digits(|chunks[0]|) + CRLF + rest;
    } else {
      assert "" + tail == tail;
      if LAST_CHUNK <= tail { SizeOfLast(tail); }
    }
  }

  // ---------------------------------------------------------------- round trip

  /** All chunks that a sequence of writes sends. */
  function Chunks(payloads: seq<string>): seq<string> {
    if payloads == [] then []
    else Chunks(payloads[..|payloads| - 1]) + Cut(payloads[|payloads| - 1], ChunkSize(payloads[|payloads| - 1]))
  }

  lemma {:induction false} ChunksFlat(payloads: seq<string>)
    ensures Flat(Chunks(payloads)) == Flat(payloads) && Sized(Chunks(payloads))
  {
    if payloads == [] {
    } else {
      var front, last := payloads[..|payloads| - 1], payloads[|payloads| - 1];
      ChunksFlat(front);
      CutFlat(last, ChunkSize(last));
      FlatConcat(Chunks(front), Cut(last, ChunkSize(last)));
      FlatConcat(front, [last]);
      assert front + [last] == payloads;
      assert Flat([last]) == last + Flat([last][1..]) == last;
    }
  }

  lemma ChunksStep(payloads: seq<string>, k: nat)
    requires k < |payloads|
    ensures Frames(Chunks(payloads[..k + 1])) == Frames(Chunks(payloads[..k])) + Encoded(payloads[k])
  {
    var front := payloads[..k + 1];
    assert front[..|front| - 1] == payloads[..k] && front[k] == payloads[k];
    FramesConcat(Chunks(payloads[..k]), Cut(payloads[k], ChunkSize(payloads[k])));
  }

  lemma {:induction false} ChunksPrefix(payloads: seq<string>, k: nat)
    requires k <= |payloads|
    ensures Frames(Chunks(payloads[..k])) <= Frames(Chunks(payloads))
    decreases |payloads| - k
  {
    if k < |payloads| {
      ChunksStep(payloads, k);
      ChunksPrefix(payloads, k + 1);
    } else {
      assert payloads[..k] == payloads;
    }
  }

  function Sum(sizes: seq<nat>): nat {
    if sizes == [] then 0 else Sum(sizes[..|sizes| - 1]) + sizes[|sizes| - 1]
  }

  /** Sends the payloads, one `write` each, behind what was written before. */
  method SendAll(sink: Sink, payloads: seq<string>) returns (ok: bool)
    requires sink.whole && forall i :: 0 <= i < |payloads| ==> Writable(payloads[i])
    modifies sink
    ensures ok ==> sink.written == old(sink.written) + Frames(Chunks(payloads))
    ensures sink.written <= old(sink.written) + Frames(Chunks(payloads))
    ensures old(sink.Reliable()) ==> ok
  {
    var writer := new ChunkedWriter(sink);
    ghost var before := sink.written;
    assert payloads[..0] == [] && before + "" == before;
    for k := 0 to |payloads|
      invariant writer.parent == sink && sink.written == before + Frames(Chunks(payloads[..k]))
      invariant old(sink.Reliable()) ==> sink.Reliable()
    {
      ChunksStep(payloads, k);
      Associate(before, Frames(Chunks(payloads[..k])), Encoded(payloads[k]));
      var count, err, left;
      ghost var rounds;
      count, err, left, rounds := writer.Write(payloads[k]);
      ChunksPrefix(payloads, k + 1);
      if err != NoError { return false; }
    }
    assert payloads[..|payloads|] == payloads;
    return true;
  }

  /** What arrives of the payloads are the frames of their chunks. */
  method WriteAll(payloads: seq<string>, replies: seq<Reply>, endless: bool) returns (ok: bool, wire: string)
    requires forall i :: 0 <= i < |payloads| ==> Writable(payloads[i])
    ensures ok ==> wire == Frames(Chunks(payloads))
    ensures wire <= Frames(Chunks(payloads))
    ensures endless && (forall i :: 0 <= i < |replies| ==> replies[i].err == NoError) ==> ok
  {
    var sink := new Sink(replies, true, endless);
    ok := SendAll(sink, payloads);
    wire := sink.written;
    assert "" + Frames(Chunks(payloads)) == Frames(Chunks(payloads));
  }

  /** The first chunk at whose end the source gives a single byte, or the number of chunks. */
  function Broken(chunks: seq<string>, lone: set<nat>): (j: nat)
    ensures j <= |chunks|
  {
    if chunks == [] || |Frames(chunks[1..])| + 2 in lone then 0 else 1 + Broken(chunks[1..], lone)
  }

  /** A run over a steady source that asks for `n` bytes: it is complete exactly when the bytes asked for end with the
      first chunk at whose end the source gives a single byte, or before; otherwise the chunks up to this one are
      delivered, and the frames of the others are left. */
  ghost predicate RunsTo(chunks: seq<string>, n: nat, lone: set<nat>, complete: bool, out: string, left: string) {
    var j := Broken(chunks, lone);
    && (complete <==> j == |chunks| || n <= |Flat(chunks[..j + 1])|)
    && (!complete ==> out == Flat(chunks[..j + 1]) && left == Frames(chunks[j + 1..]))
  }

  /** For any sequence of writes, any sequence of request sizes that asks for no more than was written, and any source:
      the reads deliver the payload in order, and all that was asked for unless one reports an error. Over a steady
      source `RunsTo` says when and where that happens: never if the source delivers two bytes at once or the buffer
      holds one, and at the end of the first chunk if the bytes come one at a time. */
  method RoundTrip(payloads: seq<string>, sizes: seq<nat>, replies: seq<Reply>, endless: bool, plan: seq<Reply>, capacity: nat)
    returns (sent: bool, complete: bool, out: string, left: string)
    requires forall i :: 0 <= i < |payloads| ==> Writable(payloads[i])
    requires Sum(sizes) <= |Flat(payloads)|
    ensures endless && (forall i :: 0 <= i < |replies| ==> replies[i].err == NoError) ==> sent
    ensures sent ==> out <= Flat(payloads)[..Sum(sizes)]
    ensures sent && complete ==> out == Flat(payloads)[..Sum(sizes)]
    ensures sent && capacity >= 1 && |Frames(Chunks(payloads))| <= |plan| && AtLeast(plan, 1) ==>
      RunsTo(Chunks(payloads), Sum(sizes), LoneReads(|Frames(Chunks(payloads))|, plan, capacity), complete, out, left)
    ensures sent && capacity >= 1 && |Frames(Chunks(payloads))| <= |plan| && AtLeast(plan, if capacity == 1 then 1 else 2) ==>
      complete
    ensures sent && capacity >= 2 && |Frames(Chunks(payloads))| <= |plan| && AtLeast(plan, 1) && AtMost(plan, 1) ==>
      (complete <==> Sum(sizes) == 0 || (Chunks(payloads) != [] && Sum(sizes) <= |Chunks(payloads)[0]|))
  {
    complete, out, left := false, "", "";
    var wire;
    sent, wire := WriteAll(payloads, replies, endless);
    if !sent { return; }
    var source := new Source(wire, plan);
    complete, out, left := ReadAll(source, payloads, sizes, capacity);
  }

  ghost predicate AtMost(plan: seq<Reply>, most: nat) {
    forall i :: 0 <= i < |plan| ==> plan[i].limit <= most
  }

  /** What was read so far, and what is left of it. */
  ghost predicate Progress(reader: ChunkedReader, out: string, rest: seq<string>, ends: seq<nat>, chunks: seq<string>)
    reads reader, reader.parent, reader.parent.impl
  {
    ChunkedReader.Split(chunks, out, rest, ends) && reader.Stands(rest, "", ends)
  }

  /** The chunk ends were taken as the source gives bytes, which so far it does as foreseen. */
  ghost predicate Watched(reader: ChunkedReader, ends: seq<nat>, chunks: seq<string>, lone: set<nat>)
    reads reader.parent, reader.parent.impl
  {
    && reader.parent.Steady() && Told(chunks, "", ends, lone)
    && Kept(lone, reader.parent.Lone(), |reader.parent.Remaining()|)
  }

  /** One read of a run that has not failed. */
  method ReadSome(reader: ChunkedReader, size: nat, ghost out: string, ghost rest: seq<string>, ghost ends: seq<nat>,
                  ghost chunks: seq<string>, ghost lone: set<nat>)
    returns (err: Error, more: string, ghost rest': seq<string>, ghost ends': seq<nat>)
    requires reader.parent.Valid() && Progress(reader, out, rest, ends, chunks) && size <= |Flat(rest)|
    modifies reader, reader.parent, reader.parent.impl
    ensures reader.parent.Valid() && |more| <= size && ChunkedReader.Split(chunks, out + more, rest', ends')
    ensures err == NoError ==> |more| == size && reader.Stands(rest', "", ends')
    ensures old(reader.parent.Steady()) ==> reader.parent.Steady()
    ensures old(Watched(reader, ends, chunks, lone)) ==> Watched(reader, ends', chunks, lone)
    ensures old(reader.parent.Steady()) && err != NoError ==>
      Apart(ends') && |more| < size && err == IllegalBytes && reader.parent.Remaining() == Frames(rest')
  {
    var data := new char[size];
    var count, err', got, rest1, ends1 := reader.Read(data, 0, size, rest, "", lone);
    assert data[..count] == data[..][0..count] == got;
    err, more := err', data[..count];
    rest', ends' := rest, ends;
    assert more == "" ==> out + more == out;
    if size == 0 {
      assert Look(0);
    } else if !Apart(ends) {
      SplitMore(chunks, out, rest, ends, got, rest1, ends1);
      ToldMore(chunks, rest, "", ends, ends1, lone);
      rest', ends' := rest1, ends + ends1;
    }
    if old(reader.parent.Steady()) && err != NoError {
      assert Look(0);
      assert Frames(rest') + "" == Frames(rest');
    }
  }

  lemma PrefixOf(out: string, rest: string, all: string, n: nat)
    requires out + rest == all && |out| <= n <= |all|
    ensures out <= all[..n] && (|out| == n ==> out == all[..n])
  {
  }

  /** How much was delivered, by the number of ends passed. */
  lemma SplitSize(chunks: seq<string>, out: string, rest: seq<string>, ends: seq<nat>)
    requires ChunkedReader.Split(chunks, out, rest, ends)
    ensures |ends| <= |chunks| && |Flat(chunks[..|ends|])| <= |out|
    ensures |ends| < |chunks| ==> |out| <= |Flat(chunks[..|ends| + 1])|
    ensures Apart(ends) ==> out == Flat(chunks[..|ends|])
  {
    var m := |ends|;
    FlatConcat(chunks[..m], chunks[m..]);
    assert chunks[..m] + chunks[m..] == chunks;
    if m < |chunks| {
      FlatConcat(chunks[..m], [chunks[m]]);
      assert chunks[..m + 1] == chunks[..m] + [chunks[m]];
      assert Flat([chunks[m]]) == chunks[m] + Flat([chunks[m]][1..]) == chunks[m];
      assert chunks[m..][1..] == chunks[m + 1..];
    }
    if Apart(ends) {
      assert Flat(chunks)[..|out|] == out && Flat(chunks)[..|Flat(chunks[..m])|] == Flat(chunks[..m]);
    }
  }

  lemma {:induction false} FlatGrows(chunks: seq<string>, i: nat, j: nat)
    requires i <= j <= |chunks|
    ensures |Flat(chunks[..i])| <= |Flat(chunks[..j])|
  {
    FlatConcat(chunks[..i], chunks[i..j]);
    assert chunks[..i] + chunks[i..j] == chunks[..j];
  }

  lemma {:induction false} BrokenAt(chunks: seq<string>, lone: set<nat>, j: nat)
    requires j < |chunks| && EndLeft(chunks, j, "") in lone && forall i :: 0 <= i < j ==> EndLeft(chunks, i, "") !in lone
    ensures Broken(chunks, lone) == j
    decreases |chunks|
  {
    assert EndLeft(chunks, 0, "") == |Frames(chunks[1..])| + 2;
    if j > 0 {
      EndsShift(chunks);
      BrokenAt(chunks[1..], lone, j - 1);
    }
  }

  lemma {:induction false} BrokenBehind(chunks: seq<string>, lone: set<nat>, m: nat)
    requires m <= |chunks| && forall i :: 0 <= i < m ==> EndLeft(chunks, i, "") !in lone
    ensures m <= Broken(chunks, lone)
    decreases |chunks|
  {
    if m > 0 {
      assert EndLeft(chunks, 0, "") == |Frames(chunks[1..])| + 2;
      EndsShift(chunks);
      BrokenBehind(chunks[1..], lone, m - 1);
    }
  }

  lemma EndsShift(chunks: seq<string>)
    requires chunks != []
    ensures forall i :: 0 <= i < |chunks| - 1 ==> EndLeft(chunks[1..], i, "") == EndLeft(chunks, i + 1, "")
  {
    forall i | 0 <= i < |chunks| - 1
      ensures EndLeft(chunks[1..], i, "") == EndLeft(chunks, i + 1, "")
    {
      assert chunks[1..][i + 1..] == chunks[i + 2..];
    }
  }

  /** A run that stops is one that was bound to. */
  lemma RunExact(chunks: seq<string>, n: nat, lone: set<nat>, complete: bool, out: string, left: string,
                 rest: seq<string>, ends: seq<nat>)
    requires ChunkedReader.Split(chunks, out, rest, ends) && Told(chunks, "", ends, lone)
    requires if complete then |out| == n else Apart(ends) && |out| < n && left == Frames(rest)
    ensures RunsTo(chunks, n, lone, complete, out, left)
  {
    SplitSize(chunks, out, rest, ends);
    if Apart(ends) { StoppedThere(chunks, lone, ends); } else { NotYet(chunks, lone, ends, |out|); }
  }

  lemma StoppedThere(chunks: seq<string>, lone: set<nat>, ends: seq<nat>)
    requires Apart(ends) && Whole(ends) && Told(chunks, "", ends, lone)
    ensures Broken(chunks, lone) == |ends| - 1
  {
    BrokenAt(chunks, lone, |ends| - 1);
  }

  lemma NotYet(chunks: seq<string>, lone: set<nat>, ends: seq<nat>, n: nat)
    requires !Apart(ends) && Whole(ends) && Told(chunks, "", ends, lone)
    requires |ends| < |chunks| ==> n <= |Flat(chunks[..|ends| + 1])|
    ensures var j := Broken(chunks, lone); j == |chunks| || n <= |Flat(chunks[..j + 1])|
  {
    BrokenBehind(chunks, lone, |ends|);
    var j := Broken(chunks, lone);
    if j < |chunks| { FlatGrows(chunks, |ends| + 1, j + 1); }
  }

  /** Bytes that come one at a time break the first chunk end. */
  lemma OneAtATime(chunks: seq<string>, n: nat, plan: seq<Reply>, capacity: nat, complete: bool, out: string, left: string)
    requires capacity > 1 && |Frames(chunks)| <= |plan| && AtLeast(plan, 1) && AtMost(plan, 1) && n <= |Flat(chunks)|
    requires RunsTo(chunks, n, LoneReads(|Frames(chunks)|, plan, capacity), complete, out, left)
    ensures complete <==> n == 0 || (chunks != [] && n <= |chunks[0]|)
  {
    if chunks != [] {
      AllLone(|Frames(chunks)|, plan, capacity, |Frames(chunks[1..])| + 2);
      assert chunks[..1] == [chunks[0]] && [chunks[0]][1..] == [];
      assert Flat(chunks[..1]) == chunks[0];
    }
  }

  lemma {:induction false} AllLone(left: nat, plan: seq<Reply>, capacity: nat, r: nat)
    requires capacity > 1 && left <= |plan| && AtLeast(plan, 1) && AtMost(plan, 1) && 1 < r <= left
    ensures r in LoneReads(left, plan, capacity)
    decreases |plan|
  {
    if r < left { AllLone(left - 1, plan[1..], capacity, r); }
  }

  lemma {:induction false} NeverBroken(chunks: seq<string>)
    ensures Broken(chunks, {}) == |chunks|
  {
    if chunks != [] { NeverBroken(chunks[1..]); }
  }

  /** Reads of the given sizes, up to the first error. */
  method ReadSizes(reader: ChunkedReader, sizes: seq<nat>, ghost chunks: seq<string>, ghost lone: set<nat>)
    returns (complete: bool, out: string, left: string)
    requires reader.parent.Valid() && reader.On(chunks, "") && Sum(sizes) <= |Flat(chunks)|
    modifies reader, reader.parent, reader.parent.impl
    ensures out <= Flat(chunks)[..Sum(sizes)]
    ensures complete ==> out == Flat(chunks)[..Sum(sizes)]
    ensures old(Watched(reader, [], chunks, lone)) ==> RunsTo(chunks, Sum(sizes), lone, complete, out, left)
  {
    ghost var rest, ends: seq<nat> := chunks, [];
    assert sizes[..0] == [] && "" + Flat(chunks) == Flat(chunks);
    out, left := "", "";
    for k := 0 to |sizes|
      invariant reader.parent.Valid() && Progress(reader, out, rest, ends, chunks) && |out| == Sum(sizes[..k])
      invariant old(Watched(reader, [], chunks, lone)) ==> Watched(reader, ends, chunks, lone)
    {
      SumStep(sizes, k);
      var err, more;
      err, more, rest, ends := ReadSome(reader, sizes[k], out, rest, ends, chunks, lone);
      out := out + more;
      PrefixOf(out, Flat(rest), Flat(chunks), Sum(sizes));
      if err != NoError {
        left := reader.parent.buf + reader.parent.impl.unread;
        if old(Watched(reader, [], chunks, lone)) { RunExact(chunks, Sum(sizes), lone, false, out, left, rest, ends); }
        return false, out, left;
      }
    }
    assert sizes[..|sizes|] == sizes;
    PrefixOf(out, Flat(rest), Flat(chunks), Sum(sizes));
    left := reader.parent.buf + reader.parent.impl.unread;
    if old(Watched(reader, [], chunks, lone)) { RunExact(chunks, Sum(sizes), lone, true, out, left, rest, ends); }
    return true, out, left;
  }

  method ReadAll(source: Source, ghost payloads: seq<string>, sizes: seq<nat>, capacity: nat)
    returns (complete: bool, out: string, left: string)
    requires source.unread == Frames(Chunks(payloads)) && Sum(sizes) <= |Flat(payloads)|
    modifies source
    ensures out <= Flat(payloads)[..Sum(sizes)]
    ensures complete ==> out == Flat(payloads)[..Sum(sizes)]
    ensures capacity >= 1 && old(source.Steady()) ==>
      RunsTo(Chunks(payloads), Sum(sizes), old(source.Lone(capacity)), complete, out, left)
    ensures capacity >= 1 && old(source.Steady()) && (AtLeast(old(source.plan), 2) || capacity == 1) ==> complete
    ensures capacity >= 2 && old(source.Steady()) && AtMost(old(source.plan), 1) ==>
      (complete <==> Sum(sizes) == 0 || (Chunks(payloads) != [] && Sum(sizes) <= |Chunks(payloads)[0]|))
  {
    var buffered := new BufferedReader(source, capacity);
    var reader := new ChunkedReader(buffered);
    ghost var chunks, n, plan, lone := Chunks(payloads), Sum(sizes), source.plan, source.Lone(capacity);
    ghost var steady := capacity >= 1 && source.Steady();
    ChunksFlat(payloads);
    assert Frames(chunks) + "" == Frames(chunks) == buffered.Remaining();
    complete, out, left := ReadSizes(reader, sizes, chunks, lone);
    if steady { RunKinds(chunks, n, plan, capacity, complete, out, left); }
  }

  /** What `RunsTo` comes to over sources of one kind. */
  lemma RunKinds(chunks: seq<string>, n: nat, plan: seq<Reply>, capacity: nat, complete: bool, out: string, left: string)
    requires capacity >= 1 && |Frames(chunks)| <= |plan| && AtLeast(plan, 1) && n <= |Flat(chunks)|
    requires RunsTo(chunks, n, LoneReads(|Frames(chunks)|, plan, capacity), complete, out, left)
    ensures AtLeast(plan, 2) || capacity == 1 ==> complete
    ensures capacity >= 2 && AtMost(plan, 1) ==> (complete <==> n == 0 || (chunks != [] && n <= |chunks[0]|))
  {
    if AtLeast(plan, 2) || capacity == 1 {
      NoLone(|Frames(chunks)|, plan, capacity);
      NeverBroken(chunks);
    }
    if capacity >= 2 && AtMost(plan, 1) { OneAtATime(chunks, n, plan, capacity, complete, out, left); }
  }

  lemma SumStep(sizes: seq<nat>, k: nat)
    requires k < |sizes|
    ensures Sum(sizes[..k + 1]) == Sum(sizes[..k]) + sizes[k] <= Sum(sizes)
  {
    assert sizes[..k + 1][..k] == sizes[..k];
    SumGrows(sizes, k + 1);
  }

  lemma {:induction false} SumGrows(sizes: seq<nat>, k: nat)
    requires k <= |sizes|
    ensures Sum(sizes[..k]) <= Sum(sizes)
    decreases |sizes|
  {
    if k < |sizes| {
      assert sizes[..|sizes| - 1][..k] == sizes[..k];
      SumGrows(sizes[..|sizes| - 1], k);
    } else {
      assert sizes[..k] == sizes;
    }
  }
}
