/** Whole responses: the body behind the head, through the reader that the head asks for. */
module HttpMessage {
  import opened Text
  import opened Collections
  import opened Decimal
  import opened Streams
  import opened BufferedReading
  import opened Lines
  import opened Http11
  import opened StringUtil
  import opened HttpRoundTrip
  import opened HttpExact
  import opened Chunked

  /** What a response must be to come back, whatever its body. */
  ghost predicate Sendable(resp: Response, phrase: string, order: seq<string>, max: nat) {
    && resp.version.major <= 9 && resp.version.minor <= 9 && Free(phrase, {'\r'})
    && Known(resp.status) && WellFormed(resp.headers) && Enumerates(order, resp.headers)
    && LineBytes(order, resp.headers) < max
  }

  /** Reads a limited body to its end, `step` bytes at a time. */
  method ReadBody(reader: LimitReader, step: nat) returns (out: string)
    requires reader.Valid() && reader.parent.Steady() && step > 0
    requires reader.limit - reader.progress <= |reader.parent.Remaining()|
    modifies reader, reader.parent, reader.parent.impl
    ensures reader.Valid() && out == old(reader.Body()) && reader.parent.Remaining() == old(reader.Beyond())
  {
    out := "";
    ghost var body, beyond := reader.Body(), reader.Beyond();
    assert "" + body == body;
    while reader.progress < reader.limit
      invariant reader.Valid() && reader.parent.Steady() && out + reader.Body() == body && reader.Beyond() == beyond
      invariant reader.limit - reader.progress <= |reader.parent.Remaining()|
      decreases reader.limit - reader.progress
    {
      var data := new char[step];
      ghost var was, r := reader.Body(), reader.parent.Remaining();
      assert |was| == reader.limit - reader.progress;
      var count, err, got := reader.Read(data, 0, step);
      assert data[..count] == data[..][0..count] == got;
      TakeTwice(out, got, body, was, reader.Body());
      out := out + data[..count];
      assert |reader.Body()| == |was| - count;
    }
    assert reader.Body() == "" && out + "" == out;
  }

  /** Decodes the head of a response through a buffered reader over a steady source, which is then at the body. */
  method ReceiveHead(source: Source, capacity: nat, max: nat, ghost resp: Response, ghost phrase: string, ghost order: seq<string>,
                     ghost body: string)
    returns (r: Result<Response>, kind: Body, reader: BufferedReader)
    requires Sendable(resp, phrase, order, max) && capacity > 0
    requires source.unread == ResponseText(resp, phrase, order) + body && source.Steady()
    modifies source
    ensures r == Ok(resp) && kind == BodyOf(resp.headers) && fresh(reader) && reader.impl == source
    ensures reader.Valid() && reader.capacity == capacity && reader.Steady() && reader.Remaining() == body
    ensures Kept(old(source.Lone(capacity)), reader.Lone(), |body|)
  {
    reader := new BufferedReader(source, capacity);
    assert "" + source.unread == source.unread;
    ResponseComesBack(resp, phrase, order, body, max);
    r, kind := DecodeSteady(reader, max, Outcome(resp, order, body, max));
  }

  /** The head and then the limited body. */
  method ReceiveLimited(source: Source, capacity: nat, max: nat, step: nat, ghost resp: Response, ghost phrase: string,
                        ghost order: seq<string>, ghost body: string, ghost more: string)
    returns (r: Result<Response>, out: string, rest: string)
    requires Sendable(resp, phrase, order, max) && capacity > 0 && step > 0 && AsksFor(resp.headers, Limited(|body|))
    requires source.unread == ResponseText(resp, phrase, order) + (body + more) && source.Steady()
    modifies source
    ensures r == Ok(resp) && out == body && rest == more
  {
    var kind, reader;
    BodyExactly(resp.headers, Limited(|body|));
    r, kind, reader := ReceiveHead(source, capacity, max, resp, phrase, order, body + more);
    var limited := new LimitReader(reader, kind.limit);
    CutConcat(body, more);
    out := ReadBody(limited, step);
    rest := reader.buf + source.unread;
  }

  /** A response whose head announces the length of its body, and whatever follows it: the head comes back, the reader
      that it asks for delivers exactly the body, and the stream is left at what follows. */
  method LimitedMessage(resp: Response, phrase: string, order: seq<string>, body: string, more: string, max: nat, step: nat,
                        replies: seq<Reply>, endless: bool, plan: seq<Reply>, capacity: nat)
    returns (sent: bool, r: Result<Response>, out: string, rest: string)
    requires Sendable(resp, phrase, order, max) && capacity > 0 && step > 0
    requires !AsksChunked(resp.headers) && |body| < UINT64 && "content-length" in resp.headers
    requires resp.headers["content-length"].values == [Digits(|body|)]
    requires |ResponseText(resp, phrase, order) + (body + more)| <= |plan|
    requires AtLeast(plan, 1)
    ensures sent ==> r == Ok(resp) && out == body && rest == more
    ensures endless && (forall i :: 0 <= i < |replies| ==> replies[i].err == NoError) ==> sent
  {
    r, out, rest := Err(Closed), "", "";
    var wire;
    sent, wire := SendLimited(resp, phrase, order, body, replies, endless);
    if !sent { return; }
    Associate(ResponseText(resp, phrase, order), body, more);
    LengthAsked(resp.headers, |body|);
    var source := new Source(wire + more, plan);
    r, out, rest := ReceiveLimited(source, capacity, max, step, resp, phrase, order, body, more);
  }

  /** A printed length is asked for. */
  lemma LengthAsked(h: Headers, n: nat)
    requires !AsksChunked(h) && n < UINT64 && "content-length" in h && h["content-length"].values == [Digits(n)]
    ensures AsksFor(h, Limited(n))
  {
    ChunkedIs(h);
    LengthComesBack(h, n);
    BodyExactly(h, Limited(n));
  }

  /** A header line with a length, its name in any case, limits the body to it. */
  lemma LengthLine(name: string, n: nat)
    requires SameLetters(name, "content-length") && n < UINT64 && Free(name, {':'}) && Trim(name) == name
    ensures AsksFor(AddLine(map[], name + (": " + Digits(n))), Limited(n))
  {
    var h := AddLine(map[], name + (": " + Digits(n)));
    LowerExactly(name, "content-length");
    LowerLength();
    LineOfNumber(name, n);
    LengthAsked(h, n);
  }

  lemma LowerLength()
    ensures Lower("content-length") == "content-length"
  {
  }

  lemma LineOfNumber(name: string, n: nat)
    requires Lower(name) == "content-length" && Free(name, {':'}) && Trim(name) == name
    ensures AddLine(map[], name + (": " + Digits(n))) == map["content-length" := Header(name, [Digits(n)])]
  {
    var d := Digits(n);
    HeaderLineIs(name, d);
    LineAdds(map[], name, " " + d);
    NumberTrimmed(n);
    SplitWhole(d, d);
  }

  lemma NumberTrimmed(n: nat)
    ensures Trim(" " + Digits(n)) == Digits(n) && Free(Digits(n), {','})
  {
    ValueOfDigits(n);
    TrimBlank(Digits(n));
  }

  /** A header line with a chunked transfer encoding, name and value in any case, makes the body chunked; a length that
      comes before it does not matter. */
  lemma ChunkedLine(h: Headers, name: string, value: string)
    requires SameLetters(name, "transfer-encoding") && Free(name, {':'}) && Trim(name) == name
    requires IsWord(value, "chunked") && Free(value, {','})
    ensures AsksFor(AddLine(h, name + (":" + value)), ChunkedBody)
  {
    var h' := AddLine(h, name + (":" + value));
    LowerExactly(name, "transfer-encoding");
    LowerEncoding();
    LineAdds(h, name, value);
    WordOfTrim(value);
    SplitWhole(Trim(value), Trim(value));
    var vs := h'["transfer-encoding"].values;
    assert vs[|vs| - 1] == Trim(value);
  }

  lemma LowerEncoding()
    ensures Lower("transfer-encoding") == "transfer-encoding"
  {
  }

  lemma WordOfTrim(value: string)
    requires IsWord(value, "chunked") && Free(value, {','})
    ensures IsWord(Trim(value), "chunked") && Free(Trim(value), {','})
  {
    var w :| Inside(value, w) && SameLetters(w, "chunked");
    InsideIsTrim(value, w);
    assert w[0..0 + |w|] == w && Blank(w[..0]) && Blank(w[0 + |w|..]);
    assert Inside(w, w);
    FreeTrim(value, {','});
  }

  /** Writes the head and the body behind it. */
  method SendLimited(resp: Response, phrase: string, order: seq<string>, body: string, replies: seq<Reply>, endless: bool)
    returns (sent: bool, wire: string)
    requires Lists(order, resp.headers)
    ensures sent ==> wire == ResponseText(resp, phrase, order) + body
    ensures endless && (forall i :: 0 <= i < |replies| ==> replies[i].err == NoError) ==> sent
  {
    var sink := new Sink(replies, true, endless);
    var err := EncodeResponse(sink, resp, phrase, order);
    wire := sink.written;
    if err != NoError { return false, wire; }
    assert "" + ResponseText(resp, phrase, order) == ResponseText(resp, phrase, order);
    var count;
    count, err := sink.Write(body);
    wire := sink.written;
    sent := err == NoError;
    assert sent ==> body[..count] == body;
  }

  /** The head and then the chunked body, in reads of the given sizes. */
  method ReceiveChunked(source: Source, capacity: nat, max: nat, sizes: seq<nat>, ghost resp: Response, ghost phrase: string,
                        ghost order: seq<string>, ghost chunks: seq<string>)
    returns (r: Result<Response>, kind: Body, complete: bool, out: string, left: string)
    requires Sendable(resp, phrase, order, max) && capacity > 0 && Sized(chunks) && Sum(sizes) <= |Flat(chunks)|
    requires AsksChunked(resp.headers)
    requires source.unread == ResponseText(resp, phrase, order) + Frames(chunks) && source.Steady()
    modifies source
    ensures r == Ok(resp) && kind == ChunkedBody
    ensures RunsTo(chunks, Sum(sizes), old(source.Lone(capacity)), complete, out, left)
    ensures complete ==> out == Flat(chunks)[..Sum(sizes)]
  {
    ghost var lone := source.Lone(capacity);
    var reader;
    BodyExactly(resp.headers, ChunkedBody);
    r, kind, reader := ReceiveHead(source, capacity, max, resp, phrase, order, Frames(chunks));
    complete, out, left := ReadChunks(reader, sizes, chunks, lone);
  }

  /** A chunked body over a buffered reader. */
  method ReadChunks(reader: BufferedReader, sizes: seq<nat>, ghost chunks: seq<string>, ghost lone: set<nat>)
    returns (complete: bool, out: string, left: string)
    requires reader.Valid() && reader.Steady() && reader.Remaining() == Frames(chunks)
    requires Sized(chunks) && Sum(sizes) <= |Flat(chunks)| && Kept(lone, reader.Lone(), |Frames(chunks)|)
    modifies reader, reader.impl
    ensures RunsTo(chunks, Sum(sizes), lone, complete, out, left)
    ensures complete ==> out == Flat(chunks)[..Sum(sizes)]
  {
    var chunked := new ChunkedReader(reader);
    assert Frames(chunks) + "" == Frames(chunks);
    complete, out, left := ReadSizes(chunked, sizes, chunks, lone);
  }

  /** A response with a chunked body: the head comes back and the reader that it asks for delivers the payloads, exactly as
      far as `RunsTo` says. */
  method ChunkedMessage(resp: Response, phrase: string, order: seq<string>, payloads: seq<string>, sizes: seq<nat>, max: nat,
                        replies: seq<Reply>, endless: bool, plan: seq<Reply>, capacity: nat)
    returns (sent: bool, r: Result<Response>, kind: Body, complete: bool, out: string, left: string)
    requires Sendable(resp, phrase, order, max) && capacity > 0 && AsksChunked(resp.headers)
    requires (forall i :: 0 <= i < |payloads| ==> Writable(payloads[i])) && Sum(sizes) <= |Flat(payloads)|
    requires |ResponseText(resp, phrase, order) + Frames(Chunks(payloads))| <= |plan|
    requires AtLeast(plan, 1)
    ensures sent ==> r == Ok(resp) && kind == ChunkedBody
    ensures sent ==> var size := |ResponseText(resp, phrase, order) + Frames(Chunks(payloads))|;
      RunsTo(Chunks(payloads), Sum(sizes), LoneReads(size, plan, capacity), complete, out, left)
    ensures sent && complete ==> out == Flat(payloads)[..Sum(sizes)]
    ensures sent && AtLeast(plan, if capacity == 1 then 1 else 2) ==> complete
    ensures endless && (forall i :: 0 <= i < |replies| ==> replies[i].err == NoError) ==> sent
  {
    r, kind, complete, out, left := Err(Closed), ChunkedBody, false, "", "";
    var wire;
    sent, wire := SendChunked(resp, phrase, order, payloads, replies, endless);
    if !sent { return; }
    ChunksFlat(payloads);
    var source := new Source(wire, plan);
    r, kind, complete, out, left := ReceiveChunked(source, capacity, max, sizes, resp, phrase, order, Chunks(payloads));
    if AtLeast(plan, if capacity == 1 then 1 else 2) {
      NoLone(|wire|, plan, capacity);
      NeverBroken(Chunks(payloads));
    }
  }

  method SendChunked(resp: Response, phrase: string, order: seq<string>, payloads: seq<string>, replies: seq<Reply>, endless: bool)
    returns (sent: bool, wire: string)
    requires Lists(order, resp.headers) && forall i :: 0 <= i < |payloads| ==> Writable(payloads[i])
    ensures sent ==> wire == ResponseText(resp, phrase, order) + Frames(Chunks(payloads))
    ensures endless && (forall i :: 0 <= i < |replies| ==> replies[i].err == NoError) ==> sent
  {
    var sink := new Sink(replies, true, endless);
    var err := EncodeResponse(sink, resp, phrase, order);
    wire := sink.written;
    if err != NoError { return false, wire; }
    assert "" + ResponseText(resp, phrase, order) == ResponseText(resp, phrase, order);
    sent := SendAll(sink, payloads);
    wire := sink.written;
  }
}
