/** A response head that is written and read again, through the whole stack of writers and readers. */
module HttpRoundTrip {
  import opened Text
  import opened Collections
  import opened Decimal
  import opened Streams
  import opened BufferedReading
  import opened Lines
  import opened StringUtil
  import opened Http11
  import opened HeaderLaws

  // ---------------------------------------------------------------- lines

  lemma OccursCrLf(s: string, i: nat)
    ensures Occurs(s, CRLF, i) <==> i + 1 < |s| && s[i] == '\r' && s[i + 1] == '\n'
  {
    if i + 1 < |s| { assert s[i..i + 2] == [s[i], s[i + 1]]; }
  }

  lemma PlainCrLf(s: string)
    ensures Plain(s, CRLF) <==> forall i :: 0 <= i < |s| - 1 ==> !(s[i] == '\r' && s[i + 1] == '\n')
  {
    if Plain(s, CRLF) {
      forall i | 0 <= i < |s| - 1 ensures !(s[i] == '\r' && s[i + 1] == '\n') { OccursCrLf(s, i); }
    } else {
      var j: nat :| Occurs(s, CRLF, j);
      OccursCrLf(s, j);
    }
  }

  lemma PlainJoin(name: string, value: string)
    requires Plain(name, CRLF) && Plain(value, CRLF)
    ensures Plain(name + (": " + value), CRLF)
  {
    var s, n := name + (": " + value), |name|;
    PlainCrLf(name);
    PlainCrLf(value);
    PlainCrLf(s);
    assert forall i :: 0 <= i < n ==> s[i] == name[i];
    assert s[n] == ':' && s[n + 1] == ' ';
    assert forall i :: n + 2 <= i < |s| ==> s[i] == value[i - n - 2];
  }

  /** A plain line is read up to its end. */
  lemma PlainLine(line: string, rest: string)
    requires Plain(line, CRLF)
    ensures SplitLine(line + (CRLF + rest), CRLF) == (line, rest)
  {
    PlainCrLf(line);
    var t := line + CRLF;
    forall i: nat | Occurs(t, CRLF, i) ensures i == |line| {
      OccursCrLf(t, i);
      assert forall j :: 0 <= j < |line| ==> t[j] == line[j];
      assert t[|line|] == '\r';
    }
    FirstHere(line, CRLF, rest);
    Associate(line, CRLF, rest);
  }

  // ---------------------------------------------------------------- headers

  /** A header that comes back from its line, none of whose parts breaks the line,
      stored under its name in lower case. */
  ghost predicate HeaderOk(k: string, h: Header) {
    k == Lower(h.name) && NameOk(h.name) && ValuesOk(h.values) && Plain(h.name, CRLF) && Plain(h.values[0], CRLF)
  }

  /** The line of `h` is one line and gives `g` under the name `k`; folded. */
  ghost predicate Gives(k: string, h: Header, g: Header) {
    forall i: nat {:trigger Look(i)} :: i == 1 && Look(i) ==>
      && k == Lower(g.name) && g.values != [] && ParseLine(HeaderLine(h)) == Some((g.name, g.values))
      && Plain(HeaderLine(h), CRLF)
  }

  /** What reading gives for each listed header. */
  ghost predicate AllGive(order: seq<string>, h: Headers, g: Headers)
    requires Lists(order, h) && Lists(order, g)
  {
    forall i :: 0 <= i < |order| ==> Gives(order[i], h[order[i]], g[order[i]])
  }

  ghost predicate WellFormed(h: Headers) {
    forall k :: k in h ==> HeaderOk(k, h[k])
  }

  ghost predicate PlainText(s: string) {
    forall k: nat {:trigger Look(k)} :: k == 2 && Look(k) ==> Plain(s, CRLF)
  }

  lemma {:induction false} AddMore(m: Headers, k: string, name: string, front: seq<string>, values: seq<string>)
    requires k == Lower(name) && k in m && m[k] == Header(name, front)
    ensures AddAll(m, name, values) == m[k := Header(name, front + values)]
    decreases |values|
  {
    if values == [] {
      assert front + values == front;
    } else {
      assert front + values == front + [values[0]] + values[1..];
      var m' := m[k := Header(name, front + [values[0]])];
      assert Add(m, name, values[0]) == m';
      AddMore(m', k, name, front + [values[0]], values[1..]);
      assert m'[k := Header(name, front + values)] == m[k := Header(name, front + values)];
    }
  }

  lemma AddFresh(m: Headers, name: string, values: seq<string>)
    requires Lower(name) !in m && values != []
    ensures AddAll(m, name, values) == m[Lower(name) := Header(name, values)]
  {
    var m' := m[Lower(name) := Header(name, [values[0]])];
    AddMore(m', Lower(name), name, [values[0]], values[1..]);
    assert [values[0]] + values[1..] == values;
    assert m'[Lower(name) := Header(name, values)] == m[Lower(name) := Header(name, values)];
  }

  lemma PlainComma(v: string)
    requires Plain(v, CRLF)
    ensures Plain(v + ", ", CRLF)
  {
    PlainCrLf(v);
    PlainCrLf(v + ", ");
    assert forall i :: 0 <= i < |v| ==> (v + ", ")[i] == v[i];
    assert (v + ", ")[|v|] == ',' && (v + ", ")[|v| + 1] == ' ';
  }

  lemma LinePlain(h: Header)
    requires ValuesOk(h.values) && Plain(h.name, CRLF) && Plain(h.values[0], CRLF)
    ensures Plain(HeaderLine(h), CRLF)
  {
    var v := h.values[0];
    if |h.values| == 2 {
      assert h.values == [v, ""];
      PairText(v, "");
      assert ", " + "" == ", ";
      PlainComma(v);
    } else {
      assert h.values == [v];
    }
    PlainJoin(h.name, ValuesText(h.values));
  }

  lemma LineOfHeader(k: string, h: Header, g: Header, m: Headers)
    requires Gives(k, h, g) && k !in m
    ensures IsAdded(m, HeaderLine(h), m[k := g]) && PlainText(HeaderLine(h)) && HeaderLine(h) != ""
  {
    assert Look(1);
    AddFresh(m, g.name, g.values);
  }

  lemma GivesItself(k: string, h: Header)
    requires HeaderOk(k, h)
    ensures Gives(k, h, h)
  {
    HeaderExactly(h);
    LinePlain(h);
  }

  /** The bytes of the header lines, without their ends: what `parse_headers` counts. */
  function LineBytes(order: seq<string>, h: Headers): nat
    requires Lists(order, h)
  {
    if order == [] then 0 else |HeaderLine(h[order[0]])| + LineBytes(order[1..], h)
  }

  /** What reading the printed header lines of `h` gives when they are read as `g`. */
  function Expected(order: seq<string>, h: Headers, g: Headers, m: Headers, amount: nat, max: nat, body: string): Result<Head>
    requires Lists(order, h) && Lists(order, g)
  {
    if amount + LineBytes(order, h) < max then Ok(Head(Fill(order, g, m), body)) else Err(ValueTooLarge)
  }

  lemma HeaderFirst(order: seq<string>, h: Headers, rest: string)
    requires Lists(order, h) && order != [] && PlainText(HeaderLine(h[order[0]]))
    ensures LineIs(HeadersText(order, h) + rest, HeaderLine(h[order[0]]), HeadersText(order[1..], h) + rest)
  {
    assert Look(2);
    var line, more := HeaderLine(h[order[0]]), HeadersText(order[1..], h);
    Associate(line + CRLF, more, rest);
    Associate(line, CRLF, more + rest);
    PlainLine(line, more + rest);
  }

  /** `ParseHeaders`, as a relation. */
  ghost predicate Parses(s: string, max: nat, amount: nat, m: Headers, r: Result<Head>) {
    forall k: nat {:trigger Look(k)} :: k == 2 && Look(k) ==> ParseHeaders(s, max, amount, m) == r
  }

  /** What ends a header section: the blank line in front of the body, or the end of the stream. */
  ghost predicate IsEnd(end: string, body: string) {
    end == CRLF + body || (end == "" && body == "")
  }

  lemma ParsesEnd(max: nat, amount: nat, m: Headers, end: string, body: string)
    requires amount < max && IsEnd(end, body)
    ensures Parses(end, max, amount, m, Ok(Head(m, body)))
  {
    assert "" + (CRLF + body) == CRLF + body;
    PlainLine("", body);
    assert SplitLine("", CRLF) == ("", "");
  }

  lemma ParsesTooMuch(s: string, max: nat, amount: nat, m: Headers)
    requires amount >= max
    ensures Parses(s, max, amount, m, Err(ValueTooLarge))
  {
  }

  /** `parse_headers` counts a header line. */
  ghost predicate Counts(h: Header, amount: nat, amount': nat) {
    forall k: nat {:trigger Look(k)} :: k == 2 && Look(k) ==> amount' == amount + |HeaderLine(h)|
  }

  lemma CountLine(h: Header, amount: nat) returns (amount': nat)
    ensures Counts(h, amount, amount')
  {
    amount' := amount + |HeaderLine(h)|;
  }

  lemma Counted(h: Header, amount: nat, amount': nat)
    requires Counts(h, amount, amount')
    ensures amount' == amount + |HeaderLine(h)|
  {
    assert Look(2);
  }

  lemma ParsesStep(s: string, line: string, rest: string, max: nat, amount: nat, amount': nat,
                   m: Headers, m': Headers, r: Result<Head>)
    requires amount < max && line != "" && LineIs(s, line, rest) && IsAdded(m, line, m') && amount' == amount + |line|
    requires Parses(rest, max, amount', m', r)
    ensures Parses(s, max, amount, m, r)
  {
    assert Look(4) && Look(5) && Look(2);
    HeadersStep(s, max, amount, m, line, rest);
  }

  /** A header line in front adds its header. */
  lemma ParsesLine(order: seq<string>, h: Headers, g: Header, m: Headers, amount: nat, amount': nat, max: nat, end: string, r: Result<Head>)
    requires Lists(order, h) && order != [] && Gives(order[0], h[order[0]], g) && order[0] !in m && amount < max
    requires Counts(h[order[0]], amount, amount')
    requires Parses(HeadersText(order[1..], h) + end, max, amount', m[order[0] := g], r)
    ensures Parses(HeadersText(order, h) + end, max, amount, m, r)
  {
    var line := HeaderLine(h[order[0]]);
    LineOfHeader(order[0], h[order[0]], g, m);
    HeaderFirst(order, h, end);
    Counted(h[order[0]], amount, amount');
    ParsesStep(HeadersText(order, h) + end, line, HeadersText(order[1..], h) + end, max, amount, amount', m, m[order[0] := g], r);
  }

  lemma ExpectedStep(order: seq<string>, h: Headers, g: Headers, m: Headers, amount: nat, amount': nat, max: nat, body: string)
    requires Lists(order, h) && Lists(order, g) && order != [] && Counts(h[order[0]], amount, amount')
    ensures Expected(order, h, g, m, amount, max, body)
         == Expected(order[1..], h, g, m[order[0] := g[order[0]]], amount', max, body)
  {
    assert Look(2);
  }

  lemma ParsesMore(order: seq<string>, h: Headers, g: Headers, m: Headers, amount: nat, amount': nat, max: nat, end: string, body: string)
    requires Lists(order, h) && Lists(order, g) && order != [] && Gives(order[0], h[order[0]], g[order[0]]) && order[0] !in m
    requires amount < max && Counts(h[order[0]], amount, amount')
    requires Parses(HeadersText(order[1..], h) + end, max, amount', m[order[0] := g[order[0]]],
                    Expected(order[1..], h, g, m[order[0] := g[order[0]]], amount', max, body))
    ensures Parses(HeadersText(order, h) + end, max, amount, m, Expected(order, h, g, m, amount, max, body))
  {
    ExpectedStep(order, h, g, m, amount, amount', max, body);
    ParsesLine(order, h, g[order[0]], m, amount, amount', max, end, Expected(order, h, g, m, amount, max, body));
  }

  ghost predicate Unlisted(order: seq<string>, m: Headers) {
    forall i :: 0 <= i < |order| ==> order[i] !in m
  }

  lemma ListTail(order: seq<string>, h: Headers, g: Headers, m: Headers, v: Header)
    requires order != [] && Lists(order, h) && Lists(order, g) && Distinct(order) && Unlisted(order, m) && AllGive(order, h, g)
    ensures Lists(order[1..], h) && Lists(order[1..], g) && Distinct(order[1..]) && Unlisted(order[1..], m[order[0] := v])
    ensures AllGive(order[1..], h, g)
  {
  }

  /** Reading the printed headers gives what is expected, also when the blank line is missing. */
  lemma HeadersComeBack(order: seq<string>, h: Headers, m: Headers, amount: nat, max: nat, end: string, body: string)
    requires WellFormed(h) && Lists(order, h) && Distinct(order) && Unlisted(order, m) && IsEnd(end, body)
    ensures ParseHeaders(HeadersText(order, h) + end, max, amount, m) == Expected(order, h, h, m, amount, max, body)
  {
    forall i | 0 <= i < |order|
      ensures Gives(order[i], h[order[i]], h[order[i]])
    {
      GivesItself(order[i], h[order[i]]);
    }
    HeadersParse(order, h, h, m, amount, max, end, body);
    assert Look(2);
  }

  lemma {:induction false} HeadersParse(order: seq<string>, h: Headers, g: Headers, m: Headers, amount: nat, max: nat,
                                        end: string, body: string)
    requires Lists(order, h) && Lists(order, g) && AllGive(order, h, g)
    requires Distinct(order) && Unlisted(order, m) && IsEnd(end, body)
    ensures Parses(HeadersText(order, h) + end, max, amount, m, Expected(order, h, g, m, amount, max, body))
    decreases |order|
  {
    if amount >= max {
      ParsesTooMuch(HeadersText(order, h) + end, max, amount, m);
    } else if order == [] {
      assert "" + end == end;
      ParsesEnd(max, amount, m, end, body);
    } else {
      ListTail(order, h, g, m, g[order[0]]);
      var amount' := CountLine(h[order[0]], amount);
      var m' := m[order[0] := g[order[0]]];
      HeadersParse(order[1..], h, g, m', amount', max, end, body);
      ParsesMore(order, h, g, m, amount, amount', max, end, body);
    }
  }

  // ---------------------------------------------------------------- the whole head

  lemma StatusLinePlain(v: Version, code: nat, phrase: string)
    requires Free(phrase, {'\r'})
    ensures Plain(StatusLineText(v, code, phrase), CRLF)
  {
    ValueOfDigits(code);
    FreeConcat(Digits(code) + " ", phrase, {'\r'});
    FreeConcat(Digits(code), " ", {'\r'});
    FreeConcat(" ", StatusText(code, phrase), {'\r'});
    VersionPlain(v, " " + StatusText(code, phrase));
  }

  /** Whatever the version is written as, no line end comes about. */
  lemma VersionPlain(v: Version, rest: string)
    requires Free(rest, {'\r'}) && rest != "" && rest[0] == ' '
    ensures Plain(NAME + VersionText(v) + rest, CRLF)
  {
    var s := NAME + VersionText(v) + rest;
    PlainCrLf(s);
    forall i | 0 <= i < |s| - 1
      ensures !(s[i] == '\r' && s[i + 1] == '\n')
    {
      if i >= 8 {
        assert s[i] == rest[i - 8];
      } else if i == 7 {
        assert s[8] == rest[0];
      }
    }
  }

  /** What decoding the encoded response gives. */
  function Outcome(resp: Response, order: seq<string>, body: string, max: nat): Result<(Response, string)>
    requires Lists(order, resp.headers)
  {
    if !Known(resp.status) then Err(IllegalBytes)
    else if LineBytes(order, resp.headers) >= max then Err(ValueTooLarge)
    else Ok((resp, body))
  }

  lemma ResponseCut(resp: Response, phrase: string, order: seq<string>, body: string)
    requires Lists(order, resp.headers) && Free(phrase, {'\r'})
    ensures SplitLine(ResponseText(resp, phrase, order) + body, CRLF)
         == (StatusLineText(resp.version, resp.status, phrase), HeadersText(order, resp.headers) + (CRLF + body))
  {
    var line, hs := StatusLineText(resp.version, resp.status, phrase), HeadersText(order, resp.headers);
    Associate(line + CRLF, hs + CRLF, body);
    Associate(line, CRLF, hs + CRLF + body);
    Associate(hs, CRLF, body);
    StatusLinePlain(resp.version, resp.status, phrase);
    PlainLine(line, hs + (CRLF + body));
  }

  /** Decoding undoes encoding and stops at the body exactly when the status is known and the header lines are
      shorter than the limit; otherwise it reports the error for that. */
  lemma ResponseComesBack(resp: Response, phrase: string, order: seq<string>, body: string, max: nat)
    requires resp.version.major <= 9 && resp.version.minor <= 9 && Free(phrase, {'\r'})
    requires WellFormed(resp.headers) && Enumerates(order, resp.headers)
    ensures ParseResponse(ResponseText(resp, phrase, order) + body, max) == Outcome(resp, order, body, max)
  {
    ResponseCut(resp, phrase, order, body);
    StatusLineComesBack(resp.version, resp.status, phrase);
    HeadersComeBack(order, resp.headers, map[], 0, max, CRLF + body, body);
    assert Look(2);
    FillsUp(order, resp.headers);
  }

  /** Decoding over a steady source gives what is expected. */
  method DecodeSteady(reader: BufferedReader, max: nat, ghost expected: Result<(Response, string)>)
    returns (r: Result<Response>, kind: Body)
    requires reader.Valid() && reader.Steady() && ParseResponse(reader.Remaining(), max) == expected
    modifies reader, reader.impl
    ensures reader.Valid()
    ensures match expected {
      case Ok((resp, rest)) => r == Ok(resp) && reader.Remaining() == rest && kind == BodyOf(resp.headers) && reader.Steady()
      case Err(e) => r == Err(e)
    }
    ensures Kept(old(reader.Lone()), reader.Lone(), |reader.Remaining()|)
  {
    ghost var first, parts, blank;
    r, kind, first, parts, blank := DecodeResponse(reader, max);
  }

  /** Through the stack: `response_encode` into a sink and, if that succeeds, `response_decode` from a buffered
      reader over a steady source of the written bytes and a body. */
  method RoundTrip(resp: Response, phrase: string, order: seq<string>, body: string, max: nat,
                   replies: seq<Reply>, endless: bool, plan: seq<Reply>, capacity: nat)
    returns (sent: bool, r: Result<Response>, kind: Body, rest: string)
    requires resp.version.major <= 9 && resp.version.minor <= 9 && Free(phrase, {'\r'})
    requires WellFormed(resp.headers) && Enumerates(order, resp.headers) && capacity > 0
    requires |ResponseText(resp, phrase, order) + body| <= |plan|
    requires forall i :: 0 <= i < |plan| ==> plan[i].limit > 0 && plan[i].err == NoError
    ensures sent ==> match Outcome(resp, order, body, max) {
      case Ok((back, tail)) => r == Ok(back) && rest == tail && kind == BodyOf(resp.headers)
      case Err(e) => r == Err(e)
    }
    ensures endless && (forall i :: 0 <= i < |replies| ==> replies[i].err == NoError) ==> sent
  {
    r, kind, rest := Err(Closed), Limited(0), "";
    var sink := new Sink(replies, true, endless);
    var err := EncodeResponse(sink, resp, phrase, order);
    sent := err == NoError;
    if !sent { return; }
    ResponseComesBack(resp, phrase, order, body, max);
    assert "" + ResponseText(resp, phrase, order) == ResponseText(resp, phrase, order);
    var source := new Source(sink.written + body, plan);
    var reader := new BufferedReader(source, capacity);
    assert "" + source.unread == source.unread;
    r, kind := DecodeSteady(reader, max, Outcome(resp, order, body, max));
    rest := reader.buf + source.unread;
  }
}
