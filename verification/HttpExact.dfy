/** Exactly which responses come back: `src/http/http11.cpp`. */
module HttpExact {
  import opened Text
  import opened Collections
  import opened Streams
  import opened Lines
  import opened StringUtil
  import opened Http11
  import opened HeaderLaws
  import opened HttpRoundTrip

  // ---------------------------------------------------------------- what parsed headers look like

  /** What every header has that was read: it fits its key and the line it was on. */
  ghost predicate Clean(k: string, h: Header) {
    && k == Lower(h.name) && NameOk(h.name) && Plain(h.name, CRLF) && h.values != []
    && forall i :: 0 <= i < |h.values| ==> Free(h.values[i], {','}) && Plain(h.values[i], CRLF)
  }

  ghost predicate AllClean(h: Headers) {
    forall k :: k in h ==> Clean(k, h[k])
  }

  lemma PlainPart(s: string, a: nat, b: nat)
    requires Plain(s, CRLF) && a <= b <= |s|
    ensures Plain(s[a..b], CRLF)
  {
    PlainCrLf(s);
    PlainCrLf(s[a..b]);
  }

  lemma PlainTrim(s: string)
    requires Plain(s, CRLF)
    ensures Plain(Trim(s), CRLF)
  {
    TrimBounds(s);
    if Leading(s) < |s| { PlainPart(s, Leading(s), |s| - Trailing(s)); }
  }

  lemma PlainEnds(s: string, n: nat)
    requires Plain(s, CRLF) && n < |s|
    ensures Plain(s[..n], CRLF) && Plain(s[n + 1..], CRLF)
  {
    PlainPart(s, 0, n);
    PlainPart(s, n + 1, |s|);
    assert s[0..n] == s[..n] && s[n + 1..|s|] == s[n + 1..];
  }

  ghost predicate AllPlain(parts: seq<string>) {
    forall i :: 0 <= i < |parts| ==> Plain(parts[i], CRLF)
  }

  lemma AllPlainCons(part: string, parts: seq<string>)
    requires Plain(part, CRLF) && AllPlain(parts)
    ensures AllPlain([part] + parts)
  {
  }

  lemma {:induction false} PlainParts(s: string)
    requires Plain(s, CRLF)
    ensures AllPlain(Split(s, ','))
    decreases |s|
  {
    var n := IndexOfAny(s, {','});
    if n == |s| {
      SplitLast(s, ',');
    } else {
      PlainEnds(s, n);
      PlainParts(s[n + 1..]);
      SplitFirst(s, ',', n, s[..n], s[n + 1..]);
      AllPlainCons(s[..n], Split(s[n + 1..], ','));
    }
  }

  lemma PlainSplit(s: string, i: nat)
    requires Plain(s, CRLF) && i < |Split(s, ',')|
    ensures Plain(Split(s, ',')[i], CRLF) && Free(Split(s, ',')[i], {','})
  {
    PlainParts(s);
    SplitJoins(s, ',');
  }

  lemma TrimTwice(s: string)
    ensures Trim(Trim(s)) == Trim(s)
  {
    TrimBounds(s);
    var lead, end := Leading(s), |s| - Trailing(s);
    if lead < |s| {
      var t := s[lead..end];
      LeadingStops(s, lead);
      TrailingEnds(s);
      assert t[0] == s[lead] && t[|t| - 1] == s[end - 1];
      assert t == "" + t + "";
      TrimAround(t, "", t, "");
    }
  }

  lemma FreeTrim(s: string, cs: set<char>)
    requires Free(s, cs)
    ensures Free(Trim(s), cs)
  {
    TrimBounds(s);
  }

  /** What a line gives is clean. */
  lemma LineClean(line: string, i: nat)
    requires Plain(line, CRLF) && i == IndexOfAny(line, {':'}) < |line|
    ensures NameOk(Trim(line[..i])) && Plain(Trim(line[..i]), CRLF) && Plain(Trim(line[i + 1..]), CRLF)
  {
    PlainPart(line, 0, i);
    PlainPart(line, i + 1, |line|);
    assert line[0..i] == line[..i] && line[i + 1..|line|] == line[i + 1..];
    PlainTrim(line[..i]);
    PlainTrim(line[i + 1..]);
    TrimTwice(line[..i]);
    FreeTrim(line[..i], {':'});
  }

  lemma AddClean(h: Headers, name: string, value: string)
    requires AllClean(h) && NameOk(name) && Plain(name, CRLF) && Free(value, {','}) && Plain(value, CRLF)
    ensures AllClean(Add(h, name, value))
  {
  }

  lemma {:induction false} AddAllClean(h: Headers, name: string, values: seq<string>)
    requires AllClean(h) && NameOk(name) && Plain(name, CRLF)
    requires forall i :: 0 <= i < |values| ==> Free(values[i], {','}) && Plain(values[i], CRLF)
    ensures AllClean(AddAll(h, name, values))
    decreases |values|
  {
    if values == [] {
    } else {
      AddClean(h, name, values[0]);
      AddAllClean(Add(h, name, values[0]), name, values[1..]);
    }
  }

  lemma AddLineClean(h: Headers, line: string)
    requires AllClean(h) && Plain(line, CRLF)
    ensures AllClean(AddLine(h, line))
  {
    var i := IndexOfAny(line, {':'});
    if i < |line| {
      LineClean(line, i);
      var values := Split(Trim(line[i + 1..]), ',');
      forall j | 0 <= j < |values|
        ensures Free(values[j], {','}) && Plain(values[j], CRLF)
      {
        PlainSplit(Trim(line[i + 1..]), j);
      }
      AddAllClean(h, Trim(line[..i]), values);
    }
  }

  lemma SplitPlain(s: string)
    ensures Plain(SplitLine(s, CRLF).0, CRLF) && |SplitLine(s, CRLF).0| + |SplitLine(s, CRLF).1| <= |s|
  {
    match FirstAt(s, CRLF) {
      case None => assert forall j: nat :: !Occurs(s, CRLF, j);
      case Some(i) => LineHasNone(s, s[..i], CRLF);
    }
  }

  lemma {:induction false} ParsedClean(s: string, max: nat, amount: nat, h: Headers)
    requires AllClean(h)
    ensures ParseHeaders(s, max, amount, h).Ok? ==> AllClean(ParseHeaders(s, max, amount, h).value.headers)
    decreases |s|
  {
    var (line, rest) := SplitLine(s, CRLF);
    SplitPlain(s);
    if amount < max && line != "" {
      AddLineClean(h, line);
      ParsedClean(rest, max, amount + |line|, AddLine(h, line));
    }
  }

  // ---------------------------------------------------------------- what clean headers are read as

  lemma PlainSnoc(text: string, v: string)
    requires Plain(text, CRLF) && Plain(v, CRLF)
    ensures Plain(text + (", " + v), CRLF)
  {
    var s, n := text + (", " + v), |text|;
    PlainCrLf(text);
    PlainCrLf(v);
    PlainCrLf(s);
    assert forall i :: 0 <= i < n ==> s[i] == text[i];
    assert s[n] == ',' && s[n + 1] == ' ';
    assert forall i :: n + 2 <= i < |s| ==> s[i] == v[i - n - 2];
  }

  lemma {:induction false} PlainValues(values: seq<string>)
    requires forall i :: 0 <= i < |values| ==> Plain(values[i], CRLF)
    ensures Plain(ValuesText(values), CRLF)
  {
    if |values| == 0 {
      PlainCrLf("");
    } else if |values| > 1 {
      PlainValues(values[..|values| - 1]);
      PlainSnoc(ValuesText(values[..|values| - 1]), values[|values| - 1]);
    }
  }

  /** The header that is read from the line of a clean one. */
  function Reread(h: Header): Header {
    Header(h.name, Split(Trim(" " + ValuesText(h.values)), ','))
  }

  function RereadAll(h: Headers): Headers {
    map k | k in h :: Reread(h[k])
  }

  lemma CleanGives(k: string, h: Header)
    requires Clean(k, h)
    ensures Gives(k, h, Reread(h))
  {
    ParseBehind(h.name, ValuesText(h.values));
    PlainValues(h.values);
    PlainJoin(h.name, ValuesText(h.values));
  }

  /** Clean headers that come back are well formed. */
  lemma RereadExactly(k: string, h: Header)
    requires Clean(k, h)
    ensures Reread(h) == h <==> HeaderOk(k, h)
  {
    ValuesExactly(h.values);
  }

  lemma HeadersReread(order: seq<string>, h: Headers, max: nat, body: string)
    requires AllClean(h) && Enumerates(order, h)
    ensures ParseHeaders(HeadersText(order, h) + (CRLF + body), max, 0, map[])
         == if LineBytes(order, h) < max then Ok(Head(RereadAll(h), body)) else Err(ValueTooLarge)
  {
    var g := RereadAll(h);
    forall i | 0 <= i < |order|
      ensures Gives(order[i], h[order[i]], g[order[i]])
    {
      CleanGives(order[i], h[order[i]]);
    }
    HeadersParse(order, h, g, map[], 0, max, CRLF + body, body);
    assert Look(2);
    FillsUp(order, g);
  }

  lemma HeadersExactly(order: seq<string>, h: Headers, max: nat, body: string)
    requires Enumerates(order, h)
    ensures ParseHeaders(HeadersText(order, h) + (CRLF + body), max, 0, map[]) == Ok(Head(h, body)) <==>
            WellFormed(h) && LineBytes(order, h) < max
  {
    var s := HeadersText(order, h) + (CRLF + body);
    if WellFormed(h) {
      HeadersComeBack(order, h, map[], 0, max, CRLF + body, body);
      FillsUp(order, h);
    } else if ParseHeaders(s, max, 0, map[]) == Ok(Head(h, body)) {
      ParsedClean(s, max, 0, map[]);
      HeadersReread(order, h, max, body);
      forall k | k in h
        ensures HeaderOk(k, h[k])
      {
        assert RereadAll(h)[k] == h[k];
        RereadExactly(k, h[k]);
      }
    }
  }

  /** A response comes back, with the stream left at its body, exactly when its status is known, every header is one that
      comes back from its own line, and the header lines are shorter than the limit. */
  lemma ResponseExactly(resp: Response, phrase: string, order: seq<string>, body: string, max: nat)
    requires Free(phrase, {'\r'}) && Enumerates(order, resp.headers)
    ensures ParseResponse(ResponseText(resp, phrase, order) + body, max) == Ok((resp, body)) <==>
              && resp.version.major <= 9 && resp.version.minor <= 9 && Known(resp.status)
              && WellFormed(resp.headers) && LineBytes(order, resp.headers) < max
  {
    ResponseCut(resp, phrase, order, body);
    StatusLineExactly(resp.version, resp.status, phrase);
    HeadersExactly(order, resp.headers, max, body);
  }

  /** Version and status come back exactly when the one has single digits and the other is known. */
  lemma StatusLineExactly(v: Version, code: nat, phrase: string)
    ensures ParseStatusLine(StatusLineText(v, code, phrase)) == Ok((v, code)) <==> v.major <= 9 && v.minor <= 9 && Known(code)
  {
    var r := LineOutcome(v, code, phrase);
    assert Look(15);
  }

  lemma LineOutcome(v: Version, code: nat, phrase: string) returns (r: Result<(Version, nat)>)
    ensures LineGives(StatusLineText(v, code, phrase), r)
    ensures r == Ok((v, code)) <==> v.major <= 9 && v.minor <= 9 && Known(code)
  {
    if Digital(v) {
      ShownLine(v, code, phrase);
      ShownSame(v);
      r := if Known(code) then Ok((Shown(v), code)) else Err(IllegalBytes);
    } else {
      r := BadLine(v, code, phrase);
    }
  }
}
