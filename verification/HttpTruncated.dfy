/**
  Response heads that are cut off. `readline` gives an empty line at the end of the stream, and `parse_headers` takes
  this for the blank line that ends the head: once the status has been read, only the limit makes decoding fail.
 */
module HttpTruncated {
  import opened Text
  import opened Collections
  import opened Decimal
  import opened Streams
  import opened Lines
  import opened Http11
  import opened HttpRoundTrip

  // ---------------------------------------------------------------- any header section

  lemma SplitShrinks(s: string)
    ensures var (line, rest) := SplitLine(s, CRLF); |line| + |rest| <= |s|
  {
  }

  /** The bytes of the lines up to the blank one or the end. */
  function HeadBytes(s: string): nat
    decreases |s|
  {
    SplitShrinks(s);
    var (line, rest) := SplitLine(s, CRLF);
    if line == "" then 0 else |line| + HeadBytes(rest)
  }

  /** Whatever the bytes are, parsing them as headers fails exactly when the lines reach the limit. */
  lemma {:induction false} HeadersFailExactly(s: string, max: nat, amount: nat, h: Headers)
    ensures ParseHeaders(s, max, amount, h) == Err(ValueTooLarge) <==> amount + HeadBytes(s) >= max
    ensures ParseHeaders(s, max, amount, h).Ok? <==> amount + HeadBytes(s) < max
    decreases |s|
  {
    SplitShrinks(s);
    var (line, rest) := SplitLine(s, CRLF);
    if amount < max && line != "" {
      HeadersFailExactly(rest, max, amount + |line|, AddLine(h, line));
    }
  }

  // ---------------------------------------------------------------- cut in the status line

  /** How much of the status line it takes to read the status: up to the blank behind it. */
  function Needed(v: Version, code: nat): nat {
    |NAME + VersionText(v)| + 1 + |Digits(code)| + 1
  }

  lemma NoVersion(v: Version, n: nat)
    requires v.major <= 9 && v.minor <= 9 && n <= |NAME + VersionText(v)|
    ensures ParseStatusLine((NAME + VersionText(v))[..n]).Err?
  {
    VersionComesBack(v);
    var a := NAME + VersionText(v);
    assert Free(a[..n], {' '});
  }

  lemma StatusBehind(v: Version, rest: string)
    requires v.major <= 9 && v.minor <= 9
    ensures var a := NAME + VersionText(v);
      ParseStatusLine(a + (" " + rest)).Ok? <==> ParseStatus(rest, |a| + 1).Ok?
  {
    var a := NAME + VersionText(v);
    VersionComesBack(v);
    assert Free(a, {' '});
    IndexAfter(a, " " + rest, {' '});
    CutConcat(a, " " + rest);
    CutConcat(" ", rest);
  }

  lemma StatusCut(code: nat, phrase: string, start: nat, n: nat)
    requires n <= |StatusText(code, phrase)| && (Known(code) ==> n <= |Digits(code)|)
    ensures ParseStatus(StatusText(code, phrase)[..n], start).Err?
  {
    var t := StatusText(code, phrase)[..n];
    if Known(code) {
      DigitsOnly(code);
      assert t == Digits(code)[..n];
      assert Free(t, {' '});
    } else {
      assert t != "" ==> t[0] == 'X';
    }
  }

  lemma LineCutAt(v: Version, code: nat, phrase: string, n: nat)
    requires n <= |StatusLineText(v, code, phrase)|
    ensures var a, t := NAME + VersionText(v), StatusText(code, phrase);
      StatusLineText(v, code, phrase)[..n] == if n <= |a| then a[..n] else a + (" " + t[..n - |a| - 1])
  {
  }

  lemma TextCutAt(code: nat, phrase: string, n: nat)
    requires Known(code) && |Digits(code)| < n <= |StatusText(code, phrase)|
    ensures StatusText(code, phrase)[..n] == StatusText(code, phrase[..n - |Digits(code)| - 1])
  {
  }

  /** The outcome for a line, to be looked at. */
  ghost predicate Accepts(line: string, v: Version, code: nat, ok: bool) {
    forall k: nat {:trigger Look(k)} :: Look(k) ==>
      var r := ParseStatusLine(line);
      if ok then r == Ok((v, code)) else r.Err?
  }

  lemma CutInVersion(v: Version, code: nat, n: nat)
    requires v.major <= 9 && v.minor <= 9 && n <= |NAME + VersionText(v)|
    ensures Accepts((NAME + VersionText(v))[..n], v, code, false)
  {
    NoVersion(v, n);
  }

  lemma CutInStatus(v: Version, code: nat, phrase: string, n: nat)
    requires v.major <= 9 && v.minor <= 9 && n <= |StatusText(code, phrase)| && (Known(code) ==> n <= |Digits(code)|)
    ensures Accepts(NAME + VersionText(v) + (" " + StatusText(code, phrase)[..n]), v, code, false)
  {
    var a := NAME + VersionText(v);
    StatusCut(code, phrase, |a| + 1, n);
    StatusBehind(v, StatusText(code, phrase)[..n]);
  }

  lemma CutInPhrase(v: Version, code: nat, phrase: string, n: nat)
    requires v.major <= 9 && v.minor <= 9 && Known(code) && |Digits(code)| < n <= |StatusText(code, phrase)|
    ensures Accepts(NAME + VersionText(v) + (" " + StatusText(code, phrase)[..n]), v, code, true)
  {
    TextCutAt(code, phrase, n);
    StatusLineComesBack(v, code, phrase[..n - |Digits(code)| - 1]);
  }

  lemma StatusLineCutAt(v: Version, code: nat, phrase: string, n: nat)
    requires v.major <= 9 && v.minor <= 9 && n <= |StatusLineText(v, code, phrase)|
    ensures Accepts(StatusLineText(v, code, phrase)[..n], v, code, Known(code) && n >= Needed(v, code))
  {
    var a := NAME + VersionText(v);
    LineCutAt(v, code, phrase, n);
    if n <= |a| {
      CutInVersion(v, code, n);
    } else if Known(code) && n >= Needed(v, code) {
      CutInPhrase(v, code, phrase, n - |a| - 1);
    } else {
      CutInStatus(v, code, phrase, n - |a| - 1);
    }
  }

  /** A beginning of a status line is accepted exactly when it reaches past the status and the status is known. */
  lemma {:induction false} StatusLineCut(v: Version, code: nat, phrase: string, n: nat)
    requires v.major <= 9 && v.minor <= 9 && n <= |StatusLineText(v, code, phrase)|
    ensures var r := ParseStatusLine(StatusLineText(v, code, phrase)[..n]);
      if Known(code) && n >= Needed(v, code) then r == Ok((v, code)) else r.Err?
  {
    StatusLineCutAt(v, code, phrase, n);
    assert Look(0);
  }

  // ---------------------------------------------------------------- cut anywhere

  /** What is left of the header section when a head is cut to `n` bytes. */
  function Section(resp: Response, phrase: string, order: seq<string>, n: nat): string
    requires Lists(order, resp.headers) && n <= |ResponseText(resp, phrase, order)|
  {
    var m := |StatusLineText(resp.version, resp.status, phrase)| + 2;
    if n <= m then "" else (HeadersText(order, resp.headers) + CRLF)[..n - m]
  }

  /** The first line of a cut head. */
  function FirstLine(resp: Response, phrase: string, n: nat): string {
    var line := StatusLineText(resp.version, resp.status, phrase);
    if n <= |line| then line[..n] else if n == |line| + 1 then line + "\r" else line
  }

  lemma NoLineEnd(s: string)
    requires Plain(s, CRLF)
    ensures SplitLine(s, CRLF) == (s, "")
  {
    assert forall i: nat :: !Occurs(s, CRLF, i);
    assert FirstAt(s, CRLF) == None;
  }

  lemma PlainCut(line: string, n: nat)
    requires Plain(line, CRLF) && n <= |line|
    ensures Plain(line[..n], CRLF) && Plain(line + "\r", CRLF)
  {
    PlainCrLf(line);
    PlainCrLf(line[..n]);
    PlainCrLf(line + "\r");
    assert forall i :: 0 <= i < |line| ==> (line + "\r")[i] == line[i];
  }

  lemma CutText(line: string, more: string, n: nat)
    requires n <= |line + CRLF + more|
    ensures (line + CRLF + more)[..n] ==
            if n <= |line| then line[..n] else if n == |line| + 1 then line + "\r" else line + (CRLF + more[..n - |line| - 2])
  {
  }

  /** A cut head splits into the first line and what is left of the headers. */
  lemma CutSplits(resp: Response, phrase: string, order: seq<string>, n: nat)
    requires Free(phrase, {'\r'}) && Lists(order, resp.headers) && n <= |ResponseText(resp, phrase, order)|
    ensures SplitLine(ResponseText(resp, phrase, order)[..n], CRLF) == (FirstLine(resp, phrase, n), Section(resp, phrase, order, n))
  {
    var line, more := StatusLineText(resp.version, resp.status, phrase), HeadersText(order, resp.headers) + CRLF;
    StatusLinePlain(resp.version, resp.status, phrase);
    CutText(line, more, n);
    if n <= |line| + 1 {
      PlainCut(line, if n <= |line| then n else 0);
      NoLineEnd(FirstLine(resp, phrase, n));
    } else {
      PlainLine(line, more[..n - |line| - 2]);
    }
  }

  /** The status line with the first byte of its end. */
  lemma StatusLineCr(v: Version, code: nat, phrase: string)
    requires v.major <= 9 && v.minor <= 9
    ensures var r := ParseStatusLine(StatusLineText(v, code, phrase) + "\r"); if Known(code) then r == Ok((v, code)) else r.Err?
  {
    var a, t := NAME + VersionText(v), StatusText(code, phrase);
    Associate(a, " " + t, "\r");
    Associate(" ", t, "\r");
    if Known(code) {
      Associate(Digits(code) + " ", phrase, "\r");
      StatusLineComesBack(v, code, phrase + "\r");
    } else {
      StatusBehind(v, t + "\r");
      assert (t + "\r")[0] == 'X';
    }
  }

  lemma DigitsAccepted(resp: Response, phrase: string, n: nat)
    requires resp.version.major <= 9 && resp.version.minor <= 9
    ensures var r := ParseStatusLine(FirstLine(resp, phrase, n));
      if Known(resp.status) && n >= Needed(resp.version, resp.status) then r == Ok((resp.version, resp.status)) else r.Err?
  {
    var line := StatusLineText(resp.version, resp.status, phrase);
    if n == |line| + 1 {
      StatusLineCr(resp.version, resp.status, phrase);
    } else {
      StatusLineCut(resp.version, resp.status, phrase, if n <= |line| then n else |line|);
      assert line[..|line|] == line;
    }
  }

  lemma FirstLineAccepted(resp: Response, phrase: string, n: nat)
    ensures ParseStatusLine(FirstLine(resp, phrase, n)).Ok? <==>
            Digital(resp.version) && Known(resp.status) && n >= Needed(resp.version, resp.status)
  {
    if Digital(resp.version) {
      ShownText(resp.version);
      DigitsAccepted(resp.(version := Shown(resp.version)), phrase, n);
    } else {
      CutBegins(resp, phrase, n);
      BadVersionLine(resp.version, FirstLine(resp, phrase, n));
    }
  }

  lemma CutBegins(resp: Response, phrase: string, n: nat)
    ensures var a, s := NAME + VersionText(resp.version), FirstLine(resp, phrase, n);
      if |s| <= |a| then s <= a else a + " " <= s
  {
    var a, t := NAME + VersionText(resp.version), StatusText(resp.status, phrase);
    assert a + (" " + t) == a + " " + t;
  }

  /** A head that is cut to `n` bytes decodes without an error exactly when the version is written in digits, the status is
      known, the cut is behind the blank that follows it, and the lines that are left do not reach the limit. */
  lemma CutHeadExactly(resp: Response, phrase: string, order: seq<string>, n: nat, max: nat)
    requires Free(phrase, {'\r'}) && Lists(order, resp.headers) && n <= |ResponseText(resp, phrase, order)|
    ensures ParseResponse(ResponseText(resp, phrase, order)[..n], max).Ok? <==>
              && Digital(resp.version) && Known(resp.status) && n >= Needed(resp.version, resp.status)
              && HeadBytes(Section(resp, phrase, order, n)) < max
  {
    CutSplits(resp, phrase, order, n);
    FirstLineAccepted(resp, phrase, n);
    HeadersFailExactly(Section(resp, phrase, order, n), max, 0, map[]);
  }

  /** The head up to the end of its `i`-th header line. */
  function UpTo(resp: Response, phrase: string, order: seq<string>, i: nat): string
    requires Lists(order, resp.headers) && i <= |order|
  {
    StatusLineText(resp.version, resp.status, phrase) + (CRLF + (HeadersText(order[..i], resp.headers) + ""))
  }

  lemma {:induction false} HeadersPrefix(order: seq<string>, i: nat, h: Headers)
    requires Lists(order, h) && i <= |order|
    ensures HeadersText(order[..i], h) <= HeadersText(order, h)
    decreases |order|
  {
    if i == 0 {
    } else {
      assert order[..i][1..] == order[1..][..i - 1];
      HeadersPrefix(order[1..], i - 1, h);
    }
  }

  lemma UpToPrefix(resp: Response, phrase: string, order: seq<string>, i: nat)
    requires Lists(order, resp.headers) && i <= |order|
    ensures UpTo(resp, phrase, order, i) <= ResponseText(resp, phrase, order)
  {
    var line, part := StatusLineText(resp.version, resp.status, phrase), HeadersText(order[..i], resp.headers);
    HeadersPrefix(order, i, resp.headers);
    assert part + "" == part;
    assert line + (CRLF + part) <= line + CRLF + (HeadersText(order, resp.headers) + CRLF);
  }

  /** Cut at the end of a header line, a head decodes to the headers that are there, as if it were complete. */
  lemma {:induction false} CutAtLineEnd(resp: Response, phrase: string, order: seq<string>, i: nat, max: nat)
    requires resp.version.major <= 9 && resp.version.minor <= 9 && Free(phrase, {'\r'}) && Known(resp.status)
    requires WellFormed(resp.headers) && Enumerates(order, resp.headers) && i <= |order|
    ensures UpTo(resp, phrase, order, i) <= ResponseText(resp, phrase, order)
    ensures LineBytes(order[..i], resp.headers) < max ==>
              ParseResponse(UpTo(resp, phrase, order, i), max)
              == Ok((resp.(headers := Fill(order[..i], resp.headers, map[])), ""))
  {
    var line, part := StatusLineText(resp.version, resp.status, phrase), HeadersText(order[..i], resp.headers);
    UpToPrefix(resp, phrase, order, i);
    StatusLinePlain(resp.version, resp.status, phrase);
    PlainLine(line, part + "");
    StatusLineComesBack(resp.version, resp.status, phrase);
    HeadersComeBack(order[..i], resp.headers, map[], 0, max, "", "");
    assert Look(2);
  }
}
