/** The head of an HTTP/1.1 response, written and read: `src/http/http11.cpp`. */
module Http11 {
  import opened Text
  import opened Decimal
  import opened Streams
  import opened BufferedReading
  import opened Lines
  import opened StringUtil

  // ---------------------------------------------------------------- data

  datatype Version = Version(major: nat, minor: nat)

  datatype Header = Header(name: string, values: seq<string>)

  /** Headers under their name in lower case, which is how names are compared. */
  type Headers = map<string, Header>

  datatype Response = Response(version: Version, status: nat, headers: Headers)

  /** `headers::add`: the name that was added first stays. */
  function Add(h: Headers, name: string, value: string): Headers {
    var k := Lower(name);
    if k in h then h[k := Header(h[k].name, h[k].values + [value])] else h[k := Header(name, [value])]
  }

  function AddAll(h: Headers, name: string, values: seq<string>): Headers
    decreases |values|
  {
    if values == [] then h else AddAll(Add(h, name, values[0]), name, values[1..])
  }

  // ---------------------------------------------------------------- the status line

  /** The codes of the `status` enumeration other than `NONE`. */
  predicate Known(code: nat) {
    || 100 <= code <= 102 || 200 <= code <= 208 || code == 226 || 300 <= code <= 305 || code == 307 || code == 308
    || 400 <= code <= 418 || 421 <= code <= 424 || code == 426 || code == 428 || code == 429 || code == 431
    || code == 444 || code == 451 || code == 499 || 500 <= code <= 508 || code == 510 || code == 511 || code == 599
  }

  /** `status_text`, for any reason phrase: readers ignore it. */
  function StatusText(code: nat, phrase: string): string {
    if Known(code) then Digits(code) + " " + phrase else "XXX Unknown"
  }

  /** A version number is written as one character. */
  function VersionChar(n: nat): char {
    ((n + '0' as int) % 256) as char
  }

  function VersionText(v: Version): string {
    [VersionChar(v.major), '.', VersionChar(v.minor)]
  }

  const NAME := "HTTP/"

  function StatusLineText(v: Version, code: nat, phrase: string): string {
    NAME + VersionText(v) + (" " + StatusText(code, phrase))
  }

  datatype Result<T> = Ok(value: T) | Err(error: Error)

  function NumberError(n: Number): Error
    requires !n.Num?
  {
    if n.Bad? then BadNumber else NumberTooLarge
  }

  /** `parse_http_version`. */
  function ParseVersion(s: string): Result<Version> {
    if !(NAME <= s) then Err(IllegalBytes)
    else
      var rest := s[|NAME|..];
      var i := IndexOfAny(rest, {'.'});
      if i == |rest| then Err(IllegalBytes)
      else
        var major, minor := ParseUint(rest[..i]), ParseUint(rest[i + 1..]);
        if !major.Num? then Err(NumberError(major))
        else if !minor.Num? then Err(NumberError(minor))
        else Ok(Version(major.value, minor.value))
  }

  /** Reads the status behind the first blank, which is at position `start - 1`. The piece that is parsed is as long
      as the position of the second blank and may reach past it; reading stops at the blank anyway. */
  function ParseStatus(rest: string, start: nat): Result<nat> {
    var j := IndexOfAny(rest, {' '});
    if j == |rest| then Err(IllegalBytes)
    else
      var status := ParseUint(rest[..Min(start + j, |rest|)]);
      if !status.Num? || status.value == 0 then Err(IllegalBytes) else Ok(status.value)
  }

  /** What `parse_status_line` makes of a line. */
  function ParseStatusLine(line: string): Result<(Version, nat)> {
    if line == "" then Err(Closed)
    else
      var i := IndexOfAny(line, {' '});
      if i == |line| then Err(IllegalBytes)
      else
        var version := ParseVersion(line[..i]);
        if version.Err? then Err(version.error)
        else
          var status := ParseStatus(line[i + 1..], i + 1);
          if status.Err? then Err(status.error) else Ok((version.value, status.value))
  }

  lemma VersionComesBack(v: Version)
    requires v.major <= 9 && v.minor <= 9
    ensures ParseVersion(NAME + VersionText(v)) == Ok(v) && Free(NAME + VersionText(v), {' ', '\r'})
  {
    var s := NAME + VersionText(v);
    var rest := VersionText(v);
    assert s[|NAME|..] == rest;
    assert rest == Digits(v.major) + ("." + Digits(v.minor));
    IndexAfter(Digits(v.major), "." + Digits(v.minor), {'.'});
    assert rest[..1] == Digits(v.major) + "" && rest[2..] == Digits(v.minor) + "";
    ParseDigits(v.major, "");
    ParseDigits(v.minor, "");
    assert forall j :: 0 <= j < |s| ==> s[j] == if j < 5 then NAME[j] else rest[j - 5];
  }

  /** Both numbers of the version are written as digits. */
  predicate Digital(v: Version) {
    v.major % 256 <= 9 && v.minor % 256 <= 9
  }

  /** The version that is written: one character for each number. */
  function Shown(v: Version): Version {
    Version(v.major % 256, v.minor % 256)
  }

  lemma SameChar(n: nat)
    ensures VersionChar(n % 256) == VersionChar(n)
  {
  }

  lemma ShownText(v: Version)
    ensures VersionText(Shown(v)) == VersionText(v)
  {
    SameChar(v.major);
    SameChar(v.minor);
  }

  lemma ShownSame(v: Version)
    requires Digital(v)
    ensures Shown(v) == v <==> v.major <= 9 && v.minor <= 9
  {
  }

  /** What a status line gives, folded. */
  ghost predicate LineGives(line: string, r: Result<(Version, nat)>) {
    forall k: nat {:trigger Look(k)} :: k == 15 && Look(k) ==> ParseStatusLine(line) == r
  }

  lemma ShownLine(v: Version, code: nat, phrase: string)
    requires Digital(v)
    ensures LineGives(StatusLineText(v, code, phrase), if Known(code) then Ok((Shown(v), code)) else Err(IllegalBytes))
  {
    ShownText(v);
    StatusLineComesBack(Shown(v), code, phrase);
  }

  lemma BadLine(v: Version, code: nat, phrase: string) returns (r: Result<(Version, nat)>)
    requires !Digital(v)
    ensures LineGives(StatusLineText(v, code, phrase), r) && r.Err?
  {
    var a, t := NAME + VersionText(v), StatusText(code, phrase);
    assert a + (" " + t) == a + " " + t;
    BadVersionLine(v, StatusLineText(v, code, phrase));
    r := ParseStatusLine(StatusLineText(v, code, phrase));
  }

  lemma VersionDigit(n: nat)
    ensures IsDigit(VersionChar(n)) <==> n % 256 <= 9
  {
  }

  /** Text that does not begin with a digit is not a number. */
  lemma NotNumber(s: string)
    requires s == "" || !IsDigit(s[0])
    ensures ParseUint(s) == Bad
  {
  }

  /** A version that is not written in digits is refused, however much of it is there. */
  lemma BadVersion(v: Version, n: nat)
    requires !Digital(v) && n <= |NAME + VersionText(v)|
    ensures ParseVersion((NAME + VersionText(v))[..n]).Err?
  {
    var s, c, d := (NAME + VersionText(v))[..n], VersionChar(v.major), VersionChar(v.minor);
    if NAME <= s {
      var rest := s[|NAME|..];
      assert rest == [c, '.', d][..n - 5];
      VersionDigit(v.major);
      VersionDigit(v.minor);
      var i := IndexOfAny(rest, {'.'});
      if i < |rest| {
        assert rest[0] == c && (|rest| > 1 ==> rest[1] == '.') && (|rest| > 2 ==> rest[2] == d);
        assert i == if c == '.' then 0 else 1;
        if c == '.' || !IsDigit(c) { NotNumber(rest[..i]); } else { NotNumber(rest[2..]); }
      }
    }
  }

  lemma BadVersionLine(v: Version, s: string)
    requires !Digital(v)
    requires if |s| <= |NAME + VersionText(v)| then s <= NAME + VersionText(v) else NAME + VersionText(v) + " " <= s
    ensures ParseStatusLine(s).Err?
  {
    var a, i := NAME + VersionText(v), IndexOfAny(s, {' '});
    if i < |s| {
      if |s| > |a| {
        assert s[..|a| + 1] == a + " ";
        assert s[|a|] == (a + " ")[|a|] == ' ';
        assert s[..|a|] == s[..|a| + 1][..|a|] == a;
      }
      assert i <= |a|;
      assert s[..i] == a[..i];
      BadVersion(v, i);
    }
  }

  lemma DigitsOnly(n: nat)
    ensures Free(Digits(n), {' '})
  {
    ValueOfDigits(n);
  }

  lemma StatusOf(d: string, r: string, start: nat, code: nat)
    requires Free(d, {' '}) && r != "" && r[0] == ' ' && 0 < code
    requires ParseUint((d + r)[..Min(start + |d|, |d| + |r|)]) == Num(code)
    ensures ParseStatus(d + r, start) == Ok(code)
  {
    IndexAfter(d, r, {' '});
  }

  lemma StatusParsed(code: nat, phrase: string, start: nat)
    requires 0 < code < UINT32
    ensures ParseStatus(Digits(code) + (" " + phrase), start) == Ok(code)
  {
    var d, r := Digits(code), " " + phrase;
    var n := Min(start + |d|, |d| + |r|);
    PrefixConcat(d, r, n);
    ParseDigits(code, r[..n - |d|]);
    DigitsOnly(code);
    StatusOf(d, r, start, code);
  }

  lemma StatusComesBack(code: nat, phrase: string, start: nat)
    ensures ParseStatus(StatusText(code, phrase), start) == if Known(code) then Ok(code) else Err(IllegalBytes)
  {
    if Known(code) {
      Associate(Digits(code), " ", phrase);
      StatusParsed(code, phrase, start);
    }
  }

  /** A version of two single digits and a known status come back; any other status is refused. */
  lemma StatusLineComesBack(v: Version, code: nat, phrase: string)
    requires v.major <= 9 && v.minor <= 9
    ensures ParseStatusLine(StatusLineText(v, code, phrase)) == if Known(code) then Ok((v, code)) else Err(IllegalBytes)
  {
    var a, t := NAME + VersionText(v), StatusText(code, phrase);
    var line := a + (" " + t);
    VersionComesBack(v);
    assert Free(a, {' '});
    IndexAfter(a, " " + t, {' '});
    CutConcat(a, " " + t);
    CutConcat(" ", t);
    StatusComesBack(code, phrase, |a| + 1);
  }

  // ---------------------------------------------------------------- header lines

  function ValuesText(values: seq<string>): string {
    if values == [] then ""
    else if |values| == 1 then values[0]
    else ValuesText(values[..|values| - 1]) + (", " + values[|values| - 1])
  }

  function HeaderLine(h: Header): string {
    h.name + (": " + ValuesText(h.values))
  }

  /** Name and values of a header line; `None` for a line without a colon, which is skipped. */
  function ParseLine(line: string): Option<(string, seq<string>)> {
    var i := IndexOfAny(line, {':'});
    if i == |line| then None else Some((Trim(line[..i]), Split(Trim(line[i + 1..]), ',')))
  }

  /** The header that a name has when more values are added; a name that is there already stays as it is written. */
  function Extended(h: Headers, name: string, values: seq<string>): Header {
    if Lower(name) in h then Header(h[Lower(name)].name, h[Lower(name)].values + values) else Header(name, values)
  }

  lemma {:induction false} AddAllExactly(h: Headers, name: string, values: seq<string>)
    requires values != []
    ensures AddAll(h, name, values) == h[Lower(name) := Extended(h, name, values)]
    decreases |values|
  {
    assert values == [values[0]] + values[1..];
    var h' := Add(h, name, values[0]);
    if |values| == 1 {
      assert values == [values[0]];
      assert h' == h[Lower(name) := Extended(h, name, values)];
      assert values[1..] == [] && AddAll(h', name, []) == h';
    } else {
      AddAllExactly(h', name, values[1..]);
      assert h'[Lower(name)].values + values[1..] == Extended(h, name, values).values;
    }
  }

  /** A header line adds the parts of its text between commas, behind the values that its name has already. */
  lemma LineAdds(h: Headers, name: string, rest: string)
    requires Free(name, {':'})
    ensures AddLine(h, name + (":" + rest)) == h[Lower(Trim(name)) := Extended(h, Trim(name), Split(Trim(rest), ','))]
  {
    ColonAt(name, rest);
    LineCut(name, rest);
    AddAllExactly(h, Trim(name), Split(Trim(rest), ','));
  }

  /** A line without a colon is skipped. */
  lemma LineSkipped(h: Headers, line: string)
    requires Free(line, {':'})
    ensures AddLine(h, line) == h
  {
  }

  /** Two lines whose names differ at most in the case of letters give the values of the first and then those of the
      second, under the first name. */
  lemma SameNameLines(h: Headers, a: string, b: string, rest: string, rest': string)
    requires Free(a, {':'}) && Free(b, {':'}) && SameLetters(Trim(a), Trim(b)) && Lower(Trim(a)) !in h
    ensures var h2 := AddLine(AddLine(h, a + (":" + rest)), b + (":" + rest'));
      h2 == h[Lower(Trim(a)) := Header(Trim(a), Split(Trim(rest), ',') + Split(Trim(rest'), ','))]
  {
    LowerExactly(Trim(a), Trim(b));
    LineAdds(h, a, rest);
    LineAdds(AddLine(h, a + (":" + rest)), b, rest');
  }

  /** Lines of different names do not touch each other. */
  lemma OtherNameLine(h: Headers, name: string, rest: string, k: string)
    requires Free(name, {':'}) && k in h && !SameLetters(Trim(name), h[k].name) && k == Lower(h[k].name)
    ensures k in AddLine(h, name + (":" + rest)) && AddLine(h, name + (":" + rest))[k] == h[k]
  {
    LowerExactly(Trim(name), h[k].name);
    LineAdds(h, name, rest);
  }

  /** A header with one value comes back exactly when its name has no colon and no blanks around it
      and its value is not empty, has no comma and no blanks around it. */
  predicate FieldOk(name: string, value: string) {
    Free(name, {':'}) && Trim(name) == name && Trimmed(value) && Free(value, {','})
  }

  lemma TrimBlank(v: string)
    ensures Trim(" " + v) == v <==> Trimmed(v)
  {
    LeadingBehind(v);
    if Leading(v) < |v| {
      LeadingStops(v, Leading(v));
      TrimBehind(v, Leading(v), Leading(v), |v| - Trailing(v));
    }
  }

  lemma SplitWhole(s: string, v: string)
    ensures Split(s, ',') == [v] <==> s == v && Free(v, {','})
  {
    SplitExactly(s, ',', [v]);
  }

  lemma ColonAt(name: string, rest: string)
    ensures var i := IndexOfAny(name + (":" + rest), {':'}); i <= |name| && (i == |name| <==> Free(name, {':'}))
  {
    var s := name + (":" + rest);
    assert s[|name|] == ':' && forall j :: 0 <= j < |name| ==> s[j] == name[j];
  }

  lemma HeaderLineIs(name: string, text: string)
    ensures name + (": " + text) == name + (":" + (" " + text))
  {
  }

  /** Where a line is cut at the colon behind a name. */
  lemma LineCut(name: string, rest: string)
    ensures var line := name + (":" + rest); line[..|name|] == name && line[|name| + 1..] == rest
  {
    CutConcat(name, ":" + rest);
    CutConcat(":", rest);
  }

  /** A name comes back from its line exactly when it has no colon and no blanks around it. */
  lemma LineParsed(name: string, rest: string, values: seq<string>)
    ensures ParseLine(name + (":" + rest)) == Some((name, values)) <==>
      Free(name, {':'}) && Trim(name) == name && values == Split(Trim(rest), ',')
  {
    ColonAt(name, rest);
    LineCut(name, rest);
  }

  lemma HeaderLineExactly(name: string, value: string)
    ensures ParseLine(HeaderLine(Header(name, [value]))) == Some((name, [value])) <==> FieldOk(name, value)
  {
    HeaderLineIs(name, value);
    LineParsed(name, " " + value, [value]);
    TrimBlank(value);
    SplitWhole(Trim(" " + value), value);
  }

  // ---------------------------------------------------------------- the header section

  /** What is read: the headers and the text behind the blank line. */
  datatype Head = Head(headers: Headers, rest: string)

  function AddLine(h: Headers, line: string): Headers {
    match ParseLine(line)
    case None => h
    case Some((name, values)) => AddAll(h, name, values)
  }

  /** `parse_headers`: `amount` counts the bytes of the lines read so far, without their ends. */
  function ParseHeaders(s: string, max: nat, amount: nat, h: Headers): Result<Head>
    decreases |s|, 1
  {
    if amount >= max then Err(ValueTooLarge)
    else
      var (line, rest) := SplitLine(s, CRLF);
      AfterLine(line, rest, max, amount, h)
  }

  /** An empty line ends the section. */
  function AfterLine(line: string, rest: string, max: nat, amount: nat, h: Headers): Result<Head>
    decreases |line| + |rest|, 0
  {
    if line == "" then Ok(Head(h, rest)) else ParseHeaders(rest, max, amount + |line|, AddLine(h, line))
  }

  method AddValues(h: Headers, name: string, values: seq<string>) returns (r: Headers)
    ensures r == AddAll(h, name, values)
  {
    r := h;
    assert values[0..] == values;
    for i := 0 to |values|
      invariant AddAll(r, name, values[i..]) == AddAll(h, name, values)
    {
      assert values[i..][1..] == values[i + 1..];
      r := Add(r, name, values[i]);
    }
  }

  method HandleLine(h: Headers, line: string) returns (r: Headers)
    ensures IsAdded(h, line, r)
  {
    var i := IndexOfAny(line, {':'});
    if i == |line| { return h; }
    var values := SplitString(Trim(line[i + 1..]), ',');
    r := AddValues(h, Trim(line[..i]), values);
  }

  function HeadersOf(r: Result<Head>): Result<Headers> {
    match r
    case Ok(head) => Ok(head.headers)
    case Err(e) => Err(e)
  }

  ghost predicate LineIs(s: string, line: string, rest: string) {
    forall k: nat {:trigger Look(k)} :: k == 4 && Look(k) ==> SplitLine(s, CRLF) == (line, rest)
  }

  ghost predicate IsAdded(h: Headers, line: string, h': Headers) {
    forall k: nat {:trigger Look(k)} :: k == 5 && Look(k) ==> h' == AddLine(h, line)
  }

  /** `IsPart` for a line end of CRLF, folded. */
  ghost predicate LineFolded(part: (string, string)) {
    forall k: nat {:trigger Look(k)} :: k == 3 && Look(k) ==> IsPart(part, part.0, CRLF)
  }

  /** `readline` with its default line end; `end` is what was taken off the line. */
  method NextLine(reader: BufferedReader) returns (line: string, ghost end: string)
    requires reader.Valid()
    modifies reader, reader.impl
    ensures reader.Valid() && old(reader.Remaining()) == line + end + reader.Remaining()
    ensures LineFolded((line, end))
    ensures old(reader.Steady()) ==> reader.Steady()
    ensures old(reader.Steady()) ==> LineIs(old(reader.Remaining()), line, reader.Remaining())
    ensures |reader.impl.plan| <= |old(reader.impl.plan)|
    ensures end != CRLF ==> reader.buf == "" && Asked(reader.capacity, |old(reader.impl.plan)|, |reader.impl.plan|)
    ensures old(reader.Steady()) ==> Kept(old(reader.Lone()), reader.Lone(), |reader.Remaining()|)
  {
    line, end := NextPart(reader, CRLF);
  }

  lemma HeadersStep(s: string, max: nat, amount: nat, h: Headers, line: string, rest: string)
    requires amount < max && (line, rest) == SplitLine(s, CRLF)
    ensures ParseHeaders(s, max, amount, h) == AfterLine(line, rest, max, amount, h)
  {
  }

  /** `goal` is what the rest of the stream gives. */
  ghost predicate Leads(goal: Result<Head>, rest: string, max: nat, amount: nat, h: Headers) {
    forall k: nat {:trigger Look(k)} :: k == 6 && Look(k) ==> goal == ParseHeaders(rest, max, amount, h)
  }

  lemma LeadsOn(goal: Result<Head>, s: string, max: nat, amount: nat, h: Headers, line: string, rest: string, h': Headers)
    requires Leads(goal, s, max, amount, h) && amount < max && LineIs(s, line, rest)
    requires if line == "" then h' == h else IsAdded(h, line, h')
    ensures if line == "" then goal == Ok(Head(h', rest)) else Leads(goal, rest, max, amount + |line|, h')
  {
    assert Look(4) && Look(5) && Look(6);
    HeadersStep(s, max, amount, h, line, rest);
  }

  lemma LeadsNowhere(goal: Result<Head>, s: string, max: nat, amount: nat, h: Headers)
    requires Leads(goal, s, max, amount, h) && max <= amount
    ensures goal == Err(ValueTooLarge)
  {
    assert Look(6);
  }

  /** The bytes of lines, without their ends. */
  function Bytes(parts: seq<(string, string)>): nat {
    if parts == [] then 0 else Bytes(parts[..|parts| - 1]) + |parts[|parts| - 1].0|
  }

  /** The headers of lines, in order. */
  function Added(parts: seq<(string, string)>): Headers {
    if parts == [] then map[] else AddLine(Added(parts[..|parts| - 1]), parts[|parts| - 1].0)
  }

  /** How many lines came without their end. */
  function Open(parts: seq<(string, string)>): nat {
    if parts == [] then 0 else Open(parts[..|parts| - 1]) + (if parts[|parts| - 1].1 == CRLF then 0 else 1)
  }

  /** Whether the blank line came without its end. */
  function Missing(r: Result<Headers>, blank: string): nat {
    if r.Ok? && blank != CRLF then 1 else 0
  }

  /** For each of `lines` the source used a reply, or none is left. */
  ghost predicate Accounted(lines: nat, capacity: nat, before: nat, after: nat) {
    after <= before && (capacity > 0 && after > 0 ==> lines + after <= before)
  }

  lemma OpenSnoc(parts: seq<(string, string)>, l: (string, string))
    ensures Open(parts + [l]) == Open(parts) + (if l.1 == CRLF then 0 else 1)
  {
    assert (parts + [l])[..|parts|] == parts;
  }

  /** `Accounted` for the lines without an end, folded. */
  ghost predicate Owes(parts: seq<(string, string)>, capacity: nat, before: nat, after: nat) {
    forall k: nat {:trigger Look(k)} :: k == 12 && Look(k) ==> Accounted(Open(parts), capacity, before, after)
  }

  lemma OwesMore(parts: seq<(string, string)>, l: (string, string), capacity: nat, before: nat, mid: nat, after: nat)
    requires Owes(parts, capacity, before, mid) && after <= mid && (l.1 != CRLF ==> Asked(capacity, mid, after))
    ensures Owes(parts + [l], capacity, before, after)
  {
    assert Look(12);
    OpenSnoc(parts, l);
  }

  lemma Owed(parts: seq<(string, string)>, capacity: nat, before: nat, after: nat)
    requires Owes(parts, capacity, before, after)
    ensures Accounted(Open(parts), capacity, before, after)
  {
    assert Look(12);
  }

  lemma OwedBlank(parts: seq<(string, string)>, line: string, end: string, capacity: nat, before: nat, after: nat)
    requires Owes(parts + [(line, end)], capacity, before, after)
    ensures Accounted(Open(parts) + (if end == CRLF then 0 else 1), capacity, before, after)
  {
    assert Look(12);
    OpenSnoc(parts, (line, end));
  }

  /** Consecutive lines, none of them empty, of which each but the last leaves the total below the limit. */
  ghost predicate AreLines(parts: seq<(string, string)>, max: nat) {
    EachPart(parts) && EachBelow(parts, max)
  }

  ghost predicate EachPart(parts: seq<(string, string)>) {
    forall i :: 0 <= i < |parts| ==> parts[i].0 != "" && IsPart(parts[i], parts[i].0, CRLF)
  }

  ghost predicate EachBelow(parts: seq<(string, string)>, max: nat) {
    forall i :: 0 <= i < |parts| ==> Bytes(parts[..i]) < max
  }

  /** The lines that were read of `all`, the rest, and what they amount to; folded. */
  ghost predicate HasRead(all: string, parts: seq<(string, string)>, rest: string, max: nat, amount: nat, h: Headers) {
    forall k: nat {:trigger Look(k)} :: k == 7 && Look(k) ==> Amounts(all, parts, rest, max, amount, h)
  }

  ghost predicate Amounts(all: string, parts: seq<(string, string)>, rest: string, max: nat, amount: nat, h: Headers) {
    AreLines(parts, max) && amount == Bytes(parts) && h == Added(parts) && all == Rejoin(parts) + rest
  }

  lemma EachPartSnoc(parts: seq<(string, string)>, l: (string, string))
    requires EachPart(parts) && l.0 != "" && IsPart(l, l.0, CRLF)
    ensures EachPart(parts + [l])
  {
  }

  lemma EachBelowSnoc(parts: seq<(string, string)>, l: (string, string), max: nat)
    requires EachBelow(parts, max) && Bytes(parts) < max
    ensures EachBelow(parts + [l], max)
  {
    var more := parts + [l];
    forall i | 0 <= i < |more|
      ensures Bytes(more[..i]) < max
    {
      assert more[..i] == if i < |parts| then parts[..i] else parts;
    }
  }

  lemma TotalsSnoc(parts: seq<(string, string)>, l: (string, string))
    ensures Bytes(parts + [l]) == Bytes(parts) + |l.0| && Added(parts + [l]) == AddLine(Added(parts), l.0)
  {
    assert (parts + [l])[..|parts|] == parts;
  }

  lemma NothingRead(all: string, max: nat)
    ensures HasRead(all, [], all, max, 0, map[])
  {
    assert "" + all == all;
  }

  lemma HasReadMore(all: string, parts: seq<(string, string)>, rest: string, max: nat, amount: nat, h: Headers,
                    line: string, end: string, rest': string, h': Headers)
    requires HasRead(all, parts, rest, max, amount, h) && amount < max && rest == line + end + rest'
    requires line != "" && LineFolded((line, end)) && IsAdded(h, line, h')
    ensures HasRead(all, parts + [(line, end)], rest', max, amount + |line|, h')
  {
    assert Look(3) && Look(5) && Look(7);
    EachPartSnoc(parts, (line, end));
    EachBelowSnoc(parts, (line, end), max);
    TotalsSnoc(parts, (line, end));
    RejoinMore(all, parts, line, end, rest');
  }

  lemma BlankRead(all: string, parts: seq<(string, string)>, rest: string, max: nat, amount: nat, h: Headers)
    requires HasRead(all, parts, rest, max, amount, h) && amount < max
    ensures AreLines(parts, max) && Bytes(parts) < max && h == Added(parts) && all == Rejoin(parts) + rest
  {
    assert Look(7);
  }

  lemma LimitRead(all: string, parts: seq<(string, string)>, rest: string, max: nat, amount: nat, h: Headers)
    requires HasRead(all, parts, rest, max, amount, h) && max <= amount
    ensures AreLines(parts, max) && max <= Bytes(parts) && all == Rejoin(parts) + rest
  {
    assert Look(7);
  }

  /** Reads a line and adds its header; an empty line adds none. */
  method TakeLine(reader: BufferedReader, h: Headers) returns (line: string, h': Headers, ghost end: string)
    requires reader.Valid()
    modifies reader, reader.impl
    ensures reader.Valid() && old(reader.Remaining()) == line + end + reader.Remaining() && LineFolded((line, end))
    ensures if line == "" then h' == h else IsAdded(h, line, h')
    ensures old(reader.Steady()) ==> reader.Steady() && LineIs(old(reader.Remaining()), line, reader.Remaining())
    ensures |reader.impl.plan| <= |old(reader.impl.plan)|
    ensures end != CRLF ==> reader.buf == "" && Asked(reader.capacity, |old(reader.impl.plan)|, |reader.impl.plan|)
    ensures old(reader.Steady()) ==> Kept(old(reader.Lone()), reader.Lone(), |reader.Remaining()|)
  {
    line, end := NextLine(reader);
    h' := h;
    if line != "" { h' := HandleLine(h, line); }
  }

  /** `parse_headers`. Over any source, `parts` are the lines that were read and `blank` the end of the empty one:
      they are what was consumed, and the result is theirs. Over a steady source they are the lines of the stream. */
  method ReadHeaders(reader: BufferedReader, max: nat)
    returns (r: Result<Headers>, ghost parts: seq<(string, string)>, ghost blank: string)
    requires reader.Valid()
    modifies reader, reader.impl
    ensures reader.Valid() && AreLines(parts, max) && (blank == CRLF || blank == "")
    ensures old(reader.Remaining()) == Rejoin(parts) + (blank + reader.Remaining())
    ensures r == if Bytes(parts) < max then Ok(Added(parts)) else Err(ValueTooLarge)
    ensures old(reader.Steady()) ==> r == HeadersOf(ParseHeaders(old(reader.Remaining()), max, 0, map[]))
    ensures old(reader.Steady()) && r.Ok? ==>
      reader.Steady() && reader.Remaining() == ParseHeaders(old(reader.Remaining()), max, 0, map[]).value.rest
    // without its end a line is taken only when the source was asked and gave nothing
    ensures Accounted(Open(parts) + Missing(r, blank), reader.capacity, |old(reader.impl.plan)|, |reader.impl.plan|)
    ensures Missing(r, blank) > 0 ==> reader.buf == ""
    ensures old(reader.Steady()) ==> Kept(old(reader.Lone()), reader.Lone(), |reader.Remaining()|)
  {
    ghost var goal, all, lone, plan := ParseHeaders(reader.Remaining(), max, 0, map[]), reader.Remaining(), reader.Lone(), reader.impl.plan;
    var done, amount, h;
    reader.StartTracking(lone);
    NothingRead(all, max);
    done, amount, h, parts, blank := CollectLines(reader, max, reader.Steady(), goal, lone, all, |plan|);
    ghost var rest := blank + reader.Remaining();
    if old(reader.Steady()) { reader.Tracked(lone); }
    if done {
      OwedBlank(parts, "", blank, reader.capacity, |plan|, |reader.impl.plan|);
      BlankRead(all, parts, rest, max, amount, h);
      return Ok(h), parts, blank;
    } else {
      Owed(parts, reader.capacity, |plan|, |reader.impl.plan|);
      LimitRead(all, parts, reader.Remaining(), max, amount, h);
      assert "" + reader.Remaining() == reader.Remaining();
      return Err(ValueTooLarge), parts, blank;
    }
  }

  /** One round of the loop: the next line, of which an empty one ends the headers. */
  method CollectLine(reader: BufferedReader, ghost max: nat, ghost amount: nat, h: Headers, ghost all: string,
                     ghost parts: seq<(string, string)>, ghost steady: bool, ghost goal: Result<Head>, ghost lone: set<nat>,
                     ghost before: nat)
    returns (line: string, h': Headers, ghost end: string)
    requires reader.Valid() && amount < max && HasRead(all, parts, reader.Remaining(), max, amount, h)
    requires steady ==> reader.Steady() && reader.Tracks(lone) && Leads(goal, reader.Remaining(), max, amount, h)
    requires Owes(parts, reader.capacity, before, |reader.impl.plan|)
    modifies reader, reader.impl
    ensures reader.Valid()
    ensures line == "" ==> h' == h && (end == CRLF || end == "") && HasRead(all, parts, end + reader.Remaining(), max, amount, h)
    ensures line != "" ==> HasRead(all, parts + [(line, end)], reader.Remaining(), max, amount + |line|, h')
    ensures steady ==> reader.Steady() && reader.Tracks(lone)
    ensures steady ==>
      if line == "" then goal == Ok(Head(h', reader.Remaining())) else Leads(goal, reader.Remaining(), max, amount + |line|, h')
    ensures Owes(parts + [(line, end)], reader.capacity, before, |reader.impl.plan|)
    ensures end != CRLF ==> reader.buf == ""
  {
    ghost var s, plan := reader.Remaining(), reader.impl.plan;
    line, h', end := TakeLine(reader, h);
    ghost var rest := reader.Remaining();
    if steady {
      reader.TracksOn(lone);
      LeadsOn(goal, s, max, amount, h, line, rest, h');
    }
    OwesMore(parts, (line, end), reader.capacity, before, |plan|, |reader.impl.plan|);
    if line == "" {
      BlankEnd(end, rest);
    } else {
      HasReadMore(all, parts, s, max, amount, h, line, end, rest, h');
    }
  }

  lemma BlankEnd(end: string, rest: string)
    requires LineFolded(("", end))
    ensures (end == CRLF || end == "") && "" + end + rest == end + rest
  {
    assert Look(3);
    assert "" + end == end;
  }

  /** The loop, up to the blank line if `done`; `goal` is what the stream gives if the source is steady. */
  method CollectLines(reader: BufferedReader, max: nat, ghost steady: bool, ghost goal: Result<Head>, ghost lone: set<nat>,
                      ghost all: string, ghost before: nat)
    returns (done: bool, amount: nat, h: Headers, ghost parts: seq<(string, string)>, ghost blank: string)
    requires reader.Valid() && HasRead(all, [], reader.Remaining(), max, 0, map[])
    requires steady ==> reader.Steady() && reader.Tracks(lone) && Leads(goal, reader.Remaining(), max, 0, map[])
    requires Owes([], reader.capacity, before, |reader.impl.plan|)
    modifies reader, reader.impl
    ensures reader.Valid()
    ensures done ==> HasRead(all, parts, blank + reader.Remaining(), max, amount, h)
    ensures !done ==> HasRead(all, parts, reader.Remaining(), max, amount, h)
    ensures if done then amount < max && (blank == CRLF || blank == "") else max <= amount && blank == ""
    ensures done && blank != CRLF ==> reader.buf == ""
    ensures done ==> Owes(parts + [("", blank)], reader.capacity, before, |reader.impl.plan|)
    ensures !done ==> Owes(parts, reader.capacity, before, |reader.impl.plan|)
    ensures steady ==> reader.Steady() && reader.Tracks(lone)
    ensures steady ==> goal == if done then Ok(Head(h, reader.Remaining())) else Err(ValueTooLarge)
  {
    done, amount, h := false, 0, map[];
    parts, blank := [], "";
    while amount < max
      invariant reader.Valid() && HasRead(all, parts, reader.Remaining(), max, amount, h)
      invariant steady ==> reader.Steady() && reader.Tracks(lone) && Leads(goal, reader.Remaining(), max, amount, h)
      invariant Owes(parts, reader.capacity, before, |reader.impl.plan|)
      decreases max - amount
    {
      var line;
      ghost var end;
      line, h, end := CollectLine(reader, max, amount, h, all, parts, steady, goal, lone, before);
      if line == "" { return true, amount, h, parts, end; }
      amount := amount + |line|;
      parts := parts + [(line, end)];
    }
    if steady { LeadsNowhere(goal, reader.Remaining(), max, amount, h); }
  }

  // ---------------------------------------------------------------- the body

  /** The reader that `response_decode` puts over the rest of the stream. */
  datatype Body = ChunkedBody | Limited(limit: nat)

  predicate IsChunked(h: Headers) {
    var k := "transfer-encoding";
    k in h && exists i :: 0 <= i < |h[k].values| && Lower(Trim(h[k].values[i])) == "chunked"
  }

  /** The number that the first value begins with, if it fits. */
  function ContentLength(h: Headers): Option<nat> {
    var k := "content-length";
    if k in h && h[k].values != [] && ParseBelow(h[k].values[0], UINT64).Num?
    then Some(ParseBelow(h[k].values[0], UINT64).value)
    else None
  }

  function BodyOf(h: Headers): Body {
    if IsChunked(h) then ChunkedBody
    else match ContentLength(h) case Some(n) => Limited(n) case None => Limited(0)
  }

  /** `v` is the word, in any case, with only blanks around it. */
  ghost predicate IsWord(v: string, word: string) {
    exists w :: Inside(v, w) && SameLetters(w, word)
  }

  /** Some transfer encoding is "chunked". */
  ghost predicate AsksChunked(h: Headers) {
    "transfer-encoding" in h &&
    exists i :: 0 <= i < |h["transfer-encoding"].values| && IsWord(h["transfer-encoding"].values[i], "chunked")
  }

  /** The first content length begins with the number `n`, which fits. */
  ghost predicate AsksLength(h: Headers, n: nat) {
    "content-length" in h && h["content-length"].values != [] && BeginsWith(h["content-length"].values[0], n) && n < UINT64
  }

  /** The body that the headers ask for: chunked if some transfer encoding is that, whatever the content length is;
      otherwise of the content length, or empty if there is none. */
  ghost predicate AsksFor(h: Headers, body: Body) {
    match body
    case ChunkedBody => AsksChunked(h)
    case Limited(n) => !AsksChunked(h) && (AsksLength(h, n) || (n == 0 && !exists m :: AsksLength(h, m)))
  }

  lemma WordIs(v: string)
    ensures Lower(Trim(v)) == "chunked" <==> IsWord(v, "chunked")
  {
    LowerChunked();
    if Blank(v) {
      BlankTrim(v);
      if Lower(v) == "chunked" { ChunkedNotBlank(v); }
      if w :| Inside(v, w) && SameLetters(w, "chunked") { InsideNotBlank(v, w); }
    } else {
      TrimInside(v);
      LowerExactly(Trim(v), "chunked");
      if w :| Inside(v, w) && SameLetters(w, "chunked") { InsideIsTrim(v, w); }
    }
  }

  lemma LowerChunked()
    ensures Lower("chunked") == "chunked"
  {
  }

  lemma ChunkedNotBlank(v: string)
    requires Lower(v) == "chunked"
    ensures !Blank(v)
  {
    assert Lower(v)[0] == LowerChar(v[0]) == 'c';
    assert !IsSpace(v[0]);
  }

  lemma InsideNotBlank(v: string, w: string)
    requires Inside(v, w)
    ensures !Blank(v)
  {
    var a: nat :| a + |w| <= |v| && v[a..a + |w|] == w && Blank(v[..a]) && Blank(v[a + |w|..]);
    assert w[0] == v[a];
  }

  lemma ChunkedIs(h: Headers)
    ensures IsChunked(h) <==> AsksChunked(h)
  {
    var k := "transfer-encoding";
    if k in h {
      forall i | 0 <= i < |h[k].values|
        ensures Lower(Trim(h[k].values[i])) == "chunked" <==> IsWord(h[k].values[i], "chunked")
      {
        WordIs(h[k].values[i]);
      }
    }
  }

  lemma LengthIs(h: Headers, n: nat)
    ensures ContentLength(h) == Some(n) <==> AsksLength(h, n)
  {
    var k := "content-length";
    if k in h && h[k].values != [] { ParsesBeginning(h[k].values[0], UINT64, n); }
  }

  /** The body reader is chosen as the headers ask. */
  lemma BodyExactly(h: Headers, body: Body)
    ensures body == BodyOf(h) <==> AsksFor(h, body)
  {
    ChunkedIs(h);
    if body.Limited? { LengthIs(h, body.limit); }
    match ContentLength(h)
    case Some(m) => LengthIs(h, m);
    case None =>
      forall m: nat
        ensures !AsksLength(h, m)
      {
        LengthIs(h, m);
      }
  }

  /** The loop of `is_chunked`. */
  method FindChunked(h: Headers) returns (r: bool)
    ensures r <==> IsChunked(h)
  {
    var k := "transfer-encoding";
    if k !in h { return false; }
    for i := 0 to |h[k].values|
      invariant forall j :: 0 <= j < i ==> Lower(Trim(h[k].values[j])) != "chunked"
    {
      if Lower(Trim(h[k].values[i])) == "chunked" { return true; }
    }
    return false;
  }

  /** A printed content length limits the body to it. */
  lemma LengthComesBack(h: Headers, n: nat)
    requires n < UINT64 && !IsChunked(h) && "content-length" in h && h["content-length"].values == [Digits(n)]
    ensures BodyOf(h) == Limited(n)
  {
    ParseDigitsBelow(n, "", UINT64);
    assert Digits(n) + "" == Digits(n);
  }

  /** The head of a response as `response_decode` reads it. */
  function ParseResponse(s: string, max: nat): Result<(Response, string)> {
    var (line, rest) := SplitLine(s, CRLF);
    match ParseStatusLine(line)
    case Err(e) => Err(e)
    case Ok((version, status)) =>
      match ParseHeaders(rest, max, 0, map[])
      case Err(e) => Err(e)
      case Ok(head) => Ok((Response(version, status, head.headers), head.rest))
  }

  /** What `response_decode` makes of the lines it reads. */
  function FromLines(line: string, r: Result<Headers>): Result<Response> {
    match ParseStatusLine(line)
    case Err(e) => Err(e)
    case Ok((version, status)) =>
      match r
      case Err(e) => Err(e)
      case Ok(headers) => Ok(Response(version, status, headers))
  }

  /** `response_decode`. Over any source the result is that of the lines it got, which are what it consumed. Over a
      steady source it is what `ParseResponse` says, and the reader is left at the first byte of the body. */
  method DecodeResponse(reader: BufferedReader, max: nat)
    returns (r: Result<Response>, body: Body, ghost first: (string, string), ghost parts: seq<(string, string)>, ghost blank: string)
    requires reader.Valid()
    modifies reader, reader.impl
    ensures reader.Valid() && IsPart(first, first.0, CRLF) && AreLines(parts, max) && (blank == CRLF || blank == "")
    ensures old(reader.Remaining()) == first.0 + first.1 + (Rejoin(parts) + (blank + reader.Remaining()))
    ensures ParseStatusLine(first.0).Err? ==> parts == [] && blank == ""
    ensures r == FromLines(first.0, if Bytes(parts) < max then Ok(Added(parts)) else Err(ValueTooLarge))
    ensures r.Ok? ==> body == BodyOf(r.value.headers) && AsksFor(r.value.headers, body)
    ensures old(reader.Steady()) ==> match ParseResponse(old(reader.Remaining()), max) {
      case Ok((resp, rest)) => r == Ok(resp) && reader.Remaining() == rest && reader.Steady()
      case Err(e) => r == Err(e)
    }
    ensures first.1 == CRLF || Asked(reader.capacity, |old(reader.impl.plan)|, |reader.impl.plan|)
    ensures old(reader.Steady()) ==> Kept(old(reader.Lone()), reader.Lone(), |reader.Remaining()|)
  {
    ghost var lone := reader.Lone();
    parts, blank, body := [], "", Limited(0);
    var line;
    ghost var end;
    line, end := NextLine(reader);
    first := (line, end);
    assert Look(4) && Look(3);
    assert "" + ("" + reader.Remaining()) == reader.Remaining();
    match ParseStatusLine(line) {
      case Err(e) => r := Err(e);
      case Ok((version, status)) =>
        var h;
        ghost var was, left := reader.Lone(), |reader.Remaining()|;
        h, parts, blank := ReadHeaders(reader, max);
        if old(reader.Steady()) { KeptTwice(lone, was, reader.Lone(), left, |reader.Remaining()|); }
        match h {
          case Err(e) => r := Err(e);
          case Ok(headers) =>
            r := Ok(Response(version, status, headers));
            body := ChooseBody(headers);
            BodyExactly(headers, body);
        }
    }
  }

  method ChooseBody(h: Headers) returns (body: Body)
    ensures body == BodyOf(h)
  {
    var chunked := FindChunked(h);
    if chunked { return ChunkedBody; }
    match ContentLength(h)
    case Some(n) => return Limited(n);
    case None => return Limited(0);
  }

  // ---------------------------------------------------------------- writing

  function HeaderText(h: Header): string {
    HeaderLine(h) + CRLF
  }

  /** The header lines in the order in which the map is iterated. */
  function HeadersText(order: seq<string>, h: Headers): string
    requires forall i :: 0 <= i < |order| ==> order[i] in h
  {
    if order == [] then "" else HeaderText(h[order[0]]) + HeadersText(order[1..], h)
  }

  function ResponseText(resp: Response, phrase: string, order: seq<string>): string
    requires forall i :: 0 <= i < |order| ==> order[i] in resp.headers
  {
    StatusLineText(resp.version, resp.status, phrase) + CRLF + (HeadersText(order, resp.headers) + CRLF)
  }

  /** Writes the values behind a name; the message goes on with `after`. */
  method WriteValues(sink: Sink, values: seq<string>, ghost after: string, ghost goal: string) returns (err: Error)
    requires sink.whole && sink.written + (ValuesText(values) + after) == goal
    modifies sink
    ensures err == NoError ==> sink.written + after == goal
    ensures sink.written <= goal
    ensures old(sink.Reliable()) ==> err == NoError && sink.Reliable()
  {
    err := NoError;
    if values == [] {
      assert "" + after == after;
      return;
    }
    ghost var w := sink.written;
    var count;
    PrefixText(w, values, 1, after);
    count, err := Send(sink, values[0], LaterText(values, 1) + after, goal);
    if err != NoError { return; }
    for i := 1 to |values|
      invariant sink.written + (LaterText(values, i) + after) == goal
      invariant err == NoError && (old(sink.Reliable()) ==> sink.Reliable())
    {
      LaterStep(values, i, after);
      ghost var rest := values[i] + (LaterText(values, i + 1) + after);
      count, err := Send(sink, ", ", rest, goal);
      if err != NoError { return; }
      count, err := Send(sink, values[i], LaterText(values, i + 1) + after, goal);
      if err != NoError { return; }
    }
    assert "" + after == after;
  }

  /** The values from the `i`-th on, each behind its comma. */
  function LaterText(values: seq<string>, i: nat): string
    requires i <= |values|
    decreases |values| - i
  {
    if i == |values| then "" else ", " + values[i] + LaterText(values, i + 1)
  }

  lemma LaterStep(values: seq<string>, i: nat, after: string)
    requires i < |values|
    ensures LaterText(values, i) + after == ", " + (values[i] + (LaterText(values, i + 1) + after))
  {
    Reassociate(", ", values[i], LaterText(values, i + 1), after, "");
  }

  lemma {:induction false} ValuesFromLater(values: seq<string>, i: nat)
    requires 0 < i <= |values|
    ensures ValuesText(values) == ValuesText(values[..i]) + LaterText(values, i)
    decreases |values| - i
  {
    if i == |values| {
      assert values[..i] == values;
    } else {
      ValuesFromLater(values, i + 1);
      var front := values[..i + 1];
      assert front[..i] == values[..i] && front[i] == values[i];
      Associate(ValuesText(values[..i]), ", " + values[i], LaterText(values, i + 1));
    }
  }

  lemma PrefixText(w: string, values: seq<string>, i: nat, after: string)
    requires i == 1 <= |values|
    ensures w + (ValuesText(values) + after) == w + (values[0] + (LaterText(values, 1) + after))
  {
    ValuesFromLater(values, 1);
    assert values[..1] == [values[0]];
    Associate(values[0], LaterText(values, 1), after);
  }

  lemma HeaderParts(h: Header, after: string)
    ensures HeaderText(h) + after == h.name + (": " + (ValuesText(h.values) + (CRLF + after)))
  {
    var v := ValuesText(h.values);
    Associate(HeaderLine(h), CRLF, after);
    Associate(h.name, ": " + v, CRLF + after);
    Associate(": ", v, CRLF + after);
  }

  method WriteHeader(sink: Sink, h: Header, ghost after: string, ghost goal: string) returns (err: Error)
    requires sink.whole && sink.written + (HeaderText(h) + after) == goal
    modifies sink
    ensures err == NoError ==> sink.written + after == goal
    ensures sink.written <= goal
    ensures old(sink.Reliable()) ==> err == NoError && sink.Reliable()
  {
    ghost var a2 := CRLF + after;
    ghost var a1 := ValuesText(h.values) + a2;
    HeaderParts(h, after);
    var count;
    count, err := Send(sink, h.name, ": " + a1, goal);
    if err != NoError { return; }
    count, err := Send(sink, ": ", a1, goal);
    if err != NoError { return; }
    err := WriteValues(sink, h.values, a2, goal);
    if err != NoError { return; }
    count, err := Send(sink, CRLF, after, goal);
  }

  /** `write_headers`, for any iteration order of the map. */
  method WriteHeaders(sink: Sink, h: Headers, order: seq<string>, ghost after: string, ghost goal: string) returns (err: Error)
    requires forall i :: 0 <= i < |order| ==> order[i] in h
    requires sink.whole && sink.written + (HeadersText(order, h) + after) == goal
    modifies sink
    ensures err == NoError ==> sink.written + after == goal
    ensures sink.written <= goal
    ensures old(sink.Reliable()) ==> err == NoError && sink.Reliable()
  {
    err := NoError;
    assert order[0..] == order;
    for i := 0 to |order|
      invariant sink.written + (HeadersText(order[i..], h) + after) == goal
      invariant err == NoError && (old(sink.Reliable()) ==> sink.Reliable())
    {
      ghost var rest := HeadersText(order[i + 1..], h) + after;
      HeadersTextStep(order, i, h, after);
      err := WriteHeader(sink, h[order[i]], rest, goal);
      if err != NoError { return; }
    }
    assert "" + after == after;
  }

  lemma HeadersTextStep(order: seq<string>, i: nat, h: Headers, after: string)
    requires i < |order| && forall j :: 0 <= j < |order| ==> order[j] in h
    ensures HeadersText(order[i..], h) + after == HeaderText(h[order[i]]) + (HeadersText(order[i + 1..], h) + after)
  {
    assert order[i..][1..] == order[i + 1..];
    Associate(HeaderText(h[order[i]]), HeadersText(order[i + 1..], h), after);
  }

  lemma ResponseParts(resp: Response, phrase: string, order: seq<string>)
    requires forall i :: 0 <= i < |order| ==> order[i] in resp.headers
    ensures ResponseText(resp, phrase, order)
         == NAME + (VersionText(resp.version) + " " + (StatusText(resp.status, phrase) + (CRLF + (HeadersText(order, resp.headers) + (CRLF + "")))))
  {
    var v, t, h := VersionText(resp.version), StatusText(resp.status, phrase), HeadersText(order, resp.headers);
    assert CRLF + "" == CRLF;
    Associate(NAME + v, " " + t, CRLF);
    Associate(" ", t, CRLF);
    FiveParts(NAME, v, t, h);
  }

  lemma FiveParts(n: string, v: string, t: string, h: string)
    ensures n + v + (" " + t) + CRLF + (h + CRLF) == n + (v + " " + (t + (CRLF + (h + CRLF))))
  {
    Reassociate(n, v, " " + t, CRLF, h + CRLF);
    Associate(" ", t, CRLF + (h + CRLF));
    Associate(v, " ", t + (CRLF + (h + CRLF)));
  }

  /** `response_encode`, over a writer that writes everything or reports an error. */
  method EncodeResponse(sink: Sink, resp: Response, phrase: string, order: seq<string>) returns (err: Error)
    requires sink.whole && forall i :: 0 <= i < |order| ==> order[i] in resp.headers
    modifies sink
    ensures err == NoError ==> sink.written == old(sink.written) + ResponseText(resp, phrase, order)
    ensures sink.written <= old(sink.written) + ResponseText(resp, phrase, order)
    ensures old(sink.Reliable()) ==> err == NoError && sink.Reliable()
  {
    ghost var goal := sink.written + ResponseText(resp, phrase, order);
    ghost var a4 := CRLF + "";
    ghost var a3 := HeadersText(order, resp.headers) + a4;
    ghost var a2 := CRLF + a3;
    ghost var a1 := StatusText(resp.status, phrase) + a2;
    ResponseParts(resp, phrase, order);
    var count;
    count, err := Send(sink, NAME, VersionText(resp.version) + " " + a1, goal);
    if err != NoError { return; }
    count, err := Send(sink, VersionText(resp.version) + " ", a1, goal);
    if err != NoError { return; }
    count, err := Send(sink, StatusText(resp.status, phrase), a2, goal);
    if err != NoError { return; }
    count, err := Send(sink, CRLF, a3, goal);
    if err != NoError { return; }
    err := WriteHeaders(sink, resp.headers, order, a4, goal);
    if err != NoError { return; }
    count, err := Send(sink, CRLF, "", goal);
    assert sink.written + "" == sink.written;
  }
}
