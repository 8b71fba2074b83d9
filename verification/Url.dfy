/**
  The URL parser, printer and percent-decoder of `src/url.cpp`.

  The parser is a class whose steps move `state`, `start` and `end` over the input. Each step is proved to
  keep `Final()`, the outcome that the remaining steps will reach; `Run` gives that outcome by recursion on
  the unread suffix. What parsing means (lossless split, exact inverse of `Build`) is proved about `Run`.
 */
module Url {
  import opened Text
  import opened Collections

  datatype State = Scheme | Authority | UserInfo | Host | Port | Path | Query | Fragment | Done

  type QueryMap = map<string, seq<string>>

  datatype Url = Url(
    scheme: string, username: string, password: string, host: string,
    port: string, path: string, query: QueryMap, fragment: string)

  /** `Aborted`: an exception left a `noexcept` function, which ends the process. */
  datatype ParseResult = Parsed(url: Url) | Failed(at: State, index: nat) | Aborted

  // ---------------------------------------------------------------- percent-decoding

  function HexDigit(c: char): Option<nat> {
    if '0' <= c <= '9' then Some(c as int - '0' as int)
    else if 'a' <= c <= 'f' then Some(c as int - 'a' as int + 10)
    else if 'A' <= c <= 'F' then Some(c as int - 'A' as int + 10)
    else None
  }

  /** `from_chars` in base 16 on two characters: it stops at the first non-digit and needs at least one digit. */
  function HexPrefix(a: char, b: char): (v: Option<nat>)
    ensures v.Some? ==> v.value < 256
  {
    match HexDigit(a)
    case None => None
    case Some(h) =>
      match HexDigit(b)
      case None => Some(h)
      case Some(l) => Some(16 * h + l)
  }

  /** `None` is the abort on a '%' with fewer than two characters behind it.
      An unreadable escape is dropped together with the text before it. */
  function Decode(s: string): (r: Option<string>)
    ensures r.Some? ==> |r.value| <= |s|
    ensures r.Some? && |r.value| == |s| ==> Free(s, {'%'})
    ensures Free(s, {'%'}) ==> r == Some(s)
    decreases |s|
  {
    var i := IndexOfAny(s, {'%'});
    if i == |s| then Some(s)
    else if |s| < i + 3 then None
    else
      match Decode(s[i + 3..])
      case None => None
      case Some(t) =>
        match HexPrefix(s[i + 1], s[i + 2])
        case None => Some(t)
        case Some(v) => Some(s[..i] + [v as char] + t)
  }

  function Prefixed(p: string, r: Option<string>): Option<string> {
    match r
    case None => None
    case Some(t) => Some(p + t)
  }

  lemma PrefixedEmpty(r: Option<string>)
    ensures Prefixed("", r) == r
  {
    if r.Some? { assert "" + r.value == r.value; }
  }

  lemma PrefixedTwice(p: string, p': string, r: Option<string>)
    ensures Prefixed(p, Prefixed(p', r)) == Prefixed(p + p', r)
  {
    if r.Some? { assert p + (p' + r.value) == p + p' + r.value; }
  }

  /** One escape decoded. */
  lemma {:induction false} DecodeStep(s: string, i: nat, p: string)
    requires i == IndexOfAny(s, {'%'}) && i + 3 <= |s|
    requires p == match HexPrefix(s[i + 1], s[i + 2]) case None => "" case Some(v) => s[..i] + [v as char]
    ensures Decode(s) == Prefixed(p, Decode(s[i + 3..]))
  {
    PrefixedEmpty(Decode(s[i + 3..]));
  }

  method DecodeText(s: string) returns (r: Option<string>)
    ensures r == Decode(s)
  {
    var out, rest := "", s;
    PrefixedEmpty(Decode(s));
    while true
      invariant Decode(s) == Prefixed(out, Decode(rest))
      decreases |rest|
    {
      var i := IndexOfAny(rest, {'%'});
      if i == |rest| { break; }
      if |rest| < i + 3 { return None; }
      var hex := HexPrefix(rest[i + 1], rest[i + 2]);
      var piece := if hex.Some? then rest[..i] + [hex.value as char] else "";
      DecodeStep(rest, i, piece);
      PrefixedTwice(out, piece, Decode(rest[i + 3..]));
      out, rest := out + piece, rest[i + 3..];
    }
    return Some(out + rest);
  }

  // ---------------------------------------------------------------- the query string

  function Values(m: QueryMap, k: string): seq<string> {
    if k in m then m[k] else []
  }

  /** One `key=value` or bare `key`. */
  function AddParam(kv: string, m: QueryMap): (r: Option<QueryMap>) {
    var eq := IndexOfAny(kv, {'='});
    match Decode(kv[..eq])
    case None => None
    case Some(key) =>
      if eq == |kv| then Some(m[key := Values(m, key)])
      else
        match Decode(kv[eq + 1..])
        case None => None
        case Some(val) => Some(m[key := Values(m, key) + [val]])
  }

  function AddParams(raw: string, m: QueryMap): (r: Option<QueryMap>)
    decreases |raw|, 1
  {
    if raw == "" then Some(m)
    else
      var amp := IndexOfAny(raw, {'&'});
      AfterParam(AddParam(raw[..amp], m), raw, amp)
  }

  function AfterParam(added: Option<QueryMap>, raw: string, amp: nat): Option<QueryMap>
    requires raw != "" && amp <= |raw|
    decreases |raw|, 0
  {
    if added == None || amp == |raw| then added else AddParams(raw[amp + 1..], added.value)
  }

  method ParseParam(kv: string, m: QueryMap) returns (r: Option<QueryMap>)
    ensures r == AddParam(kv, m)
  {
    var eq := IndexOfAny(kv, {'='});
    var key := DecodeText(kv[..eq]);
    if key == None { return None; }
    if eq < |kv| {
      var val := DecodeText(kv[eq + 1..]);
      if val == None { return None; }
      return Some(m[key.value := Values(m, key.value) + [val.value]]);
    } else if key.value !in m {
      return Some(m[key.value := []]);
    } else {
      SameValues(m, key.value);
      return Some(m);
    }
  }

  lemma SameValues(m: QueryMap, key: string)
    requires key in m
    ensures m[key := Values(m, key)] == m
  {
  }

  /** What is left to add to `m` gives `all`. */
  ghost predicate Adds(rest: string, m: QueryMap, all: Option<QueryMap>) {
    forall k: nat {:trigger Look(k)} :: k == |rest| && Look(k) ==> AddParams(rest, m) == all
  }

  lemma {:induction false} FirstAdded(rest: string, m: QueryMap, amp: nat)
    requires rest != "" && amp == IndexOfAny(rest, {'&'})
    ensures AddParams(rest, m) == AfterParam(AddParam(rest[..amp], m), rest, amp)
  {
  }

  lemma {:induction false} AddsMore(rest: string, m: QueryMap, all: Option<QueryMap>, amp: nat, added: Option<QueryMap>)
    requires rest != "" && amp == IndexOfAny(rest, {'&'}) && added == AddParam(rest[..amp], m) && Adds(rest, m, all)
    ensures if added == None || amp == |rest| then added == all else Adds(rest[amp + 1..], added.value, all)
  {
    assert Look(|rest|);
    FirstAdded(rest, m, amp);
  }

  lemma AddsNothing(m: QueryMap, all: Option<QueryMap>)
    requires Adds("", m, all)
    ensures all == Some(m)
  {
    assert Look(0);
  }

  /** The loop over the parameters. */
  method CollectParams(raw: string, ghost all: Option<QueryMap>) returns (r: Option<QueryMap>)
    requires Adds(raw, map[], all)
    ensures r == all
  {
    var rest, m: QueryMap := raw, map[];
    while rest != ""
      invariant Adds(rest, m, all)
      decreases |rest|
    {
      var amp := IndexOfAny(rest, {'&'});
      var added := ParseParam(rest[..amp], m);
      AddsMore(rest, m, all, amp, added);
      if added == None { return None; }
      if amp == |rest| { return added; }
      rest, m := rest[amp + 1..], added.value;
    }
    AddsNothing(m, all);
    return Some(m);
  }

  method ParseParams(raw: string) returns (r: Option<QueryMap>)
    ensures r == AddParams(raw, map[])
  {
    r := CollectParams(raw, AddParams(raw, map[]));
  }

  // ---------------------------------------------------------------- raw pieces

  /** The undecoded pieces up to the user information; a flag says that a delimiter was consumed. */
  datatype Front = Front(
    scheme: string, colon: bool, slashes: bool, username: string, passColon: bool, password: string, at: bool)

  /** The undecoded pieces from the host on. */
  datatype Tail = Tail(
    host: string, portColon: bool, port: string, path: string,
    question: bool, query: string, hash: bool, fragment: string)

  const NO_FRONT := Front("", false, false, "", false, "", false)
  const NO_TAIL := Tail("", false, "", "", false, "", false, "")

  function FragmentPart(t: Tail): string {
    if t.hash then "#" + t.fragment else t.fragment
  }

  function QueryPart(t: Tail): string {
    if t.question then "?" + (t.query + FragmentPart(t)) else t.query + FragmentPart(t)
  }

  function PathPart(t: Tail): string {
    t.path + QueryPart(t)
  }

  function PortPart(t: Tail): string {
    if t.portColon then ":" + (t.port + PathPart(t)) else t.port + PathPart(t)
  }

  function HostPart(t: Tail): string {
    t.host + PortPart(t)
  }

  function UserPart(f: Front): string {
    if f.passColon then f.username + (":" + f.password) else f.username + f.password
  }

  function SchemePart(f: Front): string {
    if f.colon then f.scheme + ":" else f.scheme
  }

  function SlashPart(f: Front, rest: string): string {
    if f.slashes then "//" + (if f.at then UserPart(f) + ("@" + rest) else UserPart(f) + rest) else rest
  }

  /** The pieces and the consumed delimiters, in order. */
  function Join(f: Front, t: Tail): string {
    SchemePart(f) + SlashPart(f, HostPart(t))
  }

  function Rank(s: State): nat {
    match s
    case Scheme => 8
    case Authority => 7
    case UserInfo => 6
    case Host => 5
    case Port => 4
    case Path => 3
    case Query => 2
    case Fragment => 1
    case Done => 0
  }

  predicate SlashSlash(s: string) {
    |s| >= 2 && s[0] == '/' && s[1] == '/'
  }

  /** A point of the parse: the state, the pieces taken and the unread input. */
  datatype Config = Config(state: State, front: Front, tail: Tail, rest: string)

  /** The part of a point that matters once the host is reached. */
  datatype TailConfig = TailConfig(state: State, tail: Tail, rest: string)

  /** Splits "user:password" at its first colon. */
  function SplitUser(f: Front, text: string): Front {
    var i := IndexOfAny(text, {':'});
    if i == |text| then f.(username := text, at := true)
    else f.(username := text[..i], passColon := true, password := text[i + 1..], at := true)
  }

  /** Goes on after a piece that ends before position `i`: the delimiter there selects the next state. */
  function Enter(t: Tail, rest: string, i: nat): (c: TailConfig)
    requires i <= |rest|
    ensures Rank(c.state) < Rank(Host)
    ensures i < |rest| && rest[i] != ':' ==> Rank(c.state) < Rank(Port)
    ensures i < |rest| && rest[i] !in {':', '/'} ==> Rank(c.state) < Rank(Path)
  {
    if i == |rest| then TailConfig(Done, t, "")
    else if rest[i] == ':' then TailConfig(Port, t.(portColon := true), rest[i + 1..])
    else if rest[i] == '/' then TailConfig(Path, t, rest[i..])
    else if rest[i] == '?' then TailConfig(Query, t.(question := true), rest[i + 1..])
    else TailConfig(Fragment, t.(hash := true), rest[i + 1..])
  }

  const HOST_ENDS := {':', '/', '?', '#'}
  const PORT_ENDS := {'/', '?', '#'}
  const PATH_ENDS := {'?', '#'}
  const QUERY_ENDS := {'#'}

  function StepHost(t: Tail, rest: string): (c: TailConfig)
    ensures Rank(c.state) < Rank(Host)
  {
    var i := IndexOfAny(rest, HOST_ENDS);
    Enter(t.(host := rest[..i]), rest, i)
  }

  function StepPort(t: Tail, rest: string): (c: TailConfig)
    ensures Rank(c.state) < Rank(Port)
  {
    var i := IndexOfAny(rest, PORT_ENDS);
    Enter(t.(port := rest[..i]), rest, i)
  }

  function StepPath(t: Tail, rest: string): (c: TailConfig)
    ensures Rank(c.state) < Rank(Path)
  {
    var i := IndexOfAny(rest, PATH_ENDS);
    Enter(t.(path := rest[..i]), rest, i)
  }

  function StepQuery(t: Tail, rest: string): (c: TailConfig)
    ensures Rank(c.state) < Rank(Query)
  {
    var i := IndexOfAny(rest, QUERY_ENDS);
    Enter(t.(query := rest[..i]), rest, i)
  }

  predicate InTail(s: State) {
    Rank(s) <= Rank(Host)
  }

  function StepTail(c: TailConfig): (d: TailConfig)
    requires c.rest != "" && InTail(c.state) && !c.state.Done?
    ensures Rank(d.state) < Rank(c.state)
  {
    match c.state
    case Host => StepHost(c.tail, c.rest)
    case Port => StepPort(c.tail, c.rest)
    case Path => StepPath(c.tail, c.rest)
    case Query => StepQuery(c.tail, c.rest)
    case Fragment => TailConfig(Done, c.tail.(fragment := c.rest), "")
  }

  function StepScheme(c: Config): (d: Config)
    requires c.rest != ""
    ensures Rank(d.state) < Rank(Scheme)
  {
    var i := IndexOfAny(c.rest, {':'});
    if i < |c.rest| then Config(Authority, c.front.(scheme := c.rest[..i], colon := true), c.tail, c.rest[i + 1..])
    else c.(state := WithoutScheme(c.rest))
  }

  /** Where parsing goes on when there is no scheme. */
  function WithoutScheme(rest: string): (s: State)
    requires rest != ""
    ensures Rank(s) < Rank(Scheme)
  {
    if SlashSlash(rest) then Authority else if rest[0] == '/' then Path else Host
  }

  function StepAuthority(c: Config): (d: Config)
    ensures Rank(d.state) < Rank(Authority)
  {
    if SlashSlash(c.rest) then Config(UserInfo, c.front.(slashes := true), c.tail, c.rest[2..]) else c.(state := Path)
  }

  function StepUserInfo(c: Config): (d: Config)
    ensures d.state == Host
  {
    var i := IndexOfAny(c.rest, {'@'});
    if i < |c.rest| then Config(Host, SplitUser(c.front, c.rest[..i]), c.tail, c.rest[i + 1..]) else c.(state := Host)
  }

  /** One component step. */
  function Step(c: Config): (d: Config)
    requires c.rest != "" && !c.state.Done?
    ensures Rank(d.state) < Rank(c.state)
  {
    if c.state.Scheme? then StepScheme(c)
    else if c.state.Authority? then StepAuthority(c)
    else if c.state.UserInfo? then StepUserInfo(c)
    else
      var d := StepTail(TailConfig(c.state, c.tail, c.rest));
      Config(d.state, c.front, d.tail, d.rest)
  }

  /** The state and pieces in which parsing ends. */
  function Run(c: Config): Config
    decreases Rank(c.state)
  {
    if c.rest == "" || c.state.Done? then c else Run(Step(c))
  }

  function RunTail(c: TailConfig): TailConfig
    requires InTail(c.state)
    decreases Rank(c.state)
  {
    if c.rest == "" || c.state.Done? then c else RunTail(StepTail(c))
  }

  function Start(input: string): Config {
    Config(Scheme, NO_FRONT, NO_TAIL, input)
  }

  /** Percent-decodes every piece; `None` when some decoding aborts. */
  function DecodePieces(f: Front, t: Tail): Option<Url> {
    if AddParams(t.query, map[]) == None || Decode(f.scheme) == None || Decode(f.username) == None
       || Decode(f.password) == None || Decode(t.host) == None || Decode(t.port) == None
       || Decode(t.path) == None || Decode(t.fragment) == None then None
    else
      Some(Url(Decode(f.scheme).value, Decode(f.username).value, Decode(f.password).value, Decode(t.host).value,
               Decode(t.port).value, Decode(t.path).value, AddParams(t.query, map[]).value, Decode(t.fragment).value))
  }

  function Conclude(c: Config, size: nat): ParseResult {
    match DecodePieces(c.front, c.tail)
    case None => Aborted
    case Some(u) => if c.state.Done? then Parsed(u) else Failed(c.state, size)
  }

  /** What `url::parse` answers. */
  function Parse(input: string): ParseResult {
    Conclude(Run(Start(input)), |input|)
  }

  // ---------------------------------------------------------------- the parser object

  lemma SchemeFound(c: Config, i: nat)
    requires c.state.Scheme? && i < |c.rest| && c.rest[i] == ':' && Free(c.rest[..i], {':'})
    ensures Step(c) == Config(Authority, c.front.(scheme := c.rest[..i], colon := true), c.tail, c.rest[i + 1..])
  {
    Parted(c.rest, i);
    IndexAfter(c.rest[..i], c.rest[i..], {':'});
  }

  lemma SchemeMissing(c: Config)
    requires c.state.Scheme? && c.rest != "" && Free(c.rest, {':'})
    ensures Step(c) == c.(state := WithoutScheme(c.rest))
  {
  }

  /** The step over user information that ends at position `at` of the input. */
  lemma UserFound(c: Config, input: string, start: nat, at: nat)
    requires c.state.UserInfo? && start <= at < |input| && c.rest == input[start..] && at - start == IndexOfAny(c.rest, {'@'})
    ensures Step(c) == Config(Host, SplitUser(c.front, input[start..at]), c.tail, input[at + 1..])
  {
    Slices(input, start, at);
  }

  lemma UserMissing(c: Config)
    requires c.state.UserInfo? && c.rest != "" && IndexOfAny(c.rest, {'@'}) == |c.rest|
    ensures Step(c) == c.(state := Host)
  {
  }

  class Parser {
    const input: string
    var out: Url
    var state: State
    var start: nat
    var end: nat
    ghost var front: Front  // the pieces taken so far
    ghost var tail: Tail

    constructor (input: string)
      ensures Valid() && this.input == input && state == Scheme && end == 0
      ensures Cfg() == Start(input)
    {
      this.input := input;
      out := Url("", "", "", "", "", "", map[], "");
      state, start, end, front, tail := Scheme, 0, 0, NO_FRONT, NO_TAIL;
    }

    /** The fields of `out` hold the pieces, still undecoded except for the query. */
    ghost predicate Holds()
      reads `out, `front, `tail
    {
      && out.scheme == front.scheme && out.username == front.username && out.password == front.password
      && out.host == tail.host && out.port == tail.port && out.path == tail.path && out.fragment == tail.fragment
      && AddParams(tail.query, map[]) == Some(out.query)
    }

    /** Positions are in range, and between steps `end` is past `start` only while looking for the scheme. */
    ghost predicate Valid()
      reads this
    {
      && start <= end <= |input|
      && (state == Scheme ==> start == 0 && Free(input[..end], {':'}) && (input != "" ==> end < |input|))
      && (state != Scheme && state != Done ==> start == end)
      && (Rank(state) >= 2 ==> tail.query == "")
      && Holds()
    }

    ghost function Cfg(): Config
      requires start <= |input|
      reads this
    {
      Config(state, front, tail, if state == Done then "" else input[start..])
    }

    /** Takes the scheme before the ':' at `end`. */
    method TakeScheme()
      requires Valid() && state == Scheme && end < |input|
      modifies this
      ensures Valid()
      ensures Cfg() == Config(Authority, old(front).(scheme := input[..old(end)], colon := true), old(tail), input[old(end) + 1..])
    {
      out := out.(scheme := input[start..end]);
      front := front.(scheme := input[..end], colon := true);
      start := end + 1;
      end := start;
      state := Authority;
    }

    /** Starts over without a scheme. */
    method SkipScheme()
      requires state == Scheme && start == 0 && end == |input| && input != "" && tail.query == "" && Holds()
      modifies `state, `end
      ensures Valid() && state == WithoutScheme(input)
    {
      end := 0;
      if SlashSlash(input) {
        state := Authority;
      } else if input[0] == '/' {
        state := Path;
      } else {
        state := Host;
      }
    }

    /** Looks one character further; at the end of the input there is no scheme. */
    method LookFurther()
      requires Valid() && state == Scheme && end < |input| && input[end] != ':'
      modifies this
      ensures Valid()
      ensures if state == Scheme then Cfg() == old(Cfg()) && end == old(end) + 1 else Cfg() == Step(old(Cfg()))
    {
      ghost var c := Cfg();
      assert c.rest == input;
      assert input[..end + 1] == input[..end] + [input[end]];
      end := end + 1;
      if end == |input| {
        assert input[..end] == input;
        SchemeMissing(c);
        SkipScheme();
      }
    }

    /** Either looks one character further or makes the whole scheme step. */
    method ParseScheme()
      requires Valid() && state == Scheme && end < |input|
      modifies this
      ensures Valid()
      ensures if state == Scheme then Cfg() == old(Cfg()) && end == old(end) + 1 else Cfg() == Step(old(Cfg()))
    {
      if input[end] != ':' {
        LookFurther();
      } else {
        assert Cfg().rest == input;
        SchemeFound(Cfg(), end);
        TakeScheme();
      }
    }

    method ParseAuthority()
      requires Valid() && state == Authority && end < |input|
      modifies this
      ensures Valid() && Cfg() == Step(old(Cfg()))
    {
      end := end + 1;
      if end < |input| && input[start] == '/' && input[end] == '/' {
        state := UserInfo;
        start := end + 1;
        end := start;
        front := front.(slashes := true);
      } else {
        state := Path;
        end := start;
      }
    }

    /** Stores the two sides of the first ':' of the user information. */
    method SetUser(userinfo: string)
      requires Holds()
      modifies `out, `front
      ensures Holds() && front == SplitUser(old(front), userinfo)
    {
      var split := IndexOfAny(userinfo, {':'});
      if split < |userinfo| {
        out := out.(username := userinfo[..split], password := userinfo[split + 1..]);
      } else {
        out := out.(username := userinfo);
      }
      front := SplitUser(front, userinfo);
    }

    /** Takes the user information, up to the '@' at position `at`. */
    method TakeUser(at: nat)
      requires Valid() && state == UserInfo && start <= at < |input|
      modifies this
      ensures Valid() && Cfg() == Config(Host, SplitUser(old(front), input[old(start)..at]), old(tail), input[at + 1..])
    {
      end := at;
      SetUser(input[start..end]);
      state := Host;
      start := end + 1;
      end := start;
    }

    method ParseUserInfo()
      requires Valid() && state == UserInfo && end < |input|
      modifies this
      ensures Valid() && Cfg() == Step(old(Cfg()))
    {
      ghost var c := Cfg();
      var at := Find({'@'});
      if at < |input| {
        UserFound(c, input, start, at);
        TakeUser(at);
      } else {
        UserMissing(c);
        state := Host;
      }
    }

    /** The search for the end of the component that starts at `start`. */
    method Find(ends: set<char>) returns (idx: nat)
      requires start <= |input|
      ensures start <= idx <= |input|
      ensures idx - start == IndexOfAny(input[start..], ends)
      ensures input[start..idx] == input[start..][..idx - start]
    {
      idx := start + IndexOfAny(input[start..], ends);
    }

    /** Moves past the delimiter at `idx`, or up to it when it is the '/' that belongs to the path. */
    method EnterAt(idx: nat)
      requires start <= idx <= |input|
      requires idx < |input| ==> input[idx] in HOST_ENDS
      modifies `state, `start, `end, `tail
      ensures start <= end <= |input| && state != Scheme && (state != Done ==> start == end)
      ensures tail == old(tail).(portColon := tail.portColon, question := tail.question, hash := tail.hash)
      ensures TailConfig(state, tail, Cfg().rest) == Enter(old(tail), old(input[start..]), idx - old(start))
    {
      ghost var rest := input[start..];
      assert rest[idx - start..] == input[idx..];
      if idx == |input| {
        state := Done;
        end := |input|;
        return;
      }
      assert rest[idx - start] == input[idx] && rest[idx - start + 1..] == input[idx + 1..];
      start := idx + 1;
      end := start;
      match input[idx]
      case ':' =>
        state := Port;
        tail := tail.(portColon := true);
      case '/' =>
        state := Path;
        start := idx;
        end := start;
      case '?' =>
        state := Query;
        tail := tail.(question := true);
      case _ =>
        state := Fragment;
        tail := tail.(hash := true);
    }

    method ParseHost()
      requires Valid() && state == Host && end < |input|
      modifies this
      ensures Valid() && Cfg() == Step(old(Cfg()))
    {
      var idx := Find(HOST_ENDS);
      out := out.(host := input[start..idx]);
      tail := tail.(host := input[start..idx]);
      EnterAt(idx);
    }

    method ParsePort()
      requires Valid() && state == Port && end < |input|
      modifies this
      ensures Valid() && Cfg() == Step(old(Cfg()))
    {
      var idx := Find(PORT_ENDS);
      out := out.(port := input[start..idx]);
      tail := tail.(port := input[start..idx]);
      EnterAt(idx);
    }

    method ParsePath()
      requires Valid() && state == Path && end < |input|
      modifies this
      ensures Valid() && Cfg() == Step(old(Cfg()))
    {
      var idx := Find(PATH_ENDS);
      out := out.(path := input[start..idx]);
      tail := tail.(path := input[start..idx]);
      EnterAt(idx);
    }

    method StoreParams(rawQuery: string) returns (ok: bool)
      modifies `out
      ensures ok == AddParams(rawQuery, map[]).Some?
      ensures ok ==> out == old(out).(query := AddParams(rawQuery, map[]).value)
    {
      var q := ParseParams(rawQuery);
      ok := q.Some?;
      if ok {
        out := out.(query := q.value);
      }
    }

    /** Moves behind the text of the query. */
    method TakeQuery() returns (rawQuery: string)
      requires Valid() && state == Query && end < |input|
      modifies `state, `start, `end, `tail
      ensures start <= end <= |input| && state != Scheme && (state != Done ==> start == end)
      ensures Cfg() == Step(old(Cfg())) && Rank(state) < 2
      ensures tail == old(tail).(query := rawQuery, portColon := tail.portColon, question := tail.question, hash := tail.hash)
    {
      var idx := Find(QUERY_ENDS);
      rawQuery := input[start..idx];
      tail := tail.(query := rawQuery);
      EnterAt(idx);
    }

    /** `ok` is false when decoding a parameter aborts; the whole parse then aborts. */
    method ParseQuery() returns (ok: bool)
      requires Valid() && state == Query && end < |input|
      modifies this
      ensures start <= |input| && Cfg() == Step(old(Cfg()))
      ensures if ok then Valid() else AddParams(tail.query, map[]) == None
    {
      var rawQuery := TakeQuery();
      ok := StoreParams(rawQuery);
    }

    method ParseFragment()
      requires Valid() && state == Fragment && end < |input|
      modifies this
      ensures Valid() && Cfg() == Step(old(Cfg()))
    {
      out := out.(fragment := input[start..]);
      tail := tail.(fragment := input[start..]);
      state := Done;
    }

    /** The driver loop: it ends on every input, although `ParseScheme` moves `end` back to the beginning. */
    method ParseAll() returns (r: ParseResult)
      requires Valid() && Cfg() == Start(input)
      modifies this
      ensures r == Parse(input)
    {
      while end < |input|
        invariant Valid() && Run(Cfg()) == Run(Start(input))
        decreases Rank(state), |input| - end
      {
        match state {
          case Scheme => ParseScheme();
          case Authority => ParseAuthority();
          case UserInfo => ParseUserInfo();
          case Host => ParseHost();
          case Port => ParsePort();
          case Path => ParsePath();
          case Query =>
            var ok := ParseQuery();
            if !ok {
              QueryKept(Cfg());
              return Aborted;
            }
          case Fragment => ParseFragment();
          case Done => end := |input|;
        }
      }
      r := DecodeOut();
    }

    /** Decodes the collected pieces, also when parsing did not reach `Done`. */
    method DecodeOut() returns (r: ParseResult)
      requires Holds() && end == |input|
      modifies `out
      ensures r == Conclude(Config(state, front, tail, ""), |input|)
    {
      var s := DecodeText(out.scheme);
      if s == None { return Aborted; }
      var u := DecodeText(out.username);
      if u == None { return Aborted; }
      var w := DecodeText(out.password);
      if w == None { return Aborted; }
      var h := DecodeText(out.host);
      if h == None { return Aborted; }
      var p := DecodeText(out.port);
      if p == None { return Aborted; }
      var t := DecodeText(out.path);
      if t == None { return Aborted; }
      var f := DecodeText(out.fragment);
      if f == None { return Aborted; }
      out := Url(s.value, u.value, w.value, h.value, p.value, t.value, out.query, f.value);
      return if state == Done then Parsed(out) else Failed(state, end);
    }
  }

  /** Past the query step the query piece does not change. */
  lemma QueryKept(c: Config)
    requires Rank(c.state) < Rank(Query)
    ensures Run(c).tail.query == c.tail.query
  {
  }

  /** `url::parse`. */
  method ParseUrl(input: string) returns (r: ParseResult)
    ensures r == Parse(input)
  {
    var p := new Parser(input);
    r := p.ParseAll();
  }

  // ---------------------------------------------------------------- printing

  function Pair(k: string, v: string): string {
    k + "=" + v
  }

  function ParamText(k: string, vs: seq<string>): string {
    if vs == [] then "" else "&" + Pair(k, vs[0]) + ParamText(k, vs[1..])
  }

  /** Every `&key=value`, in the given key order. */
  function ParamsText(order: seq<string>, q: QueryMap): string {
    if order == [] then "" else ParamText(order[0], Values(q, order[0])) + ParamsText(order[1..], q)
  }

  /** The first separator printed is '?'. */
  function Questioned(t: string): string {
    if t == "" then "" else "?" + t[1..]
  }

  function QueryText(order: seq<string>, q: QueryMap): string {
    Questioned(ParamsText(order, q))
  }

  function UserText(u: Url): string {
    if u.username == "" && u.password == "" then "" else u.username + ":" + u.password + "@"
  }

  function FragmentText(u: Url): string {
    if u.fragment == "" then "" else "#" + u.fragment
  }

  function PortText(u: Url): string {
    if u.port == "" then "" else ":" + u.port
  }

  function FromQuery(u: Url, order: seq<string>): string {
    QueryText(order, u.query) + FragmentText(u)
  }

  function FromPath(u: Url, order: seq<string>): string {
    u.path + FromQuery(u, order)
  }

  /** Everything behind the user information. */
  function TailText(u: Url, order: seq<string>): string {
    u.host + (PortText(u) + FromPath(u, order))
  }

  function SchemeText(u: Url): string {
    if u.scheme == "" then "" else u.scheme + "://"
  }

  function Build(u: Url, order: seq<string>): string {
    SchemeText(u) + (UserText(u) + TailText(u, order))
  }

  lemma {:induction false} ParamTextSnoc(k: string, vs: seq<string>, v: string)
    ensures ParamText(k, vs + [v]) == ParamText(k, vs) + ("&" + Pair(k, v))
  {
    if vs == [] {
      assert vs + [v] == [v];
    } else {
      assert (vs + [v])[1..] == vs[1..] + [v];
      ParamTextSnoc(k, vs[1..], v);
    }
  }

  lemma {:induction false} ParamsTextSnoc(order: seq<string>, k: string, q: QueryMap)
    ensures ParamsText(order + [k], q) == ParamsText(order, q) + ParamText(k, Values(q, k))
  {
    if order == [] {
      assert order + [k] == [k];
      assert ParamsText([k][1..], q) == "";
    } else {
      assert (order + [k])[1..] == order[1..] + [k];
      ParamsTextSnoc(order[1..], k, q);
    }
  }

  lemma QuestionedSnoc(t: string, p: string)
    ensures Questioned(t + ("&" + p)) == Questioned(t) + ((if t == "" then "?" else "&") + p)
  {
    var u := t + ("&" + p);
    if t == "" {
      assert u == "&" + p && u[1..] == p;
    } else {
      assert u[1..] == t[1..] + ("&" + p);
    }
  }

  /** The inner loop: the values of one key. */
  method BuildParam(k: string, vs: seq<string>, out0: string, sep0: char, ghost before: string)
    returns (out: string, sep: char)
    requires out0 == Questioned(before) && sep0 == if out0 == "" then '?' else '&'
    ensures out == Questioned(before + ParamText(k, vs)) && sep == if out == "" then '?' else '&'
  {
    out, sep := out0, sep0;
    assert before + "" == before;
    for j := 0 to |vs|
      invariant out == Questioned(before + ParamText(k, vs[..j]))
      invariant sep == if out == "" then '?' else '&'
    {
      assert vs[..j + 1] == vs[..j] + [vs[j]];
      ParamTextSnoc(k, vs[..j], vs[j]);
      QuestionedSnoc(before + ParamText(k, vs[..j]), Pair(k, vs[j]));
      assert before + (ParamText(k, vs[..j]) + ("&" + Pair(k, vs[j])))
          == before + ParamText(k, vs[..j]) + ("&" + Pair(k, vs[j]));
      out := out + ([sep] + Pair(k, vs[j]));
      sep := '&';
    }
    assert vs[..|vs|] == vs;
  }

  /** The outer loop: the keys in iteration order. */
  method BuildQuery(q: QueryMap, order: seq<string>) returns (out: string)
    requires Enumerates(order, q)
    ensures out == QueryText(order, q)
  {
    out := "";
    var sep := '?';
    for i := 0 to |order|
      invariant out == QueryText(order[..i], q)
      invariant sep == if out == "" then '?' else '&'
    {
      var k := order[i];
      assert k in q;
      out, sep := BuildParam(k, q[k], out, sep, ParamsText(order[..i], q));
      assert order[..i + 1] == order[..i] + [k];
      ParamsTextSnoc(order[..i], k, q);
    }
    assert order[..|order|] == order;
  }

  method BuildTail(u: Url, order: seq<string>) returns (out: string)
    requires Enumerates(order, u.query)
    ensures out == TailText(u, order)
  {
    var q := BuildQuery(u.query, order);
    out := u.host;
    out := out + PortText(u);
    out := out + u.path;
    out := out + q;
    out := out + FragmentText(u);
    Reassociate(u.host, PortText(u), u.path, q, FragmentText(u));
  }

  method BuildUser(u: Url) returns (out: string)
    ensures out == UserText(u)
  {
    out := "";
    if !(u.username == "" && u.password == "") {
      if u.username != "" { out := out + u.username; }
      out := out + ":";
      if u.password != "" { out := out + u.password; }
      out := out + "@";
    }
  }

  /** `url::build`, for any iteration order of the query map. */
  method BuildUrl(u: Url, order: seq<string>) returns (out: string)
    requires Enumerates(order, u.query)
    ensures out == Build(u, order)
  {
    var user := BuildUser(u);
    var tail := BuildTail(u, order);
    out := if u.scheme != "" then u.scheme + "://" else "";
    out := out + (user + tail);
  }
}
