/** Laws of URL parsing: the split is lossless, and `Parse` undoes `Build` exactly on the canonical values. */
module UrlLaws {
  import opened Text
  import opened Collections
  import opened Url

  // ---------------------------------------------------------------- the split is lossless

  ghost predicate QueryShape(t: Tail) {
    Free(t.query, QUERY_ENDS) && (!t.hash ==> t.fragment == "")
  }

  ghost predicate PathShape(t: Tail) {
    QueryShape(t) && Free(t.path, PATH_ENDS) && (!t.question ==> t.query == "")
  }

  ghost predicate Rooted(path: string) {
    path != "" ==> path[0] == '/'
  }

  /** No piece contains a character that would have ended it, and a missing delimiter means a missing piece. */
  ghost predicate TailShape(t: Tail) {
    && PathShape(t) && Free(t.host, HOST_ENDS) && Free(t.port, PORT_ENDS) && (!t.portColon ==> t.port == "")
  }

  ghost predicate FrontShape(f: Front) {
    && Free(f.scheme, {':'}) && (!f.colon ==> f.scheme == "")
    && Free(f.username, {':', '@'}) && Free(f.password, {'@'})
    && (!f.passColon ==> f.password == "") && (!f.at ==> f.username == "" && !f.passColon) && (f.at ==> f.slashes)
  }

  /** From the host on, a run is the tail run and leaves the front pieces alone. */
  lemma {:induction false} RunIsTail(c: Config)
    requires InTail(c.state)
    ensures var t := RunTail(TailConfig(c.state, c.tail, c.rest));
      Run(c) == Config(t.state, c.front, t.tail, t.rest)
    decreases Rank(c.state)
  {
    if c.rest != "" && c.state != Done {
      RunIsTail(Step(c));
    }
  }

  function Tailed(t: Tail, query: string, hash: bool, fragment: string): Tail {
    t.(query := query, hash := hash, fragment := fragment)
  }

  lemma FromFragment(t: Tail, rest: string)
    requires t.fragment == ""
    ensures RunTail(TailConfig(Fragment, t, rest)).rest == ""
    ensures RunTail(TailConfig(Fragment, t, rest)).tail == t.(fragment := rest)
  {
  }

  lemma FromQueryHash(t: Tail, rest: string, i: nat)
    requires t.query == "" && !t.hash && t.fragment == "" && i == IndexOfAny(rest, QUERY_ENDS) < |rest|
    ensures RunTail(TailConfig(Query, t, rest)).rest == ""
    ensures RunTail(TailConfig(Query, t, rest)).tail == Tailed(t, rest[..i], true, rest[i + 1..])
  {
    FromFragment(t.(query := rest[..i], hash := true), rest[i + 1..]);
  }

  lemma FromQueryEnd(t: Tail, rest: string)
    requires t.query == "" && !t.hash && t.fragment == "" && IndexOfAny(rest, QUERY_ENDS) == |rest|
    ensures RunTail(TailConfig(Query, t, rest)).rest == ""
    ensures RunTail(TailConfig(Query, t, rest)).tail == Tailed(t, rest, false, "")
  {
    assert rest[..|rest|] == rest;
  }

  lemma HashCut(rest: string, i: nat)
    requires i < |rest| && rest[i] in QUERY_ENDS
    ensures rest == rest[..i] + ("#" + rest[i + 1..])
  {
  }

  /** What is unread when the query state is entered is the rest of the final pieces. */
  lemma FromQueryState(t: Tail, rest: string)
    requires t.query == "" && !t.hash && t.fragment == ""
    ensures var c := RunTail(TailConfig(Query, t, rest)); var d := c.tail;
      c.rest == "" && QueryShape(d) && rest == d.query + FragmentPart(d) && d == Tailed(t, d.query, d.hash, d.fragment)
  {
    var i := IndexOfAny(rest, QUERY_ENDS);
    if i < |rest| {
      FromQueryHash(t, rest, i);
      HashCut(rest, i);
    } else {
      FromQueryEnd(t, rest);
    }
  }

  /** The '?' or '#' at `i`, or the end, behind a piece already stored in `t`. */
  lemma FromEnter(t: Tail, rest: string, i: nat)
    requires !t.question && t.query == "" && !t.hash && t.fragment == ""
    requires i <= |rest| && (i < |rest| ==> rest[i] in PATH_ENDS)
    ensures var c := RunTail(Enter(t, rest, i)); var d := c.tail;
      && c.rest == "" && QueryShape(d) && (!d.question ==> d.query == "") && rest[i..] == QueryPart(d)
      && d == Tailed(t, d.query, d.hash, d.fragment).(question := d.question)
  {
    if i < |rest| {
      assert rest[i..] == [rest[i]] + rest[i + 1..];
      if rest[i] == '?' {
        FromQueryState(t.(question := true), rest[i + 1..]);
      } else {
        FromFragment(t.(hash := true), rest[i + 1..]);
        assert "" + ("#" + rest[i + 1..]) == rest[i..];
      }
    }
  }

  ghost predicate PathBlank(t: Tail) {
    t.path == "" && !t.question && t.query == "" && !t.hash && t.fragment == ""
  }

  lemma PathStep(t: Tail, rest: string, i: nat)
    requires rest != "" && i == IndexOfAny(rest, PATH_ENDS)
    ensures RunTail(TailConfig(Path, t, rest)) == RunTail(Enter(t.(path := rest[..i]), rest, i))
    ensures rest[0] == '/' ==> i > 0 && rest[..i][0] == '/'
  {
  }

  lemma FromPathState(t: Tail, rest: string)
    requires PathBlank(t)
    ensures var c := RunTail(TailConfig(Path, t, rest)); var d := c.tail;
      && c.rest == "" && PathShape(d) && rest == PathPart(d)
      && d.host == t.host && d.port == t.port && d.portColon == t.portColon
      && (rest != "" && rest[0] == '/' ==> d.path != "" && d.path[0] == '/')
  {
    if rest != "" {
      var i := IndexOfAny(rest, PATH_ENDS);
      PathStep(t, rest, i);
      Parted(rest, i);
      FromEnter(t.(path := rest[..i]), rest, i);
    }
  }

  /** The delimiter at `i` behind a host or a port already stored in `t`. */
  lemma FromEnterPath(t: Tail, rest: string, i: nat)
    requires PathBlank(t)
    requires i <= |rest| && (i < |rest| ==> rest[i] in PORT_ENDS)
    ensures var c := RunTail(Enter(t, rest, i)); var d := c.tail;
      && c.rest == "" && PathShape(d) && rest[i..] == PathPart(d) && Rooted(d.path)
      && d.host == t.host && d.port == t.port && d.portColon == t.portColon
  {
    if i < |rest| && rest[i] == '/' {
      FromPathState(t, rest[i..]);
    } else {
      FromEnter(t, rest, i);
      assert "" + QueryPart(RunTail(Enter(t, rest, i)).tail) == rest[i..];
    }
  }

  lemma PortStep(t: Tail, rest: string, i: nat)
    requires rest != "" && i == IndexOfAny(rest, PORT_ENDS)
    ensures RunTail(TailConfig(Port, t, rest)) == RunTail(Enter(t.(port := rest[..i]), rest, i))
  {
  }

  lemma FromPortState(t: Tail, rest: string)
    requires PathBlank(t) && t.port == ""
    ensures var c := RunTail(TailConfig(Port, t, rest)); var d := c.tail;
      && c.rest == "" && PathShape(d) && Free(d.port, PORT_ENDS) && rest == d.port + PathPart(d) && Rooted(d.path)
      && d.host == t.host && d.portColon == t.portColon
  {
    if rest != "" {
      var i := IndexOfAny(rest, PORT_ENDS);
      PortStep(t, rest, i);
      Parted(rest, i);
      FromEnterPath(t.(port := rest[..i]), rest, i);
    }
  }

  lemma FromEnterPort(t: Tail, rest: string, i: nat)
    requires PathBlank(t) && t.port == "" && !t.portColon
    requires i <= |rest| && (i < |rest| ==> rest[i] in HOST_ENDS)
    ensures var c := RunTail(Enter(t, rest, i)); var d := c.tail;
      && c.rest == "" && PathShape(d) && Free(d.port, PORT_ENDS) && (!d.portColon ==> d.port == "")
      && rest[i..] == PortPart(d) && Rooted(d.path) && d.host == t.host
  {
    if i < |rest| && rest[i] == ':' {
      assert rest[i..] == ":" + rest[i + 1..];
      FromPortState(t.(portColon := true), rest[i + 1..]);
    } else {
      FromEnterPath(t, rest, i);
      assert "" + rest[i..] == rest[i..];
    }
  }

  lemma HostStep(rest: string, i: nat)
    requires rest != "" && i == IndexOfAny(rest, HOST_ENDS)
    ensures RunTail(TailConfig(Host, NO_TAIL, rest)) == RunTail(Enter(NO_TAIL.(host := rest[..i]), rest, i))
  {
  }

  lemma FromHostState(rest: string)
    ensures var c := RunTail(TailConfig(Host, NO_TAIL, rest));
      c.rest == "" && TailShape(c.tail) && rest == HostPart(c.tail) && Rooted(c.tail.path)
  {
    if rest != "" {
      var i := IndexOfAny(rest, HOST_ENDS);
      HostStep(rest, i);
      Parted(rest, i);
      FromEnterPort(NO_TAIL.(host := rest[..i]), rest, i);
    }
  }

  // ---------------------------------------------------------------- the front

  /** The front pieces and the point at which the tail begins; `Stuck` when the input ends before that. */
  datatype FrontResult = Begin(state: State, front: Front, rest: string) | Stuck(at: State, f: Front)

  function FromUser(f: Front, rest: string): FrontResult {
    if rest == "" then Stuck(UserInfo, f)
    else
      var i := IndexOfAny(rest, {'@'});
      if i < |rest| then Begin(Host, SplitUser(f, rest[..i]), rest[i + 1..]) else Begin(Host, f, rest)
  }

  function FromAuthority(f: Front, rest: string): FrontResult {
    if rest == "" then Stuck(Authority, f)
    else if SlashSlash(rest) then FromUser(f.(slashes := true), rest[2..])
    else Begin(Path, f, rest)
  }

  function FrontOf(input: string): FrontResult {
    var i := IndexOfAny(input, {':'});
    if input == "" then Stuck(Scheme, NO_FRONT)
    else if i < |input| then FromAuthority(NO_FRONT.(scheme := input[..i], colon := true), input[i + 1..])
    else if SlashSlash(input) then FromAuthority(NO_FRONT, input)
    else Begin(if input[0] == '/' then Path else Host, NO_FRONT, input)
  }

  /** The whole parse that a front begins. */
  function Finish(r: FrontResult): Config
    requires r.Begin? ==> InTail(r.state)
  {
    match r
    case Stuck(at, f) => Config(at, f, NO_TAIL, "")
    case Begin(state, f, rest) =>
      var t := RunTail(TailConfig(state, NO_TAIL, rest));
      Config(t.state, f, t.tail, t.rest)
  }

  lemma UserFinish(f: Front, rest: string)
    ensures Run(Config(UserInfo, f, NO_TAIL, rest)) == Finish(FromUser(f, rest))
  {
    if rest != "" {
      RunIsTail(Step(Config(UserInfo, f, NO_TAIL, rest)));
    }
  }

  lemma AuthorityFinish(f: Front, rest: string)
    ensures Run(Config(Authority, f, NO_TAIL, rest)) == Finish(FromAuthority(f, rest))
  {
    if rest != "" {
      var d := Step(Config(Authority, f, NO_TAIL, rest));
      if SlashSlash(rest) { UserFinish(d.front, d.rest); } else { RunIsTail(d); }
    }
  }

  /** A parse is its front followed by its tail run. */
  lemma {:induction false} RunSplits(input: string)
    ensures Run(Start(input)) == Finish(FrontOf(input))
  {
    if input != "" {
      var d := StepScheme(Start(input));
      RunScheme(Start(input));
      FrontStep(input, d);
      if d.state == Authority { AuthorityFinish(d.front, d.rest); } else { RunIsTail(d); }
    }
  }

  lemma RunScheme(c: Config)
    requires c.rest != "" && c.state.Scheme?
    ensures Run(c) == Run(StepScheme(c))
  {
  }

  lemma FrontStep(input: string, d: Config)
    requires input != "" && d == StepScheme(Start(input))
    ensures d == Config(d.state, d.front, NO_TAIL, d.rest)
    ensures if d.state == Authority then FrontOf(input) == FromAuthority(d.front, d.rest)
            else InTail(d.state) && FrontOf(input) == Begin(d.state, d.front, d.rest)
  {
    var i := IndexOfAny(input, {':'});
    if i < |input| { FrontWithScheme(input, i, d.front, d.rest); } else { FrontWithout(input); }
  }

  lemma FrontWithScheme(input: string, i: nat, f: Front, rest: string)
    requires i == IndexOfAny(input, {':'}) < |input|
    requires f == NO_FRONT.(scheme := input[..i], colon := true) && rest == input[i + 1..]
    ensures FrontOf(input) == FromAuthority(f, rest)
  {
  }

  lemma FrontWithout(input: string)
    requires input != "" && IndexOfAny(input, {':'}) == |input|
    ensures StepScheme(Start(input)) == Config(WithoutScheme(input), NO_FRONT, NO_TAIL, input)
    ensures FrontOf(input) ==
      if SlashSlash(input) then FromAuthority(NO_FRONT, input) else Begin(WithoutScheme(input), NO_FRONT, input)
  {
  }

  // ---------------------------------------------------------------- lossless split

  /** The front pieces of `input` together with `rest`, all that is left, are `input`. */
  ghost predicate FrontFits(r: FrontResult, input: string) {
    match r
    case Stuck(at, f) => at != Done && FrontShape(f) && input == SchemePart(f) + SlashPart(f, "")
    case Begin(state, f, rest) =>
      && FrontShape(f) && input == SchemePart(f) + SlashPart(f, rest)
      && (state == Path || state == Host) && (state == Host ==> f.slashes || !f.colon)
      && (state == Path ==> !f.slashes && (f.colon || (rest != "" && rest[0] == '/')))
  }

  lemma SplitAt(s: string, i: nat)
    requires i < |s|
    ensures s == s[..i] + ([s[i]] + s[i + 1..])
  {
  }

  lemma SplitUserFits(f: Front, text: string)
    requires FrontShape(f) && !f.at && f.slashes && Free(text, {'@'})
    ensures FrontShape(SplitUser(f, text)) && UserPart(SplitUser(f, text)) == text
  {
    var j := IndexOfAny(text, {':'});
    if j < |text| {
      SplitAt(text, j);
    } else {
      assert text + "" == text;
    }
  }

  lemma {:induction false} FromUserFits(f: Front, rest: string)
    requires FrontShape(f) && !f.at && f.slashes
    ensures FrontFits(FromUser(f, rest), SchemePart(f) + ("//" + rest))
  {
    if rest != "" {
      var i := IndexOfAny(rest, {'@'});
      if i < |rest| {
        SplitAt(rest, i);
        SplitUserFits(f, rest[..i]);
      } else {
        assert "" + rest == rest;
      }
    }
  }

  lemma {:induction false} FromAuthorityFits(f: Front, rest: string)
    requires FrontShape(f) && !f.slashes && (f.colon || SlashSlash(rest))
    ensures FrontFits(FromAuthority(f, rest), SchemePart(f) + rest)
  {
    if SlashSlash(rest) {
      assert rest == "//" + rest[2..];
      FromUserFits(f.(slashes := true), rest[2..]);
    }
  }

  lemma {:induction false} SchemeFits(input: string, i: nat)
    requires i == IndexOfAny(input, {':'}) < |input|
    ensures FrontFits(FrontOf(input), input)
  {
    var f := NO_FRONT.(scheme := input[..i], colon := true);
    assert input == SchemePart(f) + input[i + 1..];
    FromAuthorityFits(f, input[i + 1..]);
  }

  lemma {:induction false} FrontOfFits(input: string)
    ensures FrontFits(FrontOf(input), input)
  {
    assert "" + input == input;
    if input != "" {
      var i := IndexOfAny(input, {':'});
      if i < |input| {
        SchemeFits(input, i);
      } else if SlashSlash(input) {
        FromAuthorityFits(NO_FRONT, input);
      }
    }
  }

  lemma TailFits(state: State, rest: string)
    requires state == Host || state == Path
    ensures var c := RunTail(TailConfig(state, NO_TAIL, rest));
      && c.rest == "" && TailShape(c.tail) && rest == HostPart(c.tail)
      && (state == Host || (rest != "" && rest[0] == '/') ==> Rooted(c.tail.path))
      && (state == Path ==> c.tail.host == "" && c.tail.port == "" && !c.tail.portColon)
      && (rest == "" ==> c.state == state)
  {
    if state == Host {
      FromHostState(rest);
    } else {
      FromPathState(NO_TAIL, rest);
      assert "" + ("" + rest) == rest;
    }
  }

  /** On every input, parsed or not, the undecoded pieces and the consumed delimiters are the input again,
      and each piece is free of the characters that end it. */
  lemma Lossless(input: string)
    ensures var c := Run(Start(input));
      Join(c.front, c.tail) == input && FrontShape(c.front) && TailShape(c.tail) && c.rest == ""
  {
    RunSplits(input);
    FrontOfFits(input);
    match FrontOf(input)
    case Stuck(_, _) => assert HostPart(NO_TAIL) == "";
    case Begin(state, _, rest) => TailFits(state, rest);
  }

  // ---------------------------------------------------------------- canonical values

  predicate CleanKey(k: string) { Free(k, {'%', '&', '=', '#'}) }
  predicate CleanValue(v: string) { Free(v, {'%', '&', '#'}) }

  ghost predicate Tidy(q: QueryMap) {
    forall k :: k in q ==> q[k] != [] && CleanKey(k) && forall j :: 0 <= j < |q[k]| ==> CleanValue(q[k][j])
  }

  ghost predicate CleanTail(u: Url) {
    && Free(u.host, HOST_ENDS + {'%'}) && Free(u.port, PORT_ENDS + {'%'}) && Free(u.path, PATH_ENDS + {'%'})
    && Rooted(u.path) && Tidy(u.query) && Free(u.fragment, {'%'})
  }

  ghost predicate HasTail(u: Url) {
    u.host != "" || u.port != "" || u.path != "" || u.query != map[] || u.fragment != ""
  }

  predicate NoUser(u: Url) {
    u.username == "" && u.password == ""
  }

  /** The character `c` occurs in no part behind the user information. */
  ghost predicate TailLacks(u: Url, c: char) {
    && Free(u.host, {c}) && Free(u.port, {c}) && Free(u.path, {c}) && Free(u.fragment, {c})
    && forall k :: k in u.query ==> Free(k, {c}) && forall j :: 0 <= j < |u.query[k]| ==> Free(u.query[k][j], {c})
  }

  /** Each part is free of its own delimiters and of '%'; without a scheme nothing may look like one. */
  ghost predicate Canonical(u: Url) {
    && CleanTail(u) && HasTail(u)
    && if u.scheme != "" then
         && Free(u.scheme, {':', '%'})
         && if NoUser(u) then TailLacks(u, '@') else Free(u.username, {':', '@', '%'}) && Free(u.password, {'@', '%'})
       else
         NoUser(u) && u.port == "" && TailLacks(u, ':') && !(u.host == "" && SlashSlash(u.path))
  }

  // ---------------------------------------------------------------- canonical values come back: the query

  /** Parsing goes on behind a parameter. */
  function NextParams(t: string, m: QueryMap): Option<QueryMap> {
    if t == "" then Some(m) else AddParams(t[1..], m)
  }

  lemma OneParam(k: string, v: string, t: string, m: QueryMap)
    requires CleanKey(k) && CleanValue(v) && (t != "" ==> t[0] == '&')
    ensures NextParams("&" + Pair(k, v) + t, m) == NextParams(t, m[k := Values(m, k) + [v]])
  {
    var p := Pair(k, v);
    var raw := p + t;
    assert ("&" + p + t)[1..] == raw;
    assert Free(p, {'&'});
    IndexAfter(p, t, {'&'});
    assert raw[..|p|] == p && (t != "" ==> raw[|p| + 1..] == t[1..]);
    ParamOfPair(k, v, m);
    assert AddParams(raw, m) == AfterParam(Some(m[k := Values(m, k) + [v]]), raw, |p|);
  }

  lemma ParamOfPair(k: string, v: string, m: QueryMap)
    requires CleanKey(k) && CleanValue(v)
    ensures AddParam(Pair(k, v), m) == Some(m[k := Values(m, k) + [v]])
  {
    var kv := Pair(k, v);
    assert kv == k + ("=" + v);
    IndexAfter(k, "=" + v, {'='});
    assert kv[..|k|] == k && kv[|k| + 1..] == v;
    assert Free(k, {'%'}) && Free(v, {'%'});
  }

  lemma ParamTextHead(k: string, vs: seq<string>, t: string)
    requires vs != [] && (t != "" ==> t[0] == '&')
    ensures ParamText(k, vs) + t == "&" + Pair(k, vs[0]) + (ParamText(k, vs[1..]) + t)
    ensures var rest := ParamText(k, vs[1..]) + t; rest != "" ==> rest[0] == '&'
    ensures |vs| == 1 ==> ParamText(k, vs[1..]) + t == t
  {
  }

  lemma ExtendTwice(m: QueryMap, k: string, vs: seq<string>)
    requires vs != []
    ensures var m' := m[k := Values(m, k) + [vs[0]]]; m'[k := Values(m', k) + vs[1..]] == m[k := Values(m, k) + vs]
  {
    var m' := m[k := Values(m, k) + [vs[0]]];
    assert vs == [vs[0]] + vs[1..];
    assert Values(m', k) + vs[1..] == Values(m, k) + vs;
  }

  lemma {:induction false} ParamsOfKey(k: string, vs: seq<string>, t: string, m: QueryMap)
    requires CleanKey(k) && vs != [] && (forall j :: 0 <= j < |vs| ==> CleanValue(vs[j]))
    requires t != "" ==> t[0] == '&'
    ensures NextParams(ParamText(k, vs) + t, m) == NextParams(t, m[k := Values(m, k) + vs])
    decreases |vs|
  {
    ParamTextHead(k, vs, t);
    OneParam(k, vs[0], ParamText(k, vs[1..]) + t, m);
    ExtendTwice(m, k, vs);
    var m' := m[k := Values(m, k) + [vs[0]]];
    if |vs| == 1 {
      assert Values(m', k) + vs[1..] == Values(m', k);
      assert m'[k := Values(m', k)] == m';
    } else {
      ParamsOfKey(k, vs[1..], t, m');
    }
  }

  lemma {:induction false} ParamsOfAll(order: seq<string>, q: QueryMap, m: QueryMap)
    requires Tidy(q) && Distinct(order)
    requires Lists(order, q) && forall i :: 0 <= i < |order| ==> order[i] !in m
    ensures NextParams(ParamsText(order, q), m) == Some(Fill(order, q, m))
    ensures ParamsText(order, q) != "" ==> ParamsText(order, q)[0] == '&'
    ensures order != [] ==> ParamsText(order, q) != ""
  {
    if order == [] {
    } else {
      var k := order[0];
      var m' := m[k := q[k]];
      ParamsOfAll(order[1..], q, m');
      ParamsOfKey(k, q[k], ParamsText(order[1..], q), m);
      assert [] + q[k] == q[k];
    }
  }

  lemma QueryComesBack(q: QueryMap, order: seq<string>)
    requires Tidy(q) && Enumerates(order, q)
    ensures NextParams(ParamsText(order, q), map[]) == Some(q)
    ensures QueryText(order, q) == "" <==> q == map[]
  {
    ParamsOfAll(order, q, map[]);
    FillsUp(order, q);
    assert q == map[] <==> order == [] by {
      if order == [] { assert q.Keys == {}; } else { assert order[0] in q; }
    }
  }
}
