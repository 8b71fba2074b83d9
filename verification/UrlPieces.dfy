/**
  Parsing, stated by the text alone: every text is put together in exactly one way from pieces that keep to the rules, and
  parsing finds these pieces. From this follow which texts fail and where, and that escaped texts parse to what they spell.
 */
module UrlPieces {
  import opened Text
  import opened Collections
  import opened Url
  import opened UrlLaws
  import opened UrlDecode
  import opened UrlRoundTrip

  /** The pieces keep to the rules: none contains a character that ends it, and none could have been taken otherwise. */
  ghost predicate Proper(f: Front, t: Tail) {
    && FrontShape(f) && TailShape(t)
    && if f.slashes then
         && Rooted(t.path) && (!f.at ==> Free(HostPart(t), {'@'}))
         && (!f.colon ==> Free(SlashPart(f, HostPart(t)), {':'}))
       else if f.colon then
         t.host == "" && !t.portColon && !SlashSlash(PathPart(t))
       else
         Rooted(t.path) && Free(HostPart(t), {':'}) && !SlashSlash(HostPart(t))
  }

  /** The state in which parsing ends: `Done`, unless the text ends with a delimiter that something should follow. */
  function EndState(f: Front, t: Tail): State {
    if HostPart(t) == "" then if f.at then Host else if f.slashes then UserInfo else if f.colon then Authority else Scheme
    else PortEnd(t)
  }

  function PortEnd(t: Tail): State {
    if t.portColon && t.port == "" && PathPart(t) == "" then Port else QueryEnd(t)
  }

  function QueryEnd(t: Tail): State {
    if t.question && t.query == "" && !t.hash then Query else FragmentEnd(t)
  }

  function FragmentEnd(t: Tail): State {
    if t.hash && t.fragment == "" then Fragment else Done
  }

  // ---------------------------------------------------------------- the tail

  lemma FragmentRun(b: Tail, t: Tail)
    requires QueryShape(t) && b.fragment == "" && !b.hash
    ensures RunTail(Enter(b, FragmentPart(t), 0))
         == TailConfig(FragmentEnd(t), b.(hash := t.hash, fragment := t.fragment), "")
  {
    if t.hash { assert FragmentPart(t)[1..] == t.fragment; }
  }

  function WithQueryOf(b: Tail, t: Tail): Tail {
    b.(question := t.question, query := t.query, hash := t.hash, fragment := t.fragment)
  }

  lemma QueryStateRun(b: Tail, t: Tail)
    requires QueryShape(t) && t.question && b.question && b.query == "" && !b.hash && b.fragment == ""
    ensures RunTail(TailConfig(Query, b, t.query + FragmentPart(t))) == TailConfig(QueryEnd(t), WithQueryOf(b, t), "")
  {
    var rest := t.query + FragmentPart(t);
    if rest != "" {
      IndexAfter(t.query, FragmentPart(t), QUERY_ENDS);
      assert rest[..|t.query|] == t.query;
      EnterConcat(b.(query := t.query), t.query, FragmentPart(t));
      FragmentRun(b.(query := t.query), t);
    }
  }

  lemma QueryRun(b: Tail, t: Tail)
    requires PathShape(t) && !b.question && b.query == "" && !b.hash && b.fragment == ""
    ensures RunTail(Enter(b, QueryPart(t), 0)) == TailConfig(QueryEnd(t), WithQueryOf(b, t), "")
  {
    if t.question {
      assert QueryPart(t)[1..] == t.query + FragmentPart(t);
      QueryStateRun(b.(question := true), t);
    } else {
      assert "" + FragmentPart(t) == FragmentPart(t);
      FragmentRun(b, t);
    }
  }

  lemma QueryHead(t: Tail)
    requires PathShape(t)
    ensures QueryPart(t) != "" ==> QueryPart(t)[0] in PATH_ENDS
  {
    assert !t.question ==> QueryPart(t) == FragmentPart(t);
  }

  lemma PathStateRun(b: Tail, t: Tail)
    requires PathShape(t) && PathBlank(b) && PathPart(t) != ""
    ensures RunTail(TailConfig(Path, b, PathPart(t))) == TailConfig(QueryEnd(t), WithQueryOf(b.(path := t.path), t), "")
  {
    QueryHead(t);
    IndexAfter(t.path, QueryPart(t), PATH_ENDS);
    PathStep(b, PathPart(t), |t.path|);
    assert PathPart(t)[..|t.path|] == t.path;
    EnterConcat(b.(path := t.path), t.path, QueryPart(t));
    QueryRun(b.(path := t.path), t);
  }

  lemma PathRun(b: Tail, t: Tail)
    requires PathShape(t) && Rooted(t.path) && PathBlank(b)
    ensures RunTail(Enter(b, PathPart(t), 0)) == TailConfig(QueryEnd(t), WithQueryOf(b.(path := t.path), t), "")
  {
    if t.path == "" {
      assert "" + QueryPart(t) == QueryPart(t) && b.(path := "") == b;
      QueryRun(b, t);
    } else {
      assert PathPart(t)[0] == '/' && PathPart(t)[0..] == PathPart(t);
      PathStateRun(b, t);
    }
  }

  lemma PathHead(t: Tail)
    requires PathShape(t) && Rooted(t.path)
    ensures PathPart(t) != "" ==> PathPart(t)[0] in PORT_ENDS
  {
    QueryHead(t);
    assert t.path == "" ==> PathPart(t) == QueryPart(t);
  }

  function WithPathOf(b: Tail, t: Tail): Tail {
    WithQueryOf(b.(path := t.path), t)
  }

  lemma PortStateRun(b: Tail, t: Tail)
    requires TailShape(t) && Rooted(t.path) && PathBlank(b) && b.portColon && b.port == "" && t.portColon
    ensures RunTail(TailConfig(Port, b, t.port + PathPart(t))) == TailConfig(PortEnd(t), WithPathOf(b.(port := t.port), t), "")
  {
    var rest := t.port + PathPart(t);
    if rest == "" {
      assert PathPart(t) == "" && t.path == "" && QueryPart(t) == "";
    } else {
      PathHead(t);
      IndexAfter(t.port, PathPart(t), PORT_ENDS);
      PortStep(b, rest, |t.port|);
      assert rest[..|t.port|] == t.port;
      EnterConcat(b.(port := t.port), t.port, PathPart(t));
      PathRun(b.(port := t.port), t);
      if PathPart(t) == "" { EmptyEnd(t); }
    }
  }

  lemma EmptyEnd(t: Tail)
    requires TailShape(t) && PathPart(t) == ""
    ensures QueryEnd(t) == Done && t == NO_TAIL.(host := t.host, portColon := t.portColon, port := t.port)
  {
    assert t.path == "" && QueryPart(t) == "";
    assert !t.question && !t.hash;
  }

  lemma PortRun(b: Tail, t: Tail)
    requires TailShape(t) && Rooted(t.path) && PathBlank(b) && !b.portColon && b.port == ""
    ensures RunTail(Enter(b, PortPart(t), 0))
         == TailConfig(PortEnd(t), WithPathOf(b.(portColon := t.portColon, port := t.port), t), "")
  {
    if t.portColon {
      assert PortPart(t)[1..] == t.port + PathPart(t);
      PortStateRun(b.(portColon := true), t);
    } else {
      assert "" + PathPart(t) == PathPart(t);
      PathRun(b, t);
    }
  }

  lemma PortHead(t: Tail)
    requires TailShape(t) && Rooted(t.path)
    ensures PortPart(t) != "" ==> PortPart(t)[0] in HOST_ENDS
  {
    PathHead(t);
    assert !t.portColon ==> PortPart(t) == PathPart(t);
  }

  lemma HostRun(t: Tail)
    requires TailShape(t) && Rooted(t.path) && HostPart(t) != ""
    ensures RunTail(TailConfig(Host, NO_TAIL, HostPart(t))) == TailConfig(PortEnd(t), t, "")
  {
    var b := NO_TAIL.(host := t.host);
    PortHead(t);
    IndexAfter(t.host, PortPart(t), HOST_ENDS);
    HostStep(HostPart(t), |t.host|);
    assert HostPart(t)[..|t.host|] == t.host;
    EnterConcat(b, t.host, PortPart(t));
    PortRun(b, t);
    assert WithPathOf(b.(portColon := t.portColon, port := t.port), t) == t;
  }

  lemma NoHostText(t: Tail)
    requires TailShape(t) && t.host == "" && !t.portColon
    ensures HostPart(t) == PathPart(t)
  {
    assert "" + ("" + PathPart(t)) == PathPart(t);
  }

  lemma NoHostRun(t: Tail)
    requires TailShape(t) && t.host == "" && !t.portColon && HostPart(t) != ""
    ensures RunTail(TailConfig(Path, NO_TAIL, HostPart(t))) == TailConfig(PortEnd(t), t, "") && HostPart(t) == PathPart(t)
  {
    NoHostText(t);
    PathStateRun(NO_TAIL, t);
    assert WithPathOf(NO_TAIL, t) == t;
  }

  // ---------------------------------------------------------------- the front

  /** The front without what the user information gives. */
  function NoUserFront(f: Front): Front {
    NO_FRONT.(scheme := f.scheme, colon := f.colon, slashes := f.slashes)
  }

  lemma SplitUserBack(f: Front)
    requires FrontShape(f) && f.at
    ensures SplitUser(NoUserFront(f), UserPart(f)) == f
  {
    if f.passColon {
      IndexAfter(f.username, ":" + f.password, {':'});
      CutConcat(f.username, ":" + f.password);
      assert (":" + f.password)[1..] == f.password;
    } else {
      assert f.username + "" == f.username;
    }
  }

  lemma UserPartFree(f: Front)
    requires FrontShape(f)
    ensures Free(UserPart(f), {'@'})
  {
    FreeConcat(":", f.password, {'@'});
    FreeConcat(f.username, ":" + f.password, {'@'});
    FreeConcat(f.username, f.password, {'@'});
  }

  /** What follows "//". */
  function UserAnd(f: Front, x: string): string {
    if f.at then UserPart(f) + ("@" + x) else UserPart(f) + x
  }

  lemma UserIs(f: Front, x: string)
    requires FrontShape(f) && f.slashes && (!f.at ==> Free(x, {'@'}))
    ensures FromUser(NoUserFront(f), UserAnd(f, x)) == if f.at || x != "" then Begin(Host, f, x) else Stuck(UserInfo, f)
  {
    if f.at {
      UserPartFree(f);
      IndexAfter(UserPart(f), "@" + x, {'@'});
      CutConcat(UserPart(f), "@" + x);
      assert ("@" + x)[1..] == x;
      SplitUserBack(f);
    } else {
      assert UserAnd(f, x) == x && NoUserFront(f) == f;
    }
  }

  /** Where the front of a text ends. */
  function FrontEnd(f: Front, x: string): FrontResult {
    if x == "" then
      if f.at then Begin(Host, f, "") else Stuck(if f.slashes then UserInfo else if f.colon then Authority else Scheme, f)
    else Begin(if f.slashes || (!f.colon && x[0] != '/') then Host else Path, f, x)
  }

  lemma FullFront(f: Front, x: string)
    requires FrontShape(f) && f.colon && f.slashes && (!f.at ==> Free(x, {'@'}))
    ensures FrontOf(SchemePart(f) + SlashPart(f, x)) == FrontEnd(f, x)
  {
    var y := UserAnd(f, x);
    var s, f0 := f.scheme + (":" + ("//" + y)), NO_FRONT.(scheme := f.scheme, colon := true);
    Associate(f.scheme, ":", "//" + y);
    IndexAfter(f.scheme, ":" + ("//" + y), {':'});
    CutConcat(f.scheme, ":" + ("//" + y));
    assert (":" + ("//" + y))[1..] == "//" + y;
    FrontWithScheme(s, |f.scheme|, f0, "//" + y);
    FromSlashes(f0, y);
    UserIs(f, x);
  }

  lemma SlashFront(f: Front, x: string)
    requires FrontShape(f) && !f.colon && f.slashes && (!f.at ==> Free(x, {'@'})) && Free(SlashPart(f, x), {':'})
    ensures FrontOf(SchemePart(f) + SlashPart(f, x)) == FrontEnd(f, x)
  {
    var y := UserAnd(f, x);
    assert SchemePart(f) + SlashPart(f, x) == "//" + y;
    FrontWithout("//" + y);
    FromSlashes(NO_FRONT, y);
    UserIs(f, x);
  }

  lemma ColonFront(f: Front, x: string)
    requires FrontShape(f) && f.colon && !f.slashes && !SlashSlash(x)
    ensures FrontOf(SchemePart(f) + SlashPart(f, x)) == FrontEnd(f, x)
  {
    var s, f0 := f.scheme + (":" + x), NO_FRONT.(scheme := f.scheme, colon := true);
    Associate(f.scheme, ":", x);
    IndexAfter(f.scheme, ":" + x, {':'});
    CutConcat(f.scheme, ":" + x);
    assert (":" + x)[1..] == x;
    FrontWithScheme(s, |f.scheme|, f0, x);
  }

  lemma PlainFront(f: Front, x: string)
    requires FrontShape(f) && !f.colon && !f.slashes && Free(x, {':'}) && !SlashSlash(x)
    ensures FrontOf(SchemePart(f) + SlashPart(f, x)) == FrontEnd(f, x)
  {
    assert "" + x == x;
    if x != "" { FrontWithout(x); }
  }

  lemma FrontIs(f: Front, t: Tail)
    requires Proper(f, t)
    ensures FrontOf(Join(f, t)) == FrontEnd(f, HostPart(t))
  {
    var x := HostPart(t);
    if f.slashes {
      if f.colon { FullFront(f, x); } else { SlashFront(f, x); }
    } else if f.colon {
      NoHostText(t);
      ColonFront(f, x);
    } else {
      PlainFront(f, x);
    }
  }

  /** Parsing takes a text apart into the pieces it was put together from. */
  lemma {:induction false} JoinSplits(f: Front, t: Tail)
    requires Proper(f, t)
    ensures Run(Start(Join(f, t))) == Config(EndState(f, t), f, t, "")
  {
    var x := HostPart(t);
    RunSplits(Join(f, t));
    FrontIs(f, t);
    if x == "" {
      EmptyTail(t);
    } else if f.slashes || (!f.colon && x[0] != '/') {
      HostRun(t);
    } else {
      if x[0] == '/' { RootFirst(t); }
      NoHostRun(t);
    }
  }

  lemma EmptyTail(t: Tail)
    requires TailShape(t) && HostPart(t) == ""
    ensures t == NO_TAIL && RunTail(TailConfig(Host, NO_TAIL, "")) == TailConfig(Host, NO_TAIL, "")
  {
    assert t.host == "" && PortPart(t) == "";
    assert !t.portColon && PathPart(t) == "";
    EmptyEnd(t);
  }

  lemma HostFirst(t: Tail)
    requires TailShape(t) && t.host != ""
    ensures HostPart(t) != "" && HostPart(t)[0] == t.host[0] && t.host[0] !in HOST_ENDS
  {
  }

  /** A text that begins with a slash has no host. */
  lemma RootFirst(t: Tail)
    requires TailShape(t) && HostPart(t) != "" && HostPart(t)[0] == '/'
    ensures t.host == "" && !t.portColon
  {
    if t.host != "" { HostFirst(t); } else { assert HostPart(t) == PortPart(t); }
  }

  // ---------------------------------------------------------------- every text has its pieces

  /** What the front steps decided by. */
  ghost predicate Decided(r: FrontResult, input: string) {
    var f, x := if r.Begin? then r.front else r.f, if r.Begin? then r.rest else "";
    && (f.slashes && !f.at ==> Free(x, {'@'})) && (!f.colon ==> Free(input, {':'}))
    && (!f.slashes ==> !SlashSlash(x))
  }

  lemma {:induction false} FrontDecides(input: string)
    ensures Decided(FrontOf(input), input)
  {
    if input != "" {
      var i := IndexOfAny(input, {':'});
      if i < |input| {
        AuthorityDecides(NO_FRONT.(scheme := input[..i], colon := true), input[i + 1..]);
      } else if SlashSlash(input) {
        AuthorityDecides(NO_FRONT, input);
      }
    }
  }

  lemma AuthorityDecides(f: Front, rest: string)
    requires !f.slashes && !f.at
    ensures var r := FromAuthority(f, rest);
      var g, x := if r.Begin? then r.front else r.f, if r.Begin? then r.rest else "";
      && g.colon == f.colon && (g.slashes && !g.at ==> Free(x, {'@'})) && (!g.slashes ==> !SlashSlash(x))
  {
  }

  lemma FinishProper(r: FrontResult, input: string)
    requires FrontFits(r, input) && Decided(r, input)
    ensures Proper(Finish(r).front, Finish(r).tail)
  {
    match r
    case Stuck(_, f) => StuckProper(f, input);
    case Begin(state, f, rest) =>
      TailFits(state, rest);
      BeginProper(state, f, rest, RunTail(TailConfig(state, NO_TAIL, rest)).tail, input);
  }

  lemma StuckProper(f: Front, input: string)
    requires FrontShape(f) && input == SchemePart(f) + SlashPart(f, "") && (!f.colon ==> Free(input, {':'}))
    ensures Proper(f, NO_TAIL)
  {
    assert HostPart(NO_TAIL) == "";
    if !f.colon { assert input == SlashPart(f, ""); }
  }

  lemma {:induction false} PiecesProper(input: string)
    ensures var c := Run(Start(input)); Proper(c.front, c.tail) && Join(c.front, c.tail) == input && c.rest == ""
  {
    Lossless(input);
    RunSplits(input);
    FrontOfFits(input);
    FrontDecides(input);
    FinishProper(FrontOf(input), input);
  }

  lemma BeginProper(state: State, f: Front, rest: string, t: Tail, input: string)
    requires FrontFits(Begin(state, f, rest), input) && TailShape(t) && rest == HostPart(t)
    requires state == Host || (rest != "" && rest[0] == '/') ==> Rooted(t.path)
    requires state == Path ==> t.host == "" && t.port == "" && !t.portColon
    requires f.slashes && !f.at ==> Free(rest, {'@'})
    requires !f.colon ==> Free(input, {':'})
    requires !f.slashes ==> !SlashSlash(rest)
    ensures Proper(f, t)
  {
    if !f.colon { assert input == SlashPart(f, rest); }
    if f.colon && !f.slashes { NoHostText(t); }
  }

  /** Parsing a text ends in a state with some pieces if and only if the pieces keep to the rules, the text is put together
      from them, and it is the state in which such a text ends. */
  lemma PiecesExactly(input: string, s: State, f: Front, t: Tail)
    ensures Run(Start(input)) == Config(s, f, t, "") <==> Proper(f, t) && Join(f, t) == input && s == EndState(f, t)
  {
    PiecesProper(input);
    var c := Run(Start(input));
    JoinSplits(c.front, c.tail);
    if Proper(f, t) && Join(f, t) == input { JoinSplits(f, t); }
  }

  // ---------------------------------------------------------------- what parsing answers

  /** Some piece ends its decoding early. */
  ghost predicate CutShort(f: Front, t: Tail) {
    DecodePieces(f, t) == None
  }

  /** Which texts fail: those that end with a delimiter that something should follow, at their end. */
  lemma FailsExactly(f: Front, t: Tail, at: State, index: nat)
    requires Proper(f, t)
    ensures Parse(Join(f, t)) == Failed(at, index) <==>
            !CutShort(f, t) && at == EndState(f, t) != Done && index == |Join(f, t)|
    ensures Parse(Join(f, t)) == Aborted <==> CutShort(f, t)
  {
    JoinSplits(f, t);
  }

  /** `u` is what the pieces spell, part by part; the query is looked at by itself. */
  ghost predicate Spelled(f: Front, t: Tail, u: Url) {
    && Spells(f.scheme, u.scheme) && Spells(f.username, u.username) && Spells(f.password, u.password)
    && Spells(t.host, u.host) && Spells(t.port, u.port) && Spells(t.path, u.path) && Spells(t.fragment, u.fragment)
    && AddParams(t.query, map[]) == Some(u.query)
  }

  lemma SpelledPieces(f: Front, t: Tail, u: Url)
    requires Spelled(f, t, u)
    ensures DecodePieces(f, t) == Some(u)
  {
    SpelledDecodes(f.scheme, u.scheme);
    SpelledDecodes(f.username, u.username);
    SpelledDecodes(f.password, u.password);
    SpelledDecodes(t.host, u.host);
    SpelledDecodes(t.port, u.port);
    SpelledDecodes(t.path, u.path);
    SpelledDecodes(t.fragment, u.fragment);
  }

  /** Any URL with any characters of its parts escaped, among them the delimiters and '%', parses to the URL. */
  lemma SpelledParses(f: Front, t: Tail, u: Url)
    requires Proper(f, t) && EndState(f, t) == Done && Spelled(f, t, u)
    ensures Parse(Join(f, t)) == Parsed(u)
  {
    JoinSplits(f, t);
    SpelledPieces(f, t, u);
  }
}
