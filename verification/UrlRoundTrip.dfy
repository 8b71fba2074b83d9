/** `Parse(Build(u)) == Parsed(u)` holds exactly for the canonical URL values, whatever the order of the query map. */
module UrlRoundTrip {
  import opened Text
  import opened Collections
  import opened Url
  import opened UrlLaws

  // ---------------------------------------------------------------- canonical values come back: the tail

  /** The pieces into which the printed tail of `u` splits. */
  function RawTail(u: Url, order: seq<string>): Tail {
    WithPort(NO_TAIL.(host := u.host), u, order)
  }

  function WithFragment(t: Tail, u: Url): Tail {
    if u.fragment == "" then t else t.(hash := true, fragment := u.fragment)
  }

  function WithQuery(t: Tail, u: Url, order: seq<string>): Tail {
    var q := QueryText(order, u.query);
    WithFragment(if q == "" then t else t.(question := true, query := q[1..]), u)
  }

  function WithPath(t: Tail, u: Url, order: seq<string>): Tail {
    WithQuery(t.(path := u.path), u, order)
  }

  function WithPort(t: Tail, u: Url, order: seq<string>): Tail {
    WithPath(if u.port == "" then t else t.(portColon := true, port := u.port), u, order)
  }

  lemma EnterConcat(t: Tail, a: string, b: string)
    ensures Enter(t, a + b, |a|) == Enter(t, b, 0)
  {
    var s := a + b;
    if b != "" {
      assert s[|a|..] == b == b[0..] && s[|a| + 1..] == b[1..] && s[|a|] == b[0];
    }
  }

  lemma ForwardFragment(t: Tail, u: Url)
    ensures RunTail(Enter(t, FragmentText(u), 0)) == TailConfig(Done, WithFragment(t, u), "")
  {
    if u.fragment != "" { assert FragmentText(u)[1..] == u.fragment; }
  }

  // What characters the printed query has.

  ghost predicate QueryLacks(q: QueryMap, c: char) {
    forall k :: k in q ==> Free(k, {c}) && forall j :: 0 <= j < |q[k]| ==> Free(q[k][j], {c})
  }

  lemma {:induction false} ParamTextLacks(k: string, vs: seq<string>, c: char)
    requires c != '&' && c != '=' && Free(k, {c}) && forall j :: 0 <= j < |vs| ==> Free(vs[j], {c})
    ensures Free(ParamText(k, vs), {c})
    ensures vs != [] ==> |ParamText(k, vs)| >= 2
  {
    if vs == [] {
    } else {
      ParamTextLacks(k, vs[1..], c);
      FreeConcat("&" + Pair(k, vs[0]), ParamText(k, vs[1..]), {c});
    }
  }

  lemma {:induction false} ParamsTextLacks(order: seq<string>, q: QueryMap, c: char)
    requires c != '&' && c != '=' && QueryLacks(q, c)
    ensures Free(ParamsText(order, q), {c})
    ensures ParamsText(order, q) != "" ==> |ParamsText(order, q)| >= 2
  {
    if order == [] {
    } else {
      ParamsTextLacks(order[1..], q, c);
      if order[0] in q { ParamTextLacks(order[0], q[order[0]], c); }
      FreeConcat(ParamText(order[0], Values(q, order[0])), ParamsText(order[1..], q), {c});
    }
  }

  lemma QueryTextLacks(order: seq<string>, q: QueryMap, c: char)
    requires c !in {'&', '=', '?'} && QueryLacks(q, c)
    ensures Free(QueryText(order, q), {c}) && |QueryText(order, q)| != 1
  {
    ParamsTextLacks(order, q, c);
  }

  lemma ForwardQuery(t: Tail, u: Url, order: seq<string>)
    requires Tidy(u.query)
    ensures RunTail(Enter(t, FromQuery(u, order), 0)) == TailConfig(Done, WithQuery(t, u, order), "")
  {
    QueryTextLacks(order, u.query, '#');
    var q, f := QueryText(order, u.query), FragmentText(u);
    if q == "" {
      assert q + f == f;
      ForwardFragment(t, u);
    } else {
      var t' := t.(question := true);
      assert (q + f)[1..] == q[1..] + f && (q + f)[0] == '?';
      assert Enter(t, q + f, 0) == TailConfig(Query, t', q[1..] + f);
      QueryRest(t', u, q[1..]);
    }
  }

  lemma QueryRest(t: Tail, u: Url, q: string)
    requires Free(q, {'#'}) && q != ""
    ensures RunTail(TailConfig(Query, t, q + FragmentText(u))) == TailConfig(Done, WithFragment(t.(query := q), u), "")
  {
    var f := FragmentText(u);
    IndexAfter(q, f, QUERY_ENDS);
    assert (q + f)[..|q|] == q;
    EnterConcat(t.(query := q), q, f);
    ForwardFragment(t.(query := q), u);
  }

  /** Behind the path comes nothing, a '?' or a '#'. */
  lemma FromQueryHead(u: Url, order: seq<string>)
    ensures FromQuery(u, order) != "" ==> FromQuery(u, order)[0] in PATH_ENDS
    ensures FromPath(u, order) != "" && Rooted(u.path) ==> FromPath(u, order)[0] in PORT_ENDS
  {
  }

  lemma ForwardPathState(t: Tail, u: Url, order: seq<string>)
    requires CleanTail(u) && FromPath(u, order) != ""
    ensures RunTail(TailConfig(Path, t, FromPath(u, order))) == TailConfig(Done, WithPath(t, u, order), "")
  {
    var r := FromQuery(u, order);
    FromQueryHead(u, order);
    IndexAfter(u.path, r, PATH_ENDS);
    assert (u.path + r)[..|u.path|] == u.path;
    EnterConcat(t.(path := u.path), u.path, r);
    ForwardQuery(t.(path := u.path), u, order);
  }

  lemma ForwardPath(t: Tail, u: Url, order: seq<string>)
    requires CleanTail(u) && t.path == ""
    ensures RunTail(Enter(t, FromPath(u, order), 0)) == TailConfig(Done, WithPath(t, u, order), "")
  {
    if u.path == "" {
      assert "" + FromQuery(u, order) == FromQuery(u, order);
      assert t.(path := "") == t;
      ForwardQuery(t, u, order);
    } else {
      assert FromPath(u, order)[0..] == FromPath(u, order) && FromPath(u, order)[0] == '/';
      ForwardPathState(t, u, order);
    }
  }

  lemma ForwardPortState(t: Tail, u: Url, order: seq<string>)
    requires CleanTail(u) && t.path == "" && u.port != ""
    ensures RunTail(TailConfig(Port, t, u.port + FromPath(u, order))) == TailConfig(Done, WithPath(t.(port := u.port), u, order), "")
  {
    var r := FromPath(u, order);
    FromQueryHead(u, order);
    IndexAfter(u.port, r, PORT_ENDS);
    assert (u.port + r)[..|u.port|] == u.port;
    EnterConcat(t.(port := u.port), u.port, r);
    ForwardPath(t.(port := u.port), u, order);
  }

  lemma ForwardPort(t: Tail, u: Url, order: seq<string>)
    requires CleanTail(u) && t.path == ""
    ensures RunTail(Enter(t, PortText(u) + FromPath(u, order), 0)) == TailConfig(Done, WithPort(t, u, order), "")
  {
    var r := FromPath(u, order);
    if u.port == "" {
      assert "" + r == r;
      ForwardPath(t, u, order);
    } else {
      assert (":" + u.port + r)[1..] == u.port + r;
      ForwardPortState(t.(portColon := true), u, order);
    }
  }

  /** The tail printed for `u` is taken apart into the pieces of `u`. */
  lemma ForwardTail(u: Url, order: seq<string>)
    requires CleanTail(u) && TailText(u, order) != ""
    ensures RunTail(TailConfig(Host, NO_TAIL, TailText(u, order))) == TailConfig(Done, RawTail(u, order), "")
  {
    var r := PortText(u) + FromPath(u, order);
    FromQueryHead(u, order);
    assert r != "" ==> r[0] in HOST_ENDS;
    IndexAfter(u.host, r, HOST_ENDS);
    assert (u.host + r)[..|u.host|] == u.host;
    EnterConcat(NO_TAIL.(host := u.host), u.host, r);
    ForwardPort(NO_TAIL.(host := u.host), u, order);
  }

  lemma TailTextEmpty(u: Url, order: seq<string>)
    requires Tidy(u.query) && Enumerates(order, u.query)
    ensures TailText(u, order) == "" <==> !HasTail(u)
  {
    QueryComesBack(u.query, order);
  }

  // ---------------------------------------------------------------- canonical values come back: decoding

  lemma QueryBack(u: Url, order: seq<string>)
    requires CleanTail(u) && Enumerates(order, u.query)
    ensures AddParams(RawTail(u, order).query, map[]) == Some(u.query)
  {
    QueryComesBack(u.query, order);
    var q := QueryText(order, u.query);
    assert q != "" ==> q[1..] == ParamsText(order, u.query)[1..];
  }

  lemma CleanBack(s: string, cs: set<char>)
    requires Free(s, cs + {'%'})
    ensures Decode(s) == Some(s)
  {
    assert Free(s, {'%'});
  }

  lemma {:induction false} DecodeBack(f: Front, u: Url, order: seq<string>)
    requires CleanTail(u) && Enumerates(order, u.query)
    requires f.scheme == u.scheme && f.username == u.username && f.password == u.password
    requires Free(u.scheme, {'%'}) && Free(u.username, {'%'}) && Free(u.password, {'%'})
    ensures DecodePieces(f, RawTail(u, order)) == Some(u)
  {
    QueryBack(u, order);
    CleanBack(u.host, HOST_ENDS);
    CleanBack(u.port, PORT_ENDS);
    CleanBack(u.path, PATH_ENDS);
  }

  // ---------------------------------------------------------------- canonical values come back: the front

  lemma TailTextLacks(u: Url, order: seq<string>, c: char)
    requires c !in {'&', '=', '?', '#'} && (c == ':' ==> u.port == "") && TailLacks(u, c)
    ensures Free(TailText(u, order), {c})
  {
    QueryTextLacks(order, u.query, c);
    FreeConcat(QueryText(order, u.query), FragmentText(u), {c});
    FreeConcat(u.path, FromQuery(u, order), {c});
    FreeConcat(PortText(u), FromPath(u, order), {c});
    FreeConcat(u.host, PortText(u) + FromPath(u, order), {c});
  }

  function SchemeFront(scheme: string): Front {
    NO_FRONT.(scheme := scheme, colon := true, slashes := true)
  }

  /** "scheme://" is recognised when the scheme has no colon. */
  lemma {:induction false} FrontOfScheme(scheme: string, x: string)
    requires Free(scheme, {':'})
    ensures FrontOf(scheme + "://" + x) == FromUser(SchemeFront(scheme), x)
  {
    var s := scheme + ("://" + x);
    assert scheme + "://" + x == s;
    IndexAfter(scheme, "://" + x, {':'});
    CutConcat(scheme, "://" + x);
    assert ("://" + x)[1..] == "//" + x;
    FromSlashes(NO_FRONT.(scheme := scheme, colon := true), x);
  }

  lemma FromSlashes(f: Front, x: string)
    ensures FromAuthority(f, "//" + x) == FromUser(f.(slashes := true), x)
  {
    CutConcat("//", x);
  }

  function UserFront(f: Front, u: Url): Front {
    if NoUser(u) then f else f.(username := u.username, passColon := true, password := u.password, at := true)
  }

  lemma FrontOfUser(f: Front, u: Url, t: string)
    requires t != ""
    requires if NoUser(u) then Free(t, {'@'}) else Free(u.username, {':', '@'}) && Free(u.password, {'@'})
    ensures FromUser(f, UserText(u) + t) == Begin(Host, UserFront(f, u), t)
  {
    if NoUser(u) {
      assert UserText(u) + t == t;
    } else {
      var up := u.username + (":" + u.password);
      var x := up + ("@" + t);
      assert UserText(u) + t == x;
      assert Free(up, {'@'});
      IndexAfter(up, "@" + t, {'@'});
      assert x[..|up|] == up && x[|up| + 1..] == t;
      IndexAfter(u.username, ":" + u.password, {':'});
      assert up[..|u.username|] == u.username && up[|u.username| + 1..] == u.password;
    }
  }

  lemma BuildShape(u: Url, order: seq<string>)
    ensures u.scheme != "" ==> Build(u, order) == u.scheme + "://" + (UserText(u) + TailText(u, order))
    ensures u.scheme == "" ==> Build(u, order) == UserText(u) + TailText(u, order)
    ensures u.scheme == "" && NoUser(u) ==> Build(u, order) == TailText(u, order)
  {
  }

  /** A parse is known from its front, its tail run and the decoding of the pieces. */
  lemma {:induction false} ParsedFrom(s: string, state: State, f: Front, rest: string, raw: Tail, u: Url)
    requires FrontOf(s) == Begin(state, f, rest) && InTail(state)
    requires RunTail(TailConfig(state, NO_TAIL, rest)) == TailConfig(Done, raw, "") && DecodePieces(f, raw) == Some(u)
    ensures Parse(s) == Parsed(u)
  {
    RunSplits(s);
  }

  lemma {:induction false} ForwardFull(u: Url, order: seq<string>)
    requires Enumerates(order, u.query) && Canonical(u) && u.scheme != ""
    ensures Parse(Build(u, order)) == Parsed(u)
  {
    var s := Build(u, order);
    var t := TailText(u, order);
    TailTextEmpty(u, order);
    if NoUser(u) { TailTextLacks(u, order, '@'); }
    BuildShape(u, order);
    FrontOfScheme(u.scheme, UserText(u) + t);
    var f := SchemeFront(u.scheme);
    FrontOfUser(f, u, t);
    ForwardTail(u, order);
    DecodeBack(UserFront(f, u), u, order);
    ParsedFrom(s, Host, UserFront(f, u), t, RawTail(u, order), u);
  }

  lemma RelativeTail(u: Url, order: seq<string>)
    requires Enumerates(order, u.query) && Canonical(u) && u.scheme == ""
    ensures var t := TailText(u, order); t != "" && Free(t, {':'}) && !SlashSlash(t)
    ensures TailText(u, order)[0] == '/' ==> u.host == "" && TailText(u, order) == FromPath(u, order)
  {
    var t := TailText(u, order);
    TailTextEmpty(u, order);
    TailTextLacks(u, order, ':');
    FromQueryHead(u, order);
    assert t == u.host + FromPath(u, order) by { assert PortText(u) + FromPath(u, order) == FromPath(u, order); }
    assert u.host != "" ==> t[0] == u.host[0];
    if t[0] == '/' {
      assert u.host == "";
      assert t == FromPath(u, order);
      assert u.path != "" ==> |u.path| == 1 || t[1] == u.path[1];
    }
  }

  lemma RelativeFront(t: string)
    requires t != "" && Free(t, {':'}) && !SlashSlash(t)
    ensures FrontOf(t) == Begin(if t[0] == '/' then Path else Host, NO_FRONT, t)
  {
  }

  lemma {:induction false} RelativeParsed(t: string, raw: Tail, u: Url)
    requires t != "" && Free(t, {':'}) && !SlashSlash(t)
    requires RunTail(TailConfig(if t[0] == '/' then Path else Host, NO_TAIL, t)) == TailConfig(Done, raw, "")
    requires DecodePieces(NO_FRONT, raw) == Some(u)
    ensures Parse(t) == Parsed(u)
  {
    RelativeFront(t);
    ParsedFrom(t, if t[0] == '/' then Path else Host, NO_FRONT, t, raw, u);
  }

  /** The path may come first. */
  lemma RelativeRun(u: Url, order: seq<string>)
    requires CleanTail(u) && TailText(u, order) != "" && u.port == ""
    requires TailText(u, order)[0] == '/' ==> u.host == "" && TailText(u, order) == FromPath(u, order)
    ensures var t := TailText(u, order);
      RunTail(TailConfig(if t[0] == '/' then Path else Host, NO_TAIL, t)) == TailConfig(Done, RawTail(u, order), "")
  {
    if TailText(u, order)[0] == '/' { ForwardPathState(NO_TAIL, u, order); } else { ForwardTail(u, order); }
  }

  lemma {:induction false} ForwardRelative(u: Url, order: seq<string>)
    requires Enumerates(order, u.query) && Canonical(u) && u.scheme == ""
    ensures Parse(Build(u, order)) == Parsed(u)
  {
    var t := TailText(u, order);
    BuildShape(u, order);
    RelativeTail(u, order);
    RelativeRun(u, order);
    DecodeBack(NO_FRONT, u, order);
    RelativeParsed(t, RawTail(u, order), u);
  }

  // ---------------------------------------------------------------- only canonical values come back: the query

  lemma {:induction false} ParamsSame(order: seq<string>, m: QueryMap, k: string, vs: seq<string>)
    requires k !in order || vs == Values(m, k)
    ensures ParamsText(order, m[k := vs]) == ParamsText(order, m)
  {
    if order == [] {
    } else {
      assert order == [order[0]] + order[1..];
      ParamsSame(order[1..], m, k, vs);
    }
  }

  /** Adding a parameter lengthens the printed query by no more than the parameter. */
  lemma {:induction false} ParamsGrow(order: seq<string>, m: QueryMap, k: string, v: string)
    requires Distinct(order)
    ensures |ParamsText(order, m[k := Values(m, k) + [v]])| <= |ParamsText(order, m)| + |k| + |v| + 2
  {
    if order == [] {
    } else {
      if order[0] == k {
        ParamsSame(order[1..], m, k, Values(m, k) + [v]);
        ParamTextSnoc(k, Values(m, k), v);
      } else {
        ParamsGrow(order[1..], m, k, v);
      }
    }
  }

  /** A parameter of full length was printed from a clean pair. */
  lemma ParamBound(kv: string, m: QueryMap, m': QueryMap, order: seq<string>)
    requires Distinct(order) && AddParam(kv, m) == Some(m') && Free(kv, {'&', '#'})
    ensures |ParamsText(order, m')| <= |ParamsText(order, m)| + |kv| + 1
    ensures |ParamsText(order, m')| == |ParamsText(order, m)| + |kv| + 1 && Tidy(m) ==> Tidy(m')
  {
    var eq := IndexOfAny(kv, {'='});
    var key := Decode(kv[..eq]).value;
    if eq == |kv| {
      ParamsSame(order, m, key, Values(m, key));
    } else {
      var val := Decode(kv[eq + 1..]).value;
      ParamsGrow(order, m, key, val);
      if |ParamsText(order, m')| == |ParamsText(order, m)| + |kv| + 1 && Tidy(m) {
        assert key == kv[..eq] && val == kv[eq + 1..];
        TidyAdd(m, key, val);
      }
    }
  }

  lemma TidyAdd(m: QueryMap, k: string, v: string)
    requires Tidy(m) && CleanKey(k) && CleanValue(v)
    ensures Tidy(m[k := Values(m, k) + [v]])
  {
  }

  /** The first parameter and what follows its '&'. */
  lemma FirstParam(raw: string, m: QueryMap, m': QueryMap, amp: nat) returns (m1: QueryMap)
    requires AddParams(raw, m) == Some(m') && raw != "" && amp == IndexOfAny(raw, {'&'}) && Free(raw, {'#'})
    ensures AddParam(raw[..amp], m) == Some(m1) && Free(raw[..amp], {'&', '#'})
    ensures if amp < |raw| then AddParams(raw[amp + 1..], m1) == Some(m') && Free(raw[amp + 1..], {'#'}) else m' == m1
  {
    m1 := AddParam(raw[..amp], m).value;
    assert AddParams(raw, m) == AfterParam(Some(m1), raw, amp);
  }

  lemma {:induction false} ParamsBound(raw: string, m: QueryMap, m': QueryMap, order: seq<string>)
    requires Distinct(order) && AddParams(raw, m) == Some(m') && Free(raw, {'#'}) && raw != ""
    ensures |ParamsText(order, m')| <= |ParamsText(order, m)| + |raw| + 1
    ensures |ParamsText(order, m')| == |ParamsText(order, m)| + |raw| + 1 && Tidy(m) ==> Tidy(m')
    decreases |raw|
  {
    var amp := IndexOfAny(raw, {'&'});
    var m1 := FirstParam(raw, m, m', amp);
    ParamBound(raw[..amp], m, m1, order);
    if amp < |raw| {
      var rest := raw[amp + 1..];
      if rest == "" {
        assert m' == m1;
      } else {
        ParamsBound(rest, m1, m', order);
      }
    }
  }

  // ---------------------------------------------------------------- only canonical values come back: the tail

  lemma QueryBound(t: Tail, q: QueryMap, order: seq<string>)
    requires PathShape(t) && AddParams(t.query, map[]) == Some(q) && Enumerates(order, q)
    ensures |QueryText(order, q)| <= |t.query| + (if t.question then 1 else 0)
    ensures |QueryText(order, q)| == |t.query| + (if t.question then 1 else 0) ==> Tidy(q)
  {
    assert |QueryText(order, q)| == |ParamsText(order, q)|;
    if t.query == "" {
      EnumeratesNone(order, q);
    } else {
      ParamsBound(t.query, map[], q, order);
      EmptyParams(order);
    }
  }

  lemma EnumeratesNone(order: seq<string>, q: QueryMap)
    requires Enumerates(order, q)
    ensures q == map[] ==> order == []
  {
    if order != [] { assert order[0] in order; }
  }

  lemma {:induction false} EmptyParams(order: seq<string>)
    ensures ParamsText(order, map[]) == ""
  {
    if order == [] {
    } else {
      EmptyParams(order[1..]);
    }
  }

  /** The tail printed for a parsed URL is no longer than the text it was parsed from;
      it has the same length only when nothing was decoded, dropped or merged. */
  lemma TailBound(f: Front, t: Tail, u: Url, order: seq<string>)
    requires TailShape(t) && DecodePieces(f, t) == Some(u) && Enumerates(order, u.query)
    ensures |TailText(u, order)| <= |HostPart(t)|
    ensures |TailText(u, order)| == |HostPart(t)| && Rooted(t.path) ==> CleanTail(u)
  {
    QueryBound(t, u.query, order);
    assert |FragmentText(u)| <= |FragmentPart(t)|;
    assert |FromQuery(u, order)| <= |QueryPart(t)|;
    assert |FromPath(u, order)| <= |PathPart(t)|;
    assert |PortText(u)| + |FromPath(u, order)| <= |PortPart(t)|;
    if |TailText(u, order)| == |HostPart(t)| {
      assert |u.host| == |t.host| && |PortText(u)| + |FromPath(u, order)| == |PortPart(t)|;
      assert |u.port| == |t.port| && |FromPath(u, order)| == |PathPart(t)|;
      assert |u.path| == |t.path| && |FromQuery(u, order)| == |QueryPart(t)|;
      assert |u.fragment| == |t.fragment|;
    }
  }

  lemma {:induction false} ParamTextLacksBack(k: string, vs: seq<string>, c: char)
    requires vs != [] && Free(ParamText(k, vs), {c})
    ensures Free(k, {c}) && forall j :: 0 <= j < |vs| ==> Free(vs[j], {c})
    decreases |vs|
  {
    FreeConcat("&" + Pair(k, vs[0]), ParamText(k, vs[1..]), {c});
    FreeConcat("&", Pair(k, vs[0]), {c});
    FreeConcat(k + "=", vs[0], {c});
    FreeConcat(k, "=", {c});
    if |vs| > 1 {
      ParamTextLacksBack(k, vs[1..], c);
    }
  }

  lemma {:induction false} ParamsTextLacksBack(order: seq<string>, q: QueryMap, k: string, c: char)
    requires k in order && Free(ParamsText(order, q), {c})
    ensures Free(ParamText(k, Values(q, k)), {c})
  {
    FreeConcat(ParamText(order[0], Values(q, order[0])), ParamsText(order[1..], q), {c});
    if order[0] != k {
      ParamsTextLacksBack(order[1..], q, k, c);
    }
  }

  /** The parameters differ from the printed query only in the first separator. */
  lemma ParamsLackToo(order: seq<string>, q: QueryMap, c: char)
    requires c != '&' && Enumerates(order, q) && Tidy(q) && Free(QueryText(order, q), {c})
    ensures Free(ParamsText(order, q), {c})
  {
    var t := ParamsText(order, q);
    ParamsOfAll(order, q, map[]);
    assert forall j :: 1 <= j < |t| ==> t[j] == QueryText(order, q)[j];
  }

  lemma QueryTextLacksBack(order: seq<string>, q: QueryMap, c: char)
    requires c != '&' && Enumerates(order, q) && Tidy(q) && Free(QueryText(order, q), {c})
    ensures QueryLacks(q, c)
  {
    ParamsLackToo(order, q, c);
    forall k | k in q ensures Free(k, {c}) && forall j :: 0 <= j < |q[k]| ==> Free(q[k][j], {c}) {
      ParamsTextLacksBack(order, q, k, c);
      ParamTextLacksBack(k, q[k], c);
    }
  }

  lemma TailTextLacksBack(u: Url, order: seq<string>, c: char)
    requires c != '&' && Enumerates(order, u.query) && Tidy(u.query) && Free(TailText(u, order), {c})
    ensures TailLacks(u, c)
    ensures c == ':' ==> u.port == ""
  {
    FreeConcat(u.host, PortText(u) + FromPath(u, order), {c});
    FreeConcat(PortText(u), FromPath(u, order), {c});
    FreeConcat(u.path, FromQuery(u, order), {c});
    FreeConcat(QueryText(order, u.query), FragmentText(u), {c});
    if u.port != "" {
      FreeConcat(":", u.port, {c});
      assert ":"[0] !in {c};
    }
    if u.fragment != "" { FreeConcat("#", u.fragment, {c}); }
    QueryTextLacksBack(order, u.query, c);
  }

  // ---------------------------------------------------------------- only canonical values come back: the whole

  lemma DoneBegins(r: FrontResult, s: string)
    requires FrontFits(r, s) && Finish(r).state == Done
    ensures r.Begin? && (r.state == Host || r.state == Path)
  {
  }

  /** A tail run that ends in `Done` has read something, and its pieces make up what it has read. */
  lemma DoneParts(state: State, rest: string) returns (t: Tail)
    requires state == Host || state == Path
    requires RunTail(TailConfig(state, NO_TAIL, rest)).state == Done
    ensures t == RunTail(TailConfig(state, NO_TAIL, rest)).tail && rest != ""
    ensures TailShape(t) && HostPart(t) == rest && (state == Host || rest[0] == '/' ==> Rooted(t.path))
  {
    TailFits(state, rest);
    t := RunTail(TailConfig(state, NO_TAIL, rest)).tail;
  }

  lemma ParsedParts(s: string, u: Url) returns (state: State, f: Front, rest: string, t: Tail)
    requires Parse(s) == Parsed(u)
    ensures FrontOf(s) == Begin(state, f, rest) && rest != "" && FrontFits(Begin(state, f, rest), s)
    ensures DecodePieces(f, t) == Some(u) && TailShape(t) && HostPart(t) == rest
    ensures state == Host || rest[0] == '/' ==> Rooted(t.path)
  {
    RunSplits(s);
    FrontOfFits(s);
    var r := FrontOf(s);
    DoneBegins(r, s);
    state, f, rest := r.state, r.front, r.rest;
    t := DoneParts(state, rest);
  }

  lemma DoubleSlash(u: Url, order: seq<string>)
    ensures u.host == "" && u.port == "" && SlashSlash(u.path) ==> SlashSlash(TailText(u, order))
  {
    if u.host == "" && u.port == "" && SlashSlash(u.path) {
      assert TailText(u, order) == u.path + FromQuery(u, order);
    }
  }

  lemma BackRelative(u: Url, order: seq<string>)
    requires Enumerates(order, u.query) && u.scheme == "" && Parse(Build(u, order)) == Parsed(u)
    ensures Canonical(u)
  {
    var s := Build(u, order);
    var x := TailText(u, order);
    BuildShape(u, order);
    var state, f, rest, t := ParsedParts(s, u);
    TailBound(f, t, u, order);
    assert |UserText(u)| <= if f.at then |UserPart(f)| + 2 else 0;
    assert !f.slashes && NoUser(u);
    assert |SchemePart(f)| == 0 && !f.colon && s == x == rest;
    NoColonFront(s, state, f, rest);
    TailTextLacksBack(u, order, ':');
    TailTextEmpty(u, order);
    DoubleSlash(u, order);
  }

  lemma NoColonFront(s: string, state: State, f: Front, rest: string)
    requires FrontOf(s) == Begin(state, f, rest) && !f.colon && !f.slashes
    ensures Free(s, {':'}) && !SlashSlash(s)
  {
  }

  lemma NoAtFront(f0: Front, x: string, state: State, f: Front, rest: string)
    requires FromUser(f0, x) == Begin(state, f, rest) && |x| <= |rest|
    ensures Free(x, {'@'}) && rest == x
  {
  }

  lemma SchemeKept(s: string, state: State, f: Front, rest: string)
    requires FrontOf(s) == Begin(state, f, rest) && !Free(s, {':'})
    ensures f.scheme == s[..IndexOfAny(s, {':'})]
  {
    var i := IndexOfAny(s, {':'});
    var f0 := NO_FRONT.(scheme := s[..i], colon := true);
    FrontWithScheme(s, i, f0, s[i + 1..]);
    AuthorityKeeps(f0, s[i + 1..], state, f, rest);
  }

  lemma AuthorityKeeps(f0: Front, x: string, state: State, f: Front, rest: string)
    requires FromAuthority(f0, x) == Begin(state, f, rest)
    ensures f.scheme == f0.scheme
  {
  }

  lemma BackScheme(u: Url, x: string, s: string, state: State, f: Front, rest: string, t: Tail)
    requires s == u.scheme + "://" + x && FrontOf(s) == Begin(state, f, rest) && DecodePieces(f, t) == Some(u)
    ensures Free(u.scheme, {':', '%'}) && FromUser(SchemeFront(u.scheme), x) == Begin(state, f, rest)
  {
    var n := |u.scheme|;
    assert s[n] == ':' && s[..n] == u.scheme;
    SchemeKept(s, state, f, rest);
    FrontOfScheme(u.scheme, x);
  }

  function UserPass(u: Url): string {
    u.username + (":" + u.password)
  }

  /** Where the printed user information is cut: at its end or at an '@' inside it. */
  lemma UserCut(f0: Front, u: Url, x: string) returns (i: nat)
    requires !NoUser(u)
    ensures i <= |UserPass(u)| && (i < |UserPass(u)| ==> UserPass(u)[i] == '@') && Free(UserPass(u)[..i], {'@'})
    ensures FromUser(f0, UserText(u) + x) == Begin(Host, SplitUser(f0, UserPass(u)[..i]), (UserPass(u) + ("@" + x))[i + 1..])
  {
    var up := UserPass(u);
    var y := up + ("@" + x);
    assert UserText(u) + x == y;
    i := IndexOfAny(y, {'@'});
    assert y[|up|] == '@';
    assert y[..i] == up[..i];
  }

  lemma UserTooShort(f0: Front, u: Url, i: nat, t: Tail)
    requires i < |UserPass(u)| && UserPass(u)[i] == '@' && f0.password == ""
    ensures DecodePieces(SplitUser(f0, UserPass(u)[..i]), t) != Some(u)
  {
    var up := UserPass(u);
    var f := SplitUser(f0, up[..i]);
    assert up[|u.username|] == ':';
    assert f.password == "" || |f.username| + |f.password| == i - 1;
  }

  lemma UserWhole(f0: Front, u: Url, t: Tail)
    requires DecodePieces(SplitUser(f0, UserPass(u)), t) == Some(u)
    ensures Free(u.username, {':', '%'}) && Free(u.password, {'%'})
  {
    var up := UserPass(u);
    var j := IndexOfAny(up, {':'});
    assert up[|u.username|] == ':' && up[..|u.username|] == u.username;
    assert j == |u.username|;
    assert up[j + 1..] == u.password;
  }

  lemma {:induction false} BackUser(f0: Front, u: Url, x: string, f: Front, rest: string, t: Tail)
    requires !NoUser(u) && f0.password == "" && FromUser(f0, UserText(u) + x) == Begin(Host, f, rest)
    requires DecodePieces(f, t) == Some(u)
    ensures Free(u.username, {':', '@', '%'}) && Free(u.password, {'@', '%'}) && rest == x
  {
    var up := UserPass(u);
    var i := UserCut(f0, u, x);
    if i < |up| { UserTooShort(f0, u, i, t); }
    assert up[..i] == up;
    CutConcat(up, "@" + x);
    UserWhole(f0, u, t);
    UserFree(u);
  }

  lemma UserFree(u: Url)
    requires Free(UserPass(u), {'@'})
    ensures Free(u.username, {'@'}) && Free(u.password, {'@'})
  {
    FreeConcat(u.username, ":" + u.password, {'@'});
    FreeConcat(":", u.password, {'@'});
  }

  lemma {:induction false} BackFull(u: Url, order: seq<string>)
    requires Enumerates(order, u.query) && u.scheme != "" && Parse(Build(u, order)) == Parsed(u)
    ensures Canonical(u)
  {
    var s := Build(u, order);
    var x := TailText(u, order);
    BuildShape(u, order);
    var state, f, rest, t := ParsedParts(s, u);
    BackScheme(u, UserText(u) + x, s, state, f, rest, t);
    TailBound(f, t, u, order);
    if NoUser(u) {
      assert UserText(u) + x == x;
      NoAtFront(SchemeFront(u.scheme), x, state, f, rest);
      TailTextLacksBack(u, order, '@');
    } else {
      BackUser(SchemeFront(u.scheme), u, x, f, rest, t);
    }
    TailTextEmpty(u, order);
  }

  /** Parsing undoes printing for the canonical URL values and for no others,
      in whatever order the query map is iterated. */
  lemma RoundTrip(u: Url, order: seq<string>)
    requires Enumerates(order, u.query)
    ensures Parse(Build(u, order)) == Parsed(u) <==> Canonical(u)
  {
    if Canonical(u) {
      if u.scheme != "" { ForwardFull(u, order); } else { ForwardRelative(u, order); }
    } else if Parse(Build(u, order)) == Parsed(u) {
      if u.scheme != "" { BackFull(u, order); } else { BackRelative(u, order); }
    }
  }
}
