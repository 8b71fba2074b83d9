/** Routing on texts: which parts a route or a path has, and which registration answers a request. */
module RouterPaths {
  import opened Text
  import opened Collections
  import opened Router
  import opened RouterLaws
  import StringUtil

  // ---------------------------------------------------------------- the parts of a path

  /** `bare` is the text without one leading slash. */
  predicate Bare(path: string, bare: string) {
    path == "/" + bare || (path == bare && !("/" <= path))
  }

  /** Between slashes, the text without one leading slash reads as these parts. */
  predicate Reads(path: string, parts: seq<string>) {
    && parts != []
    && (forall k :: 0 <= k < |parts| ==> '/' !in parts[k])
    && Bare(path, StringUtil.Join(parts, '/'))
  }

  lemma BareExactly(path: string, bare: string)
    ensures Bare(path, bare) <==> bare == if |path| > 0 && path[0] == '/' then path[1..] else path
  {
    if path == "/" + bare { assert path[1..] == bare; }
    if |path| > 0 && path[0] == '/' { assert path == "/" + path[1..]; }
  }

  /** What is routed on is the one list of parts that the text reads as. */
  lemma PartsExactly(path: string, parts: seq<string>)
    ensures parts == Parts(path) <==> Reads(path, parts)
  {
    var rest := if |path| > 0 && path[0] == '/' then path[1..] else path;
    if parts != [] {
      StringUtil.SplitExactly(rest, '/', parts);
      BareExactly(path, StringUtil.Join(parts, '/'));
      assert forall k :: 0 <= k < |parts| ==> (Free(parts[k], {'/'}) <==> '/' !in parts[k]);
    }
  }

  /** The same up to one leading slash. */
  predicate SamePath(a: string, b: string) {
    a == b || (a == "/" + b && !("/" <= b)) || (b == "/" + a && !("/" <= a))
  }

  /** Two texts have the same parts exactly when they are the same up to one leading slash. */
  lemma SameParts(a: string, b: string, ps: seq<string>, qs: seq<string>)
    requires Reads(a, ps) && Reads(b, qs)
    ensures ps == qs <==> SamePath(a, b)
  {
    var p, q := StringUtil.Join(ps, '/'), StringUtil.Join(qs, '/');
    BareExactly(a, p);
    BareExactly(b, q);
    if p == q {
      PartsExactly(a, ps);
      PartsExactly(a, qs);
    }
    if SamePath(a, b) && a != b {
      assert p == q;
    }
  }

  // ---------------------------------------------------------------- routes against requests

  /** The first `k` parts of a route take those of a request. */
  predicate Takes(route: seq<string>, req: seq<string>, k: nat) {
    k <= |route| && k <= |req| && forall j :: 0 <= j < k ==> ":" <= route[j] || route[j] == req[j]
  }

  /** Two routes are the same in their first `k` parts, up to the names of wildcards. */
  predicate Alike(a: seq<string>, b: seq<string>, k: nat) {
    k <= |a| && k <= |b| && forall j :: 0 <= j < k ==> (":" <= a[j] && ":" <= b[j]) || a[j] == b[j]
  }

  /** After the same beginning, route `m` has the very text of part `j` of the request. */
  predicate Prefers<M, H>(routes: seq<Route<M, H>>, m: nat, i: nat, req: seq<string>, j: nat)
    requires m < |routes| && i < |routes| && j < |req|
  {
    Alike(routes[m].parts, routes[i].parts, j) && j < |routes[m].parts| && routes[m].parts[j] == req[j] && !(":" <= req[j])
  }

  /** No wildcard of the beginning of route `i` stands where some route has the very text of the request. */
  ghost predicate Undisputed<M, H>(routes: seq<Route<M, H>>, i: nat, req: seq<string>)
    requires i < |routes| && |req| <= |routes[i].parts|
  {
    forall j, m :: 0 <= j < |req| && 0 <= m < |routes| && ":" <= routes[i].parts[j] ==> !Prefers(routes, m, i, req, j)
  }

  /** Route `i` leads to the end of the request: it takes all its parts, and no other route has a better claim. */
  ghost predicate Leads<M, H>(routes: seq<Route<M, H>>, i: nat, req: seq<string>)
    requires i < |routes|
  {
    Takes(routes[i].parts, req, |req|) && Undisputed(routes, i, req)
  }

  /** Route `i` is for this verb and leads to the end of the request. */
  ghost predicate Fits<M, H>(routes: seq<Route<M, H>>, i: nat, verb: M, req: seq<string>)
    requires i < |routes|
  {
    Leads(routes, i, req) && |routes[i].parts| == |req| && routes[i].verb == verb
  }

  /** Route `i` is the last one that fits. */
  ghost predicate Answers<M, H>(routes: seq<Route<M, H>>, i: nat, verb: M, req: seq<string>)
    requires i < |routes|
  {
    Fits(routes, i, verb, req) && forall m :: i < m < |routes| ==> !Fits(routes, m, verb, req)
  }

  lemma AlikeExactly(a: seq<string>, b: seq<string>, k: nat)
    requires k <= |a| && k <= |b|
    ensures Alike(a, b, k) <==> PatternOf(a)[..k] == PatternOf(b)[..k]
  {
    forall j | 0 <= j < k
      ensures PatternOf(a)[..k][j] == PatternOf(b)[..k][j] <==> (":" <= a[j] && ":" <= b[j]) || a[j] == b[j]
    {
    }
    if PatternOf(a)[..k] == PatternOf(b)[..k] {
      forall j | 0 <= j < k
        ensures (":" <= a[j] && ":" <= b[j]) || a[j] == b[j]
      {
        assert PatternOf(a)[..k][j] == PatternOf(b)[..k][j];
      }
    }
  }

  /** A literal behind the beginning of route `i` is one that some route has there. */
  lemma PrefersExactly<M, H>(routes: seq<Route<M, H>>, i: nat, req: seq<string>, j: nat)
    requires i < |routes| && j < |req| && j <= |routes[i].parts|
    ensures Begins(routes, PatternOf(routes[i].parts)[..j] + [Lit(req[j])]) <==>
              exists m :: 0 <= m < |routes| && Prefers(routes, m, i, req, j)
  {
    var pat := PatternOf(routes[i].parts)[..j] + [Lit(req[j])];
    forall m | 0 <= m < |routes|
      ensures pat <= PatternOf(routes[m].parts) <==> Prefers(routes, m, i, req, j)
    {
      PreferredExactly(routes[m].parts, routes[i].parts, req[j], j);
    }
  }

  lemma PreferredExactly(other: seq<string>, parts: seq<string>, part: string, j: nat)
    requires j <= |parts|
    ensures PatternOf(parts)[..j] + [Lit(part)] <= PatternOf(other) <==>
              Alike(other, parts, j) && j < |other| && other[j] == part && !(":" <= part)
  {
    var pat := PatternOf(parts)[..j] + [Lit(part)];
    if j < |other| {
      AlikeExactly(other, parts, j);
      assert pat[..j] == PatternOf(parts)[..j] && pat[j] == Lit(part);
      if pat <= PatternOf(other) {
        assert PatternOf(other)[..j] == pat[..j];
        assert PatternOf(other)[j] == pat[j];
      }
      if Alike(other, parts, j) && other[j] == part && !(":" <= part) {
        assert PatternOf(other)[..j + 1] == pat;
      }
    }
  }

  // ---------------------------------------------------------------- the walk

  lemma TakesMatches(parts: seq<string>, req: seq<string>)
    requires |req| <= |parts|
    ensures Takes(parts, req, |req|) <==> Matches(PatternOf(parts)[..|req|], req)
  {
    var pat := PatternOf(parts)[..|req|];
    forall j | 0 <= j < |req|
      ensures pat[j] == Wild || pat[j] == Lit(req[j]) <==> ":" <= parts[j] || parts[j] == req[j]
    {
    }
  }

  lemma UndisputedExactly<M, H>(routes: seq<Route<M, H>>, i: nat, req: seq<string>)
    requires Accepted(routes) && i < |routes| && |req| <= |routes[i].parts|
    ensures Undisputed(routes, i, req) <==> Unshadowed(Build(routes), PatternOf(routes[i].parts)[..|req|], req, 0)
  {
    var full := PatternOf(routes[i].parts);
    var pat := full[..|req|];
    forall j | 0 <= j < |req|
      ensures pat[j] == Wild <==> ":" <= routes[i].parts[j]
      ensures pat[..j] + [Lit(req[j])] in Build(routes) <==> exists m :: 0 <= m < |routes| && Prefers(routes, m, i, req, j)
    {
      assert pat[..j] == full[..j];
      BuildHolds(routes, pat[..j] + [Lit(req[j])]);
      PrefersExactly(routes, i, req, j);
    }
  }

  lemma BeginningHeld<M, H>(routes: seq<Route<M, H>>, i: nat, n: nat)
    requires Accepted(routes) && i < |routes| && n <= |routes[i].parts|
    ensures PatternOf(routes[i].parts)[..n] in Build(routes)
  {
    var pat := PatternOf(routes[i].parts)[..n];
    assert pat <= PatternOf(routes[i].parts);
    BuildHolds(routes, pat);
  }

  /** A route leads to the end of a request exactly when the walk ends at its beginning. */
  lemma LeadsExactly<M, H>(routes: seq<Route<M, H>>, i: nat, req: seq<string>)
    requires Accepted(routes) && i < |routes| && |req| <= |routes[i].parts|
    ensures Leads(routes, i, req) <==> Walk(Build(routes), [], req) == Some(PatternOf(routes[i].parts)[..|req|])
  {
    var pat := PatternOf(routes[i].parts)[..|req|];
    var t := Build(routes);
    TakesMatches(routes[i].parts, req);
    assert pat[0..] == pat;
    if Matches(pat, req) {
      BuildClosed(routes);
      BeginningHeld(routes, i, |req|);
      assert pat[..0] == [] && req[0..] == req;
      WalkFollows(t, pat, req, 0);
      UndisputedExactly(routes, i, req);
    } else if Walk(t, [], req) == Some(pat) {
      WalkMatches(t, [], req);
    }
  }

  /** The walk of a request reaches an end exactly when some route leads there. */
  lemma WalkExactly<M, H>(routes: seq<Route<M, H>>, req: seq<string>) returns (i: nat)
    requires Accepted(routes) && req != [] && Walk(Build(routes), [], req).Some?
    ensures i < |routes| && |req| <= |routes[i].parts| && Leads(routes, i, req)
  {
    var p := Walk(Build(routes), [], req).value;
    WalkMatches(Build(routes), [], req);
    assert p[0..] == p;
    BuildHolds(routes, p);
    i :| 0 <= i < |routes| && p <= PatternOf(routes[i].parts);
    assert PatternOf(routes[i].parts)[..|req|] == p;
    LeadsExactly(routes, i, req);
  }

  // ---------------------------------------------------------------- the answer

  /** The route that was registered last for a pattern and a verb. */
  ghost predicate IsLatest<M, H>(routes: seq<Route<M, H>>, i: nat, q: Pattern, verb: M)
    requires i < |routes|
  {
    && PatternOf(routes[i].parts) == q && routes[i].verb == verb
    && forall m :: i < m < |routes| ==> PatternOf(routes[m].parts) != q || routes[m].verb != verb
  }

  lemma {:induction false} LatestExactly<M, H>(routes: seq<Route<M, H>>, i: nat, q: Pattern, verb: M)
    requires i < |routes| && IsLatest(routes, i, q, verb)
    ensures Latest(routes, q, verb) == Some(routes[i].handler)
    decreases |routes|
  {
    var n := |routes| - 1;
    if i < n { LatestExactly(routes[..n], i, q, verb); }
  }

  lemma {:induction false} LatestFrom<M, H>(routes: seq<Route<M, H>>, q: Pattern, verb: M) returns (i: nat)
    requires Latest(routes, q, verb).Some?
    ensures i < |routes| && IsLatest(routes, i, q, verb)
    decreases |routes|
  {
    var n := |routes| - 1;
    i := n;
    if PatternOf(routes[n].parts) != q || routes[n].verb != verb {
      i := LatestFrom(routes[..n], q, verb);
    }
  }

  lemma FitsExactly<M, H>(routes: seq<Route<M, H>>, i: nat, verb: M, req: seq<string>)
    requires Accepted(routes) && i < |routes| && req != [] && Walk(Build(routes), [], req).Some?
    ensures var p := Walk(Build(routes), [], req).value;
      Fits(routes, i, verb, req) <==> PatternOf(routes[i].parts) == p && routes[i].verb == verb
  {
    var p := Walk(Build(routes), [], req).value;
    WalkMatches(Build(routes), [], req);
    assert p[0..] == p;
    if |req| == |routes[i].parts| {
      LeadsExactly(routes, i, req);
      assert PatternOf(routes[i].parts)[..|req|] == PatternOf(routes[i].parts);
    }
  }

  lemma AnswersExactly<M, H>(routes: seq<Route<M, H>>, i: nat, verb: M, req: seq<string>)
    requires Accepted(routes) && i < |routes| && req != [] && Walk(Build(routes), [], req).Some?
    ensures Answers(routes, i, verb, req) <==> IsLatest(routes, i, Walk(Build(routes), [], req).value, verb)
  {
    FitsExactly(routes, i, verb, req);
    forall m | i < m < |routes|
      ensures Fits(routes, m, verb, req) <==>
                PatternOf(routes[m].parts) == Walk(Build(routes), [], req).value && routes[m].verb == verb
    {
      FitsExactly(routes, m, verb, req);
    }
  }

  /** What the router answers, by the parts of the routes and of the request: the handler of the last route that fits;
      the wrong method when routes lead to the end of the request and none fits; not found when none leads there. */
  ghost predicate AnswerOf<M, H>(routes: seq<Route<M, H>>, verb: M, req: seq<string>, r: Outcome<H>) {
    match r
    case Handled(h) => exists i :: 0 <= i < |routes| && Answers(routes, i, verb, req) && routes[i].handler == h
    case MethodNotAllowed =>
      && (exists i :: 0 <= i < |routes| && Leads(routes, i, req))
      && forall i :: 0 <= i < |routes| ==> !Fits(routes, i, verb, req)
    case NotFound => forall i :: 0 <= i < |routes| ==> !Leads(routes, i, req)
  }

  lemma ServeAnswers<M, H>(routes: seq<Route<M, H>>, verb: M, req: seq<string>)
    requires Accepted(routes) && req != []
    ensures AnswerOf(routes, verb, req, Serve(Build(routes), verb, req))
  {
    RouterIsFlat(routes, verb, req);
    WalksAgree(routes, [], req);
    match Walk(Build(routes), [], req) {
      case None =>
        forall i | 0 <= i < |routes|
          ensures !Leads(routes, i, req)
        {
          if |req| <= |routes[i].parts| { LeadsExactly(routes, i, req); }
        }
      case Some(p) =>
        var i := WalkExactly(routes, req);
        if Latest(routes, p, verb).Some? {
          var m := LatestFrom(routes, p, verb);
          LatestExactly(routes, m, p, verb);
          AnswersExactly(routes, m, verb, req);
        } else {
          NoneFits(routes, verb, req);
        }
    }
  }

  lemma NoneFits<M, H>(routes: seq<Route<M, H>>, verb: M, req: seq<string>)
    requires Accepted(routes) && req != [] && Walk(Build(routes), [], req).Some?
    requires Latest(routes, Walk(Build(routes), [], req).value, verb).None?
    ensures forall i :: 0 <= i < |routes| ==> !Fits(routes, i, verb, req)
  {
    forall i | 0 <= i < |routes|
      ensures !Fits(routes, i, verb, req)
    {
      FitsExactly(routes, i, verb, req);
      LatestSome(routes, i);
    }
  }

  /** At most one route answers. */
  lemma OneAnswers<M, H>(routes: seq<Route<M, H>>, i: nat, m: nat, verb: M, req: seq<string>)
    requires i < |routes| && m < |routes| && Answers(routes, i, verb, req) && Answers(routes, m, verb, req)
    ensures i == m
  {
  }

  /** The router gives an answer exactly when the routes say it. */
  lemma ServeExactly<M, H>(routes: seq<Route<M, H>>, verb: M, req: seq<string>, r: Outcome<H>)
    requires Accepted(routes) && req != []
    ensures r == Serve(Build(routes), verb, req) <==> AnswerOf(routes, verb, req, r)
  {
    ServeAnswers(routes, verb, req);
    var s := Serve(Build(routes), verb, req);
    if AnswerOf(routes, verb, req, r) && r.Handled? && s.Handled? {
      var i :| 0 <= i < |routes| && Answers(routes, i, verb, req) && routes[i].handler == r.handler;
      var m :| 0 <= m < |routes| && Answers(routes, m, verb, req) && routes[m].handler == s.handler;
      OneAnswers(routes, i, m, verb, req);
    }
  }

  // ---------------------------------------------------------------- routes without wildcards

  predicate Plain(parts: seq<string>) {
    forall k :: 0 <= k < |parts| ==> !(":" <= parts[k])
  }

  /** A route without wildcards answers exactly the request for its own parts and verb, if it is the last such route. */
  lemma PlainExactly<M, H>(routes: seq<Route<M, H>>, i: nat, verb: M, req: seq<string>)
    requires i < |routes| && Plain(routes[i].parts)
    ensures Answers(routes, i, verb, req) <==>
              && routes[i].parts == req && routes[i].verb == verb
              && forall m :: i < m < |routes| ==> routes[m].parts != req || routes[m].verb != verb
  {
    if routes[i].parts == req {
      forall m | i < m < |routes|
        ensures Fits(routes, m, verb, req) <==> routes[m].parts == req && routes[m].verb == verb
      {
        PlainFits(routes, i, m, verb);
      }
    }
  }

  /** Beside a route without wildcards, no other route fits its own parts. */
  lemma PlainFits<M, H>(routes: seq<Route<M, H>>, i: nat, m: nat, verb: M)
    requires i < |routes| && m < |routes| && Plain(routes[i].parts)
    ensures Fits(routes, m, verb, routes[i].parts) <==> routes[m].parts == routes[i].parts && routes[m].verb == verb
  {
    var req := routes[i].parts;
    if Fits(routes, m, verb, req) && routes[m].parts != req {
      var j := FirstOther(routes[m].parts, req);
      assert Prefers(routes, i, m, req, j);
    }
  }

  lemma {:induction false} FirstOther(a: seq<string>, b: seq<string>) returns (j: nat)
    requires |a| == |b| && a != b
    ensures j < |a| && a[j] != b[j] && forall k :: 0 <= k < j ==> a[k] == b[k]
  {
    if a[0] != b[0] {
      j := 0;
    } else {
      assert a == [a[0]] + a[1..] && b == [b[0]] + b[1..];
      j := FirstOther(a[1..], b[1..]);
      j := j + 1;
    }
  }

  // ---------------------------------------------------------------- the class

  /** The registrations with the parts that their routes read as. */
  ghost predicate ReadsAs<M, H>(routes: seq<(M, string, H)>, flat: seq<Route<M, H>>) {
    && |flat| == |routes|
    && forall i :: 0 <= i < |routes| ==>
         flat[i].verb == routes[i].0 && flat[i].handler == routes[i].2 && Reads(routes[i].1, flat[i].parts)
  }

  lemma RoutesExactly<M, H>(routes: seq<(M, string, H)>, flat: seq<Route<M, H>>)
    ensures flat == Routes(routes) <==> ReadsAs(routes, flat)
  {
    forall i | 0 <= i < |routes| && |flat| == |routes|
      ensures flat[i] == Routes(routes)[i] <==>
                flat[i].verb == routes[i].0 && flat[i].handler == routes[i].2 && Reads(routes[i].1, flat[i].parts)
    {
      PartsExactly(routes[i].1, flat[i].parts);
    }
    if ReadsAs(routes, flat) {
      assert forall i :: 0 <= i < |routes| ==> flat[i] == Routes(routes)[i];
    }
  }

  /** A route whose text has no wildcard answers exactly the requests for the same text, up to one leading slash, and
      the same verb, unless such a route is registered again. */
  lemma PlainText<M, H>(routes: seq<(M, string, H)>, flat: seq<Route<M, H>>, i: nat, verb: M, path: string, req: seq<string>)
    requires ReadsAs(routes, flat) && Reads(path, req) && i < |routes| && Plain(flat[i].parts)
    ensures Answers(flat, i, verb, req) <==>
              && SamePath(routes[i].1, path) && routes[i].0 == verb
              && forall m :: i < m < |routes| ==> !SamePath(routes[m].1, path) || routes[m].0 != verb
  {
    PlainExactly(flat, i, verb, req);
    forall m | 0 <= m < |routes|
      ensures flat[m].parts == req <==> SamePath(routes[m].1, path)
    {
      SameParts(routes[m].1, path, flat[m].parts, req);
    }
  }

  /** All wildcards have names, and two that stand in the same place behind the same beginning have the same one. */
  ghost predicate Nameable<M, H>(routes: seq<Route<M, H>>) {
    && (forall i, k :: 0 <= i < |routes| && 0 <= k < |routes[i].parts| ==> routes[i].parts[k] != ":")
    && (forall i, j :: 0 <= i < j < |routes| ==> Compatible(routes[i].parts, routes[j].parts))
  }

  ghost predicate Compatible(a: seq<string>, b: seq<string>) {
    forall k :: 0 <= k < |a| && k < |b| && Alike(a, b, k) && ":" <= a[k] && ":" <= b[k] ==> a[k] == b[k]
  }

  lemma CompatibleExactly(a: seq<string>, b: seq<string>)
    ensures Compatible(a, b) <==> Agree(a, b)
  {
    forall k | 0 <= k < |a| && k < |b|
      ensures Alike(a, b, k) && ":" <= a[k] && ":" <= b[k] <==> IsWild(a[k]) && PatternOf(a)[..k + 1] == PatternOf(b)[..k + 1]
    {
      AlikeExactly(a, b, k + 1);
    }
  }

  lemma NameableExactly<M, H>(routes: seq<Route<M, H>>)
    ensures Accepted(routes) <==> Nameable(routes)
  {
    AcceptedExactly(routes);
    forall i, j | 0 <= i < j < |routes|
      ensures Compatible(routes[i].parts, routes[j].parts) <==> Agree(routes[i].parts, routes[j].parts)
    {
      CompatibleExactly(routes[i].parts, routes[j].parts);
    }
  }

  /** Registers a list of routes on a new router and answers a request. All are accepted exactly when the names of
      their wildcards go together, and the answer is then the one that the texts of the routes and the path ask for. */
  method Answer<M(==), H>(routes: seq<(M, string, H)>, verb: M, path: string)
    returns (all: bool, r: Outcome<H>, ghost flat: seq<Route<M, H>>, ghost req: seq<string>)
    ensures ReadsAs(routes, flat) && Reads(path, req)
    ensures all <==> Nameable(flat)
    ensures all ==> AnswerOf(flat, verb, req, r) && r == FlatServe(flat, verb, req)
  {
    var router := new Router<M, H>();
    all := true;
    flat, req := Routes(routes), Parts(path);
    RoutesExactly(routes, flat);
    PartsExactly(path, req);
    for i := 0 to |routes|
      invariant router.Valid() && fresh(router)
      invariant router.View() == Build(flat[..i]) && (all <==> Accepted(flat[..i]))
    {
      BuildNext(flat, i);
      var target := router.Add(routes[i].0, routes[i].1, routes[i].2);
      all := all && target.Found?;
    }
    assert flat[..|routes|] == flat;
    NameableExactly(flat);
    r := router.Dispatch(verb, path);
    if all {
      RouterIsFlat(flat, verb, req);
      ServeAnswers(flat, verb, req);
    }
  }
}
