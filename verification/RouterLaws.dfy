/** What routing means: the tree answers as the flat list of registrations does. */
module RouterLaws {
  import opened Text
  import opened Router

  datatype Route<M, H> = Route(verb: M, parts: seq<string>, handler: H)

  function PatternOf(parts: seq<string>): (p: Pattern)
    ensures |p| == |parts|
  {
    seq(|parts|, i requires 0 <= i < |parts| => SegmentOf(parts[i]))
  }

  lemma PatternStep(p: Pattern, parts: seq<string>)
    requires parts != []
    ensures p + PatternOf(parts) == (p + [SegmentOf(parts[0])]) + PatternOf(parts[1..])
  {
  }

  /** `q` is longer than `p` and an initial part of `full`. */
  predicate Between(p: Pattern, q: Pattern, full: Pattern) {
    |p| < |q| && q <= full
  }

  lemma BetweenStep(p: Pattern, seg: Segment, q: Pattern, full: Pattern)
    requires p + [seg] <= full
    ensures Between(p, q, full) <==> q == p + [seg] || Between(p + [seg], q, full)
  {
    if Between(p, q, full) && |q| == |p| + 1 {
      assert q == full[..|q|] == p + [seg];
    }
  }

  // ---------------------------------------------------------------- what a registration adds

  /** What is there stays, and what is new has no handlers. */
  ghost predicate Keeps<M, H>(t: Table<M, H>, t': Table<M, H>) {
    && (forall q :: q in t ==> q in t' && t'[q].handlers == t[q].handlers)
    && (forall q :: q in t' && q !in t ==> t'[q].handlers == map[])
  }

  /** How many parts are walked before one is refused. */
  function Reached<M, H>(t: Table<M, H>, p: Pattern, parts: seq<string>): (n: nat)
    requires p in t
    ensures n <= |parts|
    decreases |parts|
  {
    if parts == [] || !Follow(t, p, parts[0]).At? then 0
    else 1 + Reached(Extend(t, p, parts[0]), p + [SegmentOf(parts[0])], parts[1..])
  }

  /** A registration adds the initial parts of what it walks and nothing else; it succeeds when it walks all. */
  lemma {:induction false} DescendAdds<M, H>(t: Table<M, H>, p: Pattern, parts: seq<string>)
    requires p in t
    ensures Keeps(t, Descend(t, p, parts).0)
    ensures Descend(t, p, parts).1.At? <==> Reached(t, p, parts) == |parts|
    ensures Descend(t, p, parts).1.At? ==> Descend(t, p, parts).1.path == p + PatternOf(parts)
    ensures forall q :: q in Descend(t, p, parts).0 <==>
              q in t || Between(p, q, p + PatternOf(parts[..Reached(t, p, parts)]))
    decreases |parts|
  {
    var n := Reached(t, p, parts);
    if n == 0 {
      assert p + PatternOf(parts[..n]) == p;
    } else {
      var seg := SegmentOf(parts[0]);
      var t1 := Extend(t, p, parts[0]);
      assert Keeps(t, t1);
      DescendAdds(t1, p + [seg], parts[1..]);
      PatternStep(p, parts);
      var walked := parts[..n];
      assert walked[1..] == parts[1..][..n - 1];
      PatternStep(p, walked);
      var full := p + PatternOf(walked);
      forall q
        ensures Between(p, q, full) <==> q == p + [seg] || Between(p + [seg], q, full)
      {
        BetweenStep(p, seg, q, full);
      }
    }
  }

  // ---------------------------------------------------------------- lists of registrations

  function Build<M, H>(routes: seq<Route<M, H>>): (t: Table<M, H>)
    ensures [] in t
    decreases |routes|
  {
    if routes == [] then map[[] := Empty()]
    else
      var n := |routes| - 1;
      DescendAdds(Build(routes[..n]), [], routes[n].parts);
      Registered(Build(routes[..n]), routes[n].verb, routes[n].parts, routes[n].handler).0
  }

  /** Every registration succeeds. */
  ghost predicate Accepted<M, H>(routes: seq<Route<M, H>>)
    decreases |routes|
  {
    routes == [] ||
    (var n := |routes| - 1; Accepted(routes[..n]) && Descend(Build(routes[..n]), [], routes[n].parts).1.At?)
  }

  /** Some route begins with `q`. */
  ghost predicate Begins<M, H>(routes: seq<Route<M, H>>, q: Pattern) {
    exists i :: 0 <= i < |routes| && q <= PatternOf(routes[i].parts)
  }

  /** The handler registered last for a pattern and a method. */
  function Latest<M(==), H>(routes: seq<Route<M, H>>, q: Pattern, verb: M): Option<H> {
    if routes == [] then None
    else
      var r := routes[|routes| - 1];
      if PatternOf(r.parts) == q && r.verb == verb then Some(r.handler) else Latest(routes[..|routes| - 1], q, verb)
  }

  lemma BeginsStep<M, H>(routes: seq<Route<M, H>>, q: Pattern)
    requires routes != []
    ensures var n := |routes| - 1; Begins(routes, q) <==> Begins(routes[..n], q) || q <= PatternOf(routes[n].parts)
  {
    var n := |routes| - 1;
    if Begins(routes, q) && !(q <= PatternOf(routes[n].parts)) {
      var i :| 0 <= i < |routes| && q <= PatternOf(routes[i].parts);
      assert routes[..n][i] == routes[i];
    }
    if Begins(routes[..n], q) {
      var i :| 0 <= i < n && q <= PatternOf(routes[..n][i].parts);
      assert routes[i] == routes[..n][i];
    }
  }

  /** The table has an entry for every initial part of a route. */
  lemma {:induction false} BuildHolds<M, H>(routes: seq<Route<M, H>>, q: Pattern)
    requires Accepted(routes)
    ensures q in Build(routes) <==> q == [] || Begins(routes, q)
    decreases |routes|
  {
    if routes == [] {
    } else {
      var n := |routes| - 1;
      BuildHolds(routes[..n], q);
      DescendAdds(Build(routes[..n]), [], routes[n].parts);
      BeginsStep(routes, q);
      assert [] + PatternOf(routes[n].parts) == PatternOf(routes[n].parts);
    }
  }

  /** Its handlers are those registered last. */
  lemma {:induction false} BuildHandles<M, H>(routes: seq<Route<M, H>>, q: Pattern, verb: M)
    requires Accepted(routes)
    ensures q in Build(routes) ==> Latest(routes, q, verb) == HandlerAt(Build(routes), q, verb)
    ensures Latest(routes, q, verb).Some? ==> q in Build(routes)
    decreases |routes|
  {
    if routes == [] {
    } else {
      var n := |routes| - 1;
      BuildHandles(routes[..n], q, verb);
      HandlesNext(Build(routes[..n]), routes[n], q, verb);
    }
  }

  /** A successful registration sets the handler of its own path and verb and no other. */
  lemma {:induction false} HandlesNext<M, H>(t: Table<M, H>, r: Route<M, H>, q: Pattern, verb: M)
    requires [] in t && Descend(t, [], r.parts).1.At?
    ensures var t' := Registered(t, r.verb, r.parts, r.handler).0;
      && PatternOf(r.parts) in t' && (q in t ==> q in t')
      && (q in t' ==> HandlerAt(t', q, verb) == NextHandler(t, r, q, verb))
  {
    DescendAdds(t, [], r.parts);
    assert [] + PatternOf(r.parts) == PatternOf(r.parts);
  }

  ghost function NextHandler<M, H>(t: Table<M, H>, r: Route<M, H>, q: Pattern, verb: M): Option<H> {
    if PatternOf(r.parts) == q && r.verb == verb then Some(r.handler) else if q in t then HandlerAt(t, q, verb) else None
  }

  ghost function HandlerAt<M, H>(t: Table<M, H>, q: Pattern, verb: M): Option<H>
    requires q in t
  {
    if verb in t[q].handlers then Some(t[q].handlers[verb]) else None
  }

  // ---------------------------------------------------------------- the flat reading

  /** Greedy matching over the list: a literal that some route has here before a wildcard. */
  ghost function FlatWalk<M, H>(routes: seq<Route<M, H>>, p: Pattern, parts: seq<string>): Option<Pattern>
    decreases |parts|
  {
    if parts == [] then Some(p)
    else if Begins(routes, p + [Lit(parts[0])]) then FlatWalk(routes, p + [Lit(parts[0])], parts[1..])
    else if Begins(routes, p + [Wild]) then FlatWalk(routes, p + [Wild], parts[1..])
    else None
  }

  ghost function FlatServe<M, H>(routes: seq<Route<M, H>>, verb: M, parts: seq<string>): Outcome<H> {
    match FlatWalk(routes, [], parts)
    case None => NotFound
    case Some(p) => match Latest(routes, p, verb) case None => MethodNotAllowed case Some(h) => Handled(h)
  }

  lemma {:induction false} WalksAgree<M, H>(routes: seq<Route<M, H>>, p: Pattern, parts: seq<string>)
    requires Accepted(routes)
    ensures Walk(Build(routes), p, parts) == FlatWalk(routes, p, parts)
    decreases |parts|
  {
    if parts == [] {
    } else {
      BuildHolds(routes, p + [Lit(parts[0])]);
      BuildHolds(routes, p + [Wild]);
      WalksAgree(routes, p + [Lit(parts[0])], parts[1..]);
      WalksAgree(routes, p + [Wild], parts[1..]);
    }
  }

  /** After registrations that succeeded, the router answers every request as greedy matching over the list of them
      does, and the last registration of a method and route wins. */
  lemma RouterIsFlat<M, H>(routes: seq<Route<M, H>>, verb: M, parts: seq<string>)
    requires Accepted(routes)
    ensures Serve(Build(routes), verb, parts) == FlatServe(routes, verb, parts)
  {
    WalksAgree(routes, [], parts);
    match Walk(Build(routes), [], parts) {
      case None =>
      case Some(p) => BuildHandles(routes, p, verb);
    }
  }

  // ---------------------------------------------------------------- which route a request gets

  predicate Matches(pat: Pattern, parts: seq<string>) {
    |pat| == |parts| && forall k :: 0 <= k < |pat| ==> pat[k] == Wild || pat[k] == Lit(parts[k])
  }

  ghost predicate Closed<M, H>(t: Table<M, H>) {
    forall p, k :: p in t && 0 <= k <= |p| ==> p[..k] in t
  }

  /** No literal takes the request away from `pat` from position `k` on. */
  ghost predicate Unshadowed<M, H>(t: Table<M, H>, pat: Pattern, parts: seq<string>, k: nat)
    requires |pat| == |parts|
  {
    forall j :: k <= j < |pat| && pat[j] == Wild ==> pat[..j] + [Lit(parts[j])] !in t
  }

  lemma {:induction false} WalkFollows<M, H>(t: Table<M, H>, pat: Pattern, parts: seq<string>, k: nat)
    requires Closed(t) && pat in t && Matches(pat, parts) && k <= |pat|
    ensures Walk(t, pat[..k], parts[k..]) == Some(pat) <==> Unshadowed(t, pat, parts, k)
    decreases |pat| - k
  {
    if k == |pat| {
      assert pat[..k] == pat;
    } else {
      assert parts[k..][0] == parts[k] && parts[k..][1..] == parts[k + 1..];
      assert pat[..k + 1] == pat[..k] + [pat[k]] && pat[..k + 1] in t;
      var lit := pat[..k] + [Lit(parts[k])];
      if lit in t && pat[k] == Wild {
        WalkExtends(t, lit, parts[k + 1..]);
        assert lit[k] == Lit(parts[k]);
      } else {
        WalkFollows(t, pat, parts, k + 1);
      }
    }
  }

  /** A walk never leaves the path it has taken. */
  lemma {:induction false} WalkExtends<M, H>(t: Table<M, H>, p: Pattern, parts: seq<string>)
    ensures Walk(t, p, parts).Some? ==> p <= Walk(t, p, parts).value
    decreases |parts|
  {
    if parts == [] {
    } else {
      WalkExtends(t, p + [Lit(parts[0])], parts[1..]);
      WalkExtends(t, p + [Wild], parts[1..]);
    }
  }

  lemma DescendClosed<M, H>(t: Table<M, H>, parts: seq<string>)
    requires [] in t && Closed(t)
    ensures Closed(Descend(t, [], parts).0)
  {
    DescendAdds(t, [], parts);
    var t' := Descend(t, [], parts).0;
    forall q, k | q in t' && 0 <= k <= |q|
      ensures q[..k] in t'
    {
      assert k == 0 ==> q[..k] == [];
    }
  }

  /** After any registrations, refused ones included, a path leads through the table. */
  lemma {:induction false} BuildClosed<M, H>(routes: seq<Route<M, H>>)
    ensures Closed(Build(routes))
    decreases |routes|
  {
    if routes == [] {
    } else {
      var n := |routes| - 1;
      BuildClosed(routes[..n]);
      DescendClosed(Build(routes[..n]), routes[n].parts);
    }
  }

  /** A registered route that matches a request is the one that is chosen exactly when no route has a literal in the
      place of one of its wildcards, after the same beginning. */
  lemma ChosenExactly<M, H>(routes: seq<Route<M, H>>, i: nat, parts: seq<string>)
    requires Accepted(routes) && i < |routes| && Matches(PatternOf(routes[i].parts), parts)
    ensures var pat := PatternOf(routes[i].parts);
      Walk(Build(routes), [], parts) == Some(pat) <==>
        forall j :: 0 <= j < |pat| && pat[j] == Wild ==> !Begins(routes, pat[..j] + [Lit(parts[j])])
  {
    var pat := PatternOf(routes[i].parts);
    BuildClosed(routes);
    BuildHolds(routes, pat);
    assert pat[..0] == [] && parts[0..] == parts;
    WalkFollows(Build(routes), pat, parts, 0);
    forall j | 0 <= j < |pat|
      ensures pat[..j] + [Lit(parts[j])] in Build(routes) <==> Begins(routes, pat[..j] + [Lit(parts[j])])
    {
      BuildHolds(routes, pat[..j] + [Lit(parts[j])]);
    }
  }

  /** A route without wildcards is never shadowed: its request gets the handler registered last for it. */
  lemma LiteralNeverShadowed<M, H>(routes: seq<Route<M, H>>, i: nat)
    requires Accepted(routes) && i < |routes| && forall k :: 0 <= k < |routes[i].parts| ==> !IsWild(routes[i].parts[k])
    ensures var r := routes[i];
      var latest := Latest(routes, PatternOf(r.parts), r.verb);
      latest.Some? && Serve(Build(routes), r.verb, r.parts) == Handled(latest.value)
  {
    var r := routes[i];
    var pat := PatternOf(r.parts);
    ChosenExactly(routes, i, r.parts);
    BuildHandles(routes, pat, r.verb);
    LatestSome(routes, i);
  }

  lemma {:induction false} LatestSome<M, H>(routes: seq<Route<M, H>>, i: nat)
    requires i < |routes|
    ensures Latest(routes, PatternOf(routes[i].parts), routes[i].verb).Some?
    decreases |routes|
  {
    if i < |routes| - 1 {
      LatestSome(routes[..|routes| - 1], i);
    }
  }

  // ---------------------------------------------------------------- which registrations succeed

  ghost predicate NameFits<M, H>(t: Table<M, H>, q: Pattern, part: string) {
    IsWild(part) ==> |part| > 1 && (q in t && t[q].wildName.Some? ==> t[q].wildName.value == part[1..])
  }

  lemma FitsLater<M, H>(t: Table<M, H>, p: Pattern, parts: seq<string>, k: nat)
    requires p in t && 1 <= k < |parts| && Follow(t, p, parts[0]).At?
    ensures NameFits(t, p + PatternOf(parts)[..k], parts[k]) <==>
            NameFits(Extend(t, p, parts[0]), p + [SegmentOf(parts[0])] + PatternOf(parts[1..])[..k - 1], parts[1..][k - 1])
  {
    var seg := SegmentOf(parts[0]);
    assert PatternOf(parts)[..k] == [seg] + PatternOf(parts[1..])[..k - 1];
    assert p + ([seg] + PatternOf(parts[1..])[..k - 1]) == p + [seg] + PatternOf(parts[1..])[..k - 1];
  }

  /** The walk of a registration ends before the first part whose name does not fit the table. */
  lemma {:induction false} ReachesExactly<M, H>(t: Table<M, H>, p: Pattern, parts: seq<string>)
    requires p in t
    ensures var n := Reached(t, p, parts);
      && (forall k :: 0 <= k < n ==> NameFits(t, p + PatternOf(parts)[..k], parts[k]))
      && (n < |parts| ==> !NameFits(t, p + PatternOf(parts)[..n], parts[n]))
    decreases |parts|
  {
    if parts == [] {
    } else {
      assert p + PatternOf(parts)[..0] == p;
      assert Follow(t, p, parts[0]).At? <==> NameFits(t, p + PatternOf(parts)[..0], parts[0]);
      if Follow(t, p, parts[0]).At? {
        ReachesExactly(Extend(t, p, parts[0]), p + [SegmentOf(parts[0])], parts[1..]);
        forall k | 1 <= k < |parts|
          ensures NameFits(t, p + PatternOf(parts)[..k], parts[k]) <==>
                  NameFits(Extend(t, p, parts[0]), p + [SegmentOf(parts[0])] + PatternOf(parts[1..])[..k - 1], parts[1..][k - 1])
        {
          FitsLater(t, p, parts, k);
        }
      }
    }
  }

  lemma SucceedsExactly<M, H>(t: Table<M, H>, p: Pattern, parts: seq<string>)
    requires p in t
    ensures Descend(t, p, parts).1.At? <==>
              forall k :: 0 <= k < |parts| ==> NameFits(t, p + PatternOf(parts)[..k], parts[k])
  {
    DescendAdds(t, p, parts);
    ReachesExactly(t, p, parts);
  }

  function NameOf(part: string): string {
    if part == "" then "" else part[1..]
  }

  /** The names after a registration that succeeded. */
  lemma {:induction false} DescendNames<M, H>(t: Table<M, H>, p: Pattern, parts: seq<string>, q: Pattern)
    requires p in t && Descend(t, p, parts).1.At? && q in Descend(t, p, parts).0
    ensures Descend(t, p, parts).0[q].wildName ==
            if |p| <= |q| && q + [Wild] <= p + PatternOf(parts) then Some(NameOf(parts[|q| - |p|]))
            else if q in t then t[q].wildName else None
    decreases |parts|
  {
    if parts == [] {
    } else {
      var seg := SegmentOf(parts[0]);
      var t1 := Extend(t, p, parts[0]);
      DescendNames(t1, p + [seg], parts[1..], q);
      PatternStep(p, parts);
      var full := p + PatternOf(parts);
      if |q| == |p| && q + [Wild] <= full {
        assert q == full[..|p|] == p && full[|p|] == seg == Wild;
      } else if q == p {
        assert seg == Wild ==> p + [Wild] <= full;
      }
    }
  }

  /** The names of the table are those of the routes. */
  lemma {:induction false} BuildNames<M, H>(routes: seq<Route<M, H>>, q: Pattern, i: nat)
    requires Accepted(routes) && i < |routes| && q + [Wild] <= PatternOf(routes[i].parts)
    ensures q in Build(routes) && Build(routes)[q].wildName == Some(NameOf(routes[i].parts[|q|]))
    decreases |routes|
  {
    var n := |routes| - 1;
    var t, parts := Build(routes[..n]), routes[n].parts;
    BuildHolds(routes, q);
    assert q <= PatternOf(routes[i].parts);
    assert [] + PatternOf(parts) == PatternOf(parts);
    DescendAdds(t, [], parts);
    DescendNames(t, [], parts, q);
    if i < n {
      BuildNames(routes[..n], q, i);
      if q + [Wild] <= PatternOf(parts) { NameStays(t, parts, q); }
    }
  }

  lemma NameStays<M, H>(t: Table<M, H>, parts: seq<string>, q: Pattern)
    requires [] in t && Descend(t, [], parts).1.At? && q + [Wild] <= PatternOf(parts)
    requires q in t && t[q].wildName.Some?
    ensures t[q].wildName == Some(NameOf(parts[|q|]))
  {
    SucceedsExactly(t, [], parts);
    assert PatternOf(parts)[..|q|] == q && [] + q == q;
    assert PatternOf(parts)[|q|] == Wild;
    assert NameFits(t, [] + PatternOf(parts)[..|q|], parts[|q|]);
  }

  lemma {:induction false} NamedBegins<M, H>(routes: seq<Route<M, H>>, q: Pattern)
    requires Accepted(routes) && q in Build(routes) && Build(routes)[q].wildName.Some?
    ensures Begins(routes, q + [Wild])
    decreases |routes|
  {
    if routes == [] {
    } else {
      var n := |routes| - 1;
      var t, parts := Build(routes[..n]), routes[n].parts;
      assert [] + PatternOf(parts) == PatternOf(parts);
      DescendAdds(t, [], parts);
      DescendNames(t, [], parts, q);
      BeginsStep(routes, q + [Wild]);
      if !(q + [Wild] <= PatternOf(parts)) { NamedBegins(routes[..n], q); }
    }
  }

  /** Two routes that share a wildcard call it by the same name. */
  ghost predicate Agree(a: seq<string>, b: seq<string>) {
    forall k :: 0 <= k < |a| && k < |b| && IsWild(a[k]) && PatternOf(a)[..k + 1] == PatternOf(b)[..k + 1] ==> a[k] == b[k]
  }

  ghost predicate NamesGiven(parts: seq<string>) {
    forall k :: 0 <= k < |parts| ==> parts[k] != ":"
  }

  /** One more registration succeeds exactly when its wildcards have names, and the names the other routes gave them. */
  lemma NextAccepted<M, H>(routes: seq<Route<M, H>>, parts: seq<string>)
    requires Accepted(routes)
    ensures Descend(Build(routes), [], parts).1.At? <==>
              NamesGiven(parts) && forall i :: 0 <= i < |routes| ==> Agree(routes[i].parts, parts)
  {
    var t := Build(routes);
    SucceedsExactly(t, [], parts);
    if NamesGiven(parts) && forall i :: 0 <= i < |routes| ==> Agree(routes[i].parts, parts) {
      forall k | 0 <= k < |parts|
        ensures NameFits(t, [] + PatternOf(parts)[..k], parts[k])
      {
        AgreeFits(routes, parts, k);
        assert [] + PatternOf(parts)[..k] == PatternOf(parts)[..k];
      }
    }
    if Descend(t, [], parts).1.At? {
      forall k | 0 <= k < |parts|
        ensures parts[k] != ":"
      {
        assert NameFits(t, [] + PatternOf(parts)[..k], parts[k]);
      }
      forall i, k | 0 <= i < |routes| && 0 <= k < |routes[i].parts| && k < |parts| && IsWild(routes[i].parts[k])
                    && PatternOf(routes[i].parts)[..k + 1] == PatternOf(parts)[..k + 1]
        ensures routes[i].parts[k] == parts[k]
      {
        FitsAgree(routes, parts, i, k);
      }
    }
  }

  /** A route that goes on with a wildcard where another one does. */
  lemma SharedWild(a: seq<string>, b: seq<string>, k: nat)
    requires k < |b| && IsWild(b[k]) && PatternOf(b)[..k] + [Wild] <= PatternOf(a)
    ensures k < |a| && IsWild(a[k]) && PatternOf(a)[..k + 1] == PatternOf(b)[..k + 1]
  {
    var q := PatternOf(b)[..k];
    assert PatternOf(a)[..k + 1] == q + [Wild] == PatternOf(b)[..k + 1];
    assert PatternOf(a)[k] == (q + [Wild])[k] == Wild;
  }

  lemma {:induction false} AgreeFits<M, H>(routes: seq<Route<M, H>>, parts: seq<string>, k: nat)
    requires Accepted(routes) && k < |parts| && NamesGiven(parts)
    requires forall i :: 0 <= i < |routes| ==> Agree(routes[i].parts, parts)
    ensures NameFits(Build(routes), PatternOf(parts)[..k], parts[k])
  {
    var q := PatternOf(parts)[..k];
    if IsWild(parts[k]) && q in Build(routes) && Build(routes)[q].wildName.Some? {
      NamedBegins(routes, q);
      var i :| 0 <= i < |routes| && q + [Wild] <= PatternOf(routes[i].parts);
      BuildNames(routes, q, i);
      SharedWild(routes[i].parts, parts, k);
      assert Agree(routes[i].parts, parts);
    }
  }

  lemma FitsAgree<M, H>(routes: seq<Route<M, H>>, parts: seq<string>, i: nat, k: nat)
    requires Accepted(routes) && i < |routes| && k < |parts| && k < |routes[i].parts| && IsWild(routes[i].parts[k])
    requires PatternOf(routes[i].parts)[..k + 1] == PatternOf(parts)[..k + 1]
    requires Descend(Build(routes), [], parts).1.At?
    ensures routes[i].parts[k] == parts[k]
  {
    var q, pat := PatternOf(parts)[..k], PatternOf(routes[i].parts);
    assert pat[..k + 1][k] == Wild == PatternOf(parts)[..k + 1][k];
    assert pat[..k + 1] == q + [Wild] == PatternOf(parts)[..k + 1];
    BuildNames(routes, q, i);
    NameStays(Build(routes), parts, q);
    assert parts[k] == [':'] + NameOf(parts[k]) && routes[i].parts[k] == [':'] + NameOf(routes[i].parts[k]);
  }

  /** No wildcard lacks a name, and all routes that share one agree on its name. */
  ghost predicate AllAgree<M, H>(routes: seq<Route<M, H>>) {
    && (forall j :: 0 <= j < |routes| ==> NamesGiven(routes[j].parts))
    && (forall i, j :: 0 <= i < j < |routes| ==> Agree(routes[i].parts, routes[j].parts))
  }

  lemma AgreeSnoc<M, H>(routes: seq<Route<M, H>>, n: nat)
    requires |routes| == n + 1
    ensures AllAgree(routes) <==>
              && AllAgree(routes[..n]) && NamesGiven(routes[n].parts)
              && forall i :: 0 <= i < n ==> Agree(routes[..n][i].parts, routes[n].parts)
  {
    assert forall i :: 0 <= i < n ==> routes[..n][i] == routes[i];
  }

  /** Every registration of a list succeeds exactly when the names agree. */
  lemma {:induction false} AcceptedExactly<M, H>(routes: seq<Route<M, H>>)
    ensures Accepted(routes) <==> AllAgree(routes)
    decreases |routes|
  {
    if routes == [] {
    } else {
      var n := |routes| - 1;
      AcceptedExactly(routes[..n]);
      if Accepted(routes[..n]) { NextAccepted(routes[..n], routes[n].parts); }
      AgreeSnoc(routes, n);
    }
  }

  // ---------------------------------------------------------------- refused registrations

  /** A walk in a larger table ends where it did, or nowhere, or in what is new. */
  lemma {:induction false} WalkGrows<M, H>(t: Table<M, H>, t': Table<M, H>, p: Pattern, parts: seq<string>)
    requires Closed(t) && Keeps(t, t') && p in t
    ensures Walk(t', p, parts) == Walk(t, p, parts) || Walk(t', p, parts).None? || Walk(t', p, parts).value !in t
    decreases |parts|
  {
    if parts == [] {
    } else {
      var lit, wild := p + [Lit(parts[0])], p + [Wild];
      if lit in t {
        WalkGrows(t, t', lit, parts[1..]);
      } else if lit in t' {
        StaysNew(t, t', lit, parts[1..]);
      } else if wild in t {
        WalkGrows(t, t', wild, parts[1..]);
      } else if wild in t' {
        StaysNew(t, t', wild, parts[1..]);
      }
    }
  }

  lemma StaysNew<M, H>(t: Table<M, H>, t': Table<M, H>, p: Pattern, parts: seq<string>)
    requires Closed(t) && p !in t
    ensures Walk(t', p, parts).Some? ==> Walk(t', p, parts).value !in t
  {
    WalkExtends(t', p, parts);
    if Walk(t', p, parts).Some? {
      var q := Walk(t', p, parts).value;
      assert q[..|p|] == p;
    }
  }

  /** A walk ends in the table, at a pattern that matches the request. */
  lemma {:induction false} WalkMatches<M, H>(t: Table<M, H>, p: Pattern, parts: seq<string>)
    requires p in t && Walk(t, p, parts).Some?
    ensures var q := Walk(t, p, parts).value; q in t && p <= q && Matches(q[|p|..], parts)
    decreases |parts|
  {
    if parts == [] {
      assert p[|p|..] == [];
    } else {
      var seg := if p + [Lit(parts[0])] in t then Lit(parts[0]) else Wild;
      WalkMatches(t, p + [seg], parts[1..]);
      var q := Walk(t, p, parts).value;
      assert q[|p|] == (p + [seg])[|p|] && q[|p|..][1..] == q[|p| + 1..];
    }
  }

  /** The initial parts of a registration that was refused. */
  ghost predicate Left<M, H>(t: Table<M, H>, refused: seq<string>, q: Pattern)
    requires [] in t
  {
    Between([], q, PatternOf(refused[..Reached(t, [], refused)]))
  }

  lemma LeftBehind<M, H>(t: Table<M, H>, refused: seq<string>, q: Pattern)
    requires [] in t
    ensures q in Descend(t, [], refused).0 <==> q in t || Left(t, refused, q)
  {
    DescendAdds(t, [], refused);
    var walked := PatternOf(refused[..Reached(t, [], refused)]);
    assert [] + walked == walked;
  }

  /** A refused registration never makes a request succeed: where it changes an answer,
      the request is no longer handled. */
  lemma RefusedOnlyBreaks<M, H>(t: Table<M, H>, refused: seq<string>, verb: M, parts: seq<string>)
    requires [] in t && Closed(t)
    ensures var t' := Descend(t, [], refused).0;
      Serve(t', verb, parts) == Serve(t, verb, parts) || !Serve(t', verb, parts).Handled?
  {
    DescendAdds(t, [], refused);
    WalkGrows(t, Descend(t, [], refused).0, [], parts);
  }

  lemma HandledBy<M, H>(t: Table<M, H>, t': Table<M, H>, verb: M, parts: seq<string>)
    requires [] in t && Closed(t) && Closed(t') && Keeps(t, t') && Serve(t, verb, parts).Handled?
    ensures Matches(Walk(t, [], parts).value, parts)
    ensures Serve(t', verb, parts) == Serve(t, verb, parts) <==> Unshadowed(t', Walk(t, [], parts).value, parts, 0)
  {
    var pat := Walk(t, [], parts).value;
    WalkMatches(t, [], parts);
    assert pat[0..] == pat && pat[..0] == [] && parts[0..] == parts;
    WalkFollows(t', pat, parts, 0);
    WalkGrows(t, t', [], parts);
  }

  /** A refused registration leaves a handled request alone exactly when, of the initial parts that it leaves behind,
      none is the request's own beginning with a literal in the place of a wildcard of the route that serves it. */
  lemma RefusedHarmlessExactly<M, H>(t: Table<M, H>, refused: seq<string>, verb: M, parts: seq<string>)
    requires [] in t && Closed(t) && Serve(t, verb, parts).Handled?
    ensures Matches(Walk(t, [], parts).value, parts)
    ensures var pat := Walk(t, [], parts).value;
      Serve(Descend(t, [], refused).0, verb, parts) == Serve(t, verb, parts) <==>
        forall j :: 0 <= j < |pat| && pat[j] == Wild ==> !Left(t, refused, pat[..j] + [Lit(parts[j])])
  {
    var pat, t' := Walk(t, [], parts).value, Descend(t, [], refused).0;
    DescendAdds(t, [], refused);
    DescendClosed(t, refused);
    HandledBy(t, t, verb, parts);
    HandledBy(t, t', verb, parts);
    forall j | 0 <= j < |pat|
      ensures pat[..j] + [Lit(parts[j])] in t' <==>
              pat[..j] + [Lit(parts[j])] in t || Left(t, refused, pat[..j] + [Lit(parts[j])])
    {
      LeftBehind(t, refused, pat[..j] + [Lit(parts[j])]);
    }
  }

  /** Every request whose route has a wildcard behind literals can be taken away: it is enough to try to register
      its own beginning, up to the first wildcard, with a wildcard without a name behind it. */
  lemma RefusedBreaks<M, H>(t: Table<M, H>, verb: M, parts: seq<string>, j: nat)
    requires [] in t && Closed(t) && Serve(t, verb, parts).Handled?
    requires j < |Walk(t, [], parts).value| && j < |parts| && Walk(t, [], parts).value[j] == Wild
    requires forall k :: 0 <= k < j ==> Walk(t, [], parts).value[k] != Wild
    requires forall k :: 0 <= k <= j ==> !IsWild(parts[k])
    ensures var r := Descend(t, [], parts[..j + 1] + [":"]); r.1 == EmptyName && !Serve(r.0, verb, parts).Handled?
  {
    var refused, pat := parts[..j + 1] + [":"], Walk(t, [], parts).value;
    RefusedHarmlessExactly(t, refused, verb, parts);
    RefusedOnlyBreaks(t, refused, verb, parts);
    NoName(t, [], parts[..j + 1]);
    assert refused[..j + 1] == parts[..j + 1];
    var q := pat[..j] + [Lit(parts[j])];
    assert q == PatternOf(parts[..j + 1]);
    assert Left(t, refused, q);
  }

  lemma {:induction false} NoName<M, H>(t: Table<M, H>, p: Pattern, parts: seq<string>)
    requires p in t && forall k :: 0 <= k < |parts| ==> !IsWild(parts[k])
    ensures Descend(t, p, parts + [":"]).1 == EmptyName && Reached(t, p, parts + [":"]) == |parts|
    decreases |parts|
  {
    if parts == [] {
      assert parts + [":"] == [":"];
    } else {
      assert (parts + [":"])[0] == parts[0] && (parts + [":"])[1..] == parts[1..] + [":"];
      NoName(Extend(t, p, parts[0]), p + [Lit(parts[0])], parts[1..]);
    }
  }

  // ---------------------------------------------------------------- the class

  lemma BuildNext<M, H>(routes: seq<Route<M, H>>, i: nat)
    requires i < |routes|
    ensures var r := Registered(Build(routes[..i]), routes[i].verb, routes[i].parts, routes[i].handler);
      Build(routes[..i + 1]) == r.0 && (Accepted(routes[..i + 1]) <==> Accepted(routes[..i]) && r.1.At?)
  {
    assert routes[..i + 1][..i] == routes[..i] && routes[..i + 1][i] == routes[i];
  }

  ghost function Routes<M, H>(routes: seq<(M, string, H)>): (r: seq<Route<M, H>>)
    ensures |r| == |routes|
  {
    seq(|routes|, i requires 0 <= i < |routes| => Route(routes[i].0, Parts(routes[i].1), routes[i].2))
  }
}
