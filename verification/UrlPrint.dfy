/** What is printed for any URL value, canonical or not. */
module UrlPrint {
  import opened Text
  import opened Collections
  import opened Url
  import opened UrlLaws
  import opened UrlRoundTrip
  import StringUtil

  // ---------------------------------------------------------------- the query

  /** Every value of every key as "key=value", in the given key order. */
  function Pairs(order: seq<string>, q: QueryMap): seq<string> {
    if order == [] then []
    else PairsOf(order[0], Values(q, order[0])) + Pairs(order[1..], q)
  }

  function PairsOf(k: string, vs: seq<string>): seq<string> {
    seq(|vs|, j requires 0 <= j < |vs| => k + "=" + vs[j])
  }

  /** Each text behind an '&'. */
  function Ands(pairs: seq<string>): string {
    if pairs == [] then "" else "&" + pairs[0] + Ands(pairs[1..])
  }

  lemma {:induction false} AndsConcat(a: seq<string>, b: seq<string>)
    ensures Ands(a + b) == Ands(a) + Ands(b)
  {
    if a == [] {
      assert a + b == b;
    } else {
      assert (a + b)[1..] == a[1..] + b;
      AndsConcat(a[1..], b);
    }
  }

  lemma {:induction false} AndsJoin(pairs: seq<string>)
    requires pairs != []
    ensures Ands(pairs) == "&" + StringUtil.Join(pairs, '&')
  {
    if |pairs| > 1 { AndsJoin(pairs[1..]); }
  }

  lemma {:induction false} ParamAnds(k: string, vs: seq<string>)
    ensures ParamText(k, vs) == Ands(PairsOf(k, vs))
  {
    if vs != [] {
      assert PairsOf(k, vs)[1..] == PairsOf(k, vs[1..]);
      ParamAnds(k, vs[1..]);
    }
  }

  lemma {:induction false} ParamsAnds(order: seq<string>, q: QueryMap)
    ensures ParamsText(order, q) == Ands(Pairs(order, q))
  {
    if order != [] {
      ParamAnds(order[0], Values(q, order[0]));
      ParamsAnds(order[1..], q);
      AndsConcat(PairsOf(order[0], Values(q, order[0])), Pairs(order[1..], q));
    }
  }

  /** The query that is printed is the pairs joined by '&' behind a '?', or nothing when there are none. */
  lemma QueryJoins(order: seq<string>, q: QueryMap)
    ensures QueryText(order, q) == if Pairs(order, q) == [] then "" else "?" + StringUtil.Join(Pairs(order, q), '&')
  {
    ParamsAnds(order, q);
    if Pairs(order, q) != [] { AndsJoin(Pairs(order, q)); }
  }

  // ---------------------------------------------------------------- the parts

  /** `text` is `s` between two delimiters, or nothing when `s` is empty. */
  predicate Between(text: string, before: string, s: string, after: string) {
    text == if s == "" then "" else before + s + after
  }

  /** The texts of a URL value, part by part. */
  ghost predicate Texts(u: Url, order: seq<string>, parts: seq<string>) {
    && |parts| == 7
    && Between(parts[0], "", u.scheme, "://")
    && parts[1] == (if u.username == "" && u.password == "" then "" else u.username + ":" + u.password + "@")
    && parts[2] == u.host && Between(parts[3], ":", u.port, "") && parts[4] == u.path
    && parts[5] == (if Pairs(order, u.query) == [] then "" else "?" + StringUtil.Join(Pairs(order, u.query), '&'))
    && Between(parts[6], "#", u.fragment, "")
  }

  function Concat(parts: seq<string>): string {
    if parts == [] then "" else parts[0] + Concat(parts[1..])
  }

  /** A value is printed as its parts that are there, one behind the other, each with its delimiters. */
  lemma BuildExactly(u: Url, order: seq<string>, parts: seq<string>)
    requires Texts(u, order, parts)
    ensures Build(u, order) == Concat(parts)
  {
    TextsAre(u, order, parts);
    TailConcat(parts[2..], u, order);
    ConcatTwo(parts);
  }

  lemma TextsAre(u: Url, order: seq<string>, parts: seq<string>)
    requires Texts(u, order, parts)
    ensures parts[0] == SchemeText(u) && parts[1] == UserText(u) && parts[2] == u.host && parts[3] == PortText(u)
    ensures parts[4] == u.path && parts[5] == QueryText(order, u.query) && parts[6] == FragmentText(u)
  {
    QueryJoins(order, u.query);
    BetweenIs(parts[0], "", u.scheme, "://");
    BetweenIs(parts[3], ":", u.port, "");
    BetweenIs(parts[6], "#", u.fragment, "");
  }

  lemma BetweenIs(text: string, before: string, s: string, after: string)
    requires Between(text, before, s, after)
    ensures before == "" ==> text == if s == "" then "" else s + after
    ensures after == "" ==> text == if s == "" then "" else before + s
  {
    assert "" + s == s && before + s + "" == before + s;
  }

  lemma ConcatTwo(parts: seq<string>)
    requires |parts| >= 2
    ensures Concat(parts) == parts[0] + (parts[1] + Concat(parts[2..]))
  {
    assert parts[2..] == parts[1..][1..];
  }

  lemma TailConcat(rest: seq<string>, u: Url, order: seq<string>)
    requires |rest| == 5 && rest[0] == u.host && rest[1] == PortText(u) && rest[2] == u.path
    requires rest[3] == QueryText(order, u.query) && rest[4] == FragmentText(u)
    ensures Concat(rest) == TailText(u, order)
  {
    var more := rest[1..][1..][1..];
    assert more == [rest[3], rest[4]] && more[1..] == [rest[4]] && more[1..][1..] == [];
    assert Concat(more) == rest[3] + (rest[4] + Concat([]));
    assert Concat(more) == FromQuery(u, order);
    var path := rest[1..][1..];
    assert Concat(path) == path[0] + Concat(more) == FromPath(u, order);
    assert Concat(rest[1..]) == rest[1] + Concat(path);
  }
}
