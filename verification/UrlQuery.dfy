/** What the query map holds, stated by the pieces between the '&' characters. */
module UrlQuery {
  import opened Text
  import opened Url
  import opened StringUtil
  import opened UrlDecode

  /** The parameters of a query: the pieces between '&' characters, without an empty one at the end. */
  function Params(raw: string): seq<string> {
    var parts := Split(raw, '&');
    if parts[|parts| - 1] == "" then parts[..|parts| - 1] else parts
  }

  function KeyText(kv: string): string {
    kv[..IndexOfAny(kv, {'='})]
  }

  predicate HasValue(kv: string) {
    '=' in kv
  }

  function ValueText(kv: string): string
    requires HasValue(kv)
  {
    assert IndexOfAny(kv, {'='}) < |kv|;
    kv[IndexOfAny(kv, {'='}) + 1..]
  }

  /** The text before the first '=' and the text behind it can be decoded. */
  ghost predicate Readable(kv: string) {
    Decode(KeyText(kv)).Some? && (HasValue(kv) ==> Decode(ValueText(kv)).Some?)
  }

  ghost predicate AllReadable(kvs: seq<string>) {
    forall i :: 0 <= i < |kvs| ==> Readable(kvs[i])
  }

  /** The values that the parameters give a key, in order. */
  ghost function Given(kvs: seq<string>, k: string): seq<string> {
    if kvs == [] then []
    else
      (if HasValue(kvs[0]) && Decode(KeyText(kvs[0])) == Some(k) && Decode(ValueText(kvs[0])).Some?
       then [Decode(ValueText(kvs[0])).value] else [])
      + Given(kvs[1..], k)
  }

  ghost predicate Named(kvs: seq<string>, k: string) {
    exists i :: 0 <= i < |kvs| && Decode(KeyText(kvs[i])) == Some(k)
  }

  function AddAll(kvs: seq<string>, m: QueryMap): Option<QueryMap> {
    if kvs == [] then Some(m)
    else match AddParam(kvs[0], m) case None => None case Some(m') => AddAll(kvs[1..], m')
  }

  lemma ParamsCons(part: string, rest: string)
    requires Free(part, {'&'})
    ensures Params(part + ("&" + rest)) == [part] + Params(rest)
  {
    var raw := part + ("&" + rest);
    IndexAfter(part, "&" + rest, {'&'});
    CutConcat(part, "&" + rest);
    assert ("&" + rest)[1..] == rest;
    SplitFirst(raw, '&', |part|, part, rest);
    var parts := [part] + Split(rest, '&');
    assert parts[..|parts| - 1] == [part] + Split(rest, '&')[..|parts| - 2];
  }

  lemma ParamsOne(part: string)
    requires Free(part, {'&'})
    ensures Params(part) == if part == "" then [] else [part]
  {
    SplitLast(part, '&');
  }

  lemma {:induction false} AddsParams(raw: string, m: QueryMap)
    ensures AddParams(raw, m) == AddAll(Params(raw), m)
    decreases |raw|
  {
    var amp := IndexOfAny(raw, {'&'});
    if amp == |raw| {
      ParamsOne(raw);
      assert raw[..amp] == raw;
      AddsOne(raw, m);
    } else {
      var part, rest := raw[..amp], raw[amp + 1..];
      assert raw == part + ("&" + rest);
      ParamsCons(part, rest);
      FirstAdded(raw, m, amp);
      var added := AddParam(part, m);
      if added.Some? { AddsParams(rest, added.value); }
      AddAllCons(part, Params(rest), m);
    }
  }

  lemma AddsOne(raw: string, m: QueryMap)
    requires IndexOfAny(raw, {'&'}) == |raw|
    ensures AddParams(raw, m) == AddAll(if raw == "" then [] else [raw], m)
  {
    assert raw[..|raw|] == raw;
    if raw != "" {
      FirstAdded(raw, m, |raw|);
      AddAllCons(raw, [], m);
      assert [raw] + [] == [raw];
    }
  }

  lemma AddAllCons(part: string, kvs: seq<string>, m: QueryMap)
    ensures AddAll([part] + kvs, m) == match AddParam(part, m) case None => None case Some(m') => AddAll(kvs, m')
  {
    assert ([part] + kvs)[1..] == kvs;
  }

  lemma OneAdded(kv: string, m: QueryMap)
    ensures AddParam(kv, m).Some? <==> Readable(kv)
    ensures Readable(kv) ==> var k := Decode(KeyText(kv)).value;
      AddParam(kv, m) == Some(m[k := Values(m, k) + if HasValue(kv) then [Decode(ValueText(kv)).value] else []])
  {
    var eq := IndexOfAny(kv, {'='});
    assert HasValue(kv) <==> eq < |kv|;
    if Readable(kv) {
      var k := Decode(KeyText(kv)).value;
      assert Values(m, k) + [] == Values(m, k);
    }
  }

  lemma {:induction false} AddsGiven(kvs: seq<string>, m: QueryMap)
    ensures AddAll(kvs, m).Some? <==> AllReadable(kvs)
    ensures AllReadable(kvs) ==> var r := AddAll(kvs, m).value;
      forall k :: (k in r <==> k in m || Named(kvs, k)) && (k in r ==> r[k] == Values(m, k) + Given(kvs, k))
  {
    if kvs == [] {
      assert forall k :: k in m ==> m[k] + [] == m[k];
    } else {
      OneAdded(kvs[0], m);
      ReadableCons(kvs);
      if Readable(kvs[0]) {
        var m' := AddParam(kvs[0], m).value;
        AddsGiven(kvs[1..], m');
        if AllReadable(kvs[1..]) { GivenCons(kvs, m, m', AddAll(kvs[1..], m').value); }
      }
    }
  }

  lemma ReadableCons(kvs: seq<string>)
    requires kvs != []
    ensures AllReadable(kvs) <==> Readable(kvs[0]) && AllReadable(kvs[1..])
  {
    if Readable(kvs[0]) && AllReadable(kvs[1..]) {
      forall i | 0 <= i < |kvs|
        ensures Readable(kvs[i])
      {
        if i > 0 { assert kvs[i] == kvs[1..][i - 1]; }
      }
    }
  }

  lemma GivenFor(kvs: seq<string>, m: QueryMap, m': QueryMap, k: string)
    requires kvs != [] && Readable(kvs[0]) && AddParam(kvs[0], m) == Some(m')
    ensures Values(m', k) + Given(kvs[1..], k) == Values(m, k) + Given(kvs, k)
    ensures k in m' <==> k in m || Decode(KeyText(kvs[0])) == Some(k)
  {
    OneAdded(kvs[0], m);
    var v := if HasValue(kvs[0]) then [Decode(ValueText(kvs[0])).value] else [];
    if k == Decode(KeyText(kvs[0])).value {
      GivenAssociates(Values(m, k), v, Given(kvs[1..], k));
    } else {
      assert [] + Given(kvs[1..], k) == Given(kvs[1..], k);
    }
  }

  lemma GivenAssociates(a: seq<string>, b: seq<string>, c: seq<string>)
    ensures a + b + c == a + (b + c)
  {
  }

  lemma GivenCons(kvs: seq<string>, m: QueryMap, m': QueryMap, r: QueryMap)
    requires kvs != [] && Readable(kvs[0]) && AddParam(kvs[0], m) == Some(m')
    requires forall k :: (k in r <==> k in m' || Named(kvs[1..], k)) && (k in r ==> r[k] == Values(m', k) + Given(kvs[1..], k))
    ensures forall k :: (k in r <==> k in m || Named(kvs, k)) && (k in r ==> r[k] == Values(m, k) + Given(kvs, k))
  {
    forall k
      ensures (k in r <==> k in m || Named(kvs, k)) && (k in r ==> r[k] == Values(m, k) + Given(kvs, k))
    {
      NamedCons(kvs, k);
      GivenFor(kvs, m, m', k);
    }
  }

  lemma NamedCons(kvs: seq<string>, k: string)
    requires kvs != []
    ensures Named(kvs, k) <==> Decode(KeyText(kvs[0])) == Some(k) || Named(kvs[1..], k)
  {
    if i :| 0 <= i < |kvs| && Decode(KeyText(kvs[i])) == Some(k) {
      if i > 0 { assert kvs[1..][i - 1] == kvs[i]; }
    }
    if i :| 0 <= i < |kvs[1..]| && Decode(KeyText(kvs[1..][i])) == Some(k) {
      assert kvs[i + 1] == kvs[1..][i];
    }
  }

  /** A query is read if and only if every parameter can be decoded; its map has the keys that occur, each with the values
      that are given for it, in order, and none if it only occurs without a '='. */
  lemma ParamsExactly(raw: string)
    ensures AddParams(raw, map[]).Some? <==> AllReadable(Params(raw))
    ensures AllReadable(Params(raw)) ==> var q := AddParams(raw, map[]).value;
      forall k :: (k in q <==> Named(Params(raw), k)) && (k in q ==> q[k] == Given(Params(raw), k))
  {
    AddsParams(raw, map[]);
    AddsGiven(Params(raw), map[]);
    var kvs := Params(raw);
    assert forall k :: Values(map[], k) + Given(kvs, k) == Given(kvs, k);
  }

  /** A parameter whose key and value are spelled, the key without a '=', gives the key the value. */
  lemma SpelledParam(key: string, k: string, val: string, v: string)
    requires Spells(key, k) && Spells(val, v) && Free(key, {'='})
    ensures var kv := key + ("=" + val);
      HasValue(kv) && Decode(KeyText(kv)) == Some(k) && Decode(ValueText(kv)) == Some(v) && Readable(kv)
  {
    PairCut(key, val);
    SpelledDecodes(key, k);
    SpelledDecodes(val, v);
  }

  lemma PairCut(key: string, val: string)
    requires Free(key, {'='})
    ensures var kv := key + ("=" + val); HasValue(kv) && KeyText(kv) == key && ValueText(kv) == val
  {
    var kv := key + ("=" + val);
    IndexAfter(key, "=" + val, {'='});
    CutConcat(key, "=" + val);
    assert ("=" + val)[1..] == val && kv[|key|] == '=';
  }
}
