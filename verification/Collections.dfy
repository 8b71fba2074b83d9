/** Sequences without repetition, and maps filled from a list of their keys. */
module Collections {

  ghost predicate Distinct<T>(s: seq<T>) {
    forall i, j :: 0 <= i < j < |s| ==> s[i] != s[j]
  }

  function Without<T>(s: seq<T>, p: nat): seq<T>
    requires p < |s|
  {
    s[..p] + s[p + 1..]
  }

  lemma WithoutAt<T>(s: seq<T>, p: nat)
    requires p < |s|
    ensures |Without(s, p)| == |s| - 1
    ensures forall q :: 0 <= q < |s| - 1 ==> Without(s, p)[q] == s[if q < p then q else q + 1]
    ensures forall q :: 0 <= q < |s| && q != p ==> s[q] in Without(s, p)
  {
    forall q | 0 <= q < |s| && q != p
      ensures s[q] in Without(s, p)
    {
      assert s[q] == Without(s, p)[if q < p then q else q - 1];
    }
  }

  ghost predicate Lists<K, V>(order: seq<K>, m: map<K, V>) {
    forall i :: 0 <= i < |order| ==> order[i] in m
  }

  /** `order` lists the keys of `m` once each: some iteration order of a hash map. */
  ghost predicate Enumerates<K, V>(order: seq<K>, m: map<K, V>) {
    Distinct(order) && Lists(order, m) && forall k :: k in m ==> k in order
  }

  /** `m` with the entries of `h` at the listed keys. */
  function Fill<K, V>(order: seq<K>, h: map<K, V>, m: map<K, V>): map<K, V>
    requires Lists(order, h)
  {
    if order == [] then m else Fill(order[1..], h, m[order[0] := h[order[0]]])
  }

  lemma {:induction false} FillAt<K, V>(order: seq<K>, h: map<K, V>, m: map<K, V>, k: K)
    requires Lists(order, h)
    ensures k in Fill(order, h, m) <==> k in m || k in order
    ensures k in order ==> k in h && Fill(order, h, m)[k] == h[k]
    ensures k in m && k !in order ==> Fill(order, h, m)[k] == m[k]
  {
    if order == [] {
      assert Fill(order, h, m) == m;
    } else {
      FillAt(order[1..], h, m[order[0] := h[order[0]]], k);
      assert order == [order[0]] + order[1..];
    }
  }

  lemma FillsUp<K, V>(order: seq<K>, h: map<K, V>)
    requires Enumerates(order, h)
    ensures Fill(order, h, map[]) == h
  {
    FillsFrom(order, h, map[]);
  }

  lemma FillsFrom<K, V>(order: seq<K>, h: map<K, V>, none: map<K, V>)
    requires Enumerates(order, h) && |none| == 0
    ensures Fill(order, h, none) == h
  {
    var filled := Fill(order, h, none);
    forall k: K | k in filled
      ensures k in h && filled[k] == h[k]
    {
      FillAt(order, h, none, k);
    }
    forall k: K | k in h
      ensures k in filled
    {
      FillAt(order, h, none, k);
    }
    assert filled.Keys == h.Keys;
  }

  lemma SameMap<K, V>(a: map<K, V>, b: map<K, V>)
    requires forall k :: k in a <==> k in b
    requires forall k :: k in a ==> a[k] == b[k]
    ensures a == b
  {
  }
}
