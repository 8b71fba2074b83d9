/**
  `util::cache` of `include/util/cache.hpp`: a cache with SIEVE eviction.

  The cache proper is a class with the source's fields: a list of entries, an index from keys to list positions and a
  moving hand, both of which name entries by identity. `Sieve` is what they mean together: the entries in list
  order and the index of the hand, where -1 is the end of the list. Stepping back from the first entry gives the end,
  as on the circular list of the source.
 */
module SieveCache {
  import opened Text
  import opened Collections

  datatype Entry<K, V> = Entry(key: K, val: V, visited: bool)

  datatype Sieve<K, V> = Sieve(list: seq<Entry<K, V>>, hand: int)

  ghost predicate DistinctKeys<K, V>(list: seq<Entry<K, V>>) {
    forall p, q :: 0 <= p < q < |list| ==> list[p].key != list[q].key
  }

  ghost predicate Sound<K, V>(s: Sieve<K, V>, capacity: nat) {
    DistinctKeys(s.list) && -1 <= s.hand < |s.list| <= capacity
  }

  // ---------------------------------------------------------------- the eviction

  /** The position `d` steps back from `i` on a circle of `n`. */
  function Back(i: nat, d: nat, n: nat): (p: nat)
    requires i < n && d <= n
    ensures p < n
  {
    if d <= i then i - d else i + n - d
  }

  /** How many steps back from `i` position `p` is. */
  function Distance(i: nat, p: nat, n: nat): (d: nat)
    requires i < n && p < n
    ensures d < n && Back(i, d, n) == p
  {
    if p <= i then i - p else i + n - p
  }

  /** The number of entries the eviction passes from `i` on, when it has passed `d`. */
  function Search<K, V>(list: seq<Entry<K, V>>, i: nat, d: nat): (r: nat)
    requires i < |list| && d <= |list|
    ensures d <= r <= |list|
    ensures forall j :: d <= j < r ==> list[Back(i, j, |list|)].visited
    ensures r < |list| ==> !list[Back(i, r, |list|)].visited
    decreases |list| - d
  {
    if d == |list| || !list[Back(i, d, |list|)].visited then d else Search(list, i, d + 1)
  }

  function Cleared<K, V>(list: seq<Entry<K, V>>, i: nat, d: nat): seq<Entry<K, V>>
    requires i < |list|
  {
    seq(|list|, p requires 0 <= p < |list| =>
      if Distance(i, p, |list|) < d then list[p].(visited := false) else list[p])
  }

  function From<K, V>(s: Sieve<K, V>): nat
    requires s.list != [] && -1 <= s.hand < |s.list|
  {
    if s.hand == -1 then |s.list| - 1 else s.hand
  }

  /** How many entries an eviction passes, and the position it ends at. */
  function Passes<K, V>(s: Sieve<K, V>): nat
    requires s.list != [] && -1 <= s.hand < |s.list|
  {
    Search(s.list, From(s), 0)
  }

  function Victim<K, V>(s: Sieve<K, V>): (p: nat)
    requires s.list != [] && -1 <= s.hand < |s.list|
    ensures p < |s.list|
  {
    Back(From(s), Passes(s), |s.list|)
  }

  function Evicted<K, V>(s: Sieve<K, V>): Sieve<K, V>
    requires s.list != [] && -1 <= s.hand < |s.list|
  {
    Sieve(Without(Cleared(s.list, From(s), Passes(s)), Victim(s)), Victim(s) - 1)
  }

  // ---------------------------------------------------------------- the operations

  /** The position of a key, or -1. */
  function Find<K(==), V>(list: seq<Entry<K, V>>, key: K): (p: int)
    ensures -1 <= p < |list|
    ensures p == -1 ==> forall q :: 0 <= q < |list| ==> list[q].key != key
    ensures p >= 0 ==> list[p].key == key
  {
    if list == [] then -1
    else if list[|list| - 1].key == key then |list| - 1
    else Find(list[..|list| - 1], key)
  }

  /** What a lookup answers. */
  function Answer<K(==), V>(s: Sieve<K, V>, key: K): Option<V> {
    var p := Find(s.list, key);
    if p == -1 then None else Some(s.list[p].val)
  }

  function Looked<K(==), V>(s: Sieve<K, V>, key: K): Sieve<K, V> {
    var p := Find(s.list, key);
    if p == -1 then s else s.(list := s.list[p := s.list[p].(visited := true)])
  }

  function Inserted<K, V>(s: Sieve<K, V>, key: K, val: V): Sieve<K, V> {
    Sieve([Entry(key, val, false)] + s.list, if s.hand == -1 then -1 else s.hand + 1)
  }

  function Stored<K(==), V>(s: Sieve<K, V>, key: K, val: V, capacity: nat): Sieve<K, V>
    requires Sound(s, capacity) && capacity > 0
  {
    var p := Find(s.list, key);
    if p >= 0 then s.(list := s.list[p := Entry(key, val, true)])
    else Inserted(if |s.list| >= capacity then Evicted(s) else s, key, val)
  }

  function Erased<K(==), V>(s: Sieve<K, V>, key: K): Sieve<K, V> {
    var p := Find(s.list, key);
    if p == -1 then s else Sieve(Without(s.list, p), if s.hand >= p then s.hand - 1 else s.hand)
  }

  // ---------------------------------------------------------------- the cache

  datatype Hand = End | On(id: nat)

  /** Where an identity is in the list. */
  function Place(ids: seq<nat>, id: nat): (p: nat)
    requires id in ids
    ensures p < |ids| && ids[p] == id
  {
    if ids[|ids| - 1] == id then |ids| - 1 else Place(ids[..|ids| - 1], id)
  }

  function Listed<K, V>(ids: seq<nat>, nodes: map<nat, Entry<K, V>>): seq<Entry<K, V>>
    requires forall p :: 0 <= p < |ids| ==> ids[p] in nodes
  {
    seq(|ids|, p requires 0 <= p < |ids| => nodes[ids[p]])
  }

  /** The list and the index hold the same entries, without repetition. */
  ghost predicate Agree<K, V>(ids: seq<nat>, nodes: map<nat, Entry<K, V>>, lookup: map<K, nat>, next: nat) {
    && Distinct(ids)
    && (forall p :: 0 <= p < |ids| ==> ids[p] in nodes)
    && (forall p :: 0 <= p < |ids| ==>
          ids[p] < next && nodes[ids[p]].key in lookup && lookup[nodes[ids[p]].key] == ids[p])
    && (forall k :: k in lookup ==> lookup[k] in ids && nodes[lookup[k]].key == k)
  }

  /** The index of the hand, or -1. */
  ghost function HandAt(ids: seq<nat>, hand: Hand): (p: int)
    requires hand.On? ==> hand.id in ids
    ensures -1 <= p < |ids|
  {
    if hand == End then -1 else Place(ids, hand.id)
  }

  lemma PlaceOf(ids: seq<nat>, p: nat)
    requires Distinct(ids) && p < |ids|
    ensures Place(ids, ids[p]) == p
  {
  }

  /** Overwriting an entry without changing its key. */
  lemma Overwritten<K, V>(ids: seq<nat>, nodes: map<nat, Entry<K, V>>, lookup: map<K, nat>, next: nat, p: nat, e: Entry<K, V>)
    requires Agree(ids, nodes, lookup, next) && p < |ids| && e.key == nodes[ids[p]].key
    ensures Agree(ids, nodes[ids[p] := e], lookup, next)
    ensures Listed(ids, nodes[ids[p] := e]) == Listed(ids, nodes)[p := e]
  {
  }

  lemma Unlinked<K, V>(ids: seq<nat>, nodes: map<nat, Entry<K, V>>, lookup: map<K, nat>, next: nat, p: nat)
    requires Agree(ids, nodes, lookup, next) && p < |ids|
    ensures Agree(Without(ids, p), nodes - {ids[p]}, lookup - {nodes[ids[p]].key}, next)
    ensures Listed(Without(ids, p), nodes - {ids[p]}) == Without(Listed(ids, nodes), p)
  {
    WithoutAt(ids, p);
    WithoutAt(Listed(ids, nodes), p);
    forall k | k in lookup && k != nodes[ids[p]].key
      ensures lookup[k] in Without(ids, p)
    {
      var q := Place(ids, lookup[k]);
    }
  }

  lemma HandUnlinked(ids: seq<nat>, hand: Hand, p: nat)
    requires Distinct(ids) && p < |ids| && (hand.On? ==> hand.id in ids && hand.id != ids[p])
    ensures hand.On? ==> hand.id in Without(ids, p)
    ensures HandAt(Without(ids, p), hand) == if HandAt(ids, hand) > p then HandAt(ids, hand) - 1 else HandAt(ids, hand)
  {
    WithoutAt(ids, p);
    if hand.On? {
      var q := Place(ids, hand.id);
      var q' := if q > p then q - 1 else q;
      assert Without(ids, p)[q'] == hand.id;
      PlaceOf(Without(ids, p), q');
    }
  }

  lemma Linked<K, V>(ids: seq<nat>, nodes: map<nat, Entry<K, V>>, lookup: map<K, nat>, next: nat, e: Entry<K, V>)
    requires Agree(ids, nodes, lookup, next) && e.key !in lookup
    ensures Agree([next] + ids, nodes[next := e], lookup[e.key := next], next + 1)
    ensures Listed([next] + ids, nodes[next := e]) == [e] + Listed(ids, nodes)
  {
    var ids' := [next] + ids;
    assert forall p :: 0 < p < |ids'| ==> ids'[p] == ids[p - 1];
    LookupLinked(ids, nodes, lookup, next, e);
    ListLinked(ids, nodes, next, e);
  }

  lemma LookupLinked<K, V>(ids: seq<nat>, nodes: map<nat, Entry<K, V>>, lookup: map<K, nat>, next: nat, e: Entry<K, V>)
    requires Agree(ids, nodes, lookup, next)
    ensures var lookup', nodes' := lookup[e.key := next], nodes[next := e];
      forall k :: k in lookup' ==> lookup'[k] in [next] + ids && lookup'[k] in nodes' && nodes'[lookup'[k]].key == k
  {
    assert forall id :: id in ids ==> id in [next] + ids && id in nodes && id < next;
  }

  lemma ListLinked<K, V>(ids: seq<nat>, nodes: map<nat, Entry<K, V>>, next: nat, e: Entry<K, V>)
    requires forall p :: 0 <= p < |ids| ==> ids[p] in nodes && ids[p] < next
    ensures Listed([next] + ids, nodes[next := e]) == [e] + Listed(ids, nodes)
  {
  }

  lemma HandLinked(ids: seq<nat>, hand: Hand, next: nat)
    requires Distinct([next] + ids) && (hand.On? ==> hand.id in ids)
    ensures HandAt([next] + ids, hand) == if HandAt(ids, hand) == -1 then -1 else HandAt(ids, hand) + 1
  {
    if hand.On? {
      assert ([next] + ids)[Place(ids, hand.id) + 1] == hand.id;
      PlaceOf([next] + ids, Place(ids, hand.id) + 1);
    }
  }

  lemma Indexed<K, V>(ids: seq<nat>, nodes: map<nat, Entry<K, V>>, lookup: map<K, nat>, next: nat, key: K)
    requires Agree(ids, nodes, lookup, next)
    ensures key in lookup <==> Find(Listed(ids, nodes), key) >= 0
    ensures key in lookup ==> lookup[key] == ids[Find(Listed(ids, nodes), key)]
    ensures DistinctKeys(Listed(ids, nodes))
  {
    var list := Listed(ids, nodes);
    if key in lookup {
      assert list[Place(ids, lookup[key])].key == key;
    }
  }

  /** The eviction of `s` has passed `d` entries: it is at position `at` and has left the cache as `v`. */
  ghost predicate Sweeping<K, V>(s: Sieve<K, V>, v: Sieve<K, V>, at: nat, d: nat)
    requires s.list != [] && -1 <= s.hand < |s.list|
  {
    forall k: nat {:trigger Look(k)} :: k == d && Look(k) ==>
      && d <= |s.list| && at == Back(From(s), d, |s.list|) && Search(s.list, From(s), 0) == Search(s.list, From(s), d)
      && v == s.(list := Cleared(s.list, From(s), d))
  }

  lemma SweepStarts<K, V>(s: Sieve<K, V>)
    requires s.list != [] && -1 <= s.hand < |s.list|
    ensures Sweeping(s, s, From(s), 0)
  {
    assert s.list == Cleared(s.list, From(s), 0);
  }

  /** The entry it passes was visited before it began, and it has not passed all of them. */
  lemma SweepPasses<K, V>(s: Sieve<K, V>, v: Sieve<K, V>, at: nat, d: nat)
    requires s.list != [] && -1 <= s.hand < |s.list| && Sweeping(s, v, at, d) && at < |v.list| == |s.list|
    requires v.list[at].visited
    ensures d < |s.list|
    ensures Sweeping(s, v.(list := v.list[at := v.list[at].(visited := false)]), if at == 0 then |s.list| - 1 else at - 1, d + 1)
  {
    assert Look(d);
    assert v.list[at := v.list[at].(visited := false)] == Cleared(s.list, From(s), d + 1);
  }

  lemma SweepStops<K, V>(s: Sieve<K, V>, v: Sieve<K, V>, at: nat, d: nat)
    requires s.list != [] && -1 <= s.hand < |s.list| && Sweeping(s, v, at, d) && at < |v.list| == |s.list|
    requires !v.list[at].visited
    ensures at == Victim(s) && v == s.(list := Cleared(s.list, From(s), Passes(s)))
  {
    assert Look(d);
  }

  class Cache<K(==), V> {
    const capacity: nat
    var entries: seq<nat>
    var nodes: map<nat, Entry<K, V>>
    var lookup: map<K, nat>
    var hand: Hand
    var next: nat

    ghost predicate Valid()
      reads this
    {
      Agree(entries, nodes, lookup, next) && 0 < capacity && |entries| <= capacity && (hand.On? ==> hand.id in entries)
    }

    ghost function View(): (s: Sieve<K, V>)
      requires Valid()
      reads this
    {
      Sieve(Listed(entries, nodes), HandAt(entries, hand))
    }

    constructor (capacity: nat)
      requires capacity > 0
      ensures Valid() && View() == Sieve([], -1) && this.capacity == capacity
    {
      this.capacity := capacity;
      entries, nodes, lookup, hand, next := [], map[], map[], End, 0;
    }

    /** Every reachable view is sound. */
    lemma ViewSound()
      requires Valid()
      ensures Sound(View(), capacity)
    {
      forall p, q | 0 <= p < q < |entries|
        ensures View().list[p].key != View().list[q].key
      {
        assert entries[p] != entries[q];
      }
    }

    method Get(key: K) returns (r: Option<V>)
      requires Valid()
      modifies this
      ensures Valid() && View() == Looked(old(View()), key)
      ensures r == Answer(old(View()), key)
    {
      Indexed(entries, nodes, lookup, next, key);
      if key in lookup {
        var it := lookup[key];
        Overwritten(entries, nodes, lookup, next, Find(View().list, key), nodes[it].(visited := true));
        nodes := nodes[it := nodes[it].(visited := true)];
        r := Some(nodes[it].val);
      } else {
        r := None;
      }
    }

    method Contains(key: K) returns (r: bool)
      requires Valid()
      ensures r <==> Answer(View(), key) != None
    {
      Indexed(entries, nodes, lookup, next, key);
      r := key in lookup;
    }

    /** Removes the entry at a position from the list and the index. */
    method Unlink(p: nat)
      requires Valid() && p < |entries| && (hand.On? ==> hand.id != entries[p])
      modifies this`entries, this`nodes, this`lookup
      ensures Valid() && |entries| == old(|entries|) - 1
      ensures View().list == Without(old(View()).list, p)
      ensures View().hand == if old(View()).hand > p then old(View()).hand - 1 else old(View()).hand
      ensures forall k :: k !in old(lookup) ==> k !in lookup
    {
      Unlinked(entries, nodes, lookup, next, p);
      HandUnlinked(entries, hand, p);
      WithoutAt(entries, p);
      lookup := lookup - {nodes[entries[p]].key};
      nodes := nodes - {entries[p]};
      entries := Without(entries, p);
    }

    /** Steps the hand back from a position; from the first one this gives the end. */
    method StepBack(p: nat)
      requires Valid() && p < |entries|
      modifies this`hand
      ensures Valid() && View() == old(View()).(hand := p - 1) && (hand.On? ==> hand.id != entries[p])
    {
      if p > 0 { PlaceOf(entries, p - 1); }
      hand := if p == 0 then End else On(entries[p - 1]);
    }

    method Erase(key: K) returns (r: bool)
      requires Valid()
      modifies this
      ensures Valid() && View() == Erased(old(View()), key)
      ensures r <==> Answer(old(View()), key) != None
    {
      Indexed(entries, nodes, lookup, next, key);
      r := key in lookup;
      if r {
        var p := Place(entries, lookup[key]);
        PlaceOf(entries, Find(View().list, key));
        if hand == On(lookup[key]) { StepBack(p); }
        Unlink(p);
      }
    }

    /** The loop of the eviction: steps back, clearing flags, to the first entry that is not visited. */
    method Sweep() returns (at: nat)
      requires Valid() && entries != []
      modifies this`nodes
      ensures Valid() && at == Victim(old(View()))
      ensures View() == old(View()).(list := Cleared(old(View()).list, From(old(View())), Passes(old(View()))))
    {
      at := if hand == End then |entries| - 1 else Place(entries, hand.id);
      ghost var s, d := View(), 0;
      SweepStarts(s);
      while nodes[entries[at]].visited
        invariant Valid() && at < |entries| && |entries| == |s.list| && Sweeping(s, View(), at, d)
        decreases |s.list| - d
      {
        SweepPasses(s, View(), at, d);
        Clear(at);
        at := if at == 0 then |entries| - 1 else at - 1;
        d := d + 1;
      }
      SweepStops(s, View(), at, d);
    }

    method Evict()
      requires Valid() && entries != []
      modifies this`hand, this`entries, this`nodes, this`lookup
      ensures Valid() && View() == Evicted(old(View())) && |entries| == |old(entries)| - 1
      ensures forall k :: k !in old(lookup) ==> k !in lookup
    {
      var at := Sweep();
      StepBack(at);
      Unlink(at);
    }

    method Clear(p: nat)
      requires Valid() && p < |entries|
      modifies this`nodes
      ensures Valid() && View() == old(View()).(list := old(View()).list[p := old(View()).list[p].(visited := false)])
    {
      var e := nodes[entries[p]].(visited := false);
      Overwritten(entries, nodes, lookup, next, p, e);
      nodes := nodes[entries[p] := e];
    }

    method Set(key: K, val: V)
      requires Valid()
      modifies this
      ensures Valid() && View() == Stored(old(View()), key, val, capacity)
    {
      Indexed(entries, nodes, lookup, next, key);
      ViewSound();
      if key in lookup {
        var it := lookup[key];
        var e := Entry(nodes[it].key, val, true);
        Overwritten(entries, nodes, lookup, next, Find(View().list, key), e);
        nodes := nodes[it := e];
        return;
      }
      if |entries| >= capacity { Evict(); }
      Insert(key, val);
    }

    method Insert(key: K, val: V)
      requires Valid() && |entries| < capacity && key !in lookup
      modifies this
      ensures Valid() && View() == Inserted(old(View()), key, val)
    {
      Linked(entries, nodes, lookup, next, Entry(key, val, false));
      HandLinked(entries, hand, next);
      nodes := nodes[next := Entry(key, val, false)];
      entries := [next] + entries;
      lookup := lookup[key := next];
      next := next + 1;
    }

    /** `purge` does not move the hand: the cache stays usable exactly when the hand was at the end. */
    method Purge()
      requires Valid()
      modifies this
      ensures entries == [] && lookup == map[] && hand == old(hand) && Agree(entries, nodes, lookup, next)
      ensures Valid() <==> old(View()).hand == -1
    {
      entries, nodes, lookup := [], map[], map[];
    }
  }
}
