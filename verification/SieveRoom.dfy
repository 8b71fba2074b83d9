/** What stays in the SIEVE cache: everything while there is room, and the order in which entries go when there is none. */
module SieveRoom {
  import opened Text
  import opened Collections
  import opened SieveCache
  import opened SieveLaws

  // ---------------------------------------------------------------- what a lookup finds

  ghost predicate Holds<K, V>(s: Sieve<K, V>, key: K, val: V) {
    exists p :: 0 <= p < |s.list| && s.list[p].key == key && s.list[p].val == val
  }

  lemma HoldsAt<K, V>(s: Sieve<K, V>, p: nat)
    requires p < |s.list|
    ensures Holds(s, s.list[p].key, s.list[p].val)
  {
  }

  lemma AnswerHolds<K, V>(s: Sieve<K, V>, key: K, val: V)
    requires DistinctKeys(s.list)
    ensures Answer(s, key) == Some(val) <==> Holds(s, key, val)
  {
    if p :| 0 <= p < |s.list| && s.list[p].key == key && s.list[p].val == val {
      assert Find(s.list, key) == p;
    }
  }

  /** Who holds the same for a key answers the same. */
  lemma SameAnswer<K, V>(s: Sieve<K, V>, s': Sieve<K, V>, key: K)
    requires DistinctKeys(s.list) && DistinctKeys(s'.list)
    requires forall v :: Holds(s, key, v) <==> Holds(s', key, v)
    ensures Answer(s, key) == Answer(s', key)
  {
    if Answer(s, key).Some? {
      AnswerHolds(s, key, Answer(s, key).value);
      AnswerHolds(s', key, Answer(s, key).value);
    } else if Answer(s', key).Some? {
      AnswerHolds(s', key, Answer(s', key).value);
      AnswerHolds(s, key, Answer(s', key).value);
    }
  }

  lemma NoAnswer<K, V>(s: Sieve<K, V>, key: K)
    requires DistinctKeys(s.list) && forall v :: !Holds(s, key, v)
    ensures Answer(s, key) == None
  {
    if Answer(s, key).Some? { AnswerHolds(s, key, Answer(s, key).value); }
  }

  // ---------------------------------------------------------------- one operation

  lemma EvictedAt<K, V>(s: Sieve<K, V>, q: nat)
    requires CanEvict(s) && q < |s.list| - 1
    ensures |Evicted(s).list| == |s.list| - 1
    ensures var e, was := Evicted(s).list[q], s.list[if q < Victim(s) then q else q + 1];
      e.key == was.key && e.val == was.val && (!was.visited ==> !e.visited)
  {
    WithoutAt(Cleared(s.list, From(s), Passes(s)), Victim(s));
  }

  lemma EvictedKept<K, V>(s: Sieve<K, V>, p: nat)
    requires CanEvict(s) && p < |s.list| && p != Victim(s)
    ensures Holds(Evicted(s), s.list[p].key, s.list[p].val)
  {
    var q := if p < Victim(s) then p else p - 1;
    EvictedAt(s, q);
    HoldsAt(Evicted(s), q);
  }

  lemma EvictedWas<K, V>(s: Sieve<K, V>, q: nat)
    requires CanEvict(s) && DistinctKeys(s.list) && q < |Evicted(s).list| && |Evicted(s).list| == |s.list| - 1
    ensures Holds(s, Evicted(s).list[q].key, Evicted(s).list[q].val) && Evicted(s).list[q].key != s.list[Victim(s)].key
  {
    EvictedAt(s, q);
    HoldsAt(s, if q < Victim(s) then q else q + 1);
  }

  lemma EvictedSize<K, V>(s: Sieve<K, V>)
    requires CanEvict(s)
    ensures |Evicted(s).list| == |s.list| - 1
  {
    WithoutAt(Cleared(s.list, From(s), Passes(s)), Victim(s));
  }

  /** What an eviction takes away is the victim and nothing else. */
  lemma EvictedHolds<K, V>(s: Sieve<K, V>, key: K, val: V, capacity: nat)
    requires Sound(s, capacity) && s.list != []
    ensures Holds(Evicted(s), key, val) <==> Holds(s, key, val) && key != s.list[Victim(s)].key
  {
    EvictedSize(s);
    if p :| 0 <= p < |s.list| && s.list[p].key == key && s.list[p].val == val && p != Victim(s) { EvictedKept(s, p); }
    if q :| 0 <= q < |Evicted(s).list| && Evicted(s).list[q].key == key && Evicted(s).list[q].val == val { EvictedWas(s, q); }
  }

  lemma InsertedHolds<K, V>(s: Sieve<K, V>, key: K, val: V, k: K, v: V)
    ensures Holds(Inserted(s, key, val), k, v) <==> Holds(s, k, v) || (k == key && v == val)
  {
    var s' := Inserted(s, key, val);
    if p :| 0 <= p < |s.list| && s.list[p].key == k && s.list[p].val == v { assert s'.list[p + 1] == s.list[p]; }
    if p :| 0 <= p < |s'.list| && s'.list[p].key == k && s'.list[p].val == v {
      if p > 0 { assert s.list[p - 1] == s'.list[p]; }
    }
    assert s'.list[0].key == key && s'.list[0].val == val;
  }

  lemma OverwrittenHolds<K, V>(s: Sieve<K, V>, p: nat, val: V, k: K, v: V)
    requires DistinctKeys(s.list) && p < |s.list|
    ensures var s' := s.(list := s.list[p := Entry(s.list[p].key, val, true)]);
      DistinctKeys(s'.list) && (Holds(s', k, v) <==> if k == s.list[p].key then v == val else Holds(s, k, v))
  {
    var s' := s.(list := s.list[p := Entry(s.list[p].key, val, true)]);
    assert s'.list[p].key == s.list[p].key && s'.list[p].val == val;
    if q :| 0 <= q < |s.list| && s.list[q].key == k && s.list[q].val == v {
      if q != p { assert s'.list[q] == s.list[q]; }
    }
    if q :| 0 <= q < |s'.list| && s'.list[q].key == k && s'.list[q].val == v {
      if q != p { assert s.list[q] == s'.list[q]; }
    }
  }

  /** The key that a `set` may cost. */
  ghost predicate Lost<K, V>(s: Sieve<K, V>, key: K, k: K, capacity: nat)
    requires Sound(s, capacity)
  {
    Answer(s, key) == None && |s.list| == capacity && s.list != [] && k == s.list[Victim(s)].key
  }

  lemma StoredHolds<K, V>(s: Sieve<K, V>, key: K, val: V, capacity: nat, k: K, v: V)
    requires Sound(s, capacity) && capacity > 0
    ensures Holds(Stored(s, key, val, capacity), k, v) <==>
            if k == key then v == val else Holds(s, k, v) && !Lost(s, key, k, capacity)
  {
    var p := Find(s.list, key);
    if p >= 0 {
      OverwrittenHolds(s, p, val, k, v);
    } else {
      var s1 := if |s.list| >= capacity then Evicted(s) else s;
      InsertedHolds(s1, key, val, k, v);
      if |s.list| >= capacity { EvictedHolds(s, k, v, capacity); }
    }
  }

  lemma StoredSound<K, V>(s: Sieve<K, V>, key: K, val: V, capacity: nat)
    requires Sound(s, capacity) && capacity > 0
    ensures var s' := Stored(s, key, val, capacity); Sound(s', capacity)
    ensures var s' := Stored(s, key, val, capacity);
      |s'.list| == if Answer(s, key).Some? then |s.list| else if |s.list| < capacity then |s.list| + 1 else capacity
  {
    if Find(s.list, key) == -1 && |s.list| >= capacity { WithoutAt(Cleared(s.list, From(s), Passes(s)), Victim(s)); }
    var latest: map<K, V> := map p | 0 <= p < |s.list| :: s.list[p].key := s.list[p].val;
    forall p | 0 <= p < |s.list|
      ensures s.list[p].key in latest && latest[s.list[p].key] == s.list[p].val
    {
    }
    StoredKeeps(s, key, val, latest, capacity);
  }

  /** What a `set` does to every lookup: the key set has its value; a key that was answered is lost only if the cache was
      full and the key set is new, and then this is the victim's alone. The size grows by a new key up to the capacity. */
  lemma SetExactly<K, V>(s: Sieve<K, V>, key: K, val: V, capacity: nat, k: K)
    requires Sound(s, capacity) && capacity > 0
    ensures var s' := Stored(s, key, val, capacity);
      && Sound(s', capacity)
      && |s'.list| == (if Answer(s, key).Some? then |s.list| else if |s.list| < capacity then |s.list| + 1 else capacity)
      && Answer(s', k) == if k == key then Some(val) else if Lost(s, key, k, capacity) then None else Answer(s, k)
  {
    var s' := Stored(s, key, val, capacity);
    StoredSound(s, key, val, capacity);
    forall v
      ensures Holds(s', k, v) <==> if k == key then v == val else Holds(s, k, v) && !Lost(s, key, k, capacity)
    {
      StoredHolds(s, key, val, capacity, k, v);
    }
    if k == key {
      AnswerHolds(s', k, val);
    } else if Lost(s, key, k, capacity) {
      NoAnswer(s', k);
    } else {
      SameAnswer(s, s', k);
    }
  }

  lemma LookedHolds<K, V>(s: Sieve<K, V>, key: K, k: K, v: V)
    requires DistinctKeys(s.list)
    ensures DistinctKeys(Looked(s, key).list) && (Holds(Looked(s, key), k, v) <==> Holds(s, k, v))
  {
    var p, s' := Find(s.list, key), Looked(s, key);
    if p >= 0 {
      assert forall q :: 0 <= q < |s.list| ==> s'.list[q].key == s.list[q].key && s'.list[q].val == s.list[q].val;
      if q :| 0 <= q < |s.list| && s.list[q].key == k && s.list[q].val == v { HoldsAt(s', q); }
      if q :| 0 <= q < |s'.list| && s'.list[q].key == k && s'.list[q].val == v { HoldsAt(s, q); }
    }
  }

  /** A lookup changes no answer. */
  lemma GetExactly<K, V>(s: Sieve<K, V>, key: K, k: K)
    requires DistinctKeys(s.list)
    ensures Answer(Looked(s, key), k) == Answer(s, k) && |Looked(s, key).list| == |s.list|
  {
    forall v
      ensures Holds(Looked(s, key), k, v) <==> Holds(s, k, v)
    {
      LookedHolds(s, key, k, v);
    }
    LookedDistinct(s, key);
    SameAnswer(s, Looked(s, key), k);
  }

  lemma LookedDistinct<K, V>(s: Sieve<K, V>, key: K)
    requires DistinctKeys(s.list)
    ensures DistinctKeys(Looked(s, key).list)
  {
  }

  lemma ErasedAt<K, V>(s: Sieve<K, V>, key: K, q: nat)
    requires Find(s.list, key) >= 0 && q < |s.list| - 1
    ensures |Erased(s, key).list| == |s.list| - 1
    ensures Erased(s, key).list[q] == s.list[if q < Find(s.list, key) then q else q + 1]
  {
    WithoutAt(s.list, Find(s.list, key));
  }

  lemma ErasedKept<K, V>(s: Sieve<K, V>, key: K, p: nat)
    requires p < |s.list| && s.list[p].key != key
    ensures Holds(Erased(s, key), s.list[p].key, s.list[p].val)
  {
    var x := Find(s.list, key);
    if x >= 0 {
      ErasedAt(s, key, if p < x then p else p - 1);
      HoldsAt(Erased(s, key), if p < x then p else p - 1);
    }
  }

  lemma ErasedWas<K, V>(s: Sieve<K, V>, key: K, q: nat)
    requires DistinctKeys(s.list) && q < |Erased(s, key).list|
    ensures Holds(s, Erased(s, key).list[q].key, Erased(s, key).list[q].val) && Erased(s, key).list[q].key != key
  {
    var x := Find(s.list, key);
    if x >= 0 {
      WithoutAt(s.list, x);
      ErasedAt(s, key, q);
      HoldsAt(s, if q < x then q else q + 1);
    }
  }

  lemma ErasedHolds<K, V>(s: Sieve<K, V>, key: K, k: K, v: V)
    requires DistinctKeys(s.list)
    ensures Holds(Erased(s, key), k, v) <==> Holds(s, k, v) && k != key
  {
    if p :| 0 <= p < |s.list| && s.list[p].key == k && s.list[p].val == v && k != key { ErasedKept(s, key, p); }
    if q :| 0 <= q < |Erased(s, key).list| && Erased(s, key).list[q].key == k && Erased(s, key).list[q].val == v {
      ErasedWas(s, key, q);
    }
  }

  lemma ErasedDistinct<K, V>(s: Sieve<K, V>, key: K)
    requires DistinctKeys(s.list)
    ensures DistinctKeys(Erased(s, key).list)
  {
    if Find(s.list, key) >= 0 { WithoutAt(s.list, Find(s.list, key)); }
  }

  /** Erasing takes away the key and nothing else. */
  lemma EraseExactly<K, V>(s: Sieve<K, V>, key: K, k: K)
    requires DistinctKeys(s.list)
    ensures Answer(Erased(s, key), k) == if k == key then None else Answer(s, k)
  {
    ErasedDistinct(s, key);
    forall v
      ensures Holds(Erased(s, key), k, v) <==> Holds(s, k, v) && k != key
    {
      ErasedHolds(s, key, k, v);
    }
    if k == key { NoAnswer(Erased(s, key), k); } else { SameAnswer(s, Erased(s, key), k); }
  }

  // ---------------------------------------------------------------- while there is room

  /** All keys that were ever set. */
  function KeysSet<K(==), V>(ops: seq<Op<K, V>>): set<K> {
    if ops == [] then {}
    else KeysSet(ops[..|ops| - 1]) + (if ops[|ops| - 1].Set? then {ops[|ops| - 1].key} else {})
  }

  function Recent<K(==), V>(ops: seq<Op<K, V>>, key: K): Option<V> {
    if key in Latest(ops) then Some(Latest(ops)[key]) else None
  }

  lemma {:induction false} FewKeys<K, V>(list: seq<Entry<K, V>>, keys: set<K>)
    requires DistinctKeys(list) && forall p :: 0 <= p < |list| ==> list[p].key in keys
    ensures |list| <= |keys|
    decreases |list|
  {
    if list != [] {
      var n := |list| - 1;
      FewKeys(list[..n], keys - {list[n].key});
    }
  }

  lemma {:induction false} LatestSet<K, V>(ops: seq<Op<K, V>>, key: K)
    requires key in Latest(ops)
    ensures key in KeysSet(ops)
    decreases |ops|
  {
    var n := |ops| - 1;
    if !(ops[n].Set? && ops[n].key == key) { LatestSet(ops[..n], key); }
  }

  /** Before a new key is set there is room for it. */
  lemma RoomFor<K, V>(capacity: nat, ops: seq<Op<K, V>>, key: K)
    requires capacity > 0 && Answer(Run(capacity, ops), key) == None && |KeysSet(ops) + {key}| <= capacity
    ensures |Run(capacity, ops).list| < capacity
  {
    var list, keys := Run(capacity, ops).list, KeysSet(ops) + {key};
    forall p | 0 <= p < |list|
      ensures list[p].key in keys - {key}
    {
      LatestSet(ops, list[p].key);
      AnswerHolds(Run(capacity, ops), list[p].key, list[p].val);
    }
    FewKeys(list, keys - {key});
  }

  /** A run that has set no more different keys than the cache has room for answers every lookup like a map. */
  lemma {:induction false} RoomKeeps<K, V>(capacity: nat, ops: seq<Op<K, V>>, key: K)
    requires capacity > 0 && |KeysSet(ops)| <= capacity
    ensures Answer(Run(capacity, ops), key) == Recent(ops, key)
    decreases |ops|
  {
    if ops != [] {
      var n := |ops| - 1;
      var before, s := ops[..n], Run(capacity, ops[..n]);
      assert KeysSet(before) <= KeysSet(ops);
      Subset(KeysSet(before), KeysSet(ops));
      RoomKeeps(capacity, before, key);
      assert Run(capacity, ops) == Next(s, ops[n], capacity);
      match ops[n]
      case Set(k, val) =>
        if Answer(s, k) == None { RoomFor(capacity, before, k); }
        SetExactly(s, k, val, capacity, key);
      case Get(k) => GetExactly(s, k, key);
      case Erase(k) => EraseExactly(s, k, key);
    }
  }

  lemma Subset<T>(a: set<T>, b: set<T>)
    requires a <= b
    ensures |a| <= |b|
  {
    assert b == a + (b - a);
  }

  // ---------------------------------------------------------------- which entries go

  /** A key that is set again outlives the next eviction, as long as some other entry has not been hit. */
  lemma SetAgainOutlives<K, V>(capacity: nat, ops: seq<Op<K, V>>, key: K, val: V, other: K, val': V)
    requires capacity > 0 && other != key && Answer(Run(capacity, ops), key).Some?
    requires exists j :: 0 <= j < |Run(capacity, ops + [Set(key, val)]).list| && !Run(capacity, ops + [Set(key, val)]).list[j].visited
    ensures Answer(Run(capacity, ops + [Set(key, val)] + [Set(other, val')]), key) == Some(val)
  {
    var one := ops + [Set(key, val)];
    var two := one + [Set(other, val')];
    assert one[..|ops|] == ops && two[..|one|] == one;
    var s0, s1, s2 := Run(capacity, ops), Run(capacity, one), Run(capacity, two);
    var p := Find(s0.list, key);
    assert s1.list[p].visited && s1.list[p].key == key;
    var q := StoreSpares(s1, p, other, val', capacity);
    assert s2.list[q].key == key && Latest(two)[key] == val;
  }

  /** The operation that inserted the entry of a key. */
  ghost function Since<K, V>(capacity: nat, ops: seq<Op<K, V>>, key: K): (i: nat)
    requires capacity > 0
    ensures i <= |ops| && (ops != [] ==> i < |ops|)
    decreases |ops|
  {
    if ops == [] then 0
    else
      var n := |ops| - 1;
      if ops[n].Set? && ops[n].key == key && Answer(Run(capacity, ops[..n]), key) == None then n else Since(capacity, ops[..n], key)
  }

  /** Since it was inserted the key has not been looked up or set again. */
  ghost predicate Unhit<K, V>(capacity: nat, ops: seq<Op<K, V>>, key: K)
    requires capacity > 0
    decreases |ops|
  {
    ops != [] &&
    var n := |ops| - 1;
    if ops[n].key != key || ops[n].Erase? then Unhit(capacity, ops[..n], key)
    else ops[n].Set? && Answer(Run(capacity, ops[..n]), key) == None
  }

  /** The list has the entries in the order of insertion, the newest first. */
  ghost predicate Ordered<K, V>(capacity: nat, ops: seq<Op<K, V>>, s: Sieve<K, V>)
    requires capacity > 0
  {
    forall p, q :: 0 <= p < q < |s.list| ==> Since(capacity, ops, s.list[p].key) > Since(capacity, ops, s.list[q].key)
  }

  /** Entries that were not hit are not visited, and the hand has not passed them. */
  ghost predicate Ahead<K, V>(capacity: nat, ops: seq<Op<K, V>>, s: Sieve<K, V>)
    requires capacity > 0
  {
    forall p :: 0 <= p < |s.list| && Unhit(capacity, ops, s.list[p].key) ==> !s.list[p].visited && (s.hand == -1 || p <= s.hand)
  }

  /** Another key is not concerned by the last operation. */
  lemma OtherKey<K, V>(capacity: nat, ops: seq<Op<K, V>>, key: K)
    requires capacity > 0 && ops != [] && ops[|ops| - 1].key != key
    ensures Since(capacity, ops, key) == Since(capacity, ops[..|ops| - 1], key)
    ensures Unhit(capacity, ops, key) <==> Unhit(capacity, ops[..|ops| - 1], key)
  {
  }

  /** Nor does a key that is there already get a new place by it. */
  lemma KnownKey<K, V>(capacity: nat, ops: seq<Op<K, V>>, key: K)
    requires capacity > 0 && ops != [] && Answer(Run(capacity, ops[..|ops| - 1]), key).Some?
    ensures Since(capacity, ops, key) == Since(capacity, ops[..|ops| - 1], key)
    ensures Unhit(capacity, ops, key) ==> Unhit(capacity, ops[..|ops| - 1], key)
    ensures ops[|ops| - 1].key == key && !ops[|ops| - 1].Erase? ==> !Unhit(capacity, ops, key)
  {
  }

  /** Every entry of the list is known. */
  lemma ListedKnown<K, V>(s: Sieve<K, V>, p: nat)
    requires DistinctKeys(s.list) && p < |s.list|
    ensures Answer(s, s.list[p].key).Some?
  {
    HoldsAt(s, p);
    AnswerHolds(s, s.list[p].key, s.list[p].val);
  }

  /** Every entry of `s'` was one of `s`, in the same order. */
  ghost predicate Follows<K, V>(s: Sieve<K, V>, s': Sieve<K, V>, from: seq<nat>) {
    && |from| == |s'.list|
    && (forall q :: 0 <= q < |from| ==> from[q] < |s.list| && s'.list[q].key == s.list[from[q]].key)
    && (forall p, q :: 0 <= p < q < |from| ==> from[p] < from[q])
  }

  lemma FollowsOrdered<K, V>(capacity: nat, ops: seq<Op<K, V>>, s': Sieve<K, V>, from: seq<nat>)
    requires capacity > 0 && ops != []
    requires Ordered(capacity, ops[..|ops| - 1], Run(capacity, ops[..|ops| - 1]))
    requires Follows(Run(capacity, ops[..|ops| - 1]), s', from)
    ensures Ordered(capacity, ops, s')
  {
    var before := ops[..|ops| - 1];
    var s := Run(capacity, before);
    forall p, q | 0 <= p < q < |s'.list|
      ensures Since(capacity, ops, s'.list[p].key) > Since(capacity, ops, s'.list[q].key)
    {
      ListedKnown(s, from[p]);
      ListedKnown(s, from[q]);
      KnownKey(capacity, ops, s.list[from[p]].key);
      KnownKey(capacity, ops, s.list[from[q]].key);
    }
  }

  /** A new entry in front is newer than all others. */
  lemma InsertedOrdered<K, V>(capacity: nat, ops: seq<Op<K, V>>, s1: Sieve<K, V>, key: K, val: V)
    requires capacity > 0 && ops != [] && ops[|ops| - 1] == Set(key, val)
    requires Answer(Run(capacity, ops[..|ops| - 1]), key) == None && Ordered(capacity, ops, s1)
    requires forall p :: 0 <= p < |s1.list| ==> s1.list[p].key != key
    requires s1.list != [] ==> |ops| > 1
    ensures Ordered(capacity, ops, Inserted(s1, key, val))
  {
    var s' := Inserted(s1, key, val);
    assert forall p :: 0 < p < |s'.list| ==> s'.list[p] == s1.list[p - 1];
    assert Since(capacity, ops, key) == |ops| - 1;
    forall p | 0 <= p < |s1.list|
      ensures Since(capacity, ops, s1.list[p].key) < |ops| - 1
    {
      OtherKey(capacity, ops, s1.list[p].key);
    }
  }

  /** What the eviction leaves. */
  function Survivors(n: nat, v: nat): seq<nat> {
    seq(if n == 0 then 0 else n - 1, q requires q >= 0 => if q < v then q else q + 1)
  }

  lemma EvictedFollows<K, V>(s: Sieve<K, V>)
    requires CanEvict(s)
    ensures Follows(s, Evicted(s), Survivors(|s.list|, Victim(s)))
  {
    EvictedSize(s);
    forall q | 0 <= q < |s.list| - 1
      ensures Evicted(s).list[q].key == s.list[Survivors(|s.list|, Victim(s))[q]].key
    {
      EvictedAt(s, q);
    }
  }

  lemma ErasedFollows<K, V>(s: Sieve<K, V>, key: K)
    requires Find(s.list, key) >= 0
    ensures Follows(s, Erased(s, key), Survivors(|s.list|, Find(s.list, key)))
  {
    WithoutAt(s.list, Find(s.list, key));
  }

  function Identity(n: nat): seq<nat> {
    seq(n, q requires q >= 0 => q)
  }

  lemma RunLacks<K, V>(capacity: nat, ops: seq<Op<K, V>>, s1: Sieve<K, V>, key: K, from: seq<nat>)
    requires capacity > 0 && Answer(Run(capacity, ops), key) == None && Follows(Run(capacity, ops), s1, from)
    ensures forall p :: 0 <= p < |s1.list| ==> s1.list[p].key != key
    ensures s1.list != [] ==> ops != []
  {
    var s := Run(capacity, ops);
    forall p | 0 <= p < |s1.list|
      ensures s1.list[p].key != key
    {
      ListedKnown(s, from[p]);
    }
    if s1.list != [] { assert from[0] < |s.list|; }
  }

  lemma {:induction false} RunOrdered<K, V>(capacity: nat, ops: seq<Op<K, V>>)
    requires capacity > 0
    ensures Ordered(capacity, ops, Run(capacity, ops))
    decreases |ops|
  {
    if ops != [] {
      var n := |ops| - 1;
      var s := Run(capacity, ops[..n]);
      RunOrdered(capacity, ops[..n]);
      match ops[n]
      case Set(key, val) => StoredOrdered(capacity, ops, key, val);
      case Get(key) => FollowsOrdered(capacity, ops, Looked(s, key), Identity(|s.list|));
      case Erase(key) => ErasedOrdered(capacity, ops, key);
    }
  }

  lemma ErasedOrdered<K, V>(capacity: nat, ops: seq<Op<K, V>>, key: K)
    requires capacity > 0 && ops != [] && ops[|ops| - 1] == Op<K, V>.Erase(key)
    requires Ordered(capacity, ops[..|ops| - 1], Run(capacity, ops[..|ops| - 1]))
    ensures Ordered(capacity, ops, Erased(Run(capacity, ops[..|ops| - 1]), key))
  {
    var s := Run(capacity, ops[..|ops| - 1]);
    if Find(s.list, key) >= 0 {
      ErasedFollows(s, key);
      FollowsOrdered(capacity, ops, Erased(s, key), Survivors(|s.list|, Find(s.list, key)));
    } else {
      FollowsOrdered(capacity, ops, s, Identity(|s.list|));
    }
  }

  lemma StoredOrdered<K, V>(capacity: nat, ops: seq<Op<K, V>>, key: K, val: V)
    requires capacity > 0 && ops != [] && ops[|ops| - 1] == Set(key, val)
    requires Ordered(capacity, ops[..|ops| - 1], Run(capacity, ops[..|ops| - 1]))
    ensures Ordered(capacity, ops, Stored(Run(capacity, ops[..|ops| - 1]), key, val, capacity))
  {
    var s := Run(capacity, ops[..|ops| - 1]);
    var p := Find(s.list, key);
    if p >= 0 {
      FollowsOrdered(capacity, ops, Stored(s, key, val, capacity), Identity(|s.list|));
    } else {
      var s1, from := s, Identity(|s.list|);
      if |s.list| >= capacity {
        s1, from := Evicted(s), Survivors(|s.list|, Victim(s));
        EvictedFollows(s);
      }
      FollowsOrdered(capacity, ops, s1, from);
      RunLacks(capacity, ops[..|ops| - 1], s1, key, from);
      InsertedOrdered(capacity, ops, s1, key, val);
    }
  }

  // ---------------------------------------------------------------- the hand

  lemma {:induction false} RunAhead<K, V>(capacity: nat, ops: seq<Op<K, V>>)
    requires capacity > 0
    ensures Ahead(capacity, ops, Run(capacity, ops))
    decreases |ops|
  {
    if ops != [] {
      var n := |ops| - 1;
      var s := Run(capacity, ops[..n]);
      RunAhead(capacity, ops[..n]);
      match ops[n]
      case Set(key, val) => StoredAhead(capacity, ops, key, val);
      case Get(key) => MarkedAhead(capacity, ops, Looked(s, key));
      case Erase(key) => ErasedAhead(capacity, ops, key);
    }
  }

  /** The same entries, marked at most at the key. */
  ghost predicate SameBut<K, V>(s: Sieve<K, V>, s': Sieve<K, V>, key: K) {
    && s'.hand == s.hand && |s'.list| == |s.list|
    && forall p :: 0 <= p < |s.list| ==>
         s'.list[p].key == s.list[p].key && (s.list[p].key != key ==> s'.list[p].visited == s.list[p].visited)
  }

  /** Marking the entry of the key of the operation. */
  lemma MarkedAhead<K, V>(capacity: nat, ops: seq<Op<K, V>>, s': Sieve<K, V>)
    requires capacity > 0 && ops != [] && !ops[|ops| - 1].Erase?
    requires Ahead(capacity, ops[..|ops| - 1], Run(capacity, ops[..|ops| - 1]))
    requires SameBut(Run(capacity, ops[..|ops| - 1]), s', ops[|ops| - 1].key)
    ensures Ahead(capacity, ops, s')
  {
    var s := Run(capacity, ops[..|ops| - 1]);
    forall p | 0 <= p < |s'.list| && Unhit(capacity, ops, s'.list[p].key)
      ensures !s'.list[p].visited && (s'.hand == -1 || p <= s'.hand)
    {
      ListedKnown(s, p);
      KnownKey(capacity, ops, s.list[p].key);
    }
  }

  lemma ErasedAhead<K, V>(capacity: nat, ops: seq<Op<K, V>>, key: K)
    requires capacity > 0 && ops != [] && ops[|ops| - 1] == Op<K, V>.Erase(key)
    requires Ahead(capacity, ops[..|ops| - 1], Run(capacity, ops[..|ops| - 1]))
    ensures Ahead(capacity, ops, Erased(Run(capacity, ops[..|ops| - 1]), key))
  {
    var s := Run(capacity, ops[..|ops| - 1]);
    var s' := Erased(s, key);
    var x := Find(s.list, key);
    if x >= 0 { WithoutAt(s.list, x); }
    forall q | 0 <= q < |s'.list| && Unhit(capacity, ops, s'.list[q].key)
      ensures !s'.list[q].visited && (s'.hand == -1 || q <= s'.hand)
    {
      var p := if x < 0 || q < x then q else q + 1;
      assert s'.list[q] == s.list[p];
      ListedKnown(s, p);
      KnownKey(capacity, ops, s.list[p].key);
    }
  }

  /** An eviction does not pass an entry that was not hit. */
  lemma EvictedAhead<K, V>(capacity: nat, ops: seq<Op<K, V>>, s: Sieve<K, V>)
    requires capacity > 0 && CanEvict(s) && Ahead(capacity, ops, s)
    ensures Ahead(capacity, ops, Evicted(s))
  {
    EvictedSize(s);
    var v := Victim(s);
    forall q | 0 <= q < |Evicted(s).list| && Unhit(capacity, ops, Evicted(s).list[q].key)
      ensures !Evicted(s).list[q].visited && (Evicted(s).hand == -1 || q <= Evicted(s).hand)
    {
      var p := if q < v then q else q + 1;
      EvictedAt(s, q);
      VictimBehind(s, p);
    }
  }

  /** Before the hand, nothing unvisited is passed. */
  lemma VictimBehind<K, V>(s: Sieve<K, V>, p: nat)
    requires CanEvict(s) && p < |s.list| && !s.list[p].visited && (s.hand == -1 || p <= s.hand) && p != Victim(s)
    ensures p < Victim(s)
  {
    VictimIsFirst(s, p);
  }

  lemma StoredAhead<K, V>(capacity: nat, ops: seq<Op<K, V>>, key: K, val: V)
    requires capacity > 0 && ops != [] && ops[|ops| - 1] == Set(key, val)
    requires Ahead(capacity, ops[..|ops| - 1], Run(capacity, ops[..|ops| - 1]))
    ensures Ahead(capacity, ops, Stored(Run(capacity, ops[..|ops| - 1]), key, val, capacity))
  {
    var before := ops[..|ops| - 1];
    var s := Run(capacity, before);
    var p := Find(s.list, key);
    if p >= 0 {
      MarkedAhead(capacity, ops, Stored(s, key, val, capacity));
    } else {
      var s1 := s;
      if |s.list| >= capacity {
        s1 := Evicted(s);
        EvictedAhead(capacity, before, s);
        EvictedFollows(s);
        RunLacks(capacity, before, s1, key, Survivors(|s.list|, Victim(s)));
      } else {
        RunLacks(capacity, before, s1, key, Identity(|s.list|));
      }
      InsertedAhead(capacity, ops, s1, key, val);
    }
  }

  lemma InsertedAhead<K, V>(capacity: nat, ops: seq<Op<K, V>>, s1: Sieve<K, V>, key: K, val: V)
    requires capacity > 0 && ops != [] && ops[|ops| - 1].key == key && Ahead(capacity, ops[..|ops| - 1], s1)
    requires -1 <= s1.hand && forall p :: 0 <= p < |s1.list| ==> s1.list[p].key != key
    ensures Ahead(capacity, ops, Inserted(s1, key, val))
  {
    var s' := Inserted(s1, key, val);
    forall p | 0 <= p < |s'.list| && Unhit(capacity, ops, s'.list[p].key)
      ensures !s'.list[p].visited && (s'.hand == -1 || p <= s'.hand)
    {
      if p > 0 {
        assert s'.list[p] == s1.list[p - 1];
        OtherKey(capacity, ops, s1.list[p - 1].key);
      }
    }
  }

  /** Over any run: if the entry that an eviction takes was never hit, it is the oldest of those that were not. */
  lemma OldestGoes<K, V>(capacity: nat, ops: seq<Op<K, V>>, p: nat)
    requires capacity > 0 && var s := Run(capacity, ops);
      p < |s.list| && p != Victim(s) && Unhit(capacity, ops, s.list[p].key) && Unhit(capacity, ops, s.list[Victim(s)].key)
    ensures var s := Run(capacity, ops);
      Since(capacity, ops, s.list[p].key) > Since(capacity, ops, s.list[Victim(s)].key)
  {
    RunOrdered(capacity, ops);
    RunAhead(capacity, ops);
    VictimBehind(Run(capacity, ops), p);
  }

  /** While some entry was never hit, the entry that goes was not hit since the hand last passed it. */
  lemma UnvisitedGoes<K, V>(capacity: nat, ops: seq<Op<K, V>>, p: nat)
    requires capacity > 0 && p < |Run(capacity, ops).list| && Unhit(capacity, ops, Run(capacity, ops).list[p].key)
    ensures var s := Run(capacity, ops); !s.list[Victim(s)].visited && p <= Victim(s)
  {
    var s := Run(capacity, ops);
    RunAhead(capacity, ops);
    VictimIsFirst(s, p);
    if p != Victim(s) { VictimBehind(s, p); }
  }
}
