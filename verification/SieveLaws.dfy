/** What the SIEVE cache promises: which entry an eviction takes, what it costs, and that no answer is stale. */
module SieveLaws {
  import opened Text
  import opened Collections
  import opened Counting
  import opened SieveCache

  // ---------------------------------------------------------------- eviction

  ghost predicate CanEvict<K, V>(s: Sieve<K, V>) {
    s.list != [] && -1 <= s.hand < |s.list|
  }

  /** The victim is the first entry that is not visited, going back from the hand; the entry
      under the hand when all are visited. */
  lemma VictimIsFirst<K, V>(s: Sieve<K, V>, p: nat)
    requires CanEvict(s) && p < |s.list|
    ensures !s.list[p].visited ==>
              !s.list[Victim(s)].visited && Distance(From(s), Victim(s), |s.list|) <= Distance(From(s), p, |s.list|)
    ensures (forall q :: 0 <= q < |s.list| ==> s.list[q].visited) ==> Victim(s) == From(s)
  {
    var n := |s.list|;
    if !s.list[p].visited {
      assert Back(From(s), Distance(From(s), p, n), n) == p;
    }
  }

  /** The sweep ended before it came to position `p`. */
  ghost predicate Spared<K, V>(s: Sieve<K, V>, p: nat)
    requires CanEvict(s) && p < |s.list|
  {
    && (exists q :: 0 <= q < |s.list| && !s.list[q].visited)
    && Distance(From(s), Victim(s), |s.list|) < Distance(From(s), p, |s.list|)
  }

  /** The others stay, in order; exactly the flags between the hand and the victim are cleared. */
  lemma SurvivorsStay<K, V>(s: Sieve<K, V>, p: nat)
    requires CanEvict(s) && p < |s.list| && p != Victim(s)
    ensures |Evicted(s).list| == |s.list| - 1
    ensures Evicted(s).list[if p < Victim(s) then p else p - 1] ==
              s.list[p].(visited := s.list[p].visited && Spared(s, p))
  {
    var n := |s.list|;
    WithoutAt(Cleared(s.list, From(s), Passes(s)), Victim(s));
    forall q | 0 <= q < n
      ensures Passes(s) == n ==> s.list[q].visited
    {
      assert Back(From(s), Distance(From(s), q, n), n) == q;
    }
    assert Passes(s) < n ==> !s.list[Victim(s)].visited && Distance(From(s), Victim(s), n) == Passes(s);
  }

  /** An entry that was just hit outlives the next eviction, as long as another one is not visited. */
  lemma HitSurvives<K, V>(s: Sieve<K, V>, p: nat)
    requires CanEvict(s) && p < |s.list| && s.list[p].visited
    requires exists q :: 0 <= q < |s.list| && !s.list[q].visited
    ensures p != Victim(s) && |Evicted(s).list| == |s.list| - 1
    ensures var e := Evicted(s).list[if p < Victim(s) then p else p - 1]; e.key == s.list[p].key && e.val == s.list[p].val
  {
    var q :| 0 <= q < |s.list| && !s.list[q].visited;
    VictimIsFirst(s, q);
    SurvivorsStay(s, p);
  }

  function Shift(p: nat, x: nat): nat {
    if p > x then p - 1 else p
  }

  /** Removing position `x` from the circle keeps the order in which the others are passed. */
  lemma ShiftDistance<K, V>(s: Sieve<K, V>, x: nat, p: nat)
    requires CanEvict(s) && x < |s.list| && p < |s.list| && p != x
    ensures var s' := Removed(s, x); var n := |s.list|;
      && CanEvict(s') && Shift(p, x) < |s'.list| == n - 1
      && Distance(From(s'), Shift(p, x), n - 1)
         == Distance(From(s), p, n) - (if Distance(From(s), x, n) < Distance(From(s), p, n) then 1 else 0)
  {
  }

  function Removed<K, V>(s: Sieve<K, V>, x: nat): Sieve<K, V>
    requires x < |s.list|
  {
    Sieve(Without(s.list, x), if s.hand >= x then s.hand - 1 else s.hand)
  }

  /** The victim after a removal, as a position before it; it is passed no later than the old victim. */
  lemma RemovedVictim<K, V>(s: Sieve<K, V>, x: nat, v: nat) returns (u: nat)
    requires CanEvict(s) && x < |s.list| && v < |s.list| && v != x && !s.list[v].visited && CanEvict(Removed(s, x))
    ensures u < |s.list| && u != x && Shift(u, x) == Victim(Removed(s, x))
    ensures Removed(s, x).list[Victim(Removed(s, x))] == s.list[u] && !s.list[u].visited
    ensures |Removed(s, x).list| == |s.list| - 1 && Shift(v, x) < |s.list| - 1
    ensures Distance(From(Removed(s, x)), Shift(u, x), |s.list| - 1) <= Distance(From(Removed(s, x)), Shift(v, x), |s.list| - 1)
  {
    var s' := Removed(s, x);
    WithoutAt(s.list, x);
    assert s'.list[Shift(v, x)] == s.list[v];
    VictimIsFirst(s', Shift(v, x));
    u := if Victim(s') < x then Victim(s') else Victim(s') + 1;
  }

  lemma RemoveKeepsTurn<K, V>(s: Sieve<K, V>, x: nat, v: nat)
    requires CanEvict(s) && x < |s.list| && v == Victim(s) != x && !s.list[v].visited
    ensures CanEvict(Removed(s, x)) && Removed(s, x).list[Victim(Removed(s, x))] == s.list[v]
  {
    ShiftDistance(s, x, v);
    var u := RemovedVictim(s, x, v);
    ShiftDistance(s, x, u);
    VictimIsFirst(s, u);
    SameDistance(From(s), u, v, |s.list|);
    SameDistance(From(s), x, v, |s.list|);
  }

  /** When all are visited it is the turn of the entry under the hand. */
  lemma RemoveKeepsHand<K, V>(s: Sieve<K, V>, x: nat)
    requires CanEvict(s) && x < |s.list| && From(s) != x
    requires forall q :: 0 <= q < |s.list| ==> s.list[q].visited
    ensures CanEvict(Removed(s, x)) && Removed(s, x).list[Victim(Removed(s, x))] == s.list[Victim(s)]
  {
    var s' := Removed(s, x);
    WithoutAt(s.list, x);
    assert forall q :: 0 <= q < |s'.list| ==> s'.list[q].visited;
    VictimIsFirst(s, 0);
    VictimIsFirst(s', 0);
  }

  /** Erasing an entry that is not the next victim does not change whose turn it is: the next victim stays the same.
      This is why the hand steps back when its own entry is erased. */
  lemma EraseKeepsTurn<K, V>(s: Sieve<K, V>, key: K)
    requires CanEvict(s) && s.list[Victim(s)].key != key
    ensures CanEvict(Erased(s, key)) && Erased(s, key).list[Victim(Erased(s, key))] == s.list[Victim(s)]
  {
    var x := Find(s.list, key);
    if x == -1 {
    } else if q :| 0 <= q < |s.list| && !s.list[q].visited {
      VictimIsFirst(s, q);
      RemoveKeepsTurn(s, x, Victim(s));
    } else {
      VictimIsFirst(s, 0);
      RemoveKeepsHand(s, x);
    }
  }

  lemma SameDistance(i: nat, p: nat, q: nat, n: nat)
    requires i < n && p < n && q < n
    ensures Distance(i, p, n) == Distance(i, q, n) ==> p == q
  {
  }

  predicate IsVisited<K, V>(e: Entry<K, V>) { e.visited }

  lemma {:induction false} ClearedCount<K, V>(list: seq<Entry<K, V>>, i: nat, d: nat)
    requires i < |list| && d <= |list| && forall j :: 0 <= j < d ==> list[Back(i, j, |list|)].visited
    ensures Count(Cleared(list, i, d), IsVisited) + d == Count(list, IsVisited)
  {
    if d == 0 {
      assert Cleared(list, i, d) == list;
    } else {
      ClearedCount(list, i, d - 1);
      var p := Back(i, d - 1, |list|);
      var before := Cleared(list, i, d - 1);
      assert before[p] == list[p];
      assert Cleared(list, i, d) == before[p := list[p].(visited := false)];
      CountUpdate(before, p, list[p].(visited := false), IsVisited);
    }
  }

  lemma {:induction false} CountWithout<T>(s: seq<T>, p: nat, f: T -> bool)
    requires p < |s|
    ensures Count(Without(s, p), f) == Count(s, f) - One(f(s[p]))
  {
    var n := |s| - 1;
    if p == n {
      assert Without(s, p) == s[..n];
    } else {
      assert Without(s, p)[..n - 1] == Without(s[..n], p);
      CountWithout(s[..n], p, f);
    }
  }

  /** Every entry the eviction passes costs one flag: it ends within one lap. */
  lemma EvictionPaysFlags<K, V>(s: Sieve<K, V>)
    requires CanEvict(s)
    ensures Count(Evicted(s).list, IsVisited) + Passes(s) == Count(s.list, IsVisited)
  {
    var n := |s.list|;
    ClearedCount(s.list, From(s), Passes(s));
    var cleared := Cleared(s.list, From(s), Passes(s));
    assert !cleared[Victim(s)].visited;
    CountWithout(cleared, Victim(s), IsVisited);
  }

  // ---------------------------------------------------------------- runs

  datatype Op<K, V> = Set(key: K, val: V) | Get(key: K) | Erase(key: K)

  function Next<K(==), V>(s: Sieve<K, V>, op: Op<K, V>, capacity: nat): Sieve<K, V>
    requires Sound(s, capacity) && capacity > 0
  {
    match op
    case Set(key, val) => Stored(s, key, val, capacity)
    case Get(key) => Looked(s, key)
    case Erase(key) => Erased(s, key)
  }

  /** The value each key was last set to, as long as it was not erased since. */
  function Latest<K(==), V>(ops: seq<Op<K, V>>): map<K, V> {
    if ops == [] then map[]
    else
      var before := Latest(ops[..|ops| - 1]);
      match ops[|ops| - 1]
      case Set(key, val) => before[key := val]
      case Get(_) => before
      case Erase(key) => before - {key}
  }

  ghost predicate Fresh<K, V>(s: Sieve<K, V>, latest: map<K, V>) {
    forall p :: 0 <= p < |s.list| ==> s.list[p].key in latest && latest[s.list[p].key] == s.list[p].val
  }

  ghost predicate Lacks<K, V>(s: Sieve<K, V>, key: K) {
    forall p :: 0 <= p < |s.list| ==> s.list[p].key != key
  }

  lemma WithoutKeeps<K, V>(list: seq<Entry<K, V>>, p: nat, latest: map<K, V>)
    requires DistinctKeys(list) && p < |list| && Fresh(Sieve(list, -1), latest)
    ensures DistinctKeys(Without(list, p)) && |Without(list, p)| == |list| - 1
    ensures Fresh(Sieve(Without(list, p), -1), latest - {list[p].key})
    ensures Fresh(Sieve(Without(list, p), -1), latest)
  {
    WithoutAt(list, p);
  }

  lemma EvictedKeeps<K, V>(s: Sieve<K, V>, latest: map<K, V>, capacity: nat)
    requires Sound(s, capacity) && s.list != [] && Fresh(s, latest)
    ensures Sound(Evicted(s), capacity) && Fresh(Evicted(s), latest) && |Evicted(s).list| == |s.list| - 1
    ensures forall key :: Lacks(s, key) ==> Lacks(Evicted(s), key)
  {
    var cleared := Cleared(s.list, From(s), Passes(s));
    assert Fresh(Sieve(cleared, -1), latest);
    WithoutKeeps(cleared, Victim(s), latest);
    WithoutAt(cleared, Victim(s));
  }

  lemma InsertedKeeps<K, V>(s: Sieve<K, V>, key: K, val: V, latest: map<K, V>, capacity: nat)
    requires Sound(s, capacity) && |s.list| < capacity && Fresh(s, latest)
    requires Lacks(s, key)
    ensures Sound(Inserted(s, key, val), capacity) && Fresh(Inserted(s, key, val), latest[key := val])
  {
    assert forall p :: 0 < p < |s.list| + 1 ==> Inserted(s, key, val).list[p] == s.list[p - 1];
  }

  lemma StoredKeeps<K, V>(s: Sieve<K, V>, key: K, val: V, latest: map<K, V>, capacity: nat)
    requires Sound(s, capacity) && Fresh(s, latest) && capacity > 0
    ensures var s' := Stored(s, key, val, capacity); Sound(s', capacity) && Fresh(s', latest[key := val])
  {
    if Find(s.list, key) == -1 {
      var s1 := if |s.list| >= capacity then Evicted(s) else s;
      if |s.list| >= capacity { EvictedKeeps(s, latest, capacity); }
      InsertedKeeps(s1, key, val, latest, capacity);
    }
  }

  lemma NextKeeps<K, V>(s: Sieve<K, V>, op: Op<K, V>, latest: map<K, V>, capacity: nat)
    requires Sound(s, capacity) && Fresh(s, latest) && capacity > 0
    ensures var s' := Next(s, op, capacity);
      Sound(s', capacity) && Fresh(s', match op case Set(k, v) => latest[k := v] case Get(_) => latest case Erase(k) => latest - {k})
  {
    match op
    case Set(key, val) => StoredKeeps(s, key, val, latest, capacity);
    case Get(_) =>
    case Erase(key) => if Find(s.list, key) != -1 { WithoutKeeps(s.list, Find(s.list, key), latest); }
  }

  /** The state after any run on a new cache. The index and the list hold distinct keys, the size is at most the
      capacity, the hand is at the end or on a live entry, and every value is the latest one. */
  ghost function Run<K, V>(capacity: nat, ops: seq<Op<K, V>>): (s: Sieve<K, V>)
    requires capacity > 0
    ensures Sound(s, capacity) && Fresh(s, Latest(ops))
    decreases |ops|
  {
    if ops == [] then Sieve([], -1)
    else
      var n := |ops| - 1;
      NextKeeps(Run(capacity, ops[..n]), ops[n], Latest(ops[..n]), capacity);
      Next(Run(capacity, ops[..n]), ops[n], capacity)
  }

  /** No run makes a lookup answer a stale value. */
  lemma NeverStale<K, V>(capacity: nat, ops: seq<Op<K, V>>, key: K)
    requires capacity > 0
    ensures var r := Answer(Run(capacity, ops), key); r.Some? ==> key in Latest(ops) && Latest(ops)[key] == r.value
  {
  }

  /** The key just set is answered with its value. */
  lemma SetThenGet<K, V>(capacity: nat, ops: seq<Op<K, V>>, key: K, val: V)
    requires capacity > 0
    ensures Answer(Run(capacity, ops + [Set(key, val)]), key) == Some(val)
  {
    var more := ops + [Set(key, val)];
    assert more[..|more| - 1] == ops;
    var s := Run(capacity, ops);
    var s' := Stored(s, key, val, capacity);
    assert s' == Run(capacity, more);
    var p := Find(s.list, key);
    if p == -1 {
      assert s'.list[0].key == key;
    } else {
      assert s'.list[p].key == key;
    }
    assert Latest(more)[key] == val;
  }

  /** Setting another key keeps a marked one, as long as an unmarked one can go instead. */
  lemma StoreSpares<K, V>(s: Sieve<K, V>, p: nat, key: K, val: V, capacity: nat) returns (q: nat)
    requires Sound(s, capacity) && capacity > 0 && p < |s.list| && s.list[p].visited
    requires exists j :: 0 <= j < |s.list| && !s.list[j].visited
    ensures var s' := Stored(s, key, val, capacity); q < |s'.list| && s'.list[q].key == s.list[p].key
  {
    if Find(s.list, key) >= 0 {
      q := p;
    } else if |s.list| < capacity {
      q := p + 1;
    } else {
      HitSurvives(s, p);
      q := (if p < Victim(s) then p else p - 1) + 1;
    }
  }

  /** A key that was just looked up is still answered after another key has been set,
      as long as some other entry has not been hit. */
  lemma HitOutlivesSet<K, V>(capacity: nat, ops: seq<Op<K, V>>, key: K, other: K, val: V)
    requires capacity > 0 && other != key && Answer(Run(capacity, ops), key).Some?
    requires exists j :: 0 <= j < |Run(capacity, ops + [Get(key)]).list| && !Run(capacity, ops + [Get(key)]).list[j].visited
    ensures Answer(Run(capacity, ops + [Get(key)] + [Set(other, val)]), key) == Answer(Run(capacity, ops), key)
  {
    var one := ops + [Get(key)];
    var two := one + [Set(other, val)];
    assert one[..|ops|] == ops && two[..|one|] == one;
    var s0, s1, s2 := Run(capacity, ops), Run(capacity, one), Run(capacity, two);
    var p := Find(s0.list, key);
    assert s1.list[p].visited && s1.list[p].key == key;
    var q := StoreSpares(s1, p, other, val, capacity);
    assert s2.list[q].key == key && Latest(two)[key] == Latest(ops)[key];
  }

  // ---------------------------------------------------------------- cost

  /** How many entries the evictions of a run pass in all. */
  ghost function Passed<K, V>(capacity: nat, ops: seq<Op<K, V>>): nat
    requires capacity > 0
    decreases |ops|
  {
    if ops == [] then 0
    else
      var n := |ops| - 1;
      var s := Run(capacity, ops[..n]);
      Passed(capacity, ops[..n]) +
      (if ops[n].Set? && Find(s.list, ops[n].key) == -1 && |s.list| >= capacity then Passes(s) else 0)
  }

  /** How many operations of a run find their key. */
  ghost function Hits<K, V>(capacity: nat, ops: seq<Op<K, V>>): nat
    requires capacity > 0
    decreases |ops|
  {
    if ops == [] then 0
    else
      var n := |ops| - 1;
      Hits(capacity, ops[..n]) + One(Find(Run(capacity, ops[..n]).list, ops[n].key) != -1)
  }

  lemma NextPays<K, V>(s: Sieve<K, V>, op: Op<K, V>, capacity: nat)
    requires Sound(s, capacity) && capacity > 0
    ensures Count(Next(s, op, capacity).list, IsVisited) +
            (if op.Set? && Find(s.list, op.key) == -1 && |s.list| >= capacity then Passes(s) else 0)
         <= Count(s.list, IsVisited) + One(Find(s.list, op.key) != -1)
  {
    var p := Find(s.list, op.key);
    if p != -1 {
      match op
      case Set(key, val) => CountUpdate(s.list, p, Entry(key, val, true), IsVisited);
      case Get(_) => CountUpdate(s.list, p, s.list[p].(visited := true), IsVisited);
      case Erase(_) => CountWithout(s.list, p, IsVisited);
    } else if op.Set? {
      var s1 := if |s.list| >= capacity then Evicted(s) else s;
      if |s.list| >= capacity { EvictionPaysFlags(s); }
      CountConcat([Entry(op.key, op.val, false)], s1.list, IsVisited);
    }
  }

  /** Evictions cost no more than the hits before them: constant time per operation over any run. */
  lemma {:induction false} SweepsArePaidFor<K, V>(capacity: nat, ops: seq<Op<K, V>>)
    requires capacity > 0
    ensures Passed(capacity, ops) + Count(Run(capacity, ops).list, IsVisited) <= Hits(capacity, ops)
    decreases |ops|
  {
    if ops == [] {
    } else {
      var n := |ops| - 1;
      SweepsArePaidFor(capacity, ops[..n]);
      NextPays(Run(capacity, ops[..n]), ops[n], capacity);
    }
  }

  // ---------------------------------------------------------------- the class over a run

  lemma RunNext<K, V>(capacity: nat, ops: seq<Op<K, V>>, i: nat)
    requires capacity > 0 && i < |ops|
    ensures Run(capacity, ops[..i + 1]) == Next(Run(capacity, ops[..i]), ops[i], capacity)
  {
    assert ops[..i + 1][..i] == ops[..i];
  }

  method Perform<K(==), V>(c: Cache<K, V>, op: Op<K, V>) returns (answer: Option<V>)
    requires c.Valid()
    modifies c
    ensures c.Valid() && Sound(old(c.View()), c.capacity) && c.View() == Next(old(c.View()), op, c.capacity)
    ensures op.Get? ==> answer == Answer(old(c.View()), op.key)
  {
    c.ViewSound();
    answer := None;
    match op
    case Set(key, val) => c.Set(key, val);
    case Get(key) => answer := c.Get(key);
    case Erase(key) => var _ := c.Erase(key);
  }

  /** The `get`s among the operations are answered as `Run` says. */
  ghost predicate Answers<K, V>(capacity: nat, ops: seq<Op<K, V>>, answers: seq<Option<V>>)
    requires capacity > 0 && |answers| <= |ops|
  {
    forall i :: 0 <= i < |answers| && ops[i].Get? ==> answers[i] == Answer(Run(capacity, ops[..i]), ops[i].key)
  }

  lemma {:induction false} AnswersSnoc<K, V>(capacity: nat, ops: seq<Op<K, V>>, answers: seq<Option<V>>, answer: Option<V>)
    requires capacity > 0 && |answers| < |ops| && Answers(capacity, ops, answers)
    requires ops[|answers|].Get? ==> answer == Answer(Run(capacity, ops[..|answers|]), ops[|answers|].key)
    ensures Answers(capacity, ops, answers + [answer])
  {
  }

  ghost predicate NoneStale<K, V>(ops: seq<Op<K, V>>, answers: seq<Option<V>>)
    requires |answers| == |ops|
  {
    forall i :: 0 <= i < |ops| && ops[i].Get? && answers[i].Some? ==>
      ops[i].key in Latest(ops[..i]) && answers[i].value == Latest(ops[..i])[ops[i].key]
  }

  lemma AnswersFresh<K, V>(capacity: nat, ops: seq<Op<K, V>>, answers: seq<Option<V>>)
    requires capacity > 0 && |answers| == |ops| && Answers(capacity, ops, answers)
    ensures NoneStale(ops, answers)
  {
    forall i | 0 <= i < |ops| && ops[i].Get? && answers[i].Some?
      ensures ops[i].key in Latest(ops[..i]) && answers[i].value == Latest(ops[..i])[ops[i].key]
    {
      NeverStale(capacity, ops[..i], ops[i].key);
    }
  }

  /** Runs the operations on a new cache: each `get` is answered with the latest value or not at all,
      and the cache ends in the state `Run` describes. */
  method Replay<K(==), V>(capacity: nat, ops: seq<Op<K, V>>) returns (c: Cache<K, V>, answers: seq<Option<V>>)
    requires capacity > 0
    ensures c.Valid() && c.View() == Run(capacity, ops)
    ensures |answers| == |ops| && Answers(capacity, ops, answers) && NoneStale(ops, answers)
  {
    c := new Cache<K, V>(capacity);
    answers := [];
    for i := 0 to |ops|
      invariant c.Valid() && c.capacity == capacity && fresh(c)
      invariant c.View() == Run(capacity, ops[..i]) && |answers| == i && Answers(capacity, ops, answers)
    {
      RunNext(capacity, ops, i);
      var answer := Perform(c, ops[i]);
      AnswersSnoc(capacity, ops, answers, answer);
      answers := answers + [answer];
    }
    assert ops[..|ops|] == ops;
    AnswersFresh(capacity, ops, answers);
  }
}
