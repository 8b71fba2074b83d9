/**
  `http::router` of `src/http/router.cpp`.

  The class keeps the tree in a sequence of nodes: a child is named by its position, where the
  source refers to it. `Table` is what the tree means: for every sequence of segments that leads to a node, the name of its
  wildcard and its handlers. Methods and handlers are parameters.
 */
module Router {
  import opened Text
  import opened Collections
  import StringUtil

  datatype Segment = Lit(part: string) | Wild

  type Pattern = seq<Segment>

  datatype Entry<M, H> = Entry(wildName: Option<string>, handlers: map<M, H>)

  type Table<M, H> = map<Pattern, Entry<M, H>>

  datatype Outcome<H> = Handled(handler: H) | NotFound | MethodNotAllowed

  datatype Place = At(path: Pattern) | EmptyName | MismatchedName

  /** A leading slash is dropped, the rest is split at slashes. */
  function Parts(route: string): (parts: seq<string>) {
    StringUtil.Split(if |route| > 0 && route[0] == '/' then route[1..] else route, '/')
  }

  predicate IsWild(part: string) {
    |part| > 0 && part[0] == ':'
  }

  function SegmentOf(part: string): Segment {
    if IsWild(part) then Wild else Lit(part)
  }

  // ---------------------------------------------------------------- registering

  function Empty<M, H>(): Entry<M, H> {
    Entry(None, map[])
  }

  /** Makes sure that there is an entry. */
  function Reserve<M, H>(t: Table<M, H>, p: Pattern): Table<M, H> {
    if p in t then t else t[p := Empty()]
  }

  /** Why a part cannot be registered after `p`, or where it leads. */
  function Follow<M, H>(t: Table<M, H>, p: Pattern, part: string): Place
    requires p in t
  {
    if !IsWild(part) then At(p + [Lit(part)])
    else if |part| == 1 then EmptyName
    else if t[p].wildName.Some? && t[p].wildName.value != part[1..] then MismatchedName
    else At(p + [Wild])
  }

  function Extend<M, H>(t: Table<M, H>, p: Pattern, part: string): Table<M, H>
    requires p in t && Follow(t, p, part).At?
  {
    Reserve(if IsWild(part) then t[p := t[p].(wildName := Some(part[1..]))] else t, p + [SegmentOf(part)])
  }

  /** Walks down from `p`, adding what is missing; a part that is refused ends the walk and what was added stays. */
  function Descend<M, H>(t: Table<M, H>, p: Pattern, parts: seq<string>): (r: (Table<M, H>, Place))
    requires p in t
    ensures r.1.At? ==> r.1.path in r.0
    decreases |parts|
  {
    if parts == [] then (t, At(p))
    else if !Follow(t, p, parts[0]).At? then (t, Follow(t, p, parts[0]))
    else Descend(Extend(t, p, parts[0]), p + [SegmentOf(parts[0])], parts[1..])
  }

  function Registered<M, H>(t: Table<M, H>, verb: M, parts: seq<string>, h: H): (Table<M, H>, Place)
    requires [] in t
  {
    var (t', at) := Descend(t, [], parts);
    if at.At? then (t'[at.path := t'[at.path].(handlers := t'[at.path].handlers[verb := h])], at) else (t', at)
  }

  // ---------------------------------------------------------------- dispatch

  /** The greedy walk: a literal child before the wildcard, and no way back. */
  function Walk<M, H>(t: Table<M, H>, p: Pattern, parts: seq<string>): Option<Pattern>
    decreases |parts|
  {
    if parts == [] then Some(p)
    else if p + [Lit(parts[0])] in t then Walk(t, p + [Lit(parts[0])], parts[1..])
    else if p + [Wild] in t then Walk(t, p + [Wild], parts[1..])
    else None
  }

  function Serve<M, H>(t: Table<M, H>, verb: M, parts: seq<string>): Outcome<H> {
    match Walk(t, [], parts)
    case None => NotFound
    case Some(p) => if p in t && verb in t[p].handlers then Handled(t[p].handlers[verb]) else MethodNotAllowed
  }

  // ---------------------------------------------------------------- the tree

  datatype Node<M, H> = Node(children: map<string, nat>, wildcard: Option<nat>, wildcardName: string, handlers: map<M, H>)

  function NewNode<M, H>(): Node<M, H> {
    Node(map[], None, "", map[])
  }

  function Child<M, H>(node: Node<M, H>, seg: Segment): Option<nat> {
    match seg
    case Lit(s) => if s in node.children then Some(node.children[s]) else None
    case Wild => node.wildcard
  }

  /** The node with a link; the name is that of the wildcard. */
  function WithChild<M, H>(node: Node<M, H>, seg: Segment, id: nat, name: string): Node<M, H> {
    match seg
    case Lit(s) => node.(children := node.children[s := id])
    case Wild => node.(wildcard := Some(id), wildcardName := name)
  }

  /** Different paths lead to different nodes. */
  ghost predicate Inside<M, H>(nodes: seq<Node<M, H>>, index: map<Pattern, nat>) {
    && (forall p :: p in index ==> index[p] < |nodes|)
    && (forall p, q :: p in index && q in index && index[p] == index[q] ==> p == q)
  }

  /** `index` says which node a path leads to; the links of the nodes agree with it. */
  ghost predicate Tree<M, H>(nodes: seq<Node<M, H>>, index: map<Pattern, nat>) {
    [] in index && index[[]] == 0 && Inside(nodes, index) && Links(nodes, index)
  }

  ghost predicate Links<M, H>(nodes: seq<Node<M, H>>, index: map<Pattern, nat>)
    requires Inside(nodes, index)
  {
    forall k: nat {:trigger Look(k)} :: k == |nodes| && Look(k) ==>
      && (forall p, seg :: p + [seg] in index ==> p in index)
      && (forall p :: p in index ==> Linked(nodes[index[p]], index, p))
  }

  lemma LinkedAt<M, H>(nodes: seq<Node<M, H>>, index: map<Pattern, nat>, p: Pattern)
    requires Tree(nodes, index) && p in index
    ensures Linked(nodes[index[p]], index, p)
    ensures p + [Wild] in index <==> nodes[index[p]].wildcard.Some?
    ensures p + [Wild] in index ==> index[p + [Wild]] == nodes[index[p]].wildcard.value
  {
    assert Look(|nodes|) && Child(nodes[index[p]], Wild) == nodes[index[p]].wildcard;
  }

  lemma LinkedPart<M, H>(nodes: seq<Node<M, H>>, index: map<Pattern, nat>, p: Pattern, s: string)
    requires Tree(nodes, index) && p in index
    ensures p + [Lit(s)] in index <==> s in nodes[index[p]].children
    ensures p + [Lit(s)] in index ==> index[p + [Lit(s)]] == nodes[index[p]].children[s]
  {
    LinkedAt(nodes, index, p);
    assert Child(nodes[index[p]], Lit(s)) == if p + [Lit(s)] in index then Some(index[p + [Lit(s)]]) else None;
  }

  ghost predicate Linked<M, H>(node: Node<M, H>, index: map<Pattern, nat>, p: Pattern) {
    forall seg :: Child(node, seg) == if p + [seg] in index then Some(index[p + [seg]]) else None
  }

  function EntryOf<M, H>(node: Node<M, H>): Entry<M, H> {
    Entry(if node.wildcard.Some? then Some(node.wildcardName) else None, node.handlers)
  }

  ghost function TableOf<M, H>(nodes: seq<Node<M, H>>, index: map<Pattern, nat>): Table<M, H>
    requires Inside(nodes, index)
  {
    map p | p in index :: EntryOf(nodes[index[p]])
  }

  lemma AppendOne(p: Pattern, q: Pattern, a: Segment, b: Segment)
    requires p + [a] == q + [b]
    ensures p == q && a == b
  {
    assert (p + [a])[..|p|] == p && (q + [b])[..|q|] == q;
    assert (p + [a])[|p|] == a && (q + [b])[|q|] == b;
  }

  function Grown<M, H>(nodes: seq<Node<M, H>>, i: nat, seg: Segment, name: string): seq<Node<M, H>>
    requires i < |nodes|
  {
    nodes[i := WithChild(nodes[i], seg, |nodes|, name)] + [NewNode()]
  }

  lemma LinkedGrown<M, H>(nodes: seq<Node<M, H>>, index: map<Pattern, nat>, p: Pattern, seg: Segment, name: string, q: Pattern)
    requires Tree(nodes, index) && p in index && p + [seg] !in index
    requires q in index || q == p + [seg]
    ensures var id := if q in index then index[q] else |nodes|;
      Linked(Grown(nodes, index[p], seg, name)[id], index[p + [seg] := |nodes|], q)
  {
    assert Look(|nodes|);
    forall x
      ensures q + [x] == p + [seg] ==> q == p && x == seg
    {
      if q + [x] == p + [seg] { AppendOne(q, p, x, seg); }
    }
    assert q == p + [seg] ==> q != p && forall x :: q + [x] !in index;
  }

  /** A new node, linked below the one that `p` leads to. */
  lemma TreeGrown<M, H>(nodes: seq<Node<M, H>>, index: map<Pattern, nat>, p: Pattern, seg: Segment, name: string)
    requires Tree(nodes, index) && p in index && p + [seg] !in index
    ensures Tree(Grown(nodes, index[p], seg, name), index[p + [seg] := |nodes|])
  {
    var nodes', index' := Grown(nodes, index[p], seg, name), index[p + [seg] := |nodes|];
    forall q | q in index'
      ensures Linked(nodes'[index'[q]], index', q)
    {
      LinkedGrown(nodes, index, p, seg, name, q);
    }
    assert Look(|nodes|);
    forall q, x | q + [x] in index'
      ensures q in index'
    {
      if q + [x] == p + [seg] { AppendOne(q, p, x, seg); }
    }
  }

  /** What the table says of `p` after a link for `seg` was added below it. */
  function Named<M, H>(t: Table<M, H>, p: Pattern, seg: Segment, name: string): Table<M, H>
    requires p in t
  {
    if seg == Wild then t[p := t[p].(wildName := Some(name))] else t
  }

  lemma EntryGrown<M, H>(nodes: seq<Node<M, H>>, index: map<Pattern, nat>, p: Pattern, seg: Segment, name: string, q: Pattern)
    requires Inside(nodes, index) && p in index && q in index
    ensures EntryOf(Grown(nodes, index[p], seg, name)[index[q]]) == Named(TableOf(nodes, index), p, seg, name)[q]
  {
  }

  lemma TableGrown<M, H>(nodes: seq<Node<M, H>>, index: map<Pattern, nat>, p: Pattern, seg: Segment, name: string)
    requires Inside(nodes, index) && p in index && p + [seg] !in index
    requires Inside(Grown(nodes, index[p], seg, name), index[p + [seg] := |nodes|])
    ensures TableOf(Grown(nodes, index[p], seg, name), index[p + [seg] := |nodes|])
         == Named(TableOf(nodes, index), p, seg, name)[p + [seg] := Empty()]
  {
    var nodes', q := Grown(nodes, index[p], seg, name), p + [seg];
    var t, t' := TableOf(nodes, index), TableOf(nodes', index[q := |nodes|]);
    var named := Named(t, p, seg, name);
    forall k | k in t'
      ensures t'[k] == named[q := Empty()][k]
    {
      if k != q { EntryGrown(nodes, index, p, seg, name, k); }
    }
    SameMap(t', named[q := Empty()]);
  }

  /** Where a registration leads: a node, or one of the two exceptions. */
  datatype Target = Found(id: nat) | NoName | WrongName

  class Router<M(==), H> {
    var nodes: seq<Node<M, H>>
    ghost var index: map<Pattern, nat>

    ghost predicate Valid()
      reads this
    {
      Tree(nodes, index)
    }

    ghost function View(): (t: Table<M, H>)
      requires Valid()
      reads this
      ensures [] in t
    {
      TableOf(nodes, index)
    }

    constructor ()
      ensures Valid() && View() == map[[] := Empty()]
    {
      nodes := [NewNode()];
      index := map[[] := 0];
    }

    /** Adds a node below `cur`. */
    method Grow(cur: nat, seg: Segment, name: string, ghost p: Pattern) returns (id: nat)
      requires Valid() && p in index && index[p] == cur && p + [seg] !in index
      modifies this
      ensures Valid() && index == old(index)[p + [seg] := id]
      ensures View() == Named(old(View()), p, seg, name)[p + [seg] := Empty()]
    {
      TreeGrown(nodes, index, p, seg, name);
      TableGrown(nodes, index, p, seg, name);
      id := |nodes|;
      nodes := Grown(nodes, cur, seg, name);
      index := index[p + [seg] := id];
    }

    /** One part of the route. */
    method Enter(cur: nat, part: string, ghost p: Pattern) returns (r: Target)
      requires Valid() && p in index && index[p] == cur
      modifies this
      ensures Valid()
      ensures match Follow(old(View()), p, part)
              case At(q) => View() == Extend(old(View()), p, part) && q in index && r == Found(index[q])
              case EmptyName => r == NoName && View() == old(View())
              case MismatchedName => r == WrongName && View() == old(View())
    {
      LinkedAt(nodes, index, p);
      LinkedPart(nodes, index, p, part);
      var node := nodes[cur];
      if IsWild(part) {
        if |part| == 1 { return NoName; }
        if node.wildcard == None {
          var id := Grow(cur, Wild, part[1..], p);
          return Found(id);
        }
        if node.wildcardName != part[1..] { return WrongName; }
        assert View()[p := View()[p].(wildName := Some(part[1..]))] == View();
        return Found(node.wildcard.value);
      }
      if part !in node.children {
        var id := Grow(cur, Lit(part), "", p);
        return Found(id);
      }
      return Found(node.children[part]);
    }

    method Subrouter(route: string) returns (r: Target)
      requires Valid()
      modifies this
      ensures Valid() && View() == Descend(old(View()), [], Parts(route)).0
      ensures match Descend(old(View()), [], Parts(route)).1
              case At(path) => path in index && r == Found(index[path])
              case EmptyName => r == NoName
              case MismatchedName => r == WrongName
    {
      var parts := StringUtil.SplitString(if |route| > 0 && route[0] == '/' then route[1..] else route, '/');
      var cur, i := 0, 0;
      ghost var p: Pattern := [];
      while i < |parts|
        invariant Valid() && i <= |parts| && p in index && index[p] == cur
        invariant Descend(old(View()), [], parts) == Descend(View(), p, parts[i..])
      {
        assert parts[i..][0] == parts[i] && parts[i..][1..] == parts[i + 1..];
        ghost var seg := SegmentOf(parts[i]);
        r := Enter(cur, parts[i], p);
        if !r.Found? { return; }
        cur := r.id;
        p := p + [seg];
        i := i + 1;
      }
      r := Found(cur);
    }

    /** Registers a handler; the last one for a method and a route stays. */
    method Add(verb: M, route: string, h: H) returns (r: Target)
      requires Valid()
      modifies this
      ensures Valid() && View() == Registered(old(View()), verb, Parts(route), h).0
      ensures r.Found? <==> Registered(old(View()), verb, Parts(route), h).1.At?
    {
      r := Subrouter(route);
      if r.Found? {
        ghost var path := Descend(old(View()), [], Parts(route)).1.path;
        HandlerTree(nodes, index, path, verb, h);
        HandlerTable(nodes, index, path, verb, h);
        nodes := Handling(nodes, r.id, verb, h);
      }
    }

    method Dispatch(verb: M, path: string) returns (r: Outcome<H>)
      requires Valid()
      ensures r == Serve(View(), verb, Parts(path))
    {
      var parts := StringUtil.SplitString(if |path| > 0 && path[0] == '/' then path[1..] else path, '/');
      var cur, i := 0, 0;
      ghost var p: Pattern := [];
      while i < |parts|
        invariant i <= |parts| && p in index && index[p] == cur
        invariant Walk(View(), [], parts) == Walk(View(), p, parts[i..])
      {
        assert parts[i..][0] == parts[i] && parts[i..][1..] == parts[i + 1..];
        LinkedAt(nodes, index, p);
        LinkedPart(nodes, index, p, parts[i]);
        if parts[i] in nodes[cur].children {
          cur := nodes[cur].children[parts[i]];
          p := p + [Lit(parts[i])];
        } else if nodes[cur].wildcard != None {
          cur := nodes[cur].wildcard.value;
          p := p + [Wild];
        } else {
          return NotFound;
        }
        i := i + 1;
      }
      if verb !in nodes[cur].handlers { return MethodNotAllowed; }
      return Handled(nodes[cur].handlers[verb]);
    }
  }

  function Handling<M, H>(nodes: seq<Node<M, H>>, i: nat, verb: M, h: H): seq<Node<M, H>>
    requires i < |nodes|
  {
    nodes[i := nodes[i].(handlers := nodes[i].handlers[verb := h])]
  }

  lemma HandlerTree<M, H>(nodes: seq<Node<M, H>>, index: map<Pattern, nat>, p: Pattern, verb: M, h: H)
    requires Tree(nodes, index) && p in index
    ensures Tree(Handling(nodes, index[p], verb, h), index)
  {
    var nodes' := Handling(nodes, index[p], verb, h);
    assert Look(|nodes|);
    forall q | q in index
      ensures Linked(nodes'[index[q]], index, q)
    {
      LinkedAt(nodes, index, q);
      assert forall seg :: Child(nodes'[index[q]], seg) == Child(nodes[index[q]], seg);
    }
  }

  lemma HandlerTable<M, H>(nodes: seq<Node<M, H>>, index: map<Pattern, nat>, p: Pattern, verb: M, h: H)
    requires Inside(nodes, index) && p in index && Inside(Handling(nodes, index[p], verb, h), index)
    ensures var t := TableOf(nodes, index);
      TableOf(Handling(nodes, index[p], verb, h), index) == t[p := t[p].(handlers := t[p].handlers[verb := h])]
  {
    var t, t' := TableOf(nodes, index), TableOf(Handling(nodes, index[p], verb, h), index);
    SameMap(t', t[p := t[p].(handlers := t[p].handlers[verb := h])]);
  }
}
