/** Bounded breadth-first walk over the stored graph. */
module Traverse {
  import opened Models
  import opened Store

  datatype Direction = Outward | Inward | Both

  /** What a walk follows: a direction, and the predicate names it accepts (all when None). */
  datatype Lens = Lens(direction: Direction, names: Option<set<string>>) {
    predicate Forward() { direction.Outward? || direction.Both? }
    predicate Backward() { direction.Inward? || direction.Both? }
    predicate Accepts(e: Edge) { names.Some? ==> e.key.predicateName in names.value }

    /** The walk goes over e when it stands on a node of xs. */
    predicate Leaves(e: Edge, xs: set<Uid>) {
      Accepts(e) && ((Forward() && e.key.source in xs) || (Backward() && e.key.target in xs))
    }
  }

  datatype Subgraph = Subgraph(nodes: map<Uid, Node>, edges: seq<Edge>)

  // ----- what can be reached -----

  predicate Stored(g: Graph, u: Uid) { u.traceId in g.nodes }

  /** Edge e, one of those asked for, takes a walk in this direction from u to v. */
  predicate Takes(lens: Lens, e: Edge, u: Uid, v: Uid) {
    && (lens.names.None? || e.key.predicateName in lens.names.value)
    && match lens.direction
       case Outward => e.key.source == u && e.key.target == v
       case Inward => e.key.target == u && e.key.source == v
       case Both => (e.key.source == u && e.key.target == v) || (e.key.target == u && e.key.source == v)
  }

  predicate Linked(g: Graph, lens: Lens, u: Uid, v: Uid) {
    Stored(g, v) && exists e | e in g.edges :: Takes(lens, e, u, v)
  }

  /** A chain of stored nodes, each one step after the one before. */
  ghost predicate IsRoute(g: Graph, lens: Lens, start: Uid, route: seq<Uid>) {
    && route != [] && route[0] == start && Stored(g, start)
    && forall i | 0 <= i < |route| - 1 :: Linked(g, lens, route[i], route[i + 1])
  }

  /** Reachable through stored nodes in at most d hops. */
  ghost predicate Reachable(g: Graph, lens: Lens, start: Uid, d: nat, v: Uid) {
    exists route :: IsRoute(g, lens, start, route) && |route| <= d + 1 && route[|route| - 1] == v
  }

  function AllUids(g: Graph): set<Uid> {
    set id | id in g.nodes :: EntityUid(id)
  }

  /** Stored nodes one step away from xs. */
  function Neighbors(g: Graph, lens: Lens, xs: set<Uid>): set<Uid> {
    set v | v in AllUids(g) && exists e | e in g.edges :: LeadsTo(lens, e, xs, v)
  }

  predicate LeadsTo(lens: Lens, e: Edge, xs: set<Uid>, v: Uid) {
    lens.Accepts(e) && ((lens.Forward() && e.key.source in xs && e.key.target == v) || (lens.Backward() && e.key.target in xs && e.key.source == v))
  }

  function Within(g: Graph, lens: Lens, start: Uid, d: nat): set<Uid> {
    if d == 0 then {start} else Within(g, lens, start, d - 1) + Neighbors(g, lens, Within(g, lens, start, d - 1))
  }

  /** Nodes the walk has left after i full rounds. */
  function Inner(g: Graph, lens: Lens, start: Uid, i: nat): set<Uid> {
    if i == 0 then {} else Within(g, lens, start, i - 1)
  }

  function Leaving(g: Graph, lens: Lens, xs: set<Uid>): set<Edge> {
    set e | e in g.edges && lens.Leaves(e, xs)
  }

  lemma {:induction false} NeighborsUnion(g: Graph, lens: Lens, xs: set<Uid>, ys: set<Uid>)
    ensures Neighbors(g, lens, xs + ys) == Neighbors(g, lens, xs) + Neighbors(g, lens, ys)
  {
    forall v ensures v in Neighbors(g, lens, xs + ys) <==> v in Neighbors(g, lens, xs) + Neighbors(g, lens, ys) {
      forall e: Edge ensures LeadsTo(lens, e, xs + ys, v) <==> LeadsTo(lens, e, xs, v) || LeadsTo(lens, e, ys, v) {}
    }
  }

  lemma {:induction false} LeavingUnion(g: Graph, lens: Lens, xs: set<Uid>, ys: set<Uid>)
    ensures Leaving(g, lens, xs + ys) == Leaving(g, lens, xs) + Leaving(g, lens, ys)
  {}

  lemma {:induction false} LinkedIsNeighbor(g: Graph, lens: Lens, u: Uid, v: Uid, xs: set<Uid>)
    requires u in xs && Linked(g, lens, u, v)
    ensures v in Neighbors(g, lens, xs)
  {
    var e :| e in g.edges && Takes(lens, e, u, v);
    assert LeadsTo(lens, e, xs, v);
    assert v == EntityUid(v.traceId);
  }

  lemma {:induction false} NeighborIsLinked(g: Graph, lens: Lens, v: Uid, xs: set<Uid>) returns (u: Uid)
    requires v in Neighbors(g, lens, xs)
    ensures u in xs && Linked(g, lens, u, v)
  {
    var e :| e in g.edges && LeadsTo(lens, e, xs, v);
    u := if lens.Forward() && e.key.source in xs && e.key.target == v then e.key.source else e.key.target;
    assert Takes(lens, e, u, v);
  }

  lemma {:induction false} RouteIsWithin(g: Graph, lens: Lens, start: Uid, route: seq<Uid>, k: nat)
    requires IsRoute(g, lens, start, route) && k < |route|
    ensures route[k] in Within(g, lens, start, k)
  {
    if k > 0 {
      RouteIsWithin(g, lens, start, route, k - 1);
      assert Linked(g, lens, route[k - 1], route[k - 1 + 1]);
      LinkedIsNeighbor(g, lens, route[k - 1], route[k], Within(g, lens, start, k - 1));
    }
  }

  lemma {:induction false} RouteExtends(g: Graph, lens: Lens, start: Uid, route: seq<Uid>, v: Uid)
    requires IsRoute(g, lens, start, route) && Linked(g, lens, route[|route| - 1], v)
    ensures IsRoute(g, lens, start, route + [v])
  {
    var r := route + [v];
    forall i | 0 <= i < |r| - 1 ensures Linked(g, lens, r[i], r[i + 1]) {
      assert i < |route| - 1 ==> Linked(g, lens, route[i], route[i + 1]);
    }
  }

  lemma {:induction false} WithinHasRoute(g: Graph, lens: Lens, start: Uid, d: nat, v: Uid)
    requires Stored(g, start) && v in Within(g, lens, start, d)
    ensures Reachable(g, lens, start, d, v)
  {
    if d == 0 {
      assert IsRoute(g, lens, start, [start]);
    } else if v in Within(g, lens, start, d - 1) {
      WithinHasRoute(g, lens, start, d - 1, v);
    } else {
      var u := NeighborIsLinked(g, lens, v, Within(g, lens, start, d - 1));
      WithinHasRoute(g, lens, start, d - 1, u);
      var r :| IsRoute(g, lens, start, r) && |r| <= d && r[|r| - 1] == u;
      RouteExtends(g, lens, start, r, v);
      assert (r + [v])[|r + [v]| - 1] == v;
    }
  }

  lemma {:induction false} ReachableIsWithin(g: Graph, lens: Lens, start: Uid, d: nat, v: Uid)
    requires Reachable(g, lens, start, d, v)
    ensures v in Within(g, lens, start, d)
  {
    var r :| IsRoute(g, lens, start, r) && |r| <= d + 1 && r[|r| - 1] == v;
    RouteIsWithin(g, lens, start, r, |r| - 1);
    WithinGrows(g, lens, start, |r| - 1, d);
  }

  lemma {:induction false} WithinIsReached(g: Graph, lens: Lens, start: Uid, d: nat, v: Uid)
    requires Stored(g, start)
    ensures v in Within(g, lens, start, d) ==> Reachable(g, lens, start, d, v)
  {
    if v in Within(g, lens, start, d) {
      WithinHasRoute(g, lens, start, d, v);
    }
  }

  /** The rounds of a walk find exactly what routes of that many hops reach. */
  lemma {:induction false} WithinIsReachable(g: Graph, lens: Lens, start: Uid, d: nat, v: Uid)
    requires Stored(g, start)
    ensures v in Within(g, lens, start, d) <==> Reachable(g, lens, start, d, v)
  {
    WithinIsReached(g, lens, start, d, v);
    if Reachable(g, lens, start, d, v) {
      ReachableIsWithin(g, lens, start, d, v);
    }
  }

  lemma {:induction false} WithinGrows(g: Graph, lens: Lens, start: Uid, i: nat, j: nat)
    requires i <= j
    ensures Within(g, lens, start, i) <= Within(g, lens, start, j)
  {
    if i < j {
      WithinGrows(g, lens, start, i, j - 1);
    }
  }

  /** A round that leaves only new nodes loses nothing. */
  lemma {:induction false} NewNodesSuffice(g: Graph, lens: Lens, start: Uid, i: nat, newly: set<Uid>)
    requires newly == Within(g, lens, start, i) - Inner(g, lens, start, i)
    ensures Within(g, lens, start, i + 1) == Within(g, lens, start, i) + Neighbors(g, lens, newly)
    ensures Leaving(g, lens, Within(g, lens, start, i)) == Leaving(g, lens, Inner(g, lens, start, i)) + Leaving(g, lens, newly)
  {
    var inner, all := Inner(g, lens, start, i), Within(g, lens, start, i);
    if i > 0 {
      WithinGrows(g, lens, start, i - 1, i);
      assert Neighbors(g, lens, inner) <= all;
    } else {
      assert Neighbors(g, lens, inner) == {};
    }
    assert inner + newly == all;
    NeighborsUnion(g, lens, inner, newly);
    LeavingUnion(g, lens, inner, newly);
  }

  /** When a round finds nothing, no later round does. */
  lemma {:induction false} NothingNewStays(g: Graph, lens: Lens, start: Uid, i: nat, d: nat)
    requires i <= d && Within(g, lens, start, i) == Inner(g, lens, start, i)
    ensures Within(g, lens, start, d) == Within(g, lens, start, i)
    ensures Inner(g, lens, start, d) == Within(g, lens, start, i)
  {
    assert i > 0;
    assert Within(g, lens, start, i) == Within(g, lens, start, i - 1);
    if i < d {
      NothingNewStays(g, lens, start, i, d - 1);
      assert Within(g, lens, start, d - 1) + Neighbors(g, lens, Within(g, lens, start, d - 1)) == Within(g, lens, start, i);
    }
  }

  // ----- the walk as it runs -----

  predicate DistinctEdges(es: seq<Edge>) {
    forall i, j | 0 <= i < j < |es| :: es[i].key != es[j].key
  }

  /** Rows of the edge table with the given source, in table order. */
  function EdgesFrom(rows: seq<Edge>, u: Uid): seq<Edge> {
    if rows == [] then []
    else EdgesFrom(rows[..|rows| - 1], u) + if rows[|rows| - 1].key.source == u then [rows[|rows| - 1]] else []
  }

  function EdgesTo(rows: seq<Edge>, u: Uid): seq<Edge> {
    if rows == [] then []
    else EdgesTo(rows[..|rows| - 1], u) + if rows[|rows| - 1].key.target == u then [rows[|rows| - 1]] else []
  }

  lemma {:induction false} EdgesFromMembers(rows: seq<Edge>, u: Uid, e: Edge)
    ensures e in EdgesFrom(rows, u) <==> e in rows && e.key.source == u
  {
    if rows != [] {
      assert rows == rows[..|rows| - 1] + [rows[|rows| - 1]];
      EdgesFromMembers(rows[..|rows| - 1], u, e);
    }
  }

  lemma {:induction false} EdgesToMembers(rows: seq<Edge>, u: Uid, e: Edge)
    ensures e in EdgesTo(rows, u) <==> e in rows && e.key.target == u
  {
    if rows != [] {
      assert rows == rows[..|rows| - 1] + [rows[|rows| - 1]];
      EdgesToMembers(rows[..|rows| - 1], u, e);
    }
  }

  function End(e: Edge, forward: bool): Uid {
    if forward then e.key.target else e.key.source
  }

  /** The walk in progress: nodes, edges, keys of those edges, and the next frontier. */
  datatype Progress = Progress(nodes: map<Uid, Node>, edges: seq<Edge>, seen: set<EdgeKey>, next: seq<Uid>)

  /** Collected nodes are stored ones and no more than the cap. */
  ghost predicate GoodNodes(g: Graph, nodes: map<Uid, Node>, cap: nat) {
    |nodes| <= cap && forall u | u in nodes :: Stored(g, u) && nodes[u] == g.nodes[u.traceId]
  }

  /** Recorded edges are distinct rows, and `seen` holds their keys. */
  ghost predicate GoodEdges(g: Graph, edges: seq<Edge>, seen: set<EdgeKey>) {
    && DistinctEdges(edges) && (forall e | e in edges :: e in g.edges)
    && (forall k :: k in seen <==> exists e | e in edges :: e.key == k)
  }

  ghost predicate Sound(g: Graph, p: Progress, cap: nat) {
    GoodNodes(g, p.nodes, cap) && GoodEdges(g, p.edges, p.seen)
  }

  /** What a walk has collected. */
  datatype Foot = Foot(nodes: set<Uid>, edges: set<Edge>, count: nat)

  function FootOf(p: Progress): Foot {
    Foot(p.nodes.Keys, SetOf(p.edges), |p.nodes|)
  }

  /** From p to q the walk went over `es`, towards the stored `ends`: all of them below the cap. */
  ghost predicate Advanced(p: Foot, q: Foot, es: set<Edge>, ends: set<Uid>, cap: nat) {
    && q.edges == p.edges + es
    && p.nodes <= q.nodes <= p.nodes + ends
    && (q.count < cap ==> q.nodes == p.nodes + ends)
    && p.count <= q.count
  }

  /** The next frontier is what was collected beyond the nodes of the round's start. */
  ghost predicate NextIsNew(p: Progress, base: set<Uid>) {
    base <= p.nodes.Keys && SetOf(p.next) == p.nodes.Keys - base
  }

  function Accepted(lens: Lens, es: seq<Edge>): set<Edge> {
    set e | e in es && lens.Accepts(e)
  }

  function StoredEnds(g: Graph, es: set<Edge>, forward: bool): set<Uid> {
    set e | e in es && Stored(g, End(e, forward)) :: End(e, forward)
  }

  lemma {:induction false} AdvancedTwice(p: Foot, q: Foot, r: Foot, es: set<Edge>, fs: set<Edge>, us: set<Uid>, vs: set<Uid>, cap: nat)
    requires Advanced(p, q, es, us, cap) && Advanced(q, r, fs, vs, cap)
    ensures Advanced(p, r, es + fs, us + vs, cap)
  {
    assert (p.edges + es) + fs == p.edges + (es + fs);
    assert (p.nodes + us) + vs == p.nodes + (us + vs);
  }

  lemma {:induction false} NoAdvance(p: Foot, cap: nat)
    ensures Advanced(p, p, {}, {}, cap)
  {}

  lemma {:induction false} RecordEdge(g: Graph, edges: seq<Edge>, seen: set<EdgeKey>, e: Edge)
    requires GoodEdges(g, edges, seen) && e in g.edges && e.key !in seen
    ensures GoodEdges(g, edges + [e], seen + {e.key}) && SetOf(edges + [e]) == SetOf(edges) + {e}
  {
    assert forall x | x in edges + [e] :: x in edges || x == e;
    forall k ensures k in seen + {e.key} <==> exists x | x in edges + [e] :: x.key == k {
      assert e in edges + [e];
      assert forall x | x in edges :: x in edges + [e];
    }
  }

  lemma {:induction false} KnownEdge(g: Graph, edges: seq<Edge>, seen: set<EdgeKey>, e: Edge)
    requires DistinctEdges(g.edges) && GoodEdges(g, edges, seen) && e in g.edges && e.key in seen
    ensures e in edges && SetOf(edges) + {e} == SetOf(edges)
  {
    var x :| x in edges && x.key == e.key;
    assert x in g.edges;
    assert x == e;
  }

  method NoteEdge(g: Graph, e: Edge, cap: nat, p: Progress) returns (q: Progress)
    requires DistinctEdges(g.edges) && e in g.edges && Sound(g, p, cap)
    ensures Sound(g, q, cap) && SetOf(q.edges) == SetOf(p.edges) + {e}
    ensures q.nodes == p.nodes && q.next == p.next
  {
    q := p;
    if e.key !in p.seen {
      RecordEdge(g, p.edges, p.seen, e);
      q := p.(seen := p.seen + {e.key}, edges := p.edges + [e]);
    } else {
      KnownEdge(g, p.edges, p.seen, e);
    }
  }

  /** A newly collected node moves the walk on by that node. */
  lemma {:induction false} CollectAdvances(p: Progress, q: Progress, v: Uid, base: set<Uid>, cap: nat)
    requires NextIsNew(p, base) && v !in p.nodes && q.next == p.next + [v] && q.nodes.Keys == p.nodes.Keys + {v}
    requires |q.nodes| == |p.nodes| + 1 && q.edges == p.edges
    ensures NextIsNew(q, base) && Advanced(FootOf(p), FootOf(q), {}, {v}, cap)
  {
    assert SetOf(q.next) == SetOf(p.next) + {v};
    assert SetOf(p.edges) + {} == SetOf(p.edges);
  }

  lemma {:induction false} NothingCollected(p: Progress, v: Uid, cap: nat, ends: set<Uid>)
    requires ends == {} || (ends == {v} && (v in p.nodes || |p.nodes| >= cap))
    ensures Advanced(FootOf(p), FootOf(p), {}, ends, cap)
  {
    assert SetOf(p.edges) + {} == SetOf(p.edges);
    assert v in p.nodes ==> p.nodes.Keys + {v} == p.nodes.Keys;
    assert p.nodes.Keys + {} == p.nodes.Keys;
  }

  lemma {:induction false} CollectSound(g: Graph, nodes: map<Uid, Node>, v: Uid, cap: nat)
    requires GoodNodes(g, nodes, cap) && v !in nodes && |nodes| < cap && Stored(g, v)
    ensures var all := nodes[v := g.nodes[v.traceId]];
            GoodNodes(g, all, cap) && all.Keys == nodes.Keys + {v} && |all| == |nodes| + 1
  {
    SizeOfExtension(nodes, v, g.nodes[v.traceId]);
  }

  function EndIfStored(g: Graph, v: Uid): set<Uid> {
    if Stored(g, v) then {v} else {}
  }

  method NoteNode(g: Graph, v: Uid, visited: set<Uid>, cap: nat, p: Progress, ghost base: set<Uid>) returns (q: Progress)
    requires Sound(g, p, cap) && visited <= p.nodes.Keys && NextIsNew(p, base)
    ensures Sound(g, q, cap) && NextIsNew(q, base) && q.edges == p.edges
    ensures Advanced(FootOf(p), FootOf(q), {}, EndIfStored(g, v), cap)
  {
    q := p;
    if v !in p.nodes && v !in visited && |p.nodes| < cap && Stored(g, v) {
      CollectSound(g, p.nodes, v, cap);
      q := p.(nodes := p.nodes[v := g.nodes[v.traceId]], next := p.next + [v]);
      CollectAdvances(p, q, v, base, cap);
    } else {
      NothingCollected(p, v, cap, EndIfStored(g, v));
    }
  }

  lemma {:induction false} SizeOfExtension(m: map<Uid, Node>, v: Uid, n: Node)
    requires v !in m
    ensures |m[v := n]| == |m| + 1
  {
    assert m[v := n].Keys == m.Keys + {v};
    assert |m[v := n]| == |m[v := n].Keys| && |m| == |m.Keys|;
  }

  lemma {:induction false} OneEdge(g: Graph, lens: Lens, e: Edge, forward: bool)
    ensures lens.Accepts(e) ==> Accepted(lens, [e]) == {e}
    ensures lens.Accepts(e) ==> StoredEnds(g, Accepted(lens, [e]), forward) == EndIfStored(g, End(e, forward))
    ensures !lens.Accepts(e) ==> Accepted(lens, [e]) == {} && StoredEnds(g, Accepted(lens, [e]), forward) == {}
  {}

  /** One edge: recorded once, and its far end collected while there is room. */
  method FollowEdge(g: Graph, lens: Lens, e: Edge, forward: bool, visited: set<Uid>, cap: nat, p: Progress, ghost base: set<Uid>) returns (q: Progress)
    requires DistinctEdges(g.edges) && e in g.edges && Sound(g, p, cap) && visited <= p.nodes.Keys && NextIsNew(p, base)
    ensures Sound(g, q, cap) && NextIsNew(q, base)
    ensures Advanced(FootOf(p), FootOf(q), Accepted(lens, [e]), StoredEnds(g, Accepted(lens, [e]), forward), cap)
  {
    OneEdge(g, lens, e, forward);
    if !lens.Accepts(e) {
      NoAdvance(FootOf(p), cap);
      return p;
    }
    var noted := NoteEdge(g, e, cap, p);
    q := NoteNode(g, End(e, forward), visited, cap, noted, base);
  }

  lemma {:induction false} EndsUnion(g: Graph, lens: Lens, es: seq<Edge>, i: nat, forward: bool)
    requires i < |es|
    ensures Accepted(lens, es[..i + 1]) == Accepted(lens, es[..i]) + Accepted(lens, [es[i]])
    ensures StoredEnds(g, Accepted(lens, es[..i + 1]), forward)
      == StoredEnds(g, Accepted(lens, es[..i]), forward) + StoredEnds(g, Accepted(lens, [es[i]]), forward)
  {
    assert es[..i + 1] == es[..i] + [es[i]];
  }

  method FollowEdges(g: Graph, lens: Lens, es: seq<Edge>, forward: bool, visited: set<Uid>, cap: nat, p: Progress, ghost base: set<Uid>) returns (q: Progress)
    requires NextIsNew(p, base)
    requires DistinctEdges(g.edges) && SetOf(es) <= SetOf(g.edges) && Sound(g, p, cap) && visited <= p.nodes.Keys
    ensures Followed(g, lens, es, forward, p, q, base, cap)
  {
    q := p;
    NothingFollowed(g, lens, es, forward, p, base, cap);
    for i := 0 to |es|
      invariant Followed(g, lens, es[..i], forward, p, q, base, cap)
    {
      q := FollowNext(g, lens, es, i, forward, visited, cap, p, q, base);
    }
    assert es[..|es|] == es;
  }

  lemma {:induction false} NothingFollowed(g: Graph, lens: Lens, es: seq<Edge>, forward: bool, p: Progress, base: set<Uid>, cap: nat)
    requires NextIsNew(p, base) && Sound(g, p, cap)
    ensures Followed(g, lens, es[..0], forward, p, p, base, cap)
  {
    NoAdvance(FootOf(p), cap);
    assert Accepted(lens, es[..0]) == {};
    assert StoredEnds(g, {}, forward) == {};
  }

  /** From p the walk has come to q along these edges. */
  ghost predicate Followed(g: Graph, lens: Lens, es: seq<Edge>, forward: bool, p: Progress, q: Progress, base: set<Uid>, cap: nat) {
    && Sound(g, q, cap) && NextIsNew(q, base)
    && Advanced(FootOf(p), FootOf(q), Accepted(lens, es), StoredEnds(g, Accepted(lens, es), forward), cap)
  }

  method FollowNext(g: Graph, lens: Lens, es: seq<Edge>, i: nat, forward: bool, visited: set<Uid>, cap: nat, ghost p: Progress, q: Progress, ghost base: set<Uid>) returns (r: Progress)
    requires i < |es| && DistinctEdges(g.edges) && SetOf(es) <= SetOf(g.edges) && visited <= p.nodes.Keys
    requires Followed(g, lens, es[..i], forward, p, q, base, cap)
    ensures Followed(g, lens, es[..i + 1], forward, p, r, base, cap)
  {
    assert es[i] in SetOf(es);
    r := FollowEdge(g, lens, es[i], forward, visited, cap, q, base);
    var one := [es[i]];
    AdvancedTwice(FootOf(p), FootOf(q), FootOf(r), Accepted(lens, es[..i]), Accepted(lens, one),
      StoredEnds(g, Accepted(lens, es[..i]), forward), StoredEnds(g, Accepted(lens, one), forward), cap);
    EndsUnion(g, lens, es, i, forward);
  }

  function Outgoing(g: Graph, lens: Lens, u: Uid): seq<Edge> {
    if lens.Forward() then EdgesFrom(g.edges, u) else []
  }

  function Incoming(g: Graph, lens: Lens, u: Uid): seq<Edge> {
    if lens.Backward() then EdgesTo(g.edges, u) else []
  }

  lemma {:induction false} BothSides(g: Graph, lens: Lens, u: Uid)
    ensures SetOf(Outgoing(g, lens, u)) <= SetOf(g.edges) && SetOf(Incoming(g, lens, u)) <= SetOf(g.edges)
    ensures Accepted(lens, Outgoing(g, lens, u)) + Accepted(lens, Incoming(g, lens, u)) == Leaving(g, lens, {u})
  {
    forall e: Edge ensures e in EdgesFrom(g.edges, u) <==> e in g.edges && e.key.source == u { EdgesFromMembers(g.edges, u, e); }
    forall e: Edge ensures e in EdgesTo(g.edges, u) <==> e in g.edges && e.key.target == u { EdgesToMembers(g.edges, u, e); }
  }

  lemma {:induction false} FarEnds(g: Graph, lens: Lens, u: Uid)
    ensures StoredEnds(g, Accepted(lens, Outgoing(g, lens, u)), true) + StoredEnds(g, Accepted(lens, Incoming(g, lens, u)), false)
      == Neighbors(g, lens, {u})
  {
    var a := StoredEnds(g, Accepted(lens, Outgoing(g, lens, u)), true);
    var b := StoredEnds(g, Accepted(lens, Incoming(g, lens, u)), false);
    forall e: Edge ensures e in EdgesFrom(g.edges, u) <==> e in g.edges && e.key.source == u { EdgesFromMembers(g.edges, u, e); }
    forall e: Edge ensures e in EdgesTo(g.edges, u) <==> e in g.edges && e.key.target == u { EdgesToMembers(g.edges, u, e); }
    forall v | v in a + b ensures v in Neighbors(g, lens, {u}) {
      var e :| e in g.edges && LeadsTo(lens, e, {u}, v);
      assert v == EntityUid(v.traceId);
    }
    forall v | v in Neighbors(g, lens, {u}) ensures v in a + b {
      var e :| e in g.edges && LeadsTo(lens, e, {u}, v);
      assert (e in Accepted(lens, Outgoing(g, lens, u)) && End(e, true) == v) || (e in Accepted(lens, Incoming(g, lens, u)) && End(e, false) == v);
    }
  }

  /** All edges of one node, outgoing before incoming. */
  method Expand(g: Graph, lens: Lens, u: Uid, visited: set<Uid>, cap: nat, p: Progress, ghost base: set<Uid>) returns (q: Progress)
    requires DistinctEdges(g.edges) && Sound(g, p, cap) && visited <= p.nodes.Keys && NextIsNew(p, base)
    ensures Sound(g, q, cap) && NextIsNew(q, base)
    ensures Left(g, lens, FootOf(p), FootOf(q), {u}, cap)
  {
    BothSides(g, lens, u);
    FarEnds(g, lens, u);
    var outs, ins := Outgoing(g, lens, u), Incoming(g, lens, u);
    var half := FollowEdges(g, lens, outs, true, visited, cap, p, base);
    q := FollowEdges(g, lens, ins, false, visited, cap, half, base);
    AdvancedTwice(FootOf(p), FootOf(half), FootOf(q), Accepted(lens, outs), Accepted(lens, ins),
      StoredEnds(g, Accepted(lens, outs), true), StoredEnds(g, Accepted(lens, ins), false), cap);
  }

  lemma {:induction false} PrefixUnion(g: Graph, lens: Lens, us: seq<Uid>, i: nat)
    requires i < |us|
    ensures SetOf(us[..i + 1]) == SetOf(us[..i]) + {us[i]} && SetOf(us[..i + 1]) <= SetOf(us)
    ensures Neighbors(g, lens, SetOf(us[..i + 1])) == Neighbors(g, lens, SetOf(us[..i])) + Neighbors(g, lens, {us[i]})
    ensures Leaving(g, lens, SetOf(us[..i + 1])) == Leaving(g, lens, SetOf(us[..i])) + Leaving(g, lens, {us[i]})
  {
    assert us[..i + 1] == us[..i] + [us[i]];
    NeighborsUnion(g, lens, SetOf(us[..i]), {us[i]});
    LeavingUnion(g, lens, SetOf(us[..i]), {us[i]});
  }

  /** From p to q the walk left exactly the nodes xs. */
  ghost predicate Left(g: Graph, lens: Lens, p: Foot, q: Foot, xs: set<Uid>, cap: nat) {
    Advanced(p, q, Leaving(g, lens, xs), Neighbors(g, lens, xs), cap)
  }

  lemma {:induction false} LeftNothing(g: Graph, lens: Lens, p: Foot, cap: nat)
    ensures Left(g, lens, p, p, {}, cap)
  {
    assert Neighbors(g, lens, {}) == {} && Leaving(g, lens, {}) == {};
    NoAdvance(p, cap);
  }

  lemma {:induction false} LeftOneMore(g: Graph, lens: Lens, us: seq<Uid>, i: nat, p: Foot, q: Foot, r: Foot, cap: nat)
    requires i < |us| && Left(g, lens, p, q, SetOf(us[..i]), cap) && Left(g, lens, q, r, {us[i]}, cap)
    ensures Left(g, lens, p, r, SetOf(us[..i + 1]), cap)
  {
    PrefixUnion(g, lens, us, i);
    var xs := SetOf(us[..i]);
    AdvancedTwice(p, q, r, Leaving(g, lens, xs), Leaving(g, lens, {us[i]}), Neighbors(g, lens, xs), Neighbors(g, lens, {us[i]}), cap);
  }

  /** One round: the frontier nodes in order, cut off when the cap is reached. `left` are the
      nodes actually left. */
  method Round(g: Graph, lens: Lens, frontier: seq<Uid>, visited: set<Uid>, cap: nat, p: Progress) returns (q: Progress, ghost left: set<Uid>)
    requires DistinctEdges(g.edges) && Sound(g, p, cap) && visited <= p.nodes.Keys && p.next == []
    ensures Going(g, lens, left, p, q, cap)
    ensures left <= SetOf(frontier) && (|q.nodes| < cap ==> left == SetOf(frontier))
  {
    q := p;
    NothingLeft(g, lens, frontier, p, cap);
    for i := 0 to |frontier|
      invariant Going(g, lens, SetOf(frontier[..i]), p, q, cap)
    {
      if |q.nodes| >= cap {
        left := SetOf(frontier[..i]);
        return;
      }
      q := OneMore(g, lens, frontier, i, visited, cap, p, q);
    }
    left := SetOf(frontier);
    assert frontier[..|frontier|] == frontier;
  }

  lemma {:induction false} NothingLeft(g: Graph, lens: Lens, frontier: seq<Uid>, p: Progress, cap: nat)
    requires Sound(g, p, cap) && p.next == []
    ensures Going(g, lens, SetOf(frontier[..0]), p, p, cap)
  {
    LeftNothing(g, lens, FootOf(p), cap);
    assert SetOf(frontier[..0]) == {} && SetOf(p.next) == {};
  }

  /** From p the round has come to q, and has left the nodes xs. */
  ghost predicate Going(g: Graph, lens: Lens, xs: set<Uid>, p: Progress, q: Progress, cap: nat) {
    Sound(g, q, cap) && NextIsNew(q, p.nodes.Keys) && Left(g, lens, FootOf(p), FootOf(q), xs, cap)
  }

  method OneMore(g: Graph, lens: Lens, frontier: seq<Uid>, i: nat, visited: set<Uid>, cap: nat, ghost p: Progress, q: Progress) returns (r: Progress)
    requires DistinctEdges(g.edges) && i < |frontier| && visited <= p.nodes.Keys && |q.nodes| < cap
    requires Going(g, lens, SetOf(frontier[..i]), p, q, cap)
    ensures Going(g, lens, SetOf(frontier[..i + 1]), p, r, cap)
  {
    r := Expand(g, lens, frontier[i], visited, cap, q, p.nodes.Keys);
    LeftOneMore(g, lens, frontier, i, FootOf(p), FootOf(q), FootOf(r), cap);
  }

  /** Before round i: below the cap, exactly the nodes within i hops, the edges out of the nodes
      within i - 1 hops, and the nodes exactly i hops away as the frontier. */
  ghost predicate AtRound(g: Graph, lens: Lens, start: Uid, i: nat, f: Foot, next: set<Uid>, cap: nat) {
    && start in f.nodes
    && f.nodes <= Within(g, lens, start, i)
    && next <= f.nodes
    && f.edges <= Leaving(g, lens, f.nodes * Inner(g, lens, start, i))
    && (f.count < cap ==> ExactlyRound(g, lens, start, i, f, next))
  }

  ghost predicate ExactlyRound(g: Graph, lens: Lens, start: Uid, i: nat, f: Foot, next: set<Uid>) {
    && f.nodes == Within(g, lens, start, i)
    && f.edges == Leaving(g, lens, Inner(g, lens, start, i))
    && next == Within(g, lens, start, i) - Inner(g, lens, start, i)
  }

  lemma {:induction false} LeavingGrows(g: Graph, lens: Lens, xs: set<Uid>, ys: set<Uid>)
    requires xs <= ys
    ensures Leaving(g, lens, xs) <= Leaving(g, lens, ys) && Neighbors(g, lens, xs) <= Neighbors(g, lens, ys)
  {
    assert xs + ys == ys;
    LeavingUnion(g, lens, xs, ys);
    NeighborsUnion(g, lens, xs, ys);
  }

  lemma {:induction false} NextRound(g: Graph, lens: Lens, start: Uid, i: nat, p: Foot, q: Foot, now: set<Uid>, next: set<Uid>, left: set<Uid>, cap: nat)
    requires AtRound(g, lens, start, i, p, now, cap) && p.count < cap
    requires left <= now && (q.count < cap ==> left == now)
    requires Left(g, lens, p, q, left, cap)
    requires next == q.nodes - p.nodes
    ensures AtRound(g, lens, start, i + 1, q, next, cap)
  {
    var w := Within(g, lens, start, i);
    NewNodesSuffice(g, lens, start, i, now);
    LeavingGrows(g, lens, left, now);
    InnerIsWithin(g, lens, start, i);
    LeavingGrows(g, lens, left, q.nodes * w);
    LeavingGrows(g, lens, Inner(g, lens, start, i), q.nodes * w);
  }

  lemma {:induction false} InnerIsWithin(g: Graph, lens: Lens, start: Uid, i: nat)
    ensures Inner(g, lens, start, i) <= Within(g, lens, start, i)
  {
    if i > 0 {
      WithinGrows(g, lens, start, i - 1, i);
    }
  }

  /** A walk that is full stays what it is. */
  lemma {:induction false} StoppedFull(g: Graph, lens: Lens, start: Uid, i: nat, d: nat, f: Foot, next: set<Uid>, cap: nat)
    requires AtRound(g, lens, start, i, f, next, cap) && i <= d && f.count >= cap
    ensures AtRound(g, lens, start, d, f, next, cap)
  {
    WithinGrows(g, lens, start, i, d);
    InnerGrows(g, lens, start, i, d);
    LeavingGrows(g, lens, f.nodes * Inner(g, lens, start, i), f.nodes * Inner(g, lens, start, d));
  }

  /** A walk with nothing left to leave has found everything. */
  lemma {:induction false} StoppedEmpty(g: Graph, lens: Lens, start: Uid, i: nat, d: nat, f: Foot, cap: nat)
    requires AtRound(g, lens, start, i, f, {}, cap) && i <= d && f.count < cap
    ensures AtRound(g, lens, start, d, f, {}, cap)
  {
    InnerIsWithin(g, lens, start, i);
    var w, inner := Within(g, lens, start, i), Inner(g, lens, start, i);
    assert w - inner == {};
    assert w == inner by { SubtractsToNothing(w, inner); }
    NothingNewStays(g, lens, start, i, d);
  }

  lemma {:induction false} SubtractsToNothing(w: set<Uid>, inner: set<Uid>)
    requires w - inner == {} && inner <= w
    ensures w == inner
  {
    forall u | u in w ensures u in inner {
      assert u !in w - inner;
    }
  }

  lemma {:induction false} InnerGrows(g: Graph, lens: Lens, start: Uid, i: nat, d: nat)
    requires i <= d
    ensures Inner(g, lens, start, i) <= Inner(g, lens, start, d)
  {
    if i > 0 {
      WithinGrows(g, lens, start, i - 1, d - 1);
    }
  }

  /** What every finished walk of depth d guarantees. */
  ghost predicate IsWalk(g: Graph, lens: Lens, start: Uid, d: nat, cap: nat, sub: Subgraph) {
    && |sub.nodes| <= cap && start in sub.nodes
    && (forall u | u in sub.nodes :: Stored(g, u) && sub.nodes[u] == g.nodes[u.traceId] && Reachable(g, lens, start, d, u))
    && DistinctEdges(sub.edges)
    && (forall e | e in sub.edges :: e in g.edges && exists u, v :: u in sub.nodes && Takes(lens, e, u, v))
    && (|sub.nodes| < cap ==> IsWholeWalk(g, lens, start, d, sub))
  }

  /** What a walk that did not fill up has found: all of it. */
  ghost predicate IsWholeWalk(g: Graph, lens: Lens, start: Uid, d: nat, sub: Subgraph) {
    && (forall u :: u in sub.nodes <==> Reachable(g, lens, start, d, u))
    && (forall e :: e in sub.edges <==> e in g.edges && LeftWithin(g, lens, start, d, e))
  }

  /** The edge leaves a node fewer than d hops away. */
  ghost predicate LeftWithin(g: Graph, lens: Lens, start: Uid, d: nat, e: Edge) {
    d > 0 && exists u, v :: Reachable(g, lens, start, d - 1, u) && Takes(lens, e, u, v)
  }

  lemma {:induction false} LeavesFrom(lens: Lens, e: Edge, xs: set<Uid>) returns (u: Uid, v: Uid)
    requires lens.Leaves(e, xs)
    ensures u in xs && Takes(lens, e, u, v)
  {
    if lens.Forward() && e.key.source in xs {
      u, v := e.key.source, e.key.target;
    } else {
      u, v := e.key.target, e.key.source;
    }
  }

  lemma {:induction false} LeavesMore(lens: Lens, e: Edge, u: Uid, v: Uid, xs: set<Uid>)
    requires Takes(lens, e, u, v) && u in xs
    ensures lens.Leaves(e, xs)
  {}

  lemma {:induction false} LeftFromInner(g: Graph, lens: Lens, start: Uid, d: nat, e: Edge)
    requires Stored(g, start)
    ensures lens.Leaves(e, Inner(g, lens, start, d)) <==> LeftWithin(g, lens, start, d, e)
  {
    if lens.Leaves(e, Inner(g, lens, start, d)) {
      var u, _ := LeavesFrom(lens, e, Inner(g, lens, start, d));
      WithinIsReachable(g, lens, start, d - 1, u);
    }
    if LeftWithin(g, lens, start, d, e) {
      var u, v :| Reachable(g, lens, start, d - 1, u) && Takes(lens, e, u, v);
      WithinIsReachable(g, lens, start, d - 1, u);
      LeavesMore(lens, e, u, v, Inner(g, lens, start, d));
    }
  }

  lemma {:induction false} WholeWalk(g: Graph, lens: Lens, start: Uid, d: nat, p: Progress)
    requires Stored(g, start) && ExactlyRound(g, lens, start, d, FootOf(p), SetOf(p.next))
    ensures IsWholeWalk(g, lens, start, d, Subgraph(p.nodes, p.edges))
  {
    forall u ensures u in p.nodes <==> Reachable(g, lens, start, d, u) {
      WithinIsReachable(g, lens, start, d, u);
      assert u in p.nodes <==> u in p.nodes.Keys;
    }
    forall e ensures e in p.edges <==> e in g.edges && LeftWithin(g, lens, start, d, e) {
      LeftFromInner(g, lens, start, d, e);
      assert e in p.edges <==> e in SetOf(p.edges);
    }
  }

  lemma {:induction false} FinishedWalk(g: Graph, lens: Lens, start: Uid, d: nat, p: Progress, cap: nat)
    requires Stored(g, start) && Sound(g, p, cap) && AtRound(g, lens, start, d, FootOf(p), SetOf(p.next), cap)
    ensures IsWalk(g, lens, start, d, cap, Subgraph(p.nodes, p.edges))
  {
    forall u | u in p.nodes ensures Reachable(g, lens, start, d, u) {
      assert u in p.nodes.Keys;
      WithinIsReachable(g, lens, start, d, u);
    }
    LeavingGrows(g, lens, p.nodes.Keys * Inner(g, lens, start, d), p.nodes.Keys);
    forall e | e in p.edges ensures exists u, v :: u in p.nodes && Takes(lens, e, u, v) {
      assert e in SetOf(p.edges);
      var u, v := LeavesFrom(lens, e, p.nodes.Keys);
      assert u in p.nodes;
    }
    if |p.nodes| < cap {
      WholeWalk(g, lens, start, d, p);
    }
  }

  datatype Answer = BadArgument | Found(sub: Subgraph)

  /** Breadth-first walk from `start`: a missing start gives an empty subgraph; below the cap the
      nodes are exactly the stored nodes reachable within `depth` hops and the edges exactly those
      that take the walk from a node fewer than `depth` hops away. */
  method BoundedWalk(g: Graph, start: Uid, lens: Lens, depth: int, maxNodes: int) returns (r: Answer)
    requires DistinctEdges(g.edges)
    ensures r.BadArgument? <==> depth < 0 || maxNodes < 1
    ensures r.Found? && !Stored(g, start) ==> r.sub == Subgraph(map[], [])
    ensures r.Found? && Stored(g, start) ==> IsWalk(g, lens, start, depth, maxNodes, r.sub)
  {
    if depth < 0 || maxNodes < 1 {
      return BadArgument;
    }
    var found := NodeByUid(g.nodes, start);
    if found.None? {
      return Found(Subgraph(map[], []));
    }
    var p := Progress(map[start := found.value], [], {}, [start]);
    var visited: set<Uid> := {};
    assert p.nodes.Keys == {start} && SetOf(p.next) == {start};
    for i := 0 to depth
      invariant Sound(g, p, maxNodes) && AtRound(g, lens, start, i, FootOf(p), SetOf(p.next), maxNodes)
      invariant visited <= p.nodes.Keys
    {
      if p.next == [] || |p.nodes| >= maxNodes {
        if |p.nodes| >= maxNodes {
          StoppedFull(g, lens, start, i, depth, FootOf(p), SetOf(p.next), maxNodes);
        } else {
          assert SetOf(p.next) == {};
          StoppedEmpty(g, lens, start, i, depth, FootOf(p), maxNodes);
        }
        FinishedWalk(g, lens, start, depth, p, maxNodes);
        return Found(Subgraph(p.nodes, p.edges));
      }
      visited := visited + SetOf(p.next);
      var q, left := Round(g, lens, p.next, visited, maxNodes, p.(next := []));
      NextRound(g, lens, start, i, FootOf(p), FootOf(q), SetOf(p.next), SetOf(q.next), left, maxNodes);
      p := q;
    }
    FinishedWalk(g, lens, start, depth, p, maxNodes);
    return Found(Subgraph(p.nodes, p.edges));
  }
}
