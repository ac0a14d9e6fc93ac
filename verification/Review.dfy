/** Reviewing a node: it and the stale nodes near it count as reviewed. */
module Review {
  import opened Models
  import opened Store
  import opened Rounds
  import IndexRuns

  const REVIEW_DEPTH := 5

  /** The edge joins the two uids, in either direction. */
  predicate Joins(e: Edge, u: Uid, v: Uid) {
    (e.key.source == u && e.key.target == v) || (e.key.target == u && e.key.source == v)
  }

  predicate Adjacent(edges: seq<Edge>, u: Uid, v: Uid) {
    exists e | e in edges :: Joins(e, u, v)
  }

  /** Far ends of the edges at the given uids. The code follows every edge of the table, of
      whatever kind, also through uids that have no node. */
  function Others(edges: seq<Edge>, xs: set<Uid>): set<Uid> {
    (set e | e in edges && e.key.source in xs :: e.key.target) + (set e | e in edges && e.key.target in xs :: e.key.source)
  }

  function OneEdge(edges: seq<Edge>): set<Uid> -> set<Uid> {
    xs => Others(edges, xs)
  }

  /** What at most d edges lead to. */
  function Closure(edges: seq<Edge>, start: Uid, d: nat): set<Uid> {
    Spread(OneEdge(edges), {start}, d)
  }

  function ClosureBefore(edges: seq<Edge>, start: Uid, d: nat): set<Uid> {
    if d == 0 then {} else Closure(edges, start, d - 1)
  }

  ghost predicate IsTrail(edges: seq<Edge>, trail: seq<Uid>) {
    trail != [] && forall i | 0 <= i < |trail| - 1 :: Adjacent(edges, trail[i], trail[i + 1])
  }

  lemma {:induction false} OthersAre(edges: seq<Edge>, xs: set<Uid>, v: Uid)
    ensures v in Others(edges, xs) <==> exists u :: u in xs && Adjacent(edges, u, v)
  {
    if v in Others(edges, xs) {
      if e :| e in edges && e.key.source in xs && e.key.target == v {
        assert Joins(e, e.key.source, v);
      } else {
        var e :| e in edges && e.key.target in xs && e.key.source == v;
        assert Joins(e, e.key.target, v);
      }
    }
    if u :| u in xs && Adjacent(edges, u, v) {
      var e :| e in edges && Joins(e, u, v);
    }
  }

  /** The closure of depth d holds exactly the uids at the end of a trail of at most d edges. */
  lemma {:induction false} ClosureIsTrails(edges: seq<Edge>, start: Uid, d: nat, v: Uid)
    ensures v in Closure(edges, start, d) <==> exists t :: IsTrail(edges, t) && |t| <= d + 1 && t[0] == start && t[|t| - 1] == v
  {
    if v in Closure(edges, start, d) {
      var t := TrailTo(edges, start, d, v);
    }
    if t :| IsTrail(edges, t) && |t| <= d + 1 && t[0] == start && t[|t| - 1] == v {
      TrailIsInside(edges, start, t, |t| - 1);
      ClosureGrows(edges, start, |t| - 1, d);
    }
  }

  lemma {:induction false} TrailTo(edges: seq<Edge>, start: Uid, d: nat, v: Uid) returns (t: seq<Uid>)
    requires v in Closure(edges, start, d)
    ensures IsTrail(edges, t) && |t| <= d + 1 && t[0] == start && t[|t| - 1] == v
  {
    if d == 0 {
      t := [start];
    } else if v in Closure(edges, start, d - 1) {
      t := TrailTo(edges, start, d - 1, v);
    } else {
      OthersAre(edges, Closure(edges, start, d - 1), v);
      var u :| u in Closure(edges, start, d - 1) && Adjacent(edges, u, v);
      var r := TrailTo(edges, start, d - 1, u);
      t := r + [v];
      forall i | 0 <= i < |t| - 1 ensures Adjacent(edges, t[i], t[i + 1]) {
        assert i < |r| - 1 ==> Adjacent(edges, r[i], r[i + 1]);
      }
    }
  }

  lemma {:induction false} TrailIsInside(edges: seq<Edge>, start: Uid, t: seq<Uid>, k: nat)
    requires IsTrail(edges, t) && t[0] == start && k < |t|
    ensures t[k] in Closure(edges, start, k)
  {
    if k > 0 {
      TrailIsInside(edges, start, t, k - 1);
      assert Adjacent(edges, t[k - 1], t[k - 1 + 1]);
      OthersAre(edges, Closure(edges, start, k - 1), t[k]);
    }
  }

  lemma {:induction false} ClosureGrows(edges: seq<Edge>, start: Uid, i: nat, j: nat)
    requires i <= j
    ensures Closure(edges, start, i) <= Closure(edges, start, j)
  {
    SpreadGrows(OneEdge(edges), {start}, i, j);
  }

  // ----- the search as it runs -----

  function OthersOf(edges: seq<Edge>, u: Uid): set<Uid> {
    Others(edges, {u})
  }

  lemma {:induction false} OthersUnion(edges: seq<Edge>, xs: set<Uid>, ys: set<Uid>)
    ensures Others(edges, xs + ys) == Others(edges, xs) + Others(edges, ys)
  {
    forall v ensures v in Others(edges, xs + ys) <==> v in Others(edges, xs) + Others(edges, ys) {
      OthersAre(edges, xs + ys, v);
      OthersAre(edges, xs, v);
      OthersAre(edges, ys, v);
    }
  }

  /** All edges at one uid: far ends not seen before are seen now and queued. */
  method Visit(edges: seq<Edge>, u: Uid, seen: set<Uid>, next: seq<Uid>) returns (seen': set<Uid>, next': seq<Uid>)
    ensures seen' == seen + OthersOf(edges, u)
    ensures SetOf(next') == SetOf(next) + (seen' - seen)
  {
    seen', next' := seen, next;
    for i := 0 to |edges|
      invariant seen' == seen + OthersOf(edges[..i], u)
      invariant SetOf(next') == SetOf(next) + (seen' - seen)
    {
      var e := edges[i];
      VisitStep(edges, i, u);
      if e.key.source == u || e.key.target == u {
        var other := if e.key.source == u then e.key.target else e.key.source;
        if other !in seen' {
          seen' := seen' + {other};
          assert SetOf(next' + [other]) == SetOf(next') + {other};
          next' := next' + [other];
        }
      }
    }
    assert edges[..|edges|] == edges;
  }

  lemma {:induction false} VisitStep(edges: seq<Edge>, i: nat, u: Uid)
    requires i < |edges|
    ensures OthersOf(edges[..i + 1], u) == OthersOf(edges[..i], u) +
      (if edges[i].key.source == u then {edges[i].key.target} else if edges[i].key.target == u then {edges[i].key.source} else {})
  {
    assert edges[..i + 1] == edges[..i] + [edges[i]];
    forall v ensures v in OthersOf(edges[..i + 1], u) <==> v in OthersOf(edges[..i], u) || Joins(edges[i], u, v) {
      OthersAre(edges[..i + 1], {u}, v);
      OthersAre(edges[..i], {u}, v);
      assert Joins(edges[i], u, v) ==> Adjacent(edges[..i + 1], u, v);
    }
  }

  /** One wave: every queued uid. */
  method Wave(edges: seq<Edge>, queue: seq<Uid>, seen: set<Uid>) returns (seen': set<Uid>, next: seq<Uid>)
    ensures seen' == seen + Others(edges, SetOf(queue))
    ensures SetOf(next) == seen' - seen
  {
    seen', next := seen, [];
    assert Others(edges, {}) == {};
    for i := 0 to |queue|
      invariant seen' == seen + Others(edges, SetOf(queue[..i]))
      invariant SetOf(next) == seen' - seen
    {
      assert SetOf(queue[..i + 1]) == SetOf(queue[..i]) + {queue[i]} by { assert queue[..i + 1] == queue[..i] + [queue[i]]; }
      OthersUnion(edges, SetOf(queue[..i]), {queue[i]});
      seen', next := Visit(edges, queue[i], seen', next);
    }
    assert queue[..|queue|] == queue;
  }

  lemma {:induction false} NewOnesSuffice(edges: seq<Edge>, start: Uid, d: nat, queue: set<Uid>)
    requires queue == Closure(edges, start, d) - ClosureBefore(edges, start, d)
    ensures Closure(edges, start, d + 1) == Closure(edges, start, d) + Others(edges, queue)
  {
    var before := ClosureBefore(edges, start, d);
    if d > 0 {
      ClosureGrows(edges, start, d - 1, d);
      assert Others(edges, before) <= Closure(edges, start, d);
    } else {
      assert Others(edges, before) == {};
    }
    assert before + queue == Closure(edges, start, d);
    OthersUnion(edges, before, queue);
  }

  lemma {:induction false} SpreadStops(step: set<Uid> -> set<Uid>, start: set<Uid>, i: nat)
    requires i > 0 && Spread(step, start, i) <= Spread(step, start, i - 1)
    ensures step(Spread(step, start, i - 1)) <= Spread(step, start, i - 1)
  {}

  lemma {:induction false} NothingNewStays(edges: seq<Edge>, start: Uid, i: nat, d: nat)
    requires i <= d && Closure(edges, start, i) <= ClosureBefore(edges, start, i)
    ensures Closure(edges, start, d) == Closure(edges, start, i)
  {
    if i > 0 {
      var step := OneEdge(edges);
      SpreadStops(step, {start}, i);
      SpreadEnds(step, {start}, i - 1, i);
      SpreadEnds(step, {start}, i - 1, d);
    }
  }

  method FindClosure(edges: seq<Edge>, start: Uid) returns (seen: set<Uid>)
    ensures seen == Closure(edges, start, REVIEW_DEPTH)
  {
    seen := {start};
    var queue := [start];
    for i := 0 to REVIEW_DEPTH
      invariant AtWave(edges, start, i, seen, queue)
    {
      if queue == [] {
        WalkEnds(edges, start, i, seen, queue);
        return;
      }
      seen, queue := NextWave(edges, start, i, queue, seen);
    }
  }

  /** Before wave i: what i edges lead to is seen, and what came last is queued. */
  ghost predicate AtWave(edges: seq<Edge>, start: Uid, i: nat, seen: set<Uid>, queue: seq<Uid>) {
    seen == Closure(edges, start, i) && SetOf(queue) == seen - ClosureBefore(edges, start, i)
  }

  lemma {:induction false} WalkEnds(edges: seq<Edge>, start: Uid, i: nat, seen: set<Uid>, queue: seq<Uid>)
    requires i <= REVIEW_DEPTH && AtWave(edges, start, i, seen, queue) && queue == []
    ensures seen == Closure(edges, start, REVIEW_DEPTH)
  {
    assert SetOf(queue) == {};
    EmptyDifference(seen, ClosureBefore(edges, start, i));
    NothingNewStays(edges, start, i, REVIEW_DEPTH);
  }

  method NextWave(edges: seq<Edge>, ghost start: Uid, ghost i: nat, queue: seq<Uid>, seen: set<Uid>) returns (seen': set<Uid>, next: seq<Uid>)
    requires AtWave(edges, start, i, seen, queue)
    ensures AtWave(edges, start, i + 1, seen', next)
  {
    NewOnesSuffice(edges, start, i, SetOf(queue));
    seen', next := Wave(edges, queue, seen);
  }

  lemma {:induction false} EmptyDifference(a: set<Uid>, b: set<Uid>)
    requires a - b == {}
    ensures a <= b
  {
    forall u | u in a ensures u in b { assert u !in a - b; }
  }

  // ----- what a review changes -----

  /** The stale nodes among the uids are reviewed; nothing else changes. */
  function Reviewed(nodes: NodeMap, uids: set<Uid>): NodeMap {
    map id | id in nodes :: if EntityUid(id) in uids && nodes[id].status == StaleReviewRequired
      then nodes[id].(status := ReviewedNeedsVerification) else nodes[id]
  }

  method SetReviewed(store: GraphStore, uids: set<Uid>)
    modifies store`nodes
    ensures store.nodes == Reviewed(old(store.nodes), uids)
  {
    var todo := uids;
    ghost var nodes := store.nodes;
    assert Reviewed(nodes, {}) == nodes;
    while todo != {}
      invariant todo <= uids && store.nodes == Reviewed(nodes, uids - todo)
      decreases |todo|
    {
      var u :| u in todo;
      ReviewOne(nodes, uids - todo, u);
      assert uids - (todo - {u}) == (uids - todo) + {u};
      if u.traceId in store.nodes && store.nodes[u.traceId].status == StaleReviewRequired {
        store.SetNodeStatus(u.traceId, ReviewedNeedsVerification);
      }
      todo := todo - {u};
    }
    assert uids - {} == uids;
  }

  lemma {:induction false} ReviewOne(nodes: NodeMap, done: set<Uid>, u: Uid)
    ensures var r := Reviewed(nodes, done);
            Reviewed(nodes, done + {u}) == if u.traceId in r && r[u.traceId].status == StaleReviewRequired
              then r[u.traceId := r[u.traceId].(status := ReviewedNeedsVerification)] else r
  {
    assert u == EntityUid(u.traceId);
  }

  /** A trail of at most five edges, followed in either direction, joins the two. */
  ghost predicate IsNear(edges: seq<Edge>, traceId: string, id: string) {
    exists t :: IsTrail(edges, t) && |t| <= 6 && t[0] == EntityUid(traceId) && t[|t| - 1] == EntityUid(id)
  }

  /** The row of the id after the review of another. */
  ghost predicate IsReviewed(edges: seq<Edge>, traceId: string, id: string, was: Node, now: Node) {
    now == if was.status == StaleReviewRequired && IsNear(edges, traceId, id) then was.(status := ReviewedNeedsVerification) else was
  }

  lemma {:induction false} ReviewedExactly(nodes: NodeMap, edges: seq<Edge>, traceId: string)
    ensures var r := Reviewed(nodes, Closure(edges, EntityUid(traceId), REVIEW_DEPTH));
      r.Keys == nodes.Keys && forall id | id in nodes :: IsReviewed(edges, traceId, id, nodes[id], r[id])
  {
    forall id | id in nodes ensures EntityUid(id) in Closure(edges, EntityUid(traceId), REVIEW_DEPTH) <==> IsNear(edges, traceId, id) {
      ClosureIsTrails(edges, EntityUid(traceId), REVIEW_DEPTH, EntityUid(id));
    }
  }

  /** Reviewing a node: it and the nodes within five edges of it, in either direction, are reviewed
      if they were stale, and nothing else changes. False when the node is unknown. */
  method ReviewNode(store: GraphStore, traceId: string) returns (known: bool)
    modifies store`nodes
    ensures known == (traceId in old(store.nodes)) && store.nodes.Keys == old(store.nodes).Keys
    ensures known ==> forall id | id in store.nodes :: IsReviewed(store.edges, traceId, id, old(store.nodes)[id], store.nodes[id])
    ensures store.nodes == if known then Reviewed(old(store.nodes), Closure(store.edges, EntityUid(traceId), REVIEW_DEPTH)) else old(store.nodes)
  {
    if traceId !in store.nodes {
      return false;
    }
    var seen := FindClosure(store.edges, EntityUid(traceId));
    ReviewedExactly(store.nodes, store.edges, traceId);
    SetReviewed(store, seen);
    return true;
  }

  /** A review is a step of the runs for which agreement and staleness are proved. */
  lemma {:induction false} ReviewIsAStep(m: IndexRuns.Moment, uids: set<Uid>, uid: EdgeUid)
    ensures IndexRuns.ReviewResult(m.g, m.g.(nodes := Reviewed(m.g.nodes, uids)))
  {
    assert Reviewed(m.g.nodes, uids).Keys == m.g.nodes.Keys;
  }
}
