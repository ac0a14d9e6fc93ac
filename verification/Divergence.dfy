/** Stores and changes on which the two passes leave different statuses. */
module Divergence {
  import opened Models
  import opened Store
  import opened IndexSpec
  import opened IndexTheorems
  import opened Staleness

  ghost predicate Plain(n: Node, p: string) {
    n.path == Some(p) && !n.symbolAttached && n.fingerprint.Some? && Declaration(n) == n
  }

  /** An artifact x, declared in the file p once, changed and then deleted; and a node d that p
      declares now, with an edge to x. */
  ghost predicate Scene(p: string, x: Node, d: Node, e: Edge, h: map<string, set<string>>) {
    && x.path == Some(p) && !x.symbolAttached && !x.active && IsChanged(h, x)
    && Plain(d, p) && d.active && !IsChanged(h, d)
    && d.traceId != x.traceId
    && e.status == Active && e.key.kind == Declared && e.key.path == p
    && e.key.source == EntityUid(d.traceId) && e.key.target == EntityUid(x.traceId)
  }

  lemma {:induction false} OneFile(p: string, x: Extraction, t: Tree, work: seq<Node>)
    requires ValidExtraction(p, x) && t.Keys == {p} && t[p] == x && work == []
    ensures Live(t, work) == FirstMap(x.nodes) && ValidRepo(t, work) && DeclEdges(t) == SetOf(x.edges)
  {
    forall q, id | Declares(t, q, id) ensures q == p { assert q in t.Keys; }
    var m := FirstMap(x.nodes);
    forall id | id in m ensures id in DeclMap(t) && DeclMap(t)[id] == m[id] {
      DeclMapAt(t, p, id);
    }
    forall id | id in DeclMap(t) ensures id in m {
      assert Declares(t, Owner(t, id), id);
    }
    SameMap(DeclMap(t), m);
  }

  lemma {:induction false} OneFileScan(p: string, x: Extraction, t: Tree)
    requires t.Keys == {p} && t[p] == x
    ensures forall q | q in [p] :: q in t
    ensures NodesOf(t, [p]) == x.nodes && EdgesOf(t, [p]) == x.edges && SetOf([p]) == t.Keys
  {
    assert [p][..0] == [];
    assert NodesOf(t, []) == [] && EdgesOf(t, []) == [];
    assert [p][0] == p;
  }

  lemma {:induction false} NothingContained(m: NodeMap)
    requires forall id | id in m :: !m[id].symbolAttached
    ensures StructuralEdges(m) == {}
  {}

  lemma {:induction false} SingleFirst(d: Node)
    ensures FirstMap([d]) == map[d.traceId := d] && FirstMap([]) == map[]
  {
    assert [d][..0] == [];
  }

  lemma {:induction false} SceneFile(p: string, x: Node, d: Node, e: Edge, h: map<string, set<string>>)
    requires Scene(p, x, d, e, h)
    ensures ValidExtraction(p, Extraction([d], [e]))
  {
    var ns, es := [d], [e];
    assert forall n | n in ns :: n == d;
    assert forall a | a in es :: a == e;
    assert ns[0] in ns && e.key.source == EntityUid(ns[0].traceId);
  }

  /** The store before: x is remembered as inactive, its file is empty. */
  lemma {:induction false} SceneIsSynced(x: Node, g: Graph, t: Tree, work: seq<Node>, uid: EdgeUid)
    requires !x.active && g.nodes == map[x.traceId := x] && g.edges == []
    requires Live(t, work) == map[] && DeclEdges(t) == {}
    ensures Synced(g, t, work, uid)
  {
    var live := Live(t, work);
    NothingContained(live);
    var edges := LiveEdges(t, work);
    assert edges == {};
    assert IsEdgeTable(g.edges, edges, uid);
    var decls := ActiveDecls(g.nodes);
    assert forall id :: id !in decls;
    SameMap(decls, live);
  }

  lemma {:induction false} SceneRows(p: string, x: Node, d: Node)
    requires d.traceId != x.traceId && d.active && !x.active && x.path == Some(p)
    ensures FirstMap([]) + FirstMap([d]) == map[d.traceId := d]
    ensures IncNodes(map[x.traceId := x], {p}, map[d.traceId := d]) == map[d.traceId := d]
    ensures FullNodes(map[x.traceId := x], [d], []) == map[x.traceId := x, d.traceId := d]
  {
    SingleFirst(d);
    var a, b, c := InactiveCopies(map[x.traceId := x]), FirstMap([]), FirstMap([d]);
    assert a == map[x.traceId := x];
    assert b == map[] && c == map[d.traceId := d];
    assert a + b == a;
    assert a + c == map[x.traceId := x, d.traceId := d];
    assert b + c == c;
  }

  lemma {:induction false} SceneDependents(p: string, x: Node, d: Node, e: Edge, h: map<string, set<string>>)
    requires Scene(p, x, d, e, h)
    ensures DependsOnChanged(h, map[x.traceId := x, d.traceId := d], {e}, d.traceId)
    ensures !DependsOnChanged(h, map[d.traceId := d], {e}, d.traceId)
  {
    var f := map[x.traceId := x, d.traceId := d];
    assert e in {e} && x.traceId in f && f[x.traceId] == x;
  }

  lemma {:induction false} IncScene(p: string, x: Node, d: Node, e: Edge, g: Graph, ns: seq<Node>, es: set<Edge>, work: seq<Node>, uid: EdgeUid) returns (gi: Graph)
    requires Scene(p, x, d, e, g.history) && g.nodes == map[x.traceId := x] && g.edges == []
    requires ns == [d] && es == {e} && work == []
    ensures IncResult(g, ns, es, work, {p}, uid, gi)
    ensures d.traceId in gi.nodes && gi.nodes[d.traceId].status == Current
  {
    var m := map[d.traceId := d];
    SceneRows(p, x, d);
    var h := g.history;
    SceneDependents(p, x, d, e, h);
    NothingContained(m);
    gi := Graph(StaledMap(h, g.nodes, m, {e}, false), [e], WithFingerprint(h, d));
    var kept := KeptEdges(g.edges, m, Gone(g.nodes, {p}, m));
    assert kept == {};
    assert kept + {e} + StructuralEdges(m) == {e};
    assert IsEdgeTable([e], {e}, uid);
  }

  lemma {:induction false} SceneRecorded(h: map<string, set<string>>, x: Node, d: Node)
    requires d.traceId != x.traceId
    ensures Recorded(h, map[x.traceId := x, d.traceId := d], WithFingerprint(WithFingerprint(h, d), x))
  {}

  lemma {:induction false} SceneStale(p: string, x: Node, d: Node, e: Edge, h: map<string, set<string>>, prior: NodeMap)
    requires Scene(p, x, d, e, h)
    ensures Staled(h, prior, map[x.traceId := x, d.traceId := d], {e}, false, d.traceId).status == StaleReviewRequired
  {
    SceneDependents(p, x, d, e, h);
  }

  lemma {:induction false} FullScene(p: string, x: Node, d: Node, e: Edge, g: Graph, ns: seq<Node>, es: set<Edge>, work: seq<Node>, uid: EdgeUid) returns (gf: Graph)
    requires Scene(p, x, d, e, g.history) && g.nodes == map[x.traceId := x] && g.edges == []
    requires ns == [d] && es == {e} && work == []
    ensures FullResult(g, ns, es, work, false, uid, gf)
    ensures d.traceId in gf.nodes && gf.nodes[d.traceId].status == StaleReviewRequired
  {
    var f := map[x.traceId := x, d.traceId := d];
    SceneRows(p, x, d);
    SceneStale(p, x, d, e, g.history, g.nodes);
    SceneRecorded(g.history, x, d);
    NothingContained(f);
    gf := Graph(StaledMap(g.history, g.nodes, f, {e}, false), [e], WithFingerprint(WithFingerprint(g.history, d), x));
    assert {e} + StructuralEdges(f) == {e};
    assert IsEdgeTable([e], {e}, uid);
  }

  /** In every such scene the full pass marks d stale and the incremental pass calls it current. */
  lemma {:induction false} PassesDisagree(p: string, x: Node, d: Node, e: Edge, g: Graph, t0: Tree, t1: Tree, work: seq<Node>, uid: EdgeUid) returns (gi: Graph, gf: Graph)
    requires Scene(p, x, d, e, g.history)
    requires g.nodes == map[x.traceId := x] && g.edges == [] && work == []
    requires t0.Keys == {p} && t0[p] == Extraction([], []) && t1.Keys == {p} && t1[p] == Extraction([d], [e])
    ensures IncInputs(g, t0, work, t1, work, [p], {p}, uid) && Agreeable(t0, t1, work, [p], {p})
    ensures IncResult(g, NodesOf(t1, [p]), SetOf(EdgesOf(t1, [p])), work, {p}, uid, gi)
    ensures FullResult(g, NodesOf(t1, [p]), DeclEdges(t1), work, false, uid, gf)
    ensures d.traceId in gi.nodes && gi.nodes[d.traceId].status == Current
    ensures d.traceId in gf.nodes && gf.nodes[d.traceId].status == StaleReviewRequired
  {
    SceneFile(p, x, d, e, g.history);
    SceneInputs(p, x, d, e, g, t0, t1, work, uid);
    OneFile(p, t1[p], t1, work);
    OneFileScan(p, t1[p], t1);
    assert SetOf([e]) == {e};
    var ns := NodesOf(t1, [p]);
    gi := IncScene(p, x, d, e, g, ns, SetOf(EdgesOf(t1, [p])), work, uid);
    gf := FullScene(p, x, d, e, g, ns, DeclEdges(t1), work, uid);
  }

  lemma {:induction false} SceneInputs(p: string, x: Node, d: Node, e: Edge, g: Graph, t0: Tree, t1: Tree, work: seq<Node>, uid: EdgeUid)
    requires Scene(p, x, d, e, g.history) && ValidExtraction(p, Extraction([d], [e]))
    requires g.nodes == map[x.traceId := x] && g.edges == [] && work == []
    requires t0.Keys == {p} && t0[p] == Extraction([], []) && t1.Keys == {p} && t1[p] == Extraction([d], [e])
    ensures IncInputs(g, t0, work, t1, work, [p], {p}, uid) && Agreeable(t0, t1, work, [p], {p})
  {
    OneFile(p, t0[p], t0, work);
    OneFile(p, t1[p], t1, work);
    OneFileScan(p, t1[p], t1);
    SceneIsSynced(x, g, t0, work, uid);
  }
}
