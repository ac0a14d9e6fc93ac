/** The stores on which the two passes differ come up in a run. */
module DivergenceRun {
  import opened Models
  import opened Store
  import opened IndexSpec
  import opened IndexTheorems
  import opened IndexRuns
  import opened Divergence

  /** Two declarations of one artifact in the file, with different fingerprints. */
  ghost predicate Edited(p: string, a: Node, b: Node) {
    Plain(a, p) && a.active && Plain(b, p) && b.active && a.traceId == b.traceId && a.fingerprint != b.fingerprint
  }

  /** A node that the file declares later, with an edge to the artifact. */
  ghost predicate Pointing(p: string, a: Node, d: Node, e: Edge) {
    && Plain(d, p) && d.active && d.traceId != a.traceId
    && e.status == Active && e.key.kind == Declared && e.key.path == p
    && e.key.source == EntityUid(d.traceId) && e.key.target == EntityUid(a.traceId)
  }

  lemma {:induction false} DeclaredAlone(p: string, n: Node)
    requires Plain(n, p) && n.active
    ensures ValidExtraction(p, Extraction([n], [])) && SetOf<Edge>([]) == {}
  {
    var ns := [n];
    assert forall x | x in ns :: x == n;
  }

  lemma {:induction false} OnlyRow(prior: NodeMap, n: Node)
    requires prior.Keys <= {n.traceId}
    ensures FullNodes(prior, [n], []) == map[n.traceId := n]
  {
    SingleFirst(n);
    assert InactiveCopies(prior).Keys <= {n.traceId};
  }

  /** The store after a full pass over a file that declares one node. */
  function AfterOne(g: Graph, n: Node, uid: EdgeUid): Graph {
    Graph(map[n.traceId := Carried(g.history, g.nodes, n, false)], [], WithFingerprint(g.history, n))
  }

  lemma {:induction false} NoDependents(h: map<string, set<string>>, prior: NodeMap, n: Node)
    ensures StaledMap(h, prior, map[n.traceId := n], {}, false) == map[n.traceId := Carried(h, prior, n, false)]
  {
    var m := map[n.traceId := n];
    assert !DependsOnChanged(h, m, {}, n.traceId);
  }

  lemma {:induction false} FullOfOne(g: Graph, n: Node, uid: EdgeUid)
    requires g.nodes.Keys <= {n.traceId} && !n.symbolAttached
    ensures FullResult(g, [n], {}, [], false, uid, AfterOne(g, n, uid))
  {
    OnlyRow(g.nodes, n);
    NoDependents(g.history, g.nodes, n);
    NothingContained(map[n.traceId := n]);
    assert IsEdgeTable([], {}, uid);
  }

  lemma {:induction false} FullStepOfOne(m: Moment, p: string, n: Node, t: Tree, uid: EdgeUid)
    requires Plain(n, p) && n.active && m.g.nodes.Keys <= {n.traceId} && t == map[p := Extraction([n], [])]
    ensures Next(m, Full(false), Moment(AfterOne(m.g, n, uid), t, []), uid)
  {
    DeclaredAlone(p, n);
    OneFile(p, t[p], t, []);
    OneFileScan(p, t[p], t);
    FullOfOne(m.g, n, uid);
    assert FullStep(m, false, uid, Moment(AfterOne(m.g, n, uid), t, []), [p]);
  }

  /** The store after an incremental pass over a file that declares nothing any more. */
  function AfterNone(g: Graph, n: Node): Graph {
    Graph(map[n.traceId := Carried(g.history, g.nodes, n.(active := false), false)], [], g.history)
  }

  lemma {:induction false} IncOfNone(g: Graph, p: string, n: Node, uid: EdgeUid)
    requires g.nodes == map[n.traceId := n] && g.edges == [] && n.active && n.path == Some(p) && !n.symbolAttached
    ensures IncResult(g, [], {}, [], {p}, uid, AfterNone(g, n))
  {
    assert FirstMap([]) + FirstMap([]) == map[];
    var gone := n.(active := false);
    assert IncNodes(g.nodes, {p}, map[]) == map[n.traceId := gone];
    NoDependents(g.history, g.nodes, gone);
    NothingContained(map[n.traceId := gone]);
    assert KeptEdges([], map[], Gone(g.nodes, {p}, map[])) == {};
    assert IsEdgeTable([], {}, uid);
  }

  lemma {:induction false} NoneDeclared(p: string)
    ensures ValidExtraction(p, Extraction([], [])) && SetOf<Edge>([]) == {}
  {}

  lemma {:induction false} IncStepOfNone(m: Moment, p: string, n: Node, t: Tree, uid: EdgeUid)
    requires m.g.nodes == map[n.traceId := n] && m.g.edges == [] && n.active && n.path == Some(p) && !n.symbolAttached
    requires m.tree.Keys == {p} && m.work == [] && t == map[p := Extraction([], [])]
    ensures Next(m, Incremental({p}), Moment(AfterNone(m.g, n), t, []), uid)
  {
    NoneDeclared(p);
    OneFile(p, t[p], t, []);
    OneFileScan(p, t[p], t);
    IncOfNone(m.g, p, n, uid);
    assert IncStep(m, {p}, uid, Moment(AfterNone(m.g, n), t, []), [p]);
  }

  lemma {:induction false} ThreeSteps(m1: Moment, m2: Moment, m3: Moment, s1: Step, s2: Step, s3: Step, uid: EdgeUid)
    requires Next(START, s1, m1, uid) && Next(m1, s2, m2, uid) && Next(m2, s3, m3, uid)
    ensures IsRun([START, m1, m2, m3], [s1, s2, s3], uid)
  {}

  ghost function AfterDeclaring(g: Graph, p: string, n: Node, uid: EdgeUid): Moment {
    Moment(AfterOne(g, n, uid), map[p := Extraction([n], [])], [])
  }

  /** The moment after the artifact has been declared, edited and dropped. */
  ghost function AfterDropping(p: string, a: Node, b: Node, uid: EdgeUid): Moment {
    var g := AfterDeclaring(AfterDeclaring(START.g, p, a, uid).g, p, b, uid).g;
    if b.traceId in g.nodes then Moment(AfterNone(g, g.nodes[b.traceId]), map[p := Extraction([], [])], []) else START
  }

  lemma {:induction false} DeclaringIsAStep(m: Moment, p: string, n: Node, uid: EdgeUid)
    requires Plain(n, p) && n.active && m.g.nodes.Keys <= {n.traceId}
    ensures Next(m, Full(false), AfterDeclaring(m.g, p, n, uid), uid)
  {
    FullStepOfOne(m, p, n, map[p := Extraction([n], [])], uid);
  }

  lemma {:induction false} DeclaredRow(g: Graph, p: string, n: Node, uid: EdgeUid)
    ensures var h := AfterDeclaring(g, p, n, uid).g;
      && h.nodes.Keys == {n.traceId} && SameRow(h.nodes[n.traceId], n) && h.nodes[n.traceId].symbolAttached == n.symbolAttached
      && h.edges == [] && h.history == WithFingerprint(g.history, n)
  {
    CarriedKeepsRow(g.history, g.nodes, n, false);
  }

  lemma {:induction false} EditedRow(p: string, a: Node, b: Node, uid: EdgeUid)
    requires Edited(p, a, b)
    ensures var g := AfterDeclaring(AfterDeclaring(START.g, p, a, uid).g, p, b, uid).g;
      && g.nodes.Keys == {a.traceId} && SameRow(g.nodes[a.traceId], b) && g.nodes[a.traceId].symbolAttached == b.symbolAttached
      && g.edges == [] && g.history.Keys == {a.traceId} && History(g.history, a.traceId) == {a.fingerprint.value, b.fingerprint.value}
  {
    var m1 := AfterDeclaring(START.g, p, a, uid);
    DeclaredRow(START.g, p, a, uid);
    DeclaredRow(m1.g, p, b, uid);
  }

  lemma {:induction false} DroppingIsAStep(p: string, a: Node, b: Node, uid: EdgeUid)
    requires Edited(p, a, b)
    ensures Next(AfterDeclaring(AfterDeclaring(START.g, p, a, uid).g, p, b, uid), Incremental({p}), AfterDropping(p, a, b, uid), uid)
  {
    EditedRow(p, a, b, uid);
    var m := AfterDeclaring(AfterDeclaring(START.g, p, a, uid).g, p, b, uid);
    var y := m.g.nodes[b.traceId];
    assert m.g.nodes == map[y.traceId := y];
    IncStepOfNone(m, p, y, map[p := Extraction([], [])], uid);
  }

  lemma {:induction false} PastIsRun(p: string, a: Node, b: Node, uid: EdgeUid)
    requires Edited(p, a, b)
    ensures var m1 := AfterDeclaring(START.g, p, a, uid);
      IsRun([START, m1, AfterDeclaring(m1.g, p, b, uid), AfterDropping(p, a, b, uid)], [Full(false), Full(false), Incremental({p})], uid)
  {
    var m1 := AfterDeclaring(START.g, p, a, uid);
    DeclaringIsAStep(START, p, a, uid);
    DeclaredRow(START.g, p, a, uid);
    DeclaringIsAStep(m1, p, b, uid);
    DroppingIsAStep(p, a, b, uid);
    ThreeSteps(m1, AfterDeclaring(m1.g, p, b, uid), AfterDropping(p, a, b, uid), Full(false), Full(false), Incremental({p}), uid);
  }

  lemma {:induction false} DroppedRow(p: string, a: Node, b: Node, uid: EdgeUid)
    requires Edited(p, a, b)
    ensures var m := AfterDropping(p, a, b, uid);
      && m.tree == map[p := Extraction([], [])] && m.work == [] && m.g.edges == [] && m.g.nodes.Keys == {a.traceId}
      && m.g.history.Keys == {a.traceId}
      && var x := m.g.nodes[a.traceId];
         x.traceId == a.traceId && x.path == Some(p) && !x.symbolAttached && !x.active && IsChanged(m.g.history, x)
  {
    EditedRow(p, a, b, uid);
    var g := AfterDeclaring(AfterDeclaring(START.g, p, a, uid).g, p, b, uid).g;
    var y := g.nodes[b.traceId].(active := false);
    CarriedKeepsRow(g.history, g.nodes, y, false);
    assert a.fingerprint.value in PreviousFingerprints(g.history, a.traceId, b.fingerprint.value);
  }

  lemma {:induction false} DropIsScene(p: string, a: Node, b: Node, d: Node, e: Edge, uid: EdgeUid)
    requires Edited(p, a, b) && Pointing(p, a, d, e)
    ensures var m := AfterDropping(p, a, b, uid);
      m.g.nodes.Keys == {a.traceId} && Scene(p, m.g.nodes[a.traceId], d, e, m.g.history)
  {
    DroppedRow(p, a, b, uid);
    assert History(AfterDropping(p, a, b, uid).g.history, d.traceId) == {};
  }

  lemma {:induction false} IncResultIsAStep(m: Moment, p: string, t: Tree, gi: Graph, uid: EdgeUid)
    requires IncInputs(m.g, m.tree, m.work, t, [], [p], {p}, uid) && Agreeable(m.tree, t, [], [p], {p})
    requires IncResult(m.g, NodesOf(t, [p]), SetOf(EdgesOf(t, [p])), [], {p}, uid, gi)
    ensures Next(m, Incremental({p}), Moment(gi, t, []), uid)
  {
    assert IncStep(m, {p}, uid, Moment(gi, t, []), [p]);
  }

  lemma {:induction false} FullResultIsAStep(m: Moment, p: string, t: Tree, gf: Graph, uid: EdgeUid)
    requires ValidRepo(t, []) && SetOf([p]) == t.Keys && forall q | q in [p] :: q in t
    requires FullResult(m.g, NodesOf(t, [p]), DeclEdges(t), [], false, uid, gf)
    ensures Next(m, Full(false), Moment(gf, t, []), uid)
  {
    assert FullStep(m, false, uid, Moment(gf, t, []), [p]);
  }

  /** A run after which the next full and the next incremental pass over the same repository state give
      a node different statuses. */
  lemma {:induction false} RunsDisagree(p: string, a: Node, b: Node, d: Node, e: Edge, uid: EdgeUid)
      returns (ms: seq<Moment>, steps: seq<Step>, mi: Moment, mf: Moment)
    requires Edited(p, a, b) && Pointing(p, a, d, e)
    ensures IsRun(ms, steps, uid) && |steps| == 3 && mi.tree == mf.tree && mi.work == mf.work
    ensures Next(ms[3], Incremental({p}), mi, uid) && Next(ms[3], Full(false), mf, uid)
    ensures d.traceId in mi.g.nodes && mi.g.nodes[d.traceId].status == Current
    ensures d.traceId in mf.g.nodes && mf.g.nodes[d.traceId].status == StaleReviewRequired
  {
    var m1, m := AfterDeclaring(START.g, p, a, uid), AfterDropping(p, a, b, uid);
    PastIsRun(p, a, b, uid);
    ms, steps := [START, m1, AfterDeclaring(m1.g, p, b, uid), m], [Full(false), Full(false), Incremental({p})];
    mi, mf := LastSteps(p, a, b, d, e, uid);
  }

  lemma {:induction false} LastSteps(p: string, a: Node, b: Node, d: Node, e: Edge, uid: EdgeUid) returns (mi: Moment, mf: Moment)
    requires Edited(p, a, b) && Pointing(p, a, d, e)
    ensures var m := AfterDropping(p, a, b, uid); Next(m, Incremental({p}), mi, uid) && Next(m, Full(false), mf, uid)
    ensures mi.tree == mf.tree && mi.work == mf.work
    ensures d.traceId in mi.g.nodes && mi.g.nodes[d.traceId].status == Current
    ensures d.traceId in mf.g.nodes && mf.g.nodes[d.traceId].status == StaleReviewRequired
  {
    var m := AfterDropping(p, a, b, uid);
    DroppedRow(p, a, b, uid);
    DropIsScene(p, a, b, d, e, uid);
    var x := m.g.nodes[a.traceId];
    assert m.g.nodes == map[x.traceId := x];
    var t := map[p := Extraction([d], [e])];
    var gi, gf := PassesDisagree(p, x, d, e, m.g, m.tree, t, m.work, uid);
    IncResultIsAStep(m, p, t, gi, uid);
    OneFileScan(p, t[p], t);
    FullResultIsAStep(m, p, t, gf, uid);
    mi, mf := Moment(gi, t, []), Moment(gf, t, []);
  }
}
