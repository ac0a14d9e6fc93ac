/** Staleness over single passes and over whole runs. */
module Staleness {
  import opened Models
  import opened Store
  import opened IndexSpec
  import opened IndexTheorems

  // ----- one pass -----

  /** In the stored graph, a declared active edge leads from the node to an artifact of which
      some other fingerprint was on record when the pass began. */
  ghost predicate PointsAtChanged(h: map<string, set<string>>, g': Graph, id: string) {
    exists e, t :: e in g'.edges && e.key.kind == Declared && e.status == Active && e.key.source == EntityUid(id)
      && t in g'.nodes && IsChanged(h, g'.nodes[t]) && e.key.target == EntityUid(t)
  }

  lemma {:induction false} StoredDependents(h: map<string, set<string>>, prior: NodeMap, m: NodeMap, edges: set<Edge>, clean: bool, g': Graph, uid: EdgeUid, id: string)
    requires WellKeyed(m)
    requires g'.nodes == StaledMap(h, prior, m, edges, clean) && IsEdgeTable(g'.edges, edges, uid)
    ensures PointsAtChanged(h, g', id) <==> DependsOnChanged(h, m, edges, id)
  {
    forall t | t in m ensures IsChanged(h, g'.nodes[t]) <==> IsChanged(h, m[t]) {
      StaledKeepsRow(h, prior, m, edges, clean, t);
    }
    if PointsAtChanged(h, g', id) {
      var e, t :| e in g'.edges && e.key.kind == Declared && e.status == Active && e.key.source == EntityUid(id)
        && t in g'.nodes && IsChanged(h, g'.nodes[t]) && e.key.target == EntityUid(t);
      assert e in edges && t in m;
    }
    if DependsOnChanged(h, m, edges, id) {
      var e, t :| e in edges && e.key.kind == Declared && e.status == Active && e.key.source == EntityUid(id)
        && t in m && IsChanged(h, m[t]) && e.key.target == EntityUid(t);
      assert e in g'.edges && t in g'.nodes;
    }
  }

  /** The old row of an id was stale. */
  predicate WasStale(g: Graph, id: string) {
    id in g.nodes && g.nodes[id].status == StaleReviewRequired
  }

  lemma {:induction false} StaledStatus(h: map<string, set<string>>, prior: NodeMap, m: NodeMap, edges: set<Edge>, clean: bool, id: string)
    requires id in m && m[id].traceId == id
    requires m[id].status == Current || (!clean && id in prior && m[id].status == prior[id].status)
    ensures Staled(h, prior, m, edges, clean, id).status ==
      if DependsOnChanged(h, m, edges, id) then StaleReviewRequired
      else if IsChanged(h, m[id]) || clean || id !in prior then Current
      else prior[id].status
  {}

  /** After a full pass an active node is stale exactly when it points at a changed artifact,
      or, unless the pass is clean, it is itself unchanged and was stale before. */
  lemma {:induction false} FullPassStaleExactly(g: Graph, tree: Tree, paths: seq<string>, work: seq<Node>, clean: bool, uid: EdgeUid, g': Graph, id: string)
    requires ValidRepo(tree, work) && SetOf(paths) == tree.Keys && WellKeyed(g.nodes)
    requires forall p | p in paths :: p in tree
    requires FullResult(g, NodesOf(tree, paths), DeclEdges(tree), work, clean, uid, g')
    requires id in g'.nodes && g'.nodes[id].active
    ensures g'.nodes[id].status == StaleReviewRequired <==>
      PointsAtChanged(g.history, g', id) || (!clean && !IsChanged(g.history, g'.nodes[id]) && WasStale(g, id))
  {
    var m := FullNodes(g.nodes, NodesOf(tree, paths), work);
    var all := DeclEdges(tree) + StructuralEdges(m);
    FullNodesLive(g.nodes, tree, paths, work);
    StaledKeepsRow(g.history, g.nodes, m, all, clean, id);
    assert id in ActiveDecls(m);
    var _ := LiveOrigin(tree, work, id);
    StoredDependents(g.history, g.nodes, m, all, clean, g', uid, id);
    StaledStatus(g.history, g.nodes, m, all, clean, id);
  }

  /** The same for an incremental pass. */
  lemma {:induction false} IncrementalPassStaleExactly(g: Graph, t0: Tree, w0: seq<Node>, t1: Tree, w1: seq<Node>, paths: seq<string>, changed: set<string>, uid: EdgeUid, g': Graph, id: string)
    requires IncInputs(g, t0, w0, t1, w1, paths, changed, uid)
    requires Agreeable(t0, t1, w1, paths, changed)
    requires IncResult(g, NodesOf(t1, paths), SetOf(EdgesOf(t1, paths)), w1, changed, uid, g')
    requires id in g'.nodes && g'.nodes[id].active
    ensures g'.nodes[id].status == StaleReviewRequired <==>
      PointsAtChanged(g.history, g', id) || (!IsChanged(g.history, g'.nodes[id]) && WasStale(g, id))
  {
    var r := Recent(t1, w1, paths);
    var m := IncNodes(g.nodes, changed, r);
    var all := KeptEdges(g.edges, r, Gone(g.nodes, changed, r)) + SetOf(EdgesOf(t1, paths)) + StructuralEdges(m);
    IncNodesLive(g, t0, w0, t1, w1, paths, changed, uid);
    StaledKeepsRow(g.history, g.nodes, m, all, false, id);
    IncStatusBase(g, t0, w0, t1, w1, paths, changed, uid, id);
    StoredDependents(g.history, g.nodes, m, all, false, g', uid, id);
    StaledStatus(g.history, g.nodes, m, all, false, id);
  }

  lemma {:induction false} IncStatusBase(g: Graph, t0: Tree, w0: seq<Node>, t1: Tree, w1: seq<Node>, paths: seq<string>, changed: set<string>, uid: EdgeUid, id: string)
    requires IncInputs(g, t0, w0, t1, w1, paths, changed, uid)
    requires Agreeable(t0, t1, w1, paths, changed)
    requires var m := IncNodes(g.nodes, changed, Recent(t1, w1, paths)); id in m && m[id].active
    ensures var m := IncNodes(g.nodes, changed, Recent(t1, w1, paths));
            m[id].traceId == id && (m[id].status == Current || (id in g.nodes && m[id].status == g.nodes[id].status))
  {
    IncNodesAt(g.nodes, changed, Recent(t1, w1, paths), id);
    IncNodeLive(g, t0, w0, t1, w1, paths, changed, uid, id);
    if id in Recent(t1, w1, paths) {
      RecentIsLive(g, t0, w0, t1, w1, paths, changed, uid, id);
      var _ := LiveOrigin(t1, w1, id);
    }
  }

  // ----- the two passes side by side -----

  /** An inactive row of a changed file that nothing declares: the incremental pass drops it,
      the full pass keeps it. */
  predicate Dropped(g: Graph, changed: set<string>, recent: NodeMap, t: string) {
    t in g.nodes && !g.nodes[t].active && OnPath(g.nodes[t], changed) && t !in recent
  }

  /** A live edge of the node leads to a dropped row that has another fingerprint on record. */
  ghost predicate PointsAtDropped(g: Graph, changed: set<string>, recent: NodeMap, edges: set<Edge>, id: string) {
    exists e, t :: e in edges && e.key.kind == Declared && e.status == Active && e.key.source == EntityUid(id)
      && Dropped(g, changed, recent, t) && IsChanged(g.history, g.nodes[t]) && e.key.target == EntityUid(t)
  }

  /** Rows other than dropped ones carry the same fingerprint through both passes. */
  lemma {:induction false} SameArtifacts(g: Graph, t0: Tree, w0: seq<Node>, t1: Tree, w1: seq<Node>, paths: seq<string>, changed: set<string>, uid: EdgeUid, t: string)
    requires IncInputs(g, t0, w0, t1, w1, paths, changed, uid)
    requires Agreeable(t0, t1, w1, paths, changed)
    ensures var r := Recent(t1, w1, paths);
            var m, f := IncNodes(g.nodes, changed, r), InactiveCopies(g.nodes) + Live(t1, w1);
            && (t in f <==> t in m || Dropped(g, changed, r, t))
            && (t in m ==> m[t].fingerprint == f[t].fingerprint && m[t].traceId == f[t].traceId)
            && (Dropped(g, changed, r, t) ==> t !in m && f[t] == g.nodes[t])
  {
    var r := Recent(t1, w1, paths);
    IncNodesAt(g.nodes, changed, r, t);
    IncNodeLive(g, t0, w0, t1, w1, paths, changed, uid, t);
    if t in r {
      RecentIsLive(g, t0, w0, t1, w1, paths, changed, uid, t);
    } else {
      UnchangedRows(g, t0, w0, t1, w1, paths, changed, uid, t);
    }
  }

  /** The rows of f are those of m and the dropped ones, and the shared ones are changed alike. */
  ghost predicate SplitRows(g: Graph, changed: set<string>, r: NodeMap, m: NodeMap, f: NodeMap, t: string) {
    && (t in f <==> t in m || Dropped(g, changed, r, t))
    && (t in m ==> t in f && (IsChanged(g.history, m[t]) <==> IsChanged(g.history, f[t])))
    && (Dropped(g, changed, r, t) ==> t !in m && f[t] == g.nodes[t])
  }

  lemma {:induction false} RowsSplit(g: Graph, t0: Tree, w0: seq<Node>, t1: Tree, w1: seq<Node>, paths: seq<string>, changed: set<string>, uid: EdgeUid, t: string)
    requires IncInputs(g, t0, w0, t1, w1, paths, changed, uid)
    requires Agreeable(t0, t1, w1, paths, changed)
    ensures var r := Recent(t1, w1, paths);
            SplitRows(g, changed, r, IncNodes(g.nodes, changed, r), InactiveCopies(g.nodes) + Live(t1, w1), t)
  {
    SameArtifacts(g, t0, w0, t1, w1, paths, changed, uid, t);
  }

  lemma {:induction false} SplitDependents(g: Graph, changed: set<string>, r: NodeMap, m: NodeMap, f: NodeMap, edges: set<Edge>, id: string)
    requires forall t :: SplitRows(g, changed, r, m, f, t)
    ensures DependsOnChanged(g.history, f, edges, id) <==>
            DependsOnChanged(g.history, m, edges, id) || PointsAtDropped(g, changed, r, edges, id)
  {
    if DependsOnChanged(g.history, f, edges, id) {
      var e, t :| e in edges && e.key.kind == Declared && e.status == Active && e.key.source == EntityUid(id)
        && t in f && IsChanged(g.history, f[t]) && e.key.target == EntityUid(t);
      assert SplitRows(g, changed, r, m, f, t);
    }
    if DependsOnChanged(g.history, m, edges, id) {
      var e, t :| e in edges && e.key.kind == Declared && e.status == Active && e.key.source == EntityUid(id)
        && t in m && IsChanged(g.history, m[t]) && e.key.target == EntityUid(t);
      assert SplitRows(g, changed, r, m, f, t);
    }
    if PointsAtDropped(g, changed, r, edges, id) {
      var e, t :| e in edges && e.key.kind == Declared && e.status == Active && e.key.source == EntityUid(id)
        && Dropped(g, changed, r, t) && IsChanged(g.history, g.nodes[t]) && e.key.target == EntityUid(t);
      assert SplitRows(g, changed, r, m, f, t);
    }
  }

  lemma {:induction false} DependentsDiffer(g: Graph, t0: Tree, w0: seq<Node>, t1: Tree, w1: seq<Node>, paths: seq<string>, changed: set<string>, uid: EdgeUid, edges: set<Edge>, id: string)
    requires IncInputs(g, t0, w0, t1, w1, paths, changed, uid)
    requires Agreeable(t0, t1, w1, paths, changed)
    ensures var r := Recent(t1, w1, paths);
            DependsOnChanged(g.history, InactiveCopies(g.nodes) + Live(t1, w1), edges, id) <==>
            DependsOnChanged(g.history, IncNodes(g.nodes, changed, r), edges, id) || PointsAtDropped(g, changed, r, edges, id)
  {
    var r := Recent(t1, w1, paths);
    var m, f := IncNodes(g.nodes, changed, r), InactiveCopies(g.nodes) + Live(t1, w1);
    forall t ensures SplitRows(g, changed, r, m, f, t) {
      RowsSplit(g, t0, w0, t1, w1, paths, changed, uid, t);
    }
    SplitDependents(g, changed, r, m, f, edges, id);
  }

  /** The rows there are before an incremental pass, but for dropped ones: what the repository calls
      for, and old rows of everything else. */
  ghost function Remaining(g: Graph, t1: Tree, w1: seq<Node>, paths: seq<string>, changed: set<string>): NodeMap
    requires forall p | p in paths :: p in t1
  {
    var live := Live(t1, w1);
    map t | t in g.nodes.Keys + live.Keys && !Dropped(g, changed, Recent(t1, w1, paths), t) :: if t in live then live[t] else g.nodes[t]
  }

  lemma {:induction false} RemainingRow(g: Graph, t0: Tree, w0: seq<Node>, t1: Tree, w1: seq<Node>, paths: seq<string>, changed: set<string>, uid: EdgeUid, t: string)
    requires IncInputs(g, t0, w0, t1, w1, paths, changed, uid)
    requires Agreeable(t0, t1, w1, paths, changed)
    ensures var m, r := IncNodes(g.nodes, changed, Recent(t1, w1, paths)), Remaining(g, t1, w1, paths, changed);
            (t in m <==> t in r) && (t in m ==> (IsChanged(g.history, m[t]) <==> IsChanged(g.history, r[t])))
  {
    var m, r := IncNodes(g.nodes, changed, Recent(t1, w1, paths)), Remaining(g, t1, w1, paths, changed);
    SameArtifacts(g, t0, w0, t1, w1, paths, changed, uid, t);
    RemainingAt(g, t1, w1, paths, changed, t);
    if t in m {
      ChangedAlike(g.history, m[t], (InactiveCopies(g.nodes) + Live(t1, w1))[t]);
    }
  }

  lemma {:induction false} RemainingAt(g: Graph, t1: Tree, w1: seq<Node>, paths: seq<string>, changed: set<string>, t: string)
    requires forall p | p in paths :: p in t1
    ensures var r, f := Remaining(g, t1, w1, paths, changed), InactiveCopies(g.nodes) + Live(t1, w1);
            && (t in r <==> t in f && !Dropped(g, changed, Recent(t1, w1, paths), t))
            && (t in r ==> (IsChanged(g.history, r[t]) <==> IsChanged(g.history, f[t])))
  {}

  lemma {:induction false} ChangedAlike(h: map<string, set<string>>, a: Node, b: Node)
    requires a.fingerprint == b.fingerprint && a.traceId == b.traceId
    ensures IsChanged(h, a) <==> IsChanged(h, b)
  {}

  lemma {:induction false} RemainingRows(g: Graph, t0: Tree, w0: seq<Node>, t1: Tree, w1: seq<Node>, paths: seq<string>, changed: set<string>, uid: EdgeUid, m: NodeMap, r: NodeMap)
    requires IncInputs(g, t0, w0, t1, w1, paths, changed, uid)
    requires Agreeable(t0, t1, w1, paths, changed)
    requires m == IncNodes(g.nodes, changed, Recent(t1, w1, paths)) && r == Remaining(g, t1, w1, paths, changed)
    ensures SameChanges(g.history, m, r)
  {
    forall t ensures (t in m <==> t in r) && (t in m ==> (IsChanged(g.history, m[t]) <==> IsChanged(g.history, r[t]))) {
      RemainingRow(g, t0, w0, t1, w1, paths, changed, uid, t);
    }
  }

  lemma {:induction false} RemainingDependents(g: Graph, t0: Tree, w0: seq<Node>, t1: Tree, w1: seq<Node>, paths: seq<string>, changed: set<string>, uid: EdgeUid, edges: set<Edge>, id: string)
    requires IncInputs(g, t0, w0, t1, w1, paths, changed, uid)
    requires Agreeable(t0, t1, w1, paths, changed)
    ensures DependsOnChanged(g.history, Remaining(g, t1, w1, paths, changed), edges, id) <==>
            DependsOnChanged(g.history, IncNodes(g.nodes, changed, Recent(t1, w1, paths)), edges, id)
  {
    var m, r := IncNodes(g.nodes, changed, Recent(t1, w1, paths)), Remaining(g, t1, w1, paths, changed);
    RemainingRows(g, t0, w0, t1, w1, paths, changed, uid, m, r);
    SameDependents(g.history, m, r, edges, id);
  }

  predicate SameChanges(h: map<string, set<string>>, a: NodeMap, b: NodeMap) {
    a.Keys == b.Keys && forall t | t in a :: IsChanged(h, a[t]) <==> IsChanged(h, b[t])
  }

  lemma {:induction false} SameDependents(h: map<string, set<string>>, a: NodeMap, b: NodeMap, edges: set<Edge>, id: string)
    requires SameChanges(h, a, b)
    ensures DependsOnChanged(h, a, edges, id) <==> DependsOnChanged(h, b, edges, id)
  {}

  /** From one store, the full and the incremental pass give an active node the same status,
      except when it points at a dropped row with another fingerprint on record and nothing
      else makes it stale: then only the full pass marks it. All of it can be told before either
      pass. */
  lemma {:induction false} StatusesAgreeExactly(g: Graph, t0: Tree, w0: seq<Node>, t1: Tree, w1: seq<Node>, paths: seq<string>, files: seq<string>, changed: set<string>, uid: EdgeUid, gi: Graph, gf: Graph, id: string)
    requires IncInputs(g, t0, w0, t1, w1, paths, changed, uid)
    requires Agreeable(t0, t1, w1, paths, changed)
    requires IncResult(g, NodesOf(t1, paths), SetOf(EdgesOf(t1, paths)), w1, changed, uid, gi)
    requires SetOf(files) == t1.Keys && forall p | p in files :: p in t1
    requires FullResult(g, NodesOf(t1, files), DeclEdges(t1), w1, false, uid, gf)
    requires id in Live(t1, w1)
    ensures id in gi.nodes && id in gf.nodes
    ensures gi.nodes[id].status == gf.nodes[id].status <==>
      (PointsAtDropped(g, changed, Recent(t1, w1, paths), LiveEdges(t1, w1), id) ==>
        || DependsOnChanged(g.history, Remaining(g, t1, w1, paths, changed), LiveEdges(t1, w1), id)
        || (!IsChanged(g.history, Live(t1, w1)[id]) && WasStale(g, id)))
  {
    var r := Recent(t1, w1, paths);
    var m, f := IncNodes(g.nodes, changed, r), InactiveCopies(g.nodes) + Live(t1, w1);
    var all := LiveEdges(t1, w1);
    IncNodesLive(g, t0, w0, t1, w1, paths, changed, uid);
    IncEdgesLive(g, t0, w0, t1, w1, paths, changed, uid);
    StructuralOfActive(m);
    FullNodesLive(g.nodes, t1, files, w1);
    StructuralOfActive(f);
    assert gi.nodes == StaledMap(g.history, g.nodes, m, all, false);
    assert gf.nodes == StaledMap(g.history, g.nodes, f, all, false);
    var _ := LiveOrigin(t1, w1, id);
    IncNodeLive(g, t0, w0, t1, w1, paths, changed, uid, id);
    IncStatusBase(g, t0, w0, t1, w1, paths, changed, uid, id);
    RemainingDependents(g, t0, w0, t1, w1, paths, changed, uid, all, id);
    DependentsDiffer(g, t0, w0, t1, w1, paths, changed, uid, all, id);
    StaledStatus(g.history, g.nodes, m, all, false, id);
    StaledStatus(g.history, g.nodes, f, all, false, id);
  }
}
