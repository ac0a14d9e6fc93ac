/** The incremental index is a cache that agrees with the full rebuild; staleness is exact
    and, once it has a cause, never lost. */
module IndexTheorems {
  import opened Models
  import opened Store
  import opened IndexSpec

  /** The active rows as their sources declare them. */
  ghost function ActiveDecls(m: NodeMap): NodeMap {
    map id | id in m && m[id].active :: Declaration(m[id])
  }

  /** The store holds exactly the active nodes and the edges the repository calls for. */
  ghost predicate Synced(g: Graph, tree: Tree, work: seq<Node>, uid: EdgeUid) {
    && WellKeyed(g.nodes)
    && ActiveDecls(g.nodes) == Live(tree, work)
    && IsEdgeTable(g.edges, LiveEdges(tree, work), uid)
  }

  /** A repository state as the indexer sees it. */
  ghost predicate ValidRepo(tree: Tree, work: seq<Node>) {
    ValidTree(tree) && UniqueAcrossFiles(tree) && ValidWork(work)
  }

  // ----- facts about the parts -----

  /** Where a live node comes from. */
  lemma {:induction false} LiveOrigin(tree: Tree, work: seq<Node>, id: string) returns (p: string)
    requires ValidRepo(tree, work) && id in Live(tree, work)
    ensures var n := Live(tree, work)[id];
            n.active && Declaration(n) == n && n.traceId == id && n.path == Some(p)
    ensures Declares(tree, p, id) || (p == WORK_TOML && id in FirstMap(work) && (forall q :: !Declares(tree, q, id)))
  {
    if id in DeclMap(tree) {
      p := Owner(tree, id);
      DeclaredIsLive(tree, work, p, id);
    } else {
      p := WORK_TOML;
      FirstMapAt(work, id);
      forall q ensures !Declares(tree, q, id) {
        if Declares(tree, q, id) { DeclMapAt(tree, q, id); }
      }
    }
  }

  /** A marker node is live as its file declares it. */
  lemma {:induction false} DeclaredIsLive(tree: Tree, work: seq<Node>, p: string, id: string)
    requires ValidRepo(tree, work) && Declares(tree, p, id)
    ensures id in Live(tree, work)
    ensures var n := Live(tree, work)[id];
            n == FirstMap(tree[p].nodes)[id] && n.active && Declaration(n) == n && n.traceId == id && n.path == Some(p)
            && n.fingerprint.Some?
  {
    DeclMapAt(tree, p, id);
    FirstMapAt(tree[p].nodes, id);
    assert ValidExtraction(p, tree[p]);
  }

  lemma {:induction false} AllFilesDeclare(tree: Tree, paths: seq<string>)
    requires UniqueAcrossFiles(tree) && SetOf(paths) == tree.Keys
    ensures forall p | p in paths :: p in tree
    ensures FirstMap(NodesOf(tree, paths)) == DeclMap(tree)
  {
    forall p | p in paths ensures p in tree { assert p in SetOf(paths); }
    var m := FirstMap(NodesOf(tree, paths));
    forall id
      ensures id in m <==> id in DeclMap(tree)
      ensures id in m ==> m[id] == DeclMap(tree)[id]
    {
      if id in m {
        var p := ScannedFrom(tree, paths, id);
        DeclMapAt(tree, p, id);
      }
      if id in DeclMap(tree) {
        var p := Owner(tree, id);
        assert p in SetOf(paths);
        ScanFinds(tree, paths, p, id);
      }
    }
  }

  /** The staleness pass rewrites bookkeeping only. */
  lemma {:induction false} StaledKeepsDecls(h: map<string, set<string>>, prior: NodeMap, m: NodeMap, edges: set<Edge>, clean: bool)
    ensures ActiveDecls(StaledMap(h, prior, m, edges, clean)) == ActiveDecls(m)
    ensures WellKeyed(m) ==> WellKeyed(StaledMap(h, prior, m, edges, clean))
  {
    forall id | id in m ensures SameRow(StaledMap(h, prior, m, edges, clean)[id], m[id]) {
      StaledKeepsRow(h, prior, m, edges, clean, id);
    }
  }

  /** Containment sees active declarations only. */
  lemma {:induction false} StructuralOfActive(m: NodeMap)
    ensures StructuralEdges(m) == StructuralEdges(ActiveDecls(m))
  {
    var d := ActiveDecls(m);
    forall e | e in StructuralEdges(m) ensures e in StructuralEdges(d) {
      var a, b :| a in m && b in m && Encloses(m[a], m[b]) && e == ContainsEdge(m[a], m[b]);
      assert a in d && b in d && Encloses(d[a], d[b]) && e == ContainsEdge(d[a], d[b]);
    }
    forall e | e in StructuralEdges(d) ensures e in StructuralEdges(m) {
      var a, b :| a in d && b in d && Encloses(d[a], d[b]) && e == ContainsEdge(d[a], d[b]);
      assert a in m && b in m && Encloses(m[a], m[b]) && e == ContainsEdge(m[a], m[b]);
    }
  }

  // ----- the full pass -----

  ghost predicate AsDeclared(m: NodeMap) {
    forall id | id in m :: m[id].active && Declaration(m[id]) == m[id] && m[id].traceId == id
  }

  lemma {:induction false} LiveAsDeclared(tree: Tree, work: seq<Node>)
    requires ValidRepo(tree, work)
    ensures AsDeclared(Live(tree, work))
  {
    var live := Live(tree, work);
    forall id | id in live ensures live[id].active && Declaration(live[id]) == live[id] && live[id].traceId == id {
      var _ := LiveOrigin(tree, work, id);
    }
  }

  lemma {:induction false} OverlayLive(prior: NodeMap, live: NodeMap)
    requires WellKeyed(prior) && AsDeclared(live)
    ensures WellKeyed(InactiveCopies(prior) + live)
    ensures ActiveDecls(InactiveCopies(prior) + live) == live
  {}

  lemma {:induction false} FullNodesLive(prior: NodeMap, tree: Tree, paths: seq<string>, work: seq<Node>)
    requires ValidRepo(tree, work) && SetOf(paths) == tree.Keys && WellKeyed(prior)
    ensures forall p | p in paths :: p in tree
    ensures FullNodes(prior, NodesOf(tree, paths), work) == InactiveCopies(prior) + Live(tree, work)
    ensures WellKeyed(FullNodes(prior, NodesOf(tree, paths), work))
    ensures ActiveDecls(FullNodes(prior, NodesOf(tree, paths), work)) == Live(tree, work)
  {
    AllFilesDeclare(tree, paths);
    LiveAsDeclared(tree, work);
    OverlayLive(prior, Live(tree, work));
    UnionAssociates(InactiveCopies(prior), FirstMap(work), DeclMap(tree));
  }

  lemma {:induction false} UnionAssociates(a: NodeMap, b: NodeMap, c: NodeMap)
    ensures (a + b) + c == a + (b + c)
  {}

  /** Whatever the store held, a full pass syncs it with the tree. */
  lemma {:induction false} FullPassSyncs(g: Graph, tree: Tree, paths: seq<string>, work: seq<Node>, clean: bool, uid: EdgeUid, g': Graph)
    requires ValidRepo(tree, work) && SetOf(paths) == tree.Keys && WellKeyed(g.nodes)
    requires FullResult(g, NodesOf(tree, paths), DeclEdges(tree), work, clean, uid, g')
    ensures Synced(g', tree, work, uid)
  {
    var m := FullNodes(g.nodes, NodesOf(tree, paths), work);
    FullNodesLive(g.nodes, tree, paths, work);
    StaledKeepsDecls(g.history, g.nodes, m, DeclEdges(tree) + StructuralEdges(m), clean);
    StructuralOfActive(m);
  }

  // ----- the incremental pass -----

  /** Every file that is new or differs from the last indexed tree is in the change set, and so
      is work.toml if it differs. Files that disappeared need not be: of a rename, the change
      set only has the new path. */
  ghost predicate Covers(t0: Tree, w0: seq<Node>, t1: Tree, w1: seq<Node>, changed: set<string>) {
    && (forall p | p !in changed && p in t1 :: p in t0 && t0[p] == t1[p])
    && (WORK_TOML !in changed ==> w0 == w1)
  }

  /** What an incremental pass is given: a synced store, a covering change set, and the
      readable changed files. */
  ghost predicate IncInputs(g: Graph, t0: Tree, w0: seq<Node>, t1: Tree, w1: seq<Node>, paths: seq<string>, changed: set<string>, uid: EdgeUid) {
    && Synced(g, t0, w0, uid)
    && ValidRepo(t0, w0) && ValidRepo(t1, w1)
    && Covers(t0, w0, t1, w1, changed)
    && SetOf(paths) == t1.Keys * changed
    && (forall p | p in paths :: p in t1)
  }

  /** No work.toml entry repeats the id of a marker in an unchanged file. */
  ghost predicate WorkApart(tree: Tree, work: seq<Node>, changed: set<string>) {
    forall id, p | id in FirstMap(work) && p !in changed :: !Declares(tree, p, id)
  }

  /** Ids of files that disappeared outside the change set, such as the source of a rename,
      are declared again inside it. */
  ghost predicate NothingLingers(t0: Tree, t1: Tree, w1: seq<Node>, paths: seq<string>, changed: set<string>)
    requires forall p | p in paths :: p in t1
  {
    forall p, id | p !in changed && p !in t1 && Declares(t0, p, id) :: id in Recent(t1, w1, paths)
  }

  ghost predicate Agreeable(t0: Tree, t1: Tree, w1: seq<Node>, paths: seq<string>, changed: set<string>)
    requires forall p | p in paths :: p in t1
  {
    WorkApart(t1, w1, changed) && NothingLingers(t0, t1, w1, paths, changed)
  }

  ghost function Recent(t1: Tree, w1: seq<Node>, paths: seq<string>): NodeMap
    requires forall p | p in paths :: p in t1
  {
    FirstMap(w1) + FirstMap(NodesOf(t1, paths))
  }

  lemma {:induction false} NotScanned(tree: Tree, paths: seq<string>, p: string, id: string)
    requires UniqueAcrossFiles(tree) && Declares(tree, p, id)
    requires p !in paths && forall q | q in paths :: q in tree
    ensures id !in FirstMap(NodesOf(tree, paths))
  {
    if id in FirstMap(NodesOf(tree, paths)) {
      var q := ScannedFrom(tree, paths, id);
    }
  }

  /** A marker is freshly scanned, or shadowed by work.toml, exactly when its file changed. */
  lemma {:induction false} RecentIffChanged(g: Graph, t0: Tree, w0: seq<Node>, t1: Tree, w1: seq<Node>, paths: seq<string>, changed: set<string>, uid: EdgeUid, p: string, id: string)
    requires IncInputs(g, t0, w0, t1, w1, paths, changed, uid)
    requires WorkApart(t1, w1, changed)
    requires Declares(t1, p, id)
    ensures id in Recent(t1, w1, paths) <==> p in changed
  {
    assert p in changed <==> p in SetOf(paths);
    if p in paths {
      ScanFinds(t1, paths, p, id);
    } else {
      NotScanned(t1, paths, p, id);
    }
  }

  /** Every freshly scanned node is live. */
  lemma {:induction false} RecentIsLive(g: Graph, t0: Tree, w0: seq<Node>, t1: Tree, w1: seq<Node>, paths: seq<string>, changed: set<string>, uid: EdgeUid, id: string)
    requires IncInputs(g, t0, w0, t1, w1, paths, changed, uid)
    requires WorkApart(t1, w1, changed)
    requires id in Recent(t1, w1, paths)
    ensures id in Live(t1, w1) && Recent(t1, w1, paths)[id] == Live(t1, w1)[id]
  {
    if id in FirstMap(NodesOf(t1, paths)) {
      var p := ScannedFrom(t1, paths, id);
      DeclaredIsLive(t1, w1, p, id);
    } else if id in DeclMap(t1) {
      var p := Owner(t1, id);
      RecentIffChanged(g, t0, w0, t1, w1, paths, changed, uid, p, id);
      assert p in SetOf(paths);
      ScanFinds(t1, paths, p, id);
    }
  }

  /** An active row outside the change set is still called for, and vice versa. */
  lemma {:induction false} UnchangedRows(g: Graph, t0: Tree, w0: seq<Node>, t1: Tree, w1: seq<Node>, paths: seq<string>, changed: set<string>, uid: EdgeUid, id: string)
    requires IncInputs(g, t0, w0, t1, w1, paths, changed, uid)
    requires Agreeable(t0, t1, w1, paths, changed)
    requires id !in Recent(t1, w1, paths)
    ensures id in Live(t1, w1) <==> id in g.nodes && g.nodes[id].active && !OnPath(g.nodes[id], changed)
    ensures id in Live(t1, w1) ==> Declaration(g.nodes[id]) == Live(t1, w1)[id]
  {
    if id in Live(t1, w1) {
      var p := LiveOrigin(t1, w1, id);
      RecentIffChanged(g, t0, w0, t1, w1, paths, changed, uid, p, id);
      DeclaredIsLive(t0, w0, p, id);
      DeclaredIsLive(t1, w1, p, id);
      assert id in ActiveDecls(g.nodes);
    }
    if id in g.nodes && g.nodes[id].active {
      assert id in ActiveDecls(g.nodes);
      var p := LiveOrigin(t0, w0, id);
      if p !in changed && Declares(t0, p, id) && p in t1 { DeclaredIsLive(t1, w1, p, id); }
    }
  }

  lemma {:induction false} IncNodeLive(g: Graph, t0: Tree, w0: seq<Node>, t1: Tree, w1: seq<Node>, paths: seq<string>, changed: set<string>, uid: EdgeUid, id: string)
    requires IncInputs(g, t0, w0, t1, w1, paths, changed, uid)
    requires Agreeable(t0, t1, w1, paths, changed)
    ensures var m := IncNodes(g.nodes, changed, Recent(t1, w1, paths));
            && (id in m ==> m[id].traceId == id)
            && (id in Live(t1, w1) <==> id in m && m[id].active)
            && (id in Live(t1, w1) ==> Declaration(m[id]) == Live(t1, w1)[id])
  {
    IncNodesAt(g.nodes, changed, Recent(t1, w1, paths), id);
    if id in Recent(t1, w1, paths) {
      RecentIsLive(g, t0, w0, t1, w1, paths, changed, uid, id);
      var _ := LiveOrigin(t1, w1, id);
    } else {
      UnchangedRows(g, t0, w0, t1, w1, paths, changed, uid, id);
    }
  }

  /** The row of one id after the incremental merge. */
  lemma {:induction false} IncNodesAt(prior: NodeMap, changed: set<string>, recent: NodeMap, id: string)
    ensures var m := IncNodes(prior, changed, recent);
            if id in recent then id in m && m[id] == recent[id]
            else if id !in prior then id !in m
            else if !OnPath(prior[id], changed) then id in m && m[id] == prior[id]
            else if prior[id].active then id in m && m[id] == prior[id].(active := false)
            else id !in m
  {}

  lemma {:induction false} IncNodesLive(g: Graph, t0: Tree, w0: seq<Node>, t1: Tree, w1: seq<Node>, paths: seq<string>, changed: set<string>, uid: EdgeUid)
    requires IncInputs(g, t0, w0, t1, w1, paths, changed, uid)
    requires Agreeable(t0, t1, w1, paths, changed)
    ensures WellKeyed(IncNodes(g.nodes, changed, Recent(t1, w1, paths)))
    ensures ActiveDecls(IncNodes(g.nodes, changed, Recent(t1, w1, paths))) == Live(t1, w1)
  {
    var m, live := IncNodes(g.nodes, changed, Recent(t1, w1, paths)), Live(t1, w1);
    forall id
      ensures id in m ==> m[id].traceId == id
      ensures id in live <==> id in m && m[id].active
      ensures id in live ==> Declaration(m[id]) == live[id]
    {
      IncNodeLive(g, t0, w0, t1, w1, paths, changed, uid, id);
    }
    SameMap(ActiveDecls(m), live);
  }

  lemma {:induction false} SameMap(a: NodeMap, b: NodeMap)
    requires forall id :: id in a <==> id in b
    requires forall id | id in a :: a[id] == b[id]
    ensures a == b
  {}

  lemma {:induction false} EdgeSource(tree: Tree, p: string, e: Edge) returns (id: string)
    requires ValidTree(tree) && p in tree && e in tree[p].edges
    ensures Declares(tree, p, id) && e.key.source == EntityUid(id) && e.key.kind == Declared
  {
    assert ValidExtraction(p, tree[p]);
    var n :| n in tree[p].nodes && e.key.source == EntityUid(n.traceId);
    FirstMapHas(tree[p].nodes, n);
    id := n.traceId;
  }

  lemma {:induction false} SurvivesBySource(e: Edge, id: string, recent: NodeMap, gone: NodeMap)
    requires e.key.source == EntityUid(id) && e.key.kind != Structural
    ensures Survives(e, recent, gone) <==> id !in recent && id !in gone
  {}

  /** A declared edge of the old tree survives exactly when its file is unchanged and there. */
  lemma {:induction false} DeclaredSurvives(g: Graph, t0: Tree, w0: seq<Node>, t1: Tree, w1: seq<Node>, paths: seq<string>, changed: set<string>, uid: EdgeUid, p: string, e: Edge)
    requires IncInputs(g, t0, w0, t1, w1, paths, changed, uid)
    requires Agreeable(t0, t1, w1, paths, changed)
    requires p in t0 && e in t0[p].edges
    ensures Survives(e, Recent(t1, w1, paths), Gone(g.nodes, changed, Recent(t1, w1, paths))) <==> p !in changed && p in t1
  {
    var id := EdgeSource(t0, p, e);
    DeclaredIsLive(t0, w0, p, id);
    assert id in ActiveDecls(g.nodes);
    SurvivesBySource(e, id, Recent(t1, w1, paths), Gone(g.nodes, changed, Recent(t1, w1, paths)));
    if p !in changed && p in t1 {
      RecentIffChanged(g, t0, w0, t1, w1, paths, changed, uid, p, id);
    }
  }

  lemma {:induction false} KeptEdgesAreLive(g: Graph, t0: Tree, w0: seq<Node>, t1: Tree, w1: seq<Node>, paths: seq<string>, changed: set<string>, uid: EdgeUid, e: Edge)
    requires IncInputs(g, t0, w0, t1, w1, paths, changed, uid)
    requires Agreeable(t0, t1, w1, paths, changed)
    requires var r := Recent(t1, w1, paths); e in KeptEdges(g.edges, r, Gone(g.nodes, changed, r))
    ensures e in DeclEdges(t1)
  {
    assert e in LiveEdges(t0, w0);
    assert e in DeclEdges(t0);
    var p :| p in t0 && e in t0[p].edges;
    DeclaredSurvives(g, t0, w0, t1, w1, paths, changed, uid, p, e);
  }

  lemma {:induction false} LiveEdgesAreFound(g: Graph, t0: Tree, w0: seq<Node>, t1: Tree, w1: seq<Node>, paths: seq<string>, changed: set<string>, uid: EdgeUid, e: Edge)
    requires IncInputs(g, t0, w0, t1, w1, paths, changed, uid)
    requires Agreeable(t0, t1, w1, paths, changed)
    requires e in DeclEdges(t1)
    ensures var r := Recent(t1, w1, paths); e in KeptEdges(g.edges, r, Gone(g.nodes, changed, r)) || e in EdgesOf(t1, paths)
  {
    var p :| p in t1 && e in t1[p].edges;
    if p in changed {
      assert p in SetOf(paths);
    } else {
      assert ValidExtraction(p, t1[p]);
      DeclaredSurvives(g, t0, w0, t1, w1, paths, changed, uid, p, e);
      assert e in DeclEdges(t0) && e in LiveEdges(t0, w0);
    }
  }

  lemma {:induction false} IncEdgesLive(g: Graph, t0: Tree, w0: seq<Node>, t1: Tree, w1: seq<Node>, paths: seq<string>, changed: set<string>, uid: EdgeUid)
    requires IncInputs(g, t0, w0, t1, w1, paths, changed, uid)
    requires Agreeable(t0, t1, w1, paths, changed)
    ensures var r := Recent(t1, w1, paths);
            KeptEdges(g.edges, r, Gone(g.nodes, changed, r)) + SetOf(EdgesOf(t1, paths)) == DeclEdges(t1)
  {
    var r := Recent(t1, w1, paths);
    var kept, scanned := KeptEdges(g.edges, r, Gone(g.nodes, changed, r)), EdgesOf(t1, paths);
    forall e | e in kept ensures e in DeclEdges(t1) {
      KeptEdgesAreLive(g, t0, w0, t1, w1, paths, changed, uid, e);
    }
    forall e | e in scanned ensures e in DeclEdges(t1) {
      var p :| p in paths && e in t1[p].edges;
      assert p in t1;
    }
    forall e | e in DeclEdges(t1) ensures e in kept + SetOf(scanned) {
      LiveEdgesAreFound(g, t0, w0, t1, w1, paths, changed, uid, e);
    }
  }

  /** From a synced store, an incremental pass syncs it with the new tree. */
  lemma {:induction false} IncrementalPassSyncs(g: Graph, t0: Tree, w0: seq<Node>, t1: Tree, w1: seq<Node>, paths: seq<string>, changed: set<string>, uid: EdgeUid, g': Graph)
    requires IncInputs(g, t0, w0, t1, w1, paths, changed, uid)
    requires Agreeable(t0, t1, w1, paths, changed)
    requires IncResult(g, NodesOf(t1, paths), SetOf(EdgesOf(t1, paths)), w1, changed, uid, g')
    ensures Synced(g', t1, w1, uid)
  {
    var r := Recent(t1, w1, paths);
    var m := IncNodes(g.nodes, changed, r);
    var all := KeptEdges(g.edges, r, Gone(g.nodes, changed, r)) + SetOf(EdgesOf(t1, paths)) + StructuralEdges(m);
    IncNodesLive(g, t0, w0, t1, w1, paths, changed, uid);
    IncEdgesLive(g, t0, w0, t1, w1, paths, changed, uid);
    StaledKeepsDecls(g.history, g.nodes, m, all, false);
    StructuralOfActive(m);
    assert all == LiveEdges(t1, w1);
  }

  /** A work.toml entry that repeats a marker of an unchanged file replaces it. */
  lemma {:induction false} ClashOverrides(g: Graph, t0: Tree, w0: seq<Node>, t1: Tree, w1: seq<Node>, paths: seq<string>, changed: set<string>, uid: EdgeUid, id: string, p: string)
    requires IncInputs(g, t0, w0, t1, w1, paths, changed, uid)
    requires id in FirstMap(w1) && p !in changed && Declares(t1, p, id)
    ensures ActiveDecls(IncNodes(g.nodes, changed, Recent(t1, w1, paths))) != Live(t1, w1)
  {
    var r, m := Recent(t1, w1, paths), IncNodes(g.nodes, changed, Recent(t1, w1, paths));
    DeclaredIsLive(t1, w1, p, id);
    FirstMapAt(w1, id);
    IncNodesAt(g.nodes, changed, r, id);
    assert p !in SetOf(paths);
    NotScanned(t1, paths, p, id);
    assert r[id].fingerprint == None;
    assert ActiveDecls(m)[id].fingerprint != Live(t1, w1)[id].fingerprint;
  }

  /** A node of a file that disappeared outside the change set stays active. */
  lemma {:induction false} LingererStays(g: Graph, t0: Tree, w0: seq<Node>, t1: Tree, w1: seq<Node>, paths: seq<string>, changed: set<string>, uid: EdgeUid, id: string, p: string)
    requires IncInputs(g, t0, w0, t1, w1, paths, changed, uid)
    requires p !in changed && p !in t1 && Declares(t0, p, id) && id !in Recent(t1, w1, paths)
    ensures ActiveDecls(IncNodes(g.nodes, changed, Recent(t1, w1, paths))) != Live(t1, w1)
  {
    var m := IncNodes(g.nodes, changed, Recent(t1, w1, paths));
    DeclaredIsLive(t0, w0, p, id);
    assert id in ActiveDecls(g.nodes);
    IncNodesAt(g.nodes, changed, Recent(t1, w1, paths), id);
    assert id in ActiveDecls(m) && ActiveDecls(m)[id].path == Some(p);
    if id in Live(t1, w1) {
      var q := LiveOrigin(t1, w1, id);
      assert q != p;
    }
  }

  /** Incremental equals full: after an incremental pass over a covering change set the store
      holds exactly the active nodes and edges a full pass over the new tree would leave, if
      and only if no work.toml entry repeats a marker id of an unchanged file and every id of
      a file that disappeared outside the change set is declared again inside it. */
  lemma {:induction false} IncrementalIsFullExactly(g: Graph, t0: Tree, w0: seq<Node>, t1: Tree, w1: seq<Node>, paths: seq<string>, changed: set<string>, uid: EdgeUid, g': Graph)
    requires IncInputs(g, t0, w0, t1, w1, paths, changed, uid)
    requires IncResult(g, NodesOf(t1, paths), SetOf(EdgesOf(t1, paths)), w1, changed, uid, g')
    ensures Synced(g', t1, w1, uid) <==> Agreeable(t0, t1, w1, paths, changed)
  {
    if Agreeable(t0, t1, w1, paths, changed) {
      IncrementalPassSyncs(g, t0, w0, t1, w1, paths, changed, uid, g');
    } else {
      var r := Recent(t1, w1, paths);
      var m := IncNodes(g.nodes, changed, r);
      var all := KeptEdges(g.edges, r, Gone(g.nodes, changed, r)) + SetOf(EdgesOf(t1, paths)) + StructuralEdges(m);
      StaledKeepsDecls(g.history, g.nodes, m, all, false);
      if !WorkApart(t1, w1, changed) {
        var id, p :| id in FirstMap(w1) && p !in changed && Declares(t1, p, id);
        ClashOverrides(g, t0, w0, t1, w1, paths, changed, uid, id, p);
      } else {
        var p, id :| p !in changed && p !in t1 && Declares(t0, p, id) && id !in r;
        LingererStays(g, t0, w0, t1, w1, paths, changed, uid, id, p);
      }
    }
  }

  /** Whatever route a store took, being synced fixes its active nodes and its edge rows. */
  lemma {:induction false} SyncedIsUnique(g: Graph, g': Graph, tree: Tree, work: seq<Node>, uid: EdgeUid)
    requires Synced(g, tree, work, uid) && Synced(g', tree, work, uid)
    ensures ActiveDecls(g.nodes) == ActiveDecls(g'.nodes)
    ensures g.edges == g'.edges
  {
    EdgeTableUnique(g.edges, g'.edges, LiveEdges(tree, work), uid);
  }

  // ----- what a store in step holds -----

  /** Both are traced symbols of one file, and the lines of the first strictly enclose those of the second. */
  predicate LinesEnclose(a: Node, b: Node) {
    && a.symbolAttached && b.symbolAttached && a.span.Some? && b.span.Some?
    && a.path.Some? && a.path == b.path && a.path.value != ""
    && a.span.value.start < b.span.value.start && b.span.value.end < a.span.value.end
  }

  /** The edge by which a contains b: recorded at the first line of b. */
  predicate Containment(live: NodeMap, a: string, b: string, e: Edge) {
    && a in live && b in live && LinesEnclose(live[a], live[b])
    && e == Edge(EdgeKey(EntityUid(a), "contains", EntityUid(b), Structural, live[b].path.value, live[b].span.value.start), Active)
  }

  lemma {:induction false} StructuralExactly(live: NodeMap, e: Edge)
    requires AsDeclared(live)
    ensures e in StructuralEdges(live) <==> exists a, b :: Containment(live, a, b, e)
  {
    if e in StructuralEdges(live) {
      var a, b :| a in live && b in live && Encloses(live[a], live[b]) && e == ContainsEdge(live[a], live[b]);
      assert Containment(live, a, b, e);
    }
    if a, b :| Containment(live, a, b, e) {
      assert Encloses(live[a], live[b]) && e == ContainsEdge(live[a], live[b]);
    }
  }

  lemma {:induction false} DeclaredExactly(tree: Tree, e: Edge)
    requires ValidTree(tree)
    ensures e in DeclEdges(tree) <==> exists p :: p in tree && e in tree[p].edges
    ensures e in DeclEdges(tree) ==> e.key.kind == Declared
  {
    if p :| p in tree && e in tree[p].edges {
      assert ValidExtraction(p, tree[p]);
    }
  }

  /** A store in step holds, as edges of its own making, exactly one from every traced symbol to every one
      inside it; all others are declared in some file. */
  lemma {:induction false} StoredEdgesExactly(g: Graph, tree: Tree, work: seq<Node>, uid: EdgeUid, e: Edge)
    requires ValidRepo(tree, work) && Synced(g, tree, work, uid)
    ensures e in g.edges && e.key.kind == Structural <==> exists a, b :: Containment(Live(tree, work), a, b, e)
    ensures e in g.edges && e.key.kind != Structural <==> exists p :: p in tree && e in tree[p].edges
  {
    LiveAsDeclared(tree, work);
    StructuralExactly(Live(tree, work), e);
    DeclaredExactly(tree, e);
    assert e in g.edges <==> e in LiveEdges(tree, work);
  }

  /** A full pass forgets no id: what the repository no longer holds stays as an inactive row. */
  lemma {:induction false} FullPassKeepsRows(g: Graph, tree: Tree, paths: seq<string>, work: seq<Node>, clean: bool, uid: EdgeUid, g': Graph, id: string)
    requires ValidRepo(tree, work) && SetOf(paths) == tree.Keys && WellKeyed(g.nodes)
    requires FullResult(g, NodesOf(tree, paths), DeclEdges(tree), work, clean, uid, g')
    ensures id in g'.nodes <==> id in g.nodes || id in Live(tree, work)
    ensures id in g'.nodes ==>
      Declaration(g'.nodes[id]) == if id in Live(tree, work) then Live(tree, work)[id] else Declaration(g.nodes[id]).(active := false)
  {
    var m := FullNodes(g.nodes, NodesOf(tree, paths), work);
    FullNodesLive(g.nodes, tree, paths, work);
    LiveAsDeclared(tree, work);
    if id in m {
      StaledKeepsRow(g.history, g.nodes, m, DeclEdges(tree) + StructuralEdges(m), clean, id);
    }
  }

  /** An incremental pass forgets exactly the rows of changed files that were inactive and are not there
      again; of the others, those that the repository no longer holds are inactive. */
  lemma {:induction false} IncrementalPassKeepsRows(g: Graph, t0: Tree, w0: seq<Node>, t1: Tree, w1: seq<Node>, paths: seq<string>, changed: set<string>, uid: EdgeUid, g': Graph, id: string)
    requires IncInputs(g, t0, w0, t1, w1, paths, changed, uid)
    requires Agreeable(t0, t1, w1, paths, changed)
    requires IncResult(g, NodesOf(t1, paths), SetOf(EdgesOf(t1, paths)), w1, changed, uid, g')
    ensures id in g'.nodes <==>
      id in Live(t1, w1) || (id in g.nodes && (g.nodes[id].active || g.nodes[id].path.None? || g.nodes[id].path.value !in changed))
    ensures id in g'.nodes ==>
      Declaration(g'.nodes[id]) == if id in Live(t1, w1) then Live(t1, w1)[id] else Declaration(g.nodes[id]).(active := false)
  {
    var r := Recent(t1, w1, paths);
    var m := IncNodes(g.nodes, changed, r);
    IncNodesAt(g.nodes, changed, r, id);
    IncNodeLive(g, t0, w0, t1, w1, paths, changed, uid, id);
    if id in r {
      RecentIsLive(g, t0, w0, t1, w1, paths, changed, uid, id);
    }
    if id in m {
      StaledKeepsRow(g.history, g.nodes, m,
        KeptEdges(g.edges, r, Gone(g.nodes, changed, r)) + SetOf(EdgesOf(t1, paths)) + StructuralEdges(m), false, id);
    }
  }
}
