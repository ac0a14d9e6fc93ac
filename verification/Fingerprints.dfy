/** What the version history holds along a run, and what staleness then comes from. */
module Fingerprints {
  import opened Models
  import opened Store
  import opened IndexSpec
  import opened IndexTheorems
  import opened Staleness
  import opened IndexRuns

  // ----- single passes, told from the recorded fingerprints -----

  /** Some fingerprint on record for the id is not this one. */
  ghost predicate OtherOnRecord(h: map<string, set<string>>, id: string, fingerprint: Option<string>) {
    fingerprint.Some? && exists a :: a in History(h, id) && a != fingerprint.value
  }

  /** A declared active edge of the stored graph leads from the node to a row with another fingerprint
      on record. */
  ghost predicate PointsAtOther(h: map<string, set<string>>, g: Graph, id: string) {
    exists e, t, a :: e in g.edges && e.key.kind == Declared && e.status == Active
      && e.key.source == EntityUid(id) && e.key.target == EntityUid(t)
      && t in g.nodes && g.nodes[t].fingerprint.Some? && a in History(h, t) && a != g.nodes[t].fingerprint.value
  }

  lemma {:induction false} ChangedIsOther(h: map<string, set<string>>, n: Node)
    ensures IsChanged(h, n) <==> OtherOnRecord(h, n.traceId, n.fingerprint)
  {
    if n.fingerprint.Some? {
      var prev := PreviousFingerprints(h, n.traceId, n.fingerprint.value);
      if prev != {} {
        var a :| a in prev;
        assert a in History(h, n.traceId) && a != n.fingerprint.value;
      }
      if a :| a in History(h, n.traceId) && a != n.fingerprint.value {
        assert a in prev;
      }
    }
  }

  lemma {:induction false} PointsAtOtherExactly(h: map<string, set<string>>, g: Graph, id: string)
    requires WellKeyed(g.nodes)
    ensures PointsAtChanged(h, g, id) <==> PointsAtOther(h, g, id)
  {
    if PointsAtChanged(h, g, id) {
      var e, t :| e in g.edges && e.key.kind == Declared && e.status == Active && e.key.source == EntityUid(id)
        && t in g.nodes && IsChanged(h, g.nodes[t]) && e.key.target == EntityUid(t);
      ChangedIsOther(h, g.nodes[t]);
      var a :| a in History(h, t) && a != g.nodes[t].fingerprint.value;
    }
    if PointsAtOther(h, g, id) {
      var e, t, a :| e in g.edges && e.key.kind == Declared && e.status == Active
        && e.key.source == EntityUid(id) && e.key.target == EntityUid(t)
        && t in g.nodes && g.nodes[t].fingerprint.Some? && a in History(h, t) && a != g.nodes[t].fingerprint.value;
      ChangedIsOther(h, g.nodes[t]);
    }
  }

  /** The status a node has but for its dependencies: its old one, unless the pass is clean, the node is
      new, or another fingerprint of it is on record. */
  ghost function OwnStatus(g: Graph, clean: bool, id: string, fingerprint: Option<string>): Status {
    if clean || id !in g.nodes || OtherOnRecord(g.history, id, fingerprint) then Current else g.nodes[id].status
  }

  /** The row of the id after a pass from g, when the pass has merged this row for it. */
  ghost predicate FollowsRecord(g: Graph, g': Graph, clean: bool, id: string, merged: Node)
    requires id in g'.nodes
  {
    var n := g'.nodes[id];
    var points := PointsAtOther(g.history, g', id);
    && n.fingerprint == merged.fingerprint
    && n.status == (if points then StaleReviewRequired else OwnStatus(g, clean, id, n.fingerprint))
    && (n.changed <==> merged.changed || OtherOnRecord(g.history, id, n.fingerprint))
    && (n.historical <==> merged.historical || (points && OwnStatus(g, clean, id, n.fingerprint) != StaleReviewRequired))
  }

  lemma {:induction false} StaledFlags(h: map<string, set<string>>, prior: NodeMap, m: NodeMap, edges: set<Edge>, clean: bool, id: string)
    requires id in m && m[id].traceId == id
    requires m[id].status == Current || (!clean && id in prior && m[id].status == prior[id].status)
    ensures var n := Staled(h, prior, m, edges, clean, id);
      var own := if IsChanged(h, m[id]) || clean || id !in prior then Current else prior[id].status;
      && n.fingerprint == m[id].fingerprint
      && n.status == (if DependsOnChanged(h, m, edges, id) then StaleReviewRequired else own)
      && (n.changed <==> m[id].changed || IsChanged(h, m[id]))
      && (n.historical <==> m[id].historical || (DependsOnChanged(h, m, edges, id) && own != StaleReviewRequired))
  {
    CarriedFlags(h, prior, m[id], clean);
    MarkFlags(Carried(h, prior, m[id], clean));
  }

  lemma {:induction false} CarriedFlags(h: map<string, set<string>>, prior: NodeMap, n: Node, clean: bool)
    requires n.status == Current || (!clean && n.traceId in prior && n.status == prior[n.traceId].status)
    ensures var c := Carried(h, prior, n, clean);
      && c.fingerprint == n.fingerprint && c.historical == n.historical && (c.changed <==> n.changed || IsChanged(h, n))
      && c.status == if IsChanged(h, n) || clean || n.traceId !in prior then Current else prior[n.traceId].status
  {}

  lemma {:induction false} MarkFlags(n: Node)
    ensures var s := MarkStale(n);
      && s.fingerprint == n.fingerprint && s.changed == n.changed && s.status == StaleReviewRequired
      && (s.historical <==> n.historical || n.status != StaleReviewRequired)
  {}

  lemma {:induction false} StaledFollows(g: Graph, g': Graph, m: NodeMap, edges: set<Edge>, clean: bool, uid: EdgeUid, id: string)
    requires WellKeyed(m) && id in m
    requires m[id].status == Current || (!clean && id in g.nodes && m[id].status == g.nodes[id].status)
    requires g'.nodes == StaledMap(g.history, g.nodes, m, edges, clean) && IsEdgeTable(g'.edges, edges, uid)
    ensures FollowsRecord(g, g', clean, id, m[id])
  {
    StoredDependents(g.history, g.nodes, m, edges, clean, g', uid, id);
    StaledKeepsDecls(g.history, g.nodes, m, edges, clean);
    PointsAtOtherExactly(g.history, g', id);
    ChangedIsOther(g.history, m[id]);
    StaledFlags(g.history, g.nodes, m, edges, clean, id);
  }

  /** After a full pass every active node has its status and its flags from the fingerprints on record:
      stale when a declared edge leads to a row with another one, or else its own status. */
  lemma {:induction false} FullPassFollowsRecord(g: Graph, tree: Tree, paths: seq<string>, work: seq<Node>, clean: bool, uid: EdgeUid, g': Graph, id: string)
    requires ValidRepo(tree, work) && SetOf(paths) == tree.Keys && WellKeyed(g.nodes)
    requires forall p | p in paths :: p in tree
    requires FullResult(g, NodesOf(tree, paths), DeclEdges(tree), work, clean, uid, g')
    requires id in Live(tree, work)
    ensures id in g'.nodes && FollowsRecord(g, g', clean, id, Live(tree, work)[id])
  {
    var m := FullNodes(g.nodes, NodesOf(tree, paths), work);
    FullNodesLive(g.nodes, tree, paths, work);
    var _ := LiveOrigin(tree, work, id);
    StaledFollows(g, g', m, DeclEdges(tree) + StructuralEdges(m), clean, uid, id);
  }

  /** The same after an incremental pass; rows of unchanged files keep their flags. */
  lemma {:induction false} IncrementalPassFollowsRecord(g: Graph, t0: Tree, w0: seq<Node>, t1: Tree, w1: seq<Node>, paths: seq<string>, changed: set<string>, uid: EdgeUid, g': Graph, id: string)
    requires IncInputs(g, t0, w0, t1, w1, paths, changed, uid)
    requires Agreeable(t0, t1, w1, paths, changed)
    requires IncResult(g, NodesOf(t1, paths), SetOf(EdgesOf(t1, paths)), w1, changed, uid, g')
    requires id in Live(t1, w1)
    ensures var r := Recent(t1, w1, paths);
      && id in g'.nodes && (id !in r ==> id in g.nodes)
      && FollowsRecord(g, g', false, id, if id in r then Live(t1, w1)[id] else g.nodes[id])
  {
    var r := Recent(t1, w1, paths);
    var m := IncNodes(g.nodes, changed, r);
    var all := KeptEdges(g.edges, r, Gone(g.nodes, changed, r)) + SetOf(EdgesOf(t1, paths)) + StructuralEdges(m);
    IncNodesLive(g, t0, w0, t1, w1, paths, changed, uid);
    IncNodeLive(g, t0, w0, t1, w1, paths, changed, uid, id);
    IncStatusBase(g, t0, w0, t1, w1, paths, changed, uid, id);
    IncNodesAt(g.nodes, changed, r, id);
    if id in r {
      RecentIsLive(g, t0, w0, t1, w1, paths, changed, uid, id);
    } else {
      UnchangedRows(g, t0, w0, t1, w1, paths, changed, uid, id);
    }
    StaledFollows(g, g', m, all, false, uid, id);
  }

  // ----- the record along a run -----

  /** The repository state holds the artifact with this fingerprint. */
  ghost predicate Shows(m: Moment, id: string, fp: string) {
    id in Live(m.tree, m.work) && Live(m.tree, m.work)[id].fingerprint == Some(fp)
  }

  /** The fingerprint of every row is on record. */
  ghost predicate RowsOnRecord(g: Graph) {
    forall id | id in g.nodes && g.nodes[id].fingerprint.Some? :: g.nodes[id].fingerprint.value in History(g.history, id)
  }

  /** From g to g' the record has grown by what the moment shows. */
  ghost predicate RecordsShown(g: Graph, m': Moment) {
    forall id, fp :: fp in History(m'.g.history, id) <==> fp in History(g.history, id) || Shows(m', id, fp)
  }

  lemma {:induction false} ShownIsOnRecord(m: Moment, uid: EdgeUid, id: string, fp: string)
    requires Good(m, uid) && RowsOnRecord(m.g) && Shows(m, id, fp)
    ensures fp in History(m.g.history, id)
  {
    assert id in ActiveDecls(m.g.nodes);
    assert m.g.nodes[id].fingerprint == Declaration(m.g.nodes[id]).fingerprint;
  }

  lemma {:induction false} FullRecordsOne(m: Moment, clean: bool, uid: EdgeUid, m': Moment, files: seq<string>, id: string, fp: string)
    requires Good(m, uid) && RowsOnRecord(m.g) && ValidRepo(m'.tree, m'.work) && FullStep(m, clean, uid, m', files)
    ensures fp in History(m'.g.history, id) <==> fp in History(m.g.history, id) || Shows(m', id, fp)
    ensures var n := FullNodes(m.g.nodes, NodesOf(m'.tree, files), m'.work);
      id in n && n[id].fingerprint.Some? ==> n[id].fingerprint.value in History(m'.g.history, id)
  {
    var n := FullNodes(m.g.nodes, NodesOf(m'.tree, files), m'.work);
    FullNodesLive(m.g.nodes, m'.tree, files, m'.work);
    assert History(m'.g.history, id) == History(m.g.history, id) + if id in n && n[id].fingerprint.Some? then {n[id].fingerprint.value} else {};
  }

  lemma {:induction false} FullRecords(m: Moment, clean: bool, uid: EdgeUid, m': Moment, files: seq<string>)
    requires Good(m, uid) && RowsOnRecord(m.g) && ValidRepo(m'.tree, m'.work) && FullStep(m, clean, uid, m', files)
    ensures RecordsShown(m.g, m') && RowsOnRecord(m'.g)
  {
    var n := FullNodes(m.g.nodes, NodesOf(m'.tree, files), m'.work);
    forall id, fp ensures fp in History(m'.g.history, id) <==> fp in History(m.g.history, id) || Shows(m', id, fp) {
      FullRecordsOne(m, clean, uid, m', files, id, fp);
    }
    forall id | id in n && n[id].fingerprint.Some? ensures n[id].fingerprint.value in History(m'.g.history, id) {
      FullRecordsOne(m, clean, uid, m', files, id, "");
    }
    StaledOnRecord(m.g, n, DeclEdges(m'.tree) + StructuralEdges(n), clean, m'.g);
  }

  lemma {:induction false} StaledOnRecord(g: Graph, n: NodeMap, edges: set<Edge>, clean: bool, g': Graph)
    requires g'.nodes == StaledMap(g.history, g.nodes, n, edges, clean)
    requires forall id | id in n && n[id].fingerprint.Some? :: n[id].fingerprint.value in History(g'.history, id)
    ensures RowsOnRecord(g')
  {
    forall id | id in n ensures g'.nodes[id].fingerprint == n[id].fingerprint {
      StaledKeepsRow(g.history, g.nodes, n, edges, clean, id);
    }
  }

  lemma {:induction false} IncrementalRecords(m: Moment, changed: set<string>, uid: EdgeUid, m': Moment, paths: seq<string>)
    requires Good(m, uid) && RowsOnRecord(m.g) && ValidRepo(m'.tree, m'.work) && IncStep(m, changed, uid, m', paths)
    requires Covers(m.tree, m.work, m'.tree, m'.work, changed) && WorkApart(m'.tree, m'.work, changed)
    ensures RecordsShown(m.g, m') && RowsOnRecord(m'.g)
  {
    var g := m.g;
    var r := Recent(m'.tree, m'.work, paths);
    var n := IncNodes(g.nodes, changed, r);
    forall id, fp ensures fp in History(m'.g.history, id) <==> fp in History(g.history, id) || Shows(m', id, fp) {
      IncrementalRecordsOne(m, changed, uid, m', paths, id, fp);
    }
    forall id | id in n && n[id].fingerprint.Some? ensures n[id].fingerprint.value in History(m'.g.history, id) {
      IncNodesAt(g.nodes, changed, r, id);
      assert History(m'.g.history, id) == History(g.history, id) + if id in r && r[id].fingerprint.Some? then {r[id].fingerprint.value} else {};
    }
    StaledOnRecord(g, n, KeptEdges(g.edges, r, Gone(g.nodes, changed, r)) + SetOf(EdgesOf(m'.tree, paths)) + StructuralEdges(n), false, m'.g);
  }

  lemma {:induction false} IncrementalRecordsOne(m: Moment, changed: set<string>, uid: EdgeUid, m': Moment, paths: seq<string>, id: string, fp: string)
    requires Good(m, uid) && RowsOnRecord(m.g) && ValidRepo(m'.tree, m'.work) && IncStep(m, changed, uid, m', paths)
    requires Covers(m.tree, m.work, m'.tree, m'.work, changed) && WorkApart(m'.tree, m'.work, changed)
    ensures fp in History(m'.g.history, id) <==> fp in History(m.g.history, id) || Shows(m', id, fp)
  {
    var r := Recent(m'.tree, m'.work, paths);
    assert History(m'.g.history, id) == History(m.g.history, id) + if id in r && r[id].fingerprint.Some? then {r[id].fingerprint.value} else {};
    if id in r {
      RecentIsLive(m.g, m.tree, m.work, m'.tree, m'.work, paths, changed, uid, id);
    } else if Shows(m', id, fp) {
      UnchangedRows(m.g, m.tree, m.work, m'.tree, m'.work, paths, changed, uid, id);
      assert Declaration(m.g.nodes[id]).fingerprint == m.g.nodes[id].fingerprint;
    }
  }

  lemma {:induction false} NextRecords(m: Moment, step: Step, m': Moment, uid: EdgeUid)
    requires Good(m, uid) && RowsOnRecord(m.g) && Next(m, step, m', uid)
    ensures RecordsShown(m.g, m') && RowsOnRecord(m'.g)
  {
    match step
    case Full(clean) =>
      var files :| FullStep(m, clean, uid, m', files);
      FullRecords(m, clean, uid, m', files);
    case Incremental(changed) =>
      if changed == {} {
        StillRecords(m, m', uid);
      } else {
        var paths :| IncStep(m, changed, uid, m', paths);
        IncrementalRecords(m, changed, uid, m', paths);
      }
    case Review =>
      StillRecords(m, m', uid);
  }

  /** A step that reads no file shows nothing new. */
  lemma {:induction false} StillRecords(m: Moment, m': Moment, uid: EdgeUid)
    requires Good(m, uid) && RowsOnRecord(m.g) && m'.tree == m.tree && m'.work == m.work && m'.g.history == m.g.history
    requires m'.g.nodes.Keys == m.g.nodes.Keys && forall id | id in m.g.nodes :: m'.g.nodes[id].fingerprint == m.g.nodes[id].fingerprint
    ensures RecordsShown(m.g, m') && RowsOnRecord(m'.g)
  {
    forall id, fp | Shows(m', id, fp) ensures fp in History(m.g.history, id) {
      assert Shows(m, id, fp);
      ShownIsOnRecord(m, uid, id, fp);
    }
  }

  /** The repository has shown the artifact with this fingerprint, by moment j. */
  ghost predicate ShownBy(ms: seq<Moment>, j: nat, id: string, fp: string)
    requires j < |ms|
  {
    exists i | 0 <= i <= j :: Shows(ms[i], id, fp)
  }

  lemma {:induction false} NothingShownAtStart(id: string, fp: string)
    ensures !Shows(START, id, fp) && History(START.g.history, id) == {} && RowsOnRecord(START.g)
  {
    assert DeclMap(map[]) == map[] by { assert DeclaredIds(map[]) == {}; }
    assert Live(map[], []) == map[];
  }

  lemma {:induction false} RowsStayOnRecord(ms: seq<Moment>, steps: seq<Step>, uid: EdgeUid, j: nat)
    requires IsRun(ms, steps, uid) && j < |ms|
    ensures RowsOnRecord(ms[j].g)
  {
    if j > 0 {
      RowsStayOnRecord(ms, steps, uid, j - 1);
      EveryRunIsSynced(ms, steps, uid, j - 1);
      RunStep(ms, steps, uid, j - 1);
      NextRecords(ms[j - 1], steps[j - 1], ms[j], uid);
    }
  }

  lemma {:induction false} StepRecords(ms: seq<Moment>, steps: seq<Step>, uid: EdgeUid, i: nat)
    requires IsRun(ms, steps, uid) && i < |steps|
    ensures |ms| == |steps| + 1 && RecordsShown(ms[i].g, ms[i + 1])
  {
    RowsStayOnRecord(ms, steps, uid, i);
    EveryRunIsSynced(ms, steps, uid, i);
    RunStep(ms, steps, uid, i);
    NextRecords(ms[i], steps[i], ms[i + 1], uid);
  }

  lemma {:induction false} ShownLater(ms: seq<Moment>, j: nat, id: string, fp: string)
    requires 0 < j < |ms|
    ensures ShownBy(ms, j, id, fp) <==> ShownBy(ms, j - 1, id, fp) || Shows(ms[j], id, fp)
  {
    if ShownBy(ms, j - 1, id, fp) {
      var i :| 0 <= i <= j - 1 && Shows(ms[i], id, fp);
      assert 0 <= i <= j && Shows(ms[i], id, fp);
    }
    if ShownBy(ms, j, id, fp) {
      var i :| 0 <= i <= j && Shows(ms[i], id, fp);
      assert i < j ==> i <= j - 1 && Shows(ms[i], id, fp);
    }
  }

  /** The record starts empty, and every step adds what it shows. */
  ghost predicate Recording(ms: seq<Moment>) {
    && ms != [] && ms[0] == START
    && forall i | 0 <= i < |ms| - 1 :: RecordsShown(ms[i].g, ms[i + 1])
  }

  lemma {:induction false} RunsRecord(ms: seq<Moment>, steps: seq<Step>, uid: EdgeUid)
    requires IsRun(ms, steps, uid)
    ensures Recording(ms)
  {
    forall i: nat | i < |steps| ensures RecordsShown(ms[i].g, ms[i + 1]) {
      StepRecords(ms, steps, uid, i);
    }
  }

  lemma {:induction false} RecordingExactly(ms: seq<Moment>, j: nat, id: string, fp: string)
    requires Recording(ms) && j < |ms|
    ensures fp in History(ms[j].g.history, id) <==> ShownBy(ms, j, id, fp)
  {
    if j == 0 {
      NothingShownAtStart(id, fp);
    } else {
      RecordingExactly(ms, j - 1, id, fp);
      assert RecordsShown(ms[j - 1].g, ms[j - 1 + 1]);
      ShownLater(ms, j, id, fp);
    }
  }

  /** At every moment of a run, the record holds exactly the fingerprints that the repository has shown
      so far. */
  lemma {:induction false} RecordExactly(ms: seq<Moment>, steps: seq<Step>, uid: EdgeUid, j: nat, id: string, fp: string)
    requires IsRun(ms, steps, uid) && j < |ms|
    ensures fp in History(ms[j].g.history, id) <==> ShownBy(ms, j, id, fp)
  {
    RunsRecord(ms, steps, uid);
    RecordingExactly(ms, j, id, fp);
  }

  // ----- staleness along a run -----

  /** An edge declared by the repository leads from the node to a row with another fingerprint than one
      that the repository has shown before. */
  ghost predicate PointsAtEarlier(ms: seq<Moment>, j: nat, g: Graph, id: string)
    requires j < |ms|
  {
    exists e, t, fp :: e in g.edges && e.key.kind == Declared && e.status == Active
      && e.key.source == EntityUid(id) && e.key.target == EntityUid(t)
      && t in g.nodes && g.nodes[t].fingerprint.Some? && ShownBy(ms, j, t, fp) && fp != g.nodes[t].fingerprint.value
  }

  /** The node itself has been shown with another fingerprint than this. */
  ghost predicate ShownOtherwise(ms: seq<Moment>, j: nat, id: string, fingerprint: Option<string>)
    requires j < |ms|
  {
    fingerprint.Some? && exists fp :: ShownBy(ms, j, id, fp) && fp != fingerprint.value
  }

  lemma {:induction false} EarlierIsOther(ms: seq<Moment>, steps: seq<Step>, uid: EdgeUid, j: nat, g: Graph, id: string)
    requires IsRun(ms, steps, uid) && j < |ms|
    ensures PointsAtOther(ms[j].g.history, g, id) <==> PointsAtEarlier(ms, j, g, id)
  {
    var h := ms[j].g.history;
    forall t, fp ensures fp in History(h, t) <==> ShownBy(ms, j, t, fp) { RecordExactly(ms, steps, uid, j, t, fp); }
    if PointsAtOther(h, g, id) {
      var e, t, a :| e in g.edges && e.key.kind == Declared && e.status == Active
        && e.key.source == EntityUid(id) && e.key.target == EntityUid(t)
        && t in g.nodes && g.nodes[t].fingerprint.Some? && a in History(h, t) && a != g.nodes[t].fingerprint.value;
      assert ShownBy(ms, j, t, a);
    }
    if PointsAtEarlier(ms, j, g, id) {
      var e, t, a :| e in g.edges && e.key.kind == Declared && e.status == Active
        && e.key.source == EntityUid(id) && e.key.target == EntityUid(t)
        && t in g.nodes && g.nodes[t].fingerprint.Some? && ShownBy(ms, j, t, a) && a != g.nodes[t].fingerprint.value;
      assert a in History(h, t);
    }
  }

  lemma {:induction false} OtherwiseIsOther(ms: seq<Moment>, steps: seq<Step>, uid: EdgeUid, j: nat, id: string, fingerprint: Option<string>)
    requires IsRun(ms, steps, uid) && j < |ms|
    ensures OtherOnRecord(ms[j].g.history, id, fingerprint) <==> ShownOtherwise(ms, j, id, fingerprint)
  {
    forall fp ensures fp in History(ms[j].g.history, id) <==> ShownBy(ms, j, id, fp) { RecordExactly(ms, steps, uid, j, id, fp); }
  }

  lemma {:induction false} PassStatus(m: Moment, step: Step, m': Moment, uid: EdgeUid, id: string)
    requires Good(m, uid) && Next(m, step, m', uid) && IsPass(step) && id in Live(m'.tree, m'.work)
    ensures id in m'.g.nodes
    ensures m'.g.nodes[id].status ==
      if PointsAtOther(m.g.history, m'.g, id) then StaleReviewRequired
      else OwnStatus(m.g, step == Full(true), id, m'.g.nodes[id].fingerprint)
  {
    match step
    case Full(clean) =>
      var files :| FullStep(m, clean, uid, m', files);
      FullPassFollowsRecord(m.g, m'.tree, files, m'.work, clean, uid, m'.g, id);
    case Incremental(changed) =>
      var paths :| IncStep(m, changed, uid, m', paths);
      IncrementalPassFollowsRecord(m.g, m.tree, m.work, m'.tree, m'.work, paths, changed, uid, m'.g, id);
  }

  /** Staleness in a run, exactly: after a pass an active node is stale if and only if a declared edge leads
      from it to an artifact that the repository has shown before with another fingerprint, or it was stale
      before, the pass is not clean, and the node itself has never been shown otherwise. */
  lemma {:induction false} StaleInRunExactly(ms: seq<Moment>, steps: seq<Step>, uid: EdgeUid, j: nat, id: string)
    requires IsRun(ms, steps, uid) && j < |steps| && IsPass(steps[j]) && id in Live(ms[j + 1].tree, ms[j + 1].work)
    ensures id in ms[j + 1].g.nodes
    ensures ms[j + 1].g.nodes[id].status == StaleReviewRequired <==>
      || PointsAtEarlier(ms, j, ms[j + 1].g, id)
      || (&& steps[j] != Full(true) && id in ms[j].g.nodes && ms[j].g.nodes[id].status == StaleReviewRequired
          && !ShownOtherwise(ms, j, id, ms[j + 1].g.nodes[id].fingerprint))
  {
    EveryRunIsSynced(ms, steps, uid, j);
    RunStep(ms, steps, uid, j);
    PassStatus(ms[j], steps[j], ms[j + 1], uid, id);
    EarlierIsOther(ms, steps, uid, j, ms[j + 1].g, id);
    OtherwiseIsOther(ms, steps, uid, j, id, ms[j + 1].g.nodes[id].fingerprint);
  }

  ghost predicate NoneStale(g: Graph) {
    forall id | id in g.nodes :: g.nodes[id].status != StaleReviewRequired
  }

  /** No artifact has been shown with two fingerprints by moment j. */
  ghost predicate NothingChanged(ms: seq<Moment>, j: nat)
    requires j < |ms|
  {
    forall id, a, b :: ShownBy(ms, j, id, a) && ShownBy(ms, j, id, b) ==> a == b
  }

  lemma {:induction false} NoOtherNoneStale(g: Graph, m: NodeMap, edges: set<Edge>, clean: bool, g': Graph)
    requires WellKeyed(m) && NoneStale(g) && g'.nodes == StaledMap(g.history, g.nodes, m, edges, clean)
    requires forall id | id in m :: m[id].status == Current || (id in g.nodes && m[id].status == g.nodes[id].status)
    requires forall id, a | id in m && m[id].fingerprint.Some? && a in History(g.history, id) :: a == m[id].fingerprint.value
    ensures NoneStale(g')
  {
    forall id | id in m ensures !IsChanged(g.history, m[id]) {
      ChangedIsOther(g.history, m[id]);
    }
  }

  /** The rows a pass has merged, before staleness. */
  lemma {:induction false} MergedRows(m: Moment, step: Step, m': Moment, uid: EdgeUid) returns (n: NodeMap, edges: set<Edge>, clean: bool)
    requires Good(m, uid) && Next(m, step, m', uid) && IsPass(step)
    ensures WellKeyed(n) && m'.g.nodes == StaledMap(m.g.history, m.g.nodes, n, edges, clean)
    ensures forall id | id in n :: n[id].status == Current || (id in m.g.nodes && n[id].status == m.g.nodes[id].status)
  {
    var g := m.g;
    LiveAsDeclared(m'.tree, m'.work);
    match step
    case Full(c) =>
      var files :| FullStep(m, c, uid, m', files);
      FullNodesLive(g.nodes, m'.tree, files, m'.work);
      clean, n := c, FullNodes(g.nodes, NodesOf(m'.tree, files), m'.work);
      edges := DeclEdges(m'.tree) + StructuralEdges(n);
    case Incremental(changed) =>
      var paths :| IncStep(m, changed, uid, m', paths);
      var r := Recent(m'.tree, m'.work, paths);
      IncNodesLive(g, m.tree, m.work, m'.tree, m'.work, paths, changed, uid);
      clean, n := false, IncNodes(g.nodes, changed, r);
      edges := KeptEdges(g.edges, r, Gone(g.nodes, changed, r)) + SetOf(EdgesOf(m'.tree, paths)) + StructuralEdges(n);
      forall id | id in n ensures n[id].status == Current || (id in g.nodes && n[id].status == g.nodes[id].status) {
        IncNodesAt(g.nodes, changed, r, id);
        if id in r { RecentIsLive(g, m.tree, m.work, m'.tree, m'.work, paths, changed, uid, id); }
      }
  }

  lemma {:induction false} ShownStays(ms: seq<Moment>, i: nat, j: nat, id: string, fp: string)
    requires i <= j < |ms| && ShownBy(ms, i, id, fp)
    ensures ShownBy(ms, j, id, fp)
  {
    var k :| 0 <= k <= i && Shows(ms[k], id, fp);
    assert 0 <= k <= j && Shows(ms[k], id, fp);
  }

  lemma {:induction false} RecordIsShown(ms: seq<Moment>, steps: seq<Step>, uid: EdgeUid, i: nat, j: nat, id: string, fp: string)
    requires IsRun(ms, steps, uid) && i <= j < |ms| && fp in History(ms[i].g.history, id)
    ensures ShownBy(ms, j, id, fp)
  {
    RecordExactly(ms, steps, uid, i, id, fp);
    ShownStays(ms, i, j, id, fp);
  }

  lemma {:induction false} ShownAlike(ms: seq<Moment>, j: nat, id: string, a: string, b: string)
    requires j < |ms| && NothingChanged(ms, j) && ShownBy(ms, j, id, a) && ShownBy(ms, j, id, b)
    ensures a == b
  {}

  /** What is on record when a pass begins is the fingerprint of the row it leaves. */
  lemma {:induction false} UnchangedRecord(ms: seq<Moment>, steps: seq<Step>, uid: EdgeUid, i: nat, j: nat, id: string, a: string)
    requires IsRun(ms, steps, uid) && i < j < |ms| && NothingChanged(ms, j) && a in History(ms[i].g.history, id)
    requires id in ms[i + 1].g.nodes && ms[i + 1].g.nodes[id].fingerprint.Some?
    ensures a == ms[i + 1].g.nodes[id].fingerprint.value
  {
    var b := ms[i + 1].g.nodes[id].fingerprint.value;
    RowsStayOnRecord(ms, steps, uid, i + 1);
    assert b in History(ms[i + 1].g.history, id);
    RecordIsShown(ms, steps, uid, i, j, id, a);
    RecordIsShown(ms, steps, uid, i + 1, j, id, b);
    ShownAlike(ms, j, id, a, b);
  }

  lemma {:induction false} UnchangedKeepsNoneStale(ms: seq<Moment>, steps: seq<Step>, uid: EdgeUid, i: nat, j: nat)
    requires IsRun(ms, steps, uid) && i < |steps| && IsPass(steps[i]) && i < j < |ms| && NothingChanged(ms, j) && NoneStale(ms[i].g)
    ensures NoneStale(ms[i + 1].g)
  {
    var m, m' := ms[i], ms[i + 1];
    EveryRunIsSynced(ms, steps, uid, i);
    RunStep(ms, steps, uid, i);
    var n, edges, clean := MergedRows(m, steps[i], m', uid);
    forall id, a | id in n && n[id].fingerprint.Some? && a in History(m.g.history, id) ensures a == n[id].fingerprint.value {
      StaledKeepsRow(m.g.history, m.g.nodes, n, edges, clean, id);
      UnchangedRecord(ms, steps, uid, i, j, id, a);
    }
    NoOtherNoneStale(m.g, n, edges, clean, m'.g);
  }

  lemma {:induction false} StillNoneStale(m: Moment, step: Step, m': Moment, uid: EdgeUid)
    requires Next(m, step, m', uid) && !IsPass(step) && NoneStale(m.g)
    ensures NoneStale(m'.g)
  {}

  lemma {:induction false} StepKeepsNoneStale(ms: seq<Moment>, steps: seq<Step>, uid: EdgeUid, i: nat, j: nat)
    requires IsRun(ms, steps, uid) && i < j < |ms| && NothingChanged(ms, j) && NoneStale(ms[i].g)
    ensures NoneStale(ms[i + 1].g)
  {
    if IsPass(steps[i]) {
      UnchangedKeepsNoneStale(ms, steps, uid, i, j);
    } else {
      RunStep(ms, steps, uid, i);
      StillNoneStale(ms[i], steps[i], ms[i + 1], uid);
    }
  }

  lemma {:induction false} StartNotStale(ms: seq<Moment>, steps: seq<Step>, uid: EdgeUid)
    requires IsRun(ms, steps, uid)
    ensures |ms| > 0 && NoneStale(ms[0].g)
  {}

  lemma {:induction false} NotStaleUpTo(ms: seq<Moment>, steps: seq<Step>, uid: EdgeUid, i: nat, j: nat)
    requires IsRun(ms, steps, uid) && i <= j < |ms| && NothingChanged(ms, j)
    ensures NoneStale(ms[i].g)
  {
    if i == 0 {
      StartNotStale(ms, steps, uid);
    } else {
      NotStaleUpTo(ms, steps, uid, i - 1, j);
      StepKeepsNoneStale(ms, steps, uid, i - 1, j);
    }
  }

  /** While no artifact of a run is ever shown with two fingerprints, nothing in the store is stale. */
  lemma {:induction false} NeverStaleUnchanged(ms: seq<Moment>, steps: seq<Step>, uid: EdgeUid, j: nat)
    requires IsRun(ms, steps, uid) && j < |ms| && NothingChanged(ms, j)
    ensures NoneStale(ms[j].g)
  {
    NotStaleUpTo(ms, steps, uid, j, j);
  }
}
