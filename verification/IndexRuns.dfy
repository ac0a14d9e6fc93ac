/** Whole runs: full, incremental and review steps in any order while the repository changes. */
module IndexRuns {
  import opened Models
  import opened Store
  import opened IndexSpec
  import opened IndexTheorems
  import opened Staleness

  datatype Step = Full(clean: bool) | Incremental(changed: set<string>) | Review

  /** The store together with the repository state it was last indexed against. */
  datatype Moment = Moment(g: Graph, tree: Tree, work: seq<Node>)

  const START := Moment(Graph(map[], [], map[]), map[], [])

  /** A review turns stale nodes into reviewed ones and touches nothing else. */
  ghost predicate ReviewResult(g: Graph, g': Graph) {
    && g'.edges == g.edges && g'.history == g.history
    && g'.nodes.Keys == g.nodes.Keys
    && forall id | id in g.nodes ::
         g'.nodes[id] == g.nodes[id]
         || (g.nodes[id].status == StaleReviewRequired && g'.nodes[id] == g.nodes[id].(status := ReviewedNeedsVerification))
  }

  ghost predicate FullStep(m: Moment, clean: bool, uid: EdgeUid, m': Moment, files: seq<string>) {
    && SetOf(files) == m'.tree.Keys
    && (forall p | p in files :: p in m'.tree)
    && FullResult(m.g, NodesOf(m'.tree, files), DeclEdges(m'.tree), m'.work, clean, uid, m'.g)
  }

  ghost predicate IncStep(m: Moment, changed: set<string>, uid: EdgeUid, m': Moment, paths: seq<string>) {
    && SetOf(paths) == m'.tree.Keys * changed
    && (forall p | p in paths :: p in m'.tree)
    && NothingLingers(m.tree, m'.tree, m'.work, paths, changed)
    && IncResult(m.g, NodesOf(m'.tree, paths), SetOf(EdgesOf(m'.tree, paths)), m'.work, changed, uid, m'.g)
  }

  /** One step of a run. An incremental step gets a covering change set that meets the
      conditions of `IncrementalIsFullExactly`; with an empty one it returns at once. */
  ghost predicate Next(m: Moment, step: Step, m': Moment, uid: EdgeUid) {
    && ValidRepo(m'.tree, m'.work)
    && match step
       case Full(clean) => exists files :: FullStep(m, clean, uid, m', files)
       case Incremental(changed) =>
         && Covers(m.tree, m.work, m'.tree, m'.work, changed)
         && WorkApart(m'.tree, m'.work, changed)
         && if changed == {} then m' == m else exists paths :: IncStep(m, changed, uid, m', paths)
       case Review => m'.tree == m.tree && m'.work == m.work && ReviewResult(m.g, m'.g)
  }

  ghost predicate IsRun(ms: seq<Moment>, steps: seq<Step>, uid: EdgeUid) {
    && |ms| == |steps| + 1
    && ms[0] == START
    && forall i {:trigger steps[i]} | 0 <= i < |steps| :: Next(ms[i], steps[i], ms[i + 1], uid)
  }

  ghost predicate Good(m: Moment, uid: EdgeUid) {
    Synced(m.g, m.tree, m.work, uid) && ValidRepo(m.tree, m.work)
  }

  lemma {:induction false} StartIsGood(uid: EdgeUid)
    ensures Good(START, uid)
  {
    assert ActiveDecls(map[]) == map[];
    assert DeclaredIds(map[]) == {};
    assert DeclMap(map[]) == map[];
    assert Live(map[], []) == map[];
    assert StructuralEdges(map[]) == {};
    assert DeclEdges(map[]) == {};
    assert LiveEdges(map[], []) == {};
  }

  lemma {:induction false} ReviewKeepsDecls(g: Graph, g': Graph)
    requires ReviewResult(g, g')
    ensures ActiveDecls(g'.nodes) == ActiveDecls(g.nodes)
    ensures WellKeyed(g.nodes) ==> WellKeyed(g'.nodes)
  {}

  lemma {:induction false} NextKeepsGood(m: Moment, step: Step, m': Moment, uid: EdgeUid)
    requires Good(m, uid) && Next(m, step, m', uid)
    ensures Good(m', uid)
  {
    match step
    case Full(clean) =>
      var files :| FullStep(m, clean, uid, m', files);
      FullPassSyncs(m.g, m'.tree, files, m'.work, clean, uid, m'.g);
    case Incremental(changed) =>
      if changed != {} {
        var paths :| IncStep(m, changed, uid, m', paths);
        IncrementalPassSyncs(m.g, m.tree, m.work, m'.tree, m'.work, paths, changed, uid, m'.g);
      }
    case Review =>
      ReviewKeepsDecls(m.g, m'.g);
  }

  /** Safety of whole runs: after every step the store holds exactly the active nodes and the
      edges the repository calls for at that moment. */
  lemma {:induction false} EveryRunIsSynced(ms: seq<Moment>, steps: seq<Step>, uid: EdgeUid, i: nat)
    requires IsRun(ms, steps, uid) && i < |ms|
    ensures Good(ms[i], uid)
  {
    if i == 0 {
      FirstIsGood(ms, steps, uid);
    } else {
      EveryRunIsSynced(ms, steps, uid, i - 1);
      StepKeepsGood(ms, steps, uid, i);
    }
  }

  lemma {:induction false} FirstIsGood(ms: seq<Moment>, steps: seq<Step>, uid: EdgeUid)
    requires IsRun(ms, steps, uid)
    ensures |ms| > 0 && Good(ms[0], uid)
  {
    StartIsGood(uid);
  }

  lemma {:induction false} StepKeepsGood(ms: seq<Moment>, steps: seq<Step>, uid: EdgeUid, i: nat)
    requires IsRun(ms, steps, uid) && 0 < i < |ms| && Good(ms[i - 1], uid)
    ensures Good(ms[i], uid)
  {
    RunStep(ms, steps, uid, i - 1);
    NextKeepsGood(ms[i - 1], steps[i - 1], ms[i], uid);
  }

  lemma {:induction false} RunStep(ms: seq<Moment>, steps: seq<Step>, uid: EdgeUid, i: nat)
    requires IsRun(ms, steps, uid) && i < |steps|
    ensures |ms| == |steps| + 1 && Next(ms[i], steps[i], ms[i + 1], uid)
  {}

  /** Any two mixes of passes that end at the same repository state leave the same active
      nodes and the same edge rows; in particular any mix agrees with one full pass. */
  lemma {:induction false} MixedRunsAgree(ms: seq<Moment>, steps: seq<Step>, ms': seq<Moment>, steps': seq<Step>, uid: EdgeUid)
    requires IsRun(ms, steps, uid) && IsRun(ms', steps', uid)
    requires ms[|steps|].tree == ms'[|steps'|].tree && ms[|steps|].work == ms'[|steps'|].work
    ensures ActiveDecls(ms[|steps|].g.nodes) == ActiveDecls(ms'[|steps'|].g.nodes)
    ensures ms[|steps|].g.edges == ms'[|steps'|].g.edges
  {
    EveryRunIsSynced(ms, steps, uid, |steps|);
    EveryRunIsSynced(ms', steps', uid, |steps'|);
    SyncedIsUnique(ms[|steps|].g, ms'[|steps'|].g, ms[|steps|].tree, ms[|steps|].work, uid);
  }

  // ----- staleness is never silently lost -----

  lemma {:induction false} NextGrowsHistory(m: Moment, step: Step, m': Moment, uid: EdgeUid)
    requires Next(m, step, m', uid)
    ensures HistoryGrows(m.g.history, m'.g.history)
  {
    match step
    case Full(clean) =>
      var files :| FullStep(m, clean, uid, m', files);
    case Incremental(changed) =>
      if changed != {} {
        var paths :| IncStep(m, changed, uid, m', paths);
      }
    case Review =>
  }

  lemma {:induction false} RunGrowsHistory(ms: seq<Moment>, steps: seq<Step>, uid: EdgeUid, i: nat, j: nat)
    requires IsRun(ms, steps, uid) && i <= j < |ms|
    ensures HistoryGrows(ms[i].g.history, ms[j].g.history)
  {
    if i < j {
      RunGrowsHistory(ms, steps, uid, i, j - 1);
      RunStep(ms, steps, uid, j - 1);
      NextGrowsHistory(ms[j - 1], steps[j - 1], ms[j], uid);
    }
  }

  /** Two different fingerprints of the artifact are on record. */
  ghost predicate EverChanged(h: map<string, set<string>>, t: string) {
    exists a, b :: a in History(h, t) && b in History(h, t) && a != b
  }

  /** A pass of either kind that does any work. */
  predicate IsPass(step: Step) {
    step.Full? || (step.Incremental? && step.changed != {})
  }

  /** The pass marks every active node that points at a changed artifact. */
  lemma {:induction false} PassMarksDependents(m: Moment, step: Step, m': Moment, uid: EdgeUid, id: string)
    requires Good(m, uid) && Next(m, step, m', uid) && IsPass(step)
    requires id in m'.g.nodes && m'.g.nodes[id].active && PointsAtChanged(m.g.history, m'.g, id)
    ensures m'.g.nodes[id].status == StaleReviewRequired
  {
    match step
    case Full(clean) =>
      var files :| FullStep(m, clean, uid, m', files);
      FullPassStaleExactly(m.g, m'.tree, files, m'.work, clean, uid, m'.g, id);
    case Incremental(changed) =>
      var paths :| IncStep(m, changed, uid, m', paths);
      IncrementalPassStaleExactly(m.g, m.tree, m.work, m'.tree, m'.work, paths, changed, uid, m'.g, id);
  }

  /** Once two fingerprints of an artifact are on record, every later pass, clean or not,
      full or incremental, marks every active node with a declared edge to it stale again,
      whatever reviews happened in between and whatever the artifact says now. */
  lemma {:induction false} StaleOnEveryLaterPass(ms: seq<Moment>, steps: seq<Step>, uid: EdgeUid, i: nat, j: nat, e: Edge, id: string, t: string)
    requires IsRun(ms, steps, uid) && i <= j < |steps|
    requires EverChanged(ms[i].g.history, t)
    requires IsPass(steps[j])
    requires var g := ms[j + 1].g;
             e in g.edges && e.key.kind == Declared && e.key.source == EntityUid(id) && e.key.target == EntityUid(t)
             && id in g.nodes && g.nodes[id].active && t in g.nodes && g.nodes[t].fingerprint.Some?
    ensures ms[j + 1].g.nodes[id].status == StaleReviewRequired
  {
    EveryRunIsSynced(ms, steps, uid, j);
    EveryRunIsSynced(ms, steps, uid, j + 1);
    RunGrowsHistory(ms, steps, uid, i, j);
    RunStep(ms, steps, uid, j);
    EverChangedStays(ms[i].g.history, ms[j].g.history, t);
    LiveEdgesActive(ms[j + 1].tree, ms[j + 1].work, e);
    PointsAtEverChanged(ms[j].g.history, ms[j + 1].g, e, id, t);
    PassMarksDependents(ms[j], steps[j], ms[j + 1], uid, id);
  }

  lemma {:induction false} EverChangedStays(h: map<string, set<string>>, h': map<string, set<string>>, t: string)
    requires EverChanged(h, t) && HistoryGrows(h, h')
    ensures EverChanged(h', t)
  {
    var a, b :| a in History(h, t) && b in History(h, t) && a != b;
    assert a in History(h', t) && b in History(h', t);
  }

  lemma {:induction false} PointsAtEverChanged(h: map<string, set<string>>, g: Graph, e: Edge, id: string, t: string)
    requires EverChanged(h, t) && WellKeyed(g.nodes)
    requires e in g.edges && e.key.kind == Declared && e.status == Active
    requires e.key.source == EntityUid(id) && e.key.target == EntityUid(t)
    requires t in g.nodes && g.nodes[t].fingerprint.Some?
    ensures PointsAtChanged(h, g, id)
  {
    var a, b :| a in History(h, t) && b in History(h, t) && a != b;
    var fp := g.nodes[t].fingerprint.value;
    assert a in PreviousFingerprints(h, t, fp) || b in PreviousFingerprints(h, t, fp);
    assert IsChanged(h, g.nodes[t]);
  }

  lemma {:induction false} LiveEdgesActive(tree: Tree, work: seq<Node>, e: Edge)
    requires ValidTree(tree) && e in LiveEdges(tree, work)
    ensures e.status == Active
  {
    if e in DeclEdges(tree) {
      var p :| p in tree && e in tree[p].edges;
      assert ValidExtraction(p, tree[p]);
    }
  }

  /** A review outlasts the next full pass exactly when the node is unchanged and points at no row with
      another fingerprint on record, of those the repository calls for and the old ones. All of it can
      be told before the pass. */
  lemma {:induction false} ReviewSurvivesExactly(g: Graph, tree: Tree, paths: seq<string>, work: seq<Node>, uid: EdgeUid, g': Graph, id: string)
    requires ValidRepo(tree, work) && SetOf(paths) == tree.Keys && WellKeyed(g.nodes)
    requires forall p | p in paths :: p in tree
    requires FullResult(g, NodesOf(tree, paths), DeclEdges(tree), work, false, uid, g')
    requires id in Live(tree, work) && id in g.nodes && g.nodes[id].status == ReviewedNeedsVerification
    ensures id in g'.nodes
    ensures g'.nodes[id].status == ReviewedNeedsVerification <==>
      && !DependsOnChanged(g.history, InactiveCopies(g.nodes) + Live(tree, work), LiveEdges(tree, work), id)
      && !IsChanged(g.history, Live(tree, work)[id])
  {
    var m := InactiveCopies(g.nodes) + Live(tree, work);
    FullNodesLive(g.nodes, tree, paths, work);
    StructuralOfActive(m);
    assert g'.nodes == StaledMap(g.history, g.nodes, m, LiveEdges(tree, work), false);
    var _ := LiveOrigin(tree, work, id);
    StaledStatus(g.history, g.nodes, m, LiveEdges(tree, work), false, id);
  }

  /** And the next incremental pass exactly when the same holds without the rows it drops. */
  lemma {:induction false} ReviewSurvivesIncrementalExactly(g: Graph, t0: Tree, w0: seq<Node>, t1: Tree, w1: seq<Node>, paths: seq<string>, changed: set<string>, uid: EdgeUid, g': Graph, id: string)
    requires IncInputs(g, t0, w0, t1, w1, paths, changed, uid)
    requires Agreeable(t0, t1, w1, paths, changed)
    requires IncResult(g, NodesOf(t1, paths), SetOf(EdgesOf(t1, paths)), w1, changed, uid, g')
    requires id in Live(t1, w1) && id in g.nodes && g.nodes[id].status == ReviewedNeedsVerification
    ensures id in g'.nodes
    ensures g'.nodes[id].status == ReviewedNeedsVerification <==>
      && !DependsOnChanged(g.history, Remaining(g, t1, w1, paths, changed), LiveEdges(t1, w1), id)
      && !IsChanged(g.history, Live(t1, w1)[id])
  {
    var m, all := IncNodes(g.nodes, changed, Recent(t1, w1, paths)), LiveEdges(t1, w1);
    IncNodesLive(g, t0, w0, t1, w1, paths, changed, uid);
    IncEdgesLive(g, t0, w0, t1, w1, paths, changed, uid);
    StructuralOfActive(m);
    assert g'.nodes == StaledMap(g.history, g.nodes, m, all, false);
    IncNodeLive(g, t0, w0, t1, w1, paths, changed, uid, id);
    IncStatusBase(g, t0, w0, t1, w1, paths, changed, uid, id);
    RemainingDependents(g, t0, w0, t1, w1, paths, changed, uid, all, id);
    StaledStatus(g.history, g.nodes, m, all, false, id);
  }
}
