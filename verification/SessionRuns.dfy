/** Every run of session operations: what clearing, finishing and stopping leave of them. */
module SessionRuns {
  import opened Models
  import opened Session
  import opened Obligations
  import opened Gates
  import opened Trails

  /** A pending obligation, as the hooks propose them. */
  type Proposal = o: Obligation | o.state.Pending? witness Obligation("", "", "", "", "", "", Pending)

  /** What happens to a session: a context is loaded, an edit is asked for, an obligation is proposed by
      a later scan or confirmed by hand, work and requirements are set, obligations are reconciled with
      the tree, the task is finished, the agent asks to stop, the session is cleared. */
  datatype Op =
    | Load(id: string)
    | AskEdit(request: Request)
    | Propose(o: Proposal)
    | Resolve(key: Key)
    | SetWork(work: string)
    | SetRequirements(ids: seq<string>)
    | AddRequirement(id: string)
    | Land(tree: TreeView)
    | FinishWork(seen: Option<TreeView>, verified: Verified)
    | AskStop(stop: StopRequest)
    | ClearAll

  function Apply(d: SessionData, op: Op): SessionData {
    match op
    case Load(id) => d.(contextsLoaded := AddOnce(d.contextsLoaded, id))
    case AskEdit(r) => AfterEdit(d, r)
    case Propose(o) => d.(obligations := Proposed(d.obligations, o))
    case Resolve(k) => d.(obligations := Resolved(d.obligations, {k}))
    case SetWork(w) => d.(activeWork := Some(w))
    case SetRequirements(ids) => if ids == [] then d else d.(requirements := AddAll([], ids))
    case AddRequirement(id) => d.(requirements := AddOnce(d.requirements, id))
    case Land(t) => Reconciled(d, Some(t))
    case FinishWork(t, v) => AfterFinish(d, t, v)
    case AskStop(g) => AfterStop(d, g)
    case ClearAll => CLEAN
  }

  /** Every operation on the session object is one step of a run, and leaves other sessions alone. */
  method Perform(state: SessionState, sessionId: string, op: Op)
    requires op.AskStop? && op.stop.unavailable ==> op.stop.verified.Blocking()
    modifies state
    ensures state.Read(sessionId) == Apply(old(state.Read(sessionId)), op)
    ensures state.files - {FileOf(sessionId)} == old(state.files) - {FileOf(sessionId)}
  {
    match op {
      case Load(id) => state.RecordContextLoad(sessionId, id);
      case AskEdit(r) => var _ := HandleEdit(state, sessionId, r);
      case Propose(o) => var _ := state.AddObligation(sessionId, o);
      case Resolve(k) => state.ResolveObligation(sessionId, k.path, k.symbol);
      case SetWork(w) => state.SetActiveWork(sessionId, Some(w));
      case SetRequirements(ids) => state.SetActiveRequirements(sessionId, ids);
      case AddRequirement(id) => state.AddActiveRequirement(sessionId, id);
      case Land(t) => var _ := Reconcile(state, sessionId, t);
      case FinishWork(t, v) => var _ := FinishTask(state, sessionId, t, v);
      case AskStop(g) => var _, _, _ := HandleStop(state, sessionId, g);
      case ClearAll => state.Clear(sessionId);
    }
  }

  predicate Follows(d: SessionData, op: Op, d': SessionData) {
    d' == Apply(d, op)
  }

  /** ds are the states of a session along the operations, from a clean start. */
  predicate IsRun(ds: seq<SessionData>, ops: seq<Op>) {
    && |ds| == |ops| + 1 && ds[0] == CLEAN
    && forall i | 0 <= i < |ops| :: Follows(ds[i], ops[i], ds[i + 1])
  }

  /** The operation clears the session: on demand, or because the work is done. */
  predicate Clears(d: SessionData, op: Op) {
    match op
    case ClearAll => true
    case FinishWork(t, v) => FinishOf(d, t, v).Done?
    case AskStop(g) => StopFinish(d, g).Some? && StopFinish(d, g).value.Done?
    case _ => false
  }

  // ----- obligations -----

  lemma {:induction false} StepKeepsUnique(d: SessionData, op: Op)
    requires UniqueKeys(d.obligations)
    ensures UniqueKeys(Apply(d, op).obligations)
  {
    match op {
      case AskEdit(r) => ProposedAllKeepsUnique(d.obligations, ProposalsOf(d, r));
      case Propose(o) => ProposedKeepsUnique(d.obligations, o);
      case Resolve(k) => ResolvedKeepsUnique(d.obligations, {k});
      case Land(t) => ReconciledKeepsUnique(d, Some(t));
      case FinishWork(t, _) => ReconciledKeepsUnique(d, t);
      case AskStop(g) => ReconciledKeepsUnique(d, TreeSeen(g));
      case _ =>
    }
  }

  lemma {:induction false} ReconciledKeepsUnique(d: SessionData, tree: Option<TreeView>)
    requires UniqueKeys(d.obligations)
    ensures UniqueKeys(Reconciled(d, tree).obligations)
  {
    if tree.Some? { ResolvedKeepsUnique(d.obligations, LandedKeys(tree.value, d.obligations)); }
  }

  /** In every run no obligation is listed twice. */
  lemma {:induction false} KeysStayUnique(ds: seq<SessionData>, ops: seq<Op>, i: nat)
    requires IsRun(ds, ops) && i <= |ops|
    ensures UniqueKeys(ds[i].obligations)
  {
    if i > 0 {
      KeysStayUnique(ds, ops, i - 1);
      StepKeepsUnique(ds[i - 1], ops[i - 1]);
    }
  }

  /** The operation proposes an obligation of the key. */
  predicate Proposes(d: SessionData, op: Op, k: Key) {
    match op
    case Propose(o) => ObligationKey(o) == k
    case AskEdit(r) => AsksFor(d, r, k)
    case _ => false
  }

  /** The tree the operation reconciles with. */
  function TreeOf(op: Op): Option<TreeView> {
    match op
    case Land(t) => Some(t)
    case FinishWork(t, _) => t
    case AskStop(g) => if g.verified.changedBlocks || g.verified.wholeBlocks then None else g.tree
    case _ => None
  }

  /** The operation satisfies the obligation: it is confirmed by hand, or pending and landed in the tree. */
  predicate Satisfies(d: SessionData, op: Op, k: Key) {
    op == Resolve(k) || (TreeOf(op).Some? && HasLanded(TreeOf(op).value, d.obligations, k))
  }

  /** What the operation means for the obligation. */
  function EventOf(d: SessionData, op: Op, k: Key): Event {
    Event(Clears(d, op), Proposes(d, op, k), Satisfies(d, op, k))
  }

  function StatusIn(d: SessionData, k: Key): Option<ObligationState> {
    StateOf(d.obligations, k)
  }

  lemma {:induction false} ReconciledStatus(d: SessionData, tree: Option<TreeView>, k: Key)
    ensures StatusIn(Reconciled(d, tree), k) ==
      if tree.Some? && HasLanded(tree.value, d.obligations, k) then Some(Satisfied) else StatusIn(d, k)
  {
    if tree.Some? {
      LandedKeysExactly(tree.value, d.obligations, k);
      LandedIsSatisfied(tree.value, d.obligations, LandedKeys(tree.value, d.obligations), k);
    }
  }

  lemma {:induction false} LandedIsThere(d: SessionData, tree: Option<TreeView>, k: Key)
    ensures tree.Some? && HasLanded(tree.value, d.obligations, k) ==> StatusIn(d, k).Some?
  {
    if tree.Some? && HasLanded(tree.value, d.obligations, k) {
      HasLandedIsListed(tree.value, d.obligations, k);
    }
  }

  lemma {:induction false} ClearedIsClean(d: SessionData, op: Op)
    requires Clears(d, op)
    ensures Apply(d, op) == CLEAN
  {}

  /** What reconciles and does not clear the session only reconciles it. */
  lemma {:induction false} OnlyReconciled(d: SessionData, op: Op)
    requires !Clears(d, op) && (op.Land? || op.FinishWork? || op.AskStop?)
    ensures Apply(d, op) == Reconciled(d, TreeOf(op))
  {}

  lemma {:induction false} EditStatus(d: SessionData, r: Request, k: Key)
    ensures StatusIn(AfterEdit(d, r), k) ==
      if StatusIn(d, k).None? && AsksFor(d, r, k) then Some(Pending) else StatusIn(d, k)
  {
    ProposedKeys(d, r, k);
    ProposedAllState(d.obligations, ProposalsOf(d, r), k);
  }

  lemma {:induction false} StatusStep(d: SessionData, op: Op, k: Key)
    ensures StatusIn(Apply(d, op), k) == NextState(StatusIn(d, k), EventOf(d, op, k))
  {
    if Clears(d, op) {
      ClearedIsClean(d, op);
    } else if op.Land? || op.FinishWork? || op.AskStop? {
      OnlyReconciled(d, op);
      ReconciledStatus(d, TreeOf(op), k);
      LandedIsThere(d, TreeOf(op), k);
    } else {
      match op {
        case AskEdit(r) => EditStatus(d, r, k);
        case Propose(o) => ProposedState(d.obligations, o, k);
        case Resolve(key) => ResolvedState(d.obligations, {key}, k);
        case _ =>
      }
    }
  }

  /** What each operation of the run means for the obligation. */
  function History(ds: seq<SessionData>, ops: seq<Op>, k: Key): (es: seq<Event>)
    requires IsRun(ds, ops)
    ensures |es| == |ops|
  {
    seq(|ops|, i requires 0 <= i < |ops| => EventOf(ds[i], ops[i], k))
  }

  lemma {:induction false} EventIsSensible(d: SessionData, op: Op, k: Key)
    ensures var e := EventOf(d, op, k); e.proposes ==> !e.clears && !e.satisfies
  {}

  lemma {:induction false} HistoryIsSensible(ds: seq<SessionData>, ops: seq<Op>, k: Key)
    requires IsRun(ds, ops)
    ensures Sensible(History(ds, ops, k))
  {
    forall i | 0 <= i < |ops|
      ensures History(ds, ops, k)[i].proposes ==> !History(ds, ops, k)[i].clears && !History(ds, ops, k)[i].satisfies
    {
      EventIsSensible(ds[i], ops[i], k);
    }
  }

  /** How an obligation stands before operation i. */
  function Status(ds: seq<SessionData>, i: nat, k: Key): Option<ObligationState>
    requires i < |ds|
  {
    StatusIn(ds[i], k)
  }

  lemma {:induction false} StatusAt(ds: seq<SessionData>, ops: seq<Op>, i: nat, k: Key)
    requires IsRun(ds, ops) && i < |ops|
    ensures Status(ds, i + 1, k) == NextState(Status(ds, i, k), History(ds, ops, k)[i])
  {
    StatusStep(ds[i], ops[i], k);
  }

  lemma {:induction false} StatusIsTrail(ds: seq<SessionData>, ops: seq<Op>, j: nat, k: Key)
    requires IsRun(ds, ops) && j <= |ops|
    ensures Status(ds, j, k) == Trail(History(ds, ops, k), j)
  {
    if j > 0 {
      StatusIsTrail(ds, ops, j - 1, k);
      StatusAt(ds, ops, j - 1, k);
    }
  }

  /** In every run an obligation is listed exactly when it has been proposed since the last clear. */
  lemma {:induction false} ListedExactly(ds: seq<SessionData>, ops: seq<Op>, j: nat, k: Key)
    requires IsRun(ds, ops) && j <= |ops|
    ensures Status(ds, j, k).Some? <==> ProposedBefore(History(ds, ops, k), j)
  {
    StatusIsTrail(ds, ops, j, k);
    HistoryIsSensible(ds, ops, k);
    Trails.ListedExactly(History(ds, ops, k), j);
  }

  /** In every run an obligation is satisfied exactly when, since the last clear, it was proposed and
      later confirmed or found landed. */
  lemma {:induction false} SatisfiedExactly(ds: seq<SessionData>, ops: seq<Op>, j: nat, k: Key)
    requires IsRun(ds, ops) && j <= |ops|
    ensures Status(ds, j, k) == Some(Satisfied) <==> exists i: nat, m: nat :: i < m < j && SatisfiedSince(History(ds, ops, k), i, m, j)
  {
    StatusIsTrail(ds, ops, j, k);
    HistoryIsSensible(ds, ops, k);
    Trails.SatisfiedExactly(History(ds, ops, k), j);
  }

  /** In every run, until the session is cleared, a satisfied obligation stays satisfied. */
  lemma {:induction false} SatisfiedStays(ds: seq<SessionData>, ops: seq<Op>, i: nat, j: nat, k: Key)
    requires IsRun(ds, ops) && i <= j <= |ops| && NoClear(History(ds, ops, k), i, j) && Status(ds, i, k) == Some(Satisfied)
    ensures Status(ds, j, k) == Some(Satisfied)
  {
    StatusIsTrail(ds, ops, i, k);
    StatusIsTrail(ds, ops, j, k);
    Trails.SatisfiedStays(History(ds, ops, k), i, j);
  }

  /** In every run, until the session is cleared, a pending obligation stays listed, and is satisfied
      exactly when it has been confirmed or found landed in between. */
  lemma {:induction false} PendingUntilSatisfied(ds: seq<SessionData>, ops: seq<Op>, i: nat, j: nat, k: Key)
    requires IsRun(ds, ops) && i <= j <= |ops| && NoClear(History(ds, ops, k), i, j) && Status(ds, i, k) == Some(Pending)
    ensures Status(ds, j, k).Some?
    ensures Status(ds, j, k) == Some(Satisfied) <==> exists m | i <= m < j :: History(ds, ops, k)[m].satisfies
  {
    StatusIsTrail(ds, ops, i, k);
    StatusIsTrail(ds, ops, j, k);
    Trails.PendingUntilSatisfied(History(ds, ops, k), i, j);
  }

  // ----- the context gate -----

  /** The operation settles the context gate for the node: its context is loaded, or an edit of it
      gets as far as that gate. */
  predicate Settles(op: Op, id: string) {
    op == Load(id) ||
    (op.AskEdit? && (op.request.skipped || (!op.request.specBlocks && op.request.untraced == []))
      && op.request.guarded && op.request.node == Some(id))
  }

  predicate IsSettled(d: SessionData, id: string) {
    id in d.contextsLoaded || id in d.blocked
  }

  /** What each operation of the run means for the gate of the node. */
  function GateHistory(ds: seq<SessionData>, ops: seq<Op>, id: string): (es: seq<Event>)
    requires IsRun(ds, ops)
    ensures |es| == |ops|
  {
    seq(|ops|, i requires 0 <= i < |ops| => Event(Clears(ds[i], ops[i]), Settles(ops[i], id), false))
  }

  lemma {:induction false} SettledStep(d: SessionData, op: Op, id: string)
    ensures IsSettled(Apply(d, op), id) <==> !Clears(d, op) && (IsSettled(d, id) || Settles(op, id))
    ensures Settles(op, id) ==> !Clears(d, op)
  {}

  /** How the gate stands before operation i: settled counts as listed. */
  function GateStatus(ds: seq<SessionData>, i: nat, id: string): Option<ObligationState>
    requires i < |ds|
  {
    if IsSettled(ds[i], id) then Some(Pending) else None
  }

  lemma {:induction false} GateAt(ds: seq<SessionData>, ops: seq<Op>, i: nat, id: string)
    requires IsRun(ds, ops) && i < |ops|
    ensures GateStatus(ds, i + 1, id) == NextState(GateStatus(ds, i, id), GateHistory(ds, ops, id)[i])
  {
    SettledStep(ds[i], ops[i], id);
  }

  lemma {:induction false} GateIsTrail(ds: seq<SessionData>, ops: seq<Op>, j: nat, id: string)
    requires IsRun(ds, ops) && j <= |ops|
    ensures GateStatus(ds, j, id) == Trail(GateHistory(ds, ops, id), j)
  {
    if j > 0 {
      GateIsTrail(ds, ops, j - 1, id);
      GateAt(ds, ops, j - 1, id);
    }
  }

  lemma {:induction false} GateHistoryIsSensible(ds: seq<SessionData>, ops: seq<Op>, id: string)
    requires IsRun(ds, ops)
    ensures Sensible(GateHistory(ds, ops, id))
  {
    forall i | 0 <= i < |ops| ensures GateHistory(ds, ops, id)[i].proposes ==> !GateHistory(ds, ops, id)[i].clears {
      SettledStep(ds[i], ops[i], id);
    }
  }

  /** In every run the context gate blocks an edit that gets to it exactly when, since the last clear,
      it is the first such edit of the node and the context has not been loaded: at most once for each
      node between clears, and never after a load. */
  lemma {:induction false} BlocksExactlyOnce(ds: seq<SessionData>, ops: seq<Op>, j: nat, id: string)
    requires IsRun(ds, ops) && j < |ops| && ops[j].AskEdit? && Settles(ops[j], id)
    ensures EditVerdict(ds[j], ops[j].request).ContextBlock? <==> !ProposedBefore(GateHistory(ds, ops, id), j)
  {
    GateIsTrail(ds, ops, j, id);
    GateHistoryIsSensible(ds, ops, id);
    Trails.ListedExactly(GateHistory(ds, ops, id), j);
  }

  // ----- done -----

  /** The obligation, if it has been proposed since the last clear, has been satisfied by the end of
      operation j. */
  predicate IsMet(ds: seq<SessionData>, ops: seq<Op>, j: nat, k: Key)
    requires IsRun(ds, ops) && j < |ops|
  {
    ProposedBefore(History(ds, ops, k), j) ==> SettledBy(History(ds, ops, k), j)
  }

  ghost predicate AllMet(ds: seq<SessionData>, ops: seq<Op>, j: nat)
    requires IsRun(ds, ops) && j < |ops|
  {
    forall k :: IsMet(ds, ops, j, k)
  }

  /** The operation is one of the two that look at the tree before they decide. */
  predicate Decides(op: Op) {
    op.FinishWork? || op.AskStop?
  }

  lemma {:induction false} MetExactly(ds: seq<SessionData>, ops: seq<Op>, j: nat, k: Key)
    requires IsRun(ds, ops) && j < |ops| && Decides(ops[j])
    ensures IsMet(ds, ops, j, k) <==> !IsPending(Reconciled(ds[j], TreeOf(ops[j])).obligations, k)
  {
    HistoryIsSensible(ds, ops, k);
    SettledExactly(History(ds, ops, k), j);
    StatusIsTrail(ds, ops, j, k);
    ReconciledStatus(ds[j], TreeOf(ops[j]), k);
    LandedIsThere(ds[j], TreeOf(ops[j]), k);
  }

  lemma {:induction false} NothingLeftExactly(ds: seq<SessionData>, ops: seq<Op>, j: nat)
    requires IsRun(ds, ops) && j < |ops| && Decides(ops[j])
    ensures Left(ds[j], TreeOf(ops[j])) == [] <==> AllMet(ds, ops, j)
  {
    var obs := Reconciled(ds[j], TreeOf(ops[j])).obligations;
    KeysStayUnique(ds, ops, j);
    ReconciledKeepsUnique(ds[j], TreeOf(ops[j]));
    NothingPending(obs);
    forall k ensures IsMet(ds, ops, j, k) <==> !IsPending(obs, k) {
      MetExactly(ds, ops, j, k);
    }
  }

  /** Nothing is to be finished: no work is set and no obligation is pending. */
  ghost predicate NothingToFinish(ds: seq<SessionData>, j: nat)
    requires j < |ds|
  {
    ds[j].activeWork.None? && forall k :: Status(ds, j, k) != Some(Pending)
  }

  lemma {:induction false} IdleExactly(ds: seq<SessionData>, ops: seq<Op>, j: nat, tree: Option<TreeView>, v: Verified)
    requires IsRun(ds, ops) && j < |ds|
    ensures FinishOf(ds[j], tree, v).Idle? <==> NothingToFinish(ds, j)
  {
    KeysStayUnique(ds, ops, j);
    NothingPending(ds[j].obligations);
    forall k ensures Status(ds, j, k) == Some(Pending) <==> IsPending(ds[j].obligations, k) {}
  }

  /** In every run, finishing is idle exactly when nothing is to be finished. Otherwise it ends with the
      work done exactly when every obligation proposed since the last clear has been confirmed or has
      landed, and neither verification blocks; and when it is blocked, some obligation is pending exactly
      when one has not. */
  lemma {:induction false} DoneExactly(ds: seq<SessionData>, ops: seq<Op>, j: nat)
    requires IsRun(ds, ops) && j < |ops| && ops[j].FinishWork?
    ensures var r := FinishOf(ds[j], ops[j].seen, ops[j].verified);
      && (r.Idle? <==> NothingToFinish(ds, j))
      && (r == Done(ds[j].activeWork) <==>
            !NothingToFinish(ds, j) && AllMet(ds, ops, j) && !ops[j].verified.changedBlocks && !ops[j].verified.wholeBlocks)
      && (r.Done? ==> r.work == ds[j].activeWork)
      && (r.Blocked? ==> (r.pending == 0 <==> AllMet(ds, ops, j)))
  {
    NothingLeftExactly(ds, ops, j);
    IdleExactly(ds, ops, j, ops[j].seen, ops[j].verified);
  }

  /** In every run, the agent may stop exactly when its verification does not block and every
      obligation proposed since the last clear has been confirmed or has landed. */
  lemma {:induction false} MayStopExactly(ds: seq<SessionData>, ops: seq<Op>, j: nat)
    requires IsRun(ds, ops) && j < |ops| && ops[j].AskStop?
    ensures var v := ops[j].stop.verified;
      MayStop(ds[j], ops[j].stop) <==> !v.changedBlocks && !v.wholeBlocks && AllMet(ds, ops, j)
  {
    NothingLeftExactly(ds, ops, j);
  }

  /** The operation finishes the work, as it is told to or at a stop, with nothing in the way. */
  ghost predicate FinishesMet(ds: seq<SessionData>, ops: seq<Op>, j: nat)
    requires IsRun(ds, ops) && j < |ops|
  {
    match ops[j]
    case FinishWork(_, v) => !NothingToFinish(ds, j) && !v.changedBlocks && !v.wholeBlocks && AllMet(ds, ops, j)
    case AskStop(g) =>
      && !g.verified.changedBlocks && !g.verified.wholeBlocks && AllMet(ds, ops, j)
      && ds[j].activeWork.Some? && ds[j].activeWork.value != ""
      && g.merge.Some? && !g.merge.value.changedBlocks && !g.merge.value.wholeBlocks
    case _ => false
  }

  /** Stopping twice: what is left after reconciling is what is left after reconciling again. */
  lemma {:induction false} StopFinishes(d: SessionData, g: StopRequest)
    requires MayStop(d, g) && WorkOf(d) != "" && g.merge.Some?
    ensures StopFinish(d, g).value.Done? <==> !g.merge.value.changedBlocks && !g.merge.value.wholeBlocks
  {
    NothingToReconcile(Reconciled(d, g.tree), g.tree);
  }

  /** In every run, an operation clears the session exactly when it is told to, or finishes the work with
      nothing in the way: every obligation proposed since the last clear met, and no verification blocking. */
  lemma {:induction false} ClearsExactly(ds: seq<SessionData>, ops: seq<Op>, j: nat)
    requires IsRun(ds, ops) && j < |ops|
    ensures Clears(ds[j], ops[j]) <==> ops[j].ClearAll? || FinishesMet(ds, ops, j)
  {
    match ops[j] {
      case FinishWork(_, _) => DoneExactly(ds, ops, j);
      case AskStop(g) =>
        MayStopExactly(ds, ops, j);
        if MayStop(ds[j], g) && WorkOf(ds[j]) != "" && g.merge.Some? {
          StopFinishes(ds[j], g);
        }
      case _ =>
    }
  }

  /** After a clear a session is as new. */
  lemma {:induction false} ClearedIsNew(ds: seq<SessionData>, ops: seq<Op>, j: nat)
    requires IsRun(ds, ops) && j < |ops| && (ops[j].ClearAll? || FinishesMet(ds, ops, j))
    ensures ds[j + 1] == SessionData([], [], None, [], [])
  {
    ClearsExactly(ds, ops, j);
    assert Follows(ds[j], ops[j], ds[j + 1]);
    ClearedIsClean(ds[j], ops[j]);
  }

  // ----- work and loaded contexts -----

  /** Operation i set this work, and nothing has set another or cleared it since. */
  predicate LastSet(ds: seq<SessionData>, ops: seq<Op>, i: nat, j: nat, w: string)
    requires IsRun(ds, ops) && i < j <= |ops|
  {
    ops[i] == SetWork(w) && forall m | i < m < j :: !ops[m].SetWork? && !Clears(ds[m], ops[m])
  }

  lemma {:induction false} WorkStep(d: SessionData, op: Op, w: string)
    ensures Apply(d, op).activeWork == Some(w) <==>
      op == SetWork(w) || (d.activeWork == Some(w) && !op.SetWork? && !Clears(d, op))
  {}

  /** In every run the active work is the last one set since the last clear. */
  lemma {:induction false} WorkIsLastSet(ds: seq<SessionData>, ops: seq<Op>, j: nat, w: string)
    requires IsRun(ds, ops) && j <= |ops|
    ensures ds[j].activeWork == Some(w) <==> exists i: nat :: i < j && LastSet(ds, ops, i, j, w)
  {
    if j > 0 {
      var n := j - 1;
      WorkIsLastSet(ds, ops, n, w);
      assert Follows(ds[n], ops[n], ds[n + 1]);
      WorkStep(ds[n], ops[n], w);
      if i: nat :| i < j && LastSet(ds, ops, i, j, w) {
        assert i < n ==> LastSet(ds, ops, i, n, w);
      }
      if ds[j].activeWork == Some(w) {
        if ops[n] == SetWork(w) {
          assert LastSet(ds, ops, n, j, w);
        } else {
          var i: nat :| i < n && LastSet(ds, ops, i, n, w);
          assert LastSet(ds, ops, i, j, w);
        }
      }
    }
  }
}
