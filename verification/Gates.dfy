/** The gates of a session: before an edit, at the end of a task, and at a stop. */
module Gates {
  import opened Models
  import opened Session
  import opened Obligations

  // ----- before an edit -----

  /** A boundary of the proposed text without a marker. */
  datatype Boundary = Boundary(symbol: string, isNew: bool, suggested: string)

  /** An edit that is asked for: whether the authoring gate leaves the path alone, whether a pending
      change of a requirement holds the edit up, the untraced new or changed boundaries, and the
      traced node at the place, guarded when it is protected and the context gate is on. */
  datatype Request = Request(
    path: string, skipped: bool, specBlocks: bool, untraced: seq<Boundary>, node: Option<string>, guarded: bool)

  datatype Verdict = Allow | AuthoringBlock | ContextBlock

  const MAX_PROPOSALS := 20

  predicate AuthoringBlocks(r: Request) {
    !r.skipped && (r.specBlocks || r.untraced != [])
  }

  function WorkOf(d: SessionData): string {
    if d.activeWork.Some? then d.activeWork.value else ""
  }

  /** The requirement, when there is only one. */
  function RequirementOf(d: SessionData): string {
    if |d.requirements| == 1 then d.requirements[0] else ""
  }

  function ProposalFor(d: SessionData, path: string, b: Boundary): Obligation {
    Obligation(path, b.symbol, if b.isNew then "new_behavior" else "modified_behavior",
      WorkOf(d), RequirementOf(d), b.suggested, Pending)
  }

  /** What a blocked edit leaves to be done: an obligation for each of the first untraced boundaries,
      unless a requirement has to change first, or there is neither work nor requirement. */
  function ProposalsOf(d: SessionData, r: Request): seq<Obligation> {
    if !AuthoringBlocks(r) || r.specBlocks || (WorkOf(d) == "" && RequirementOf(d) == "") then []
    else
      var n := if |r.untraced| < MAX_PROPOSALS then |r.untraced| else MAX_PROPOSALS;
      seq(n, i requires 0 <= i < n => ProposalFor(d, r.path, r.untraced[i]))
  }

  predicate ContextBlocks(d: SessionData, r: Request) {
    !AuthoringBlocks(r) && r.node.Some? && r.guarded && r.node.value !in d.contextsLoaded && r.node.value !in d.blocked
  }

  function EditVerdict(d: SessionData, r: Request): Verdict {
    if AuthoringBlocks(r) then AuthoringBlock else if ContextBlocks(d, r) then ContextBlock else Allow
  }

  function AfterEdit(d: SessionData, r: Request): SessionData {
    if ContextBlocks(d, r) then d.(blocked := AddOnce(d.blocked, r.node.value))
    else d.(obligations := ProposedAll(d.obligations, ProposalsOf(d, r)))
  }

  // ----- what the gate does -----

  /** A blocked edit leaves an obligation of the key: for one of its first twenty untraced boundaries,
      when no requirement has to change first and there is work or a single requirement to name. */
  predicate AsksFor(d: SessionData, r: Request, k: Key) {
    && !r.skipped && !r.specBlocks
    && ((d.activeWork.Some? && d.activeWork.value != "") || (|d.requirements| == 1 && d.requirements[0] != ""))
    && exists i | 0 <= i < |r.untraced| && i < 20 :: k == Key(r.path, r.untraced[i].symbol)
  }

  lemma {:induction false} ProposedKeys(d: SessionData, r: Request, k: Key)
    ensures HasKey(ProposalsOf(d, r), k) <==> AsksFor(d, r, k)
  {
    var more := ProposalsOf(d, r);
    if i :| 0 <= i < |more| && ObligationKey(more[i]) == k {
      assert k == Key(r.path, r.untraced[i].symbol);
    }
    if AsksFor(d, r, k) {
      var i :| 0 <= i < |r.untraced| && i < 20 && k == Key(r.path, r.untraced[i].symbol);
      assert ObligationKey(more[i]) == k;
    }
  }

  /** The authoring gate blocks where a requirement has to change first or something is untraced; behind
      it the context gate blocks a guarded node with neither a loaded context nor an earlier block. */
  lemma {:induction false} EditVerdictExactly(d: SessionData, r: Request)
    ensures EditVerdict(d, r) ==
      if !r.skipped && (r.specBlocks || r.untraced != []) then AuthoringBlock
      else if r.guarded && r.node.Some? && !(r.node.value in d.contextsLoaded || r.node.value in d.blocked) then ContextBlock
      else Allow
  {}

  /** What an edit leaves: new pending obligations of the keys asked for, the node that was blocked, and
      everything else as it was. */
  lemma {:induction false} EditLeavesExactly(d: SessionData, r: Request, k: Key, id: string)
    ensures var d' := AfterEdit(d, r);
      && d'.(obligations := d.obligations, blocked := d.blocked) == d
      && (id in d'.blocked <==> id in d.blocked || (EditVerdict(d, r).ContextBlock? && r.node == Some(id)))
      && StateOf(d'.obligations, k) ==
           if StateOf(d.obligations, k).None? && AsksFor(d, r, k) then Some(Pending) else StateOf(d.obligations, k)
  {
    ProposedKeys(d, r, k);
    ProposedAllState(d.obligations, ProposalsOf(d, r), k);
  }

  /** An obligation that is proposed says what is untraced, whether it is new, and what it is for. */
  lemma {:induction false} ProposalSays(d: SessionData, r: Request, o: Obligation)
    requires o in ProposalsOf(d, r)
    ensures o.state.Pending? && AsksFor(d, r, ObligationKey(o))
    ensures o.work == (if d.activeWork.Some? then d.activeWork.value else "")
    ensures o.requirement == (if |d.requirements| == 1 then d.requirements[0] else "")
    ensures exists b | b in r.untraced ::
      o.symbol == b.symbol && o.suggestedMarker == b.suggested && o.kind == (if b.isNew then "new_behavior" else "modified_behavior")
  {
    var more := ProposalsOf(d, r);
    var i :| 0 <= i < |more| && more[i] == o;
    assert o.path == r.path && r.untraced[i] in r.untraced && o.symbol == r.untraced[i].symbol;
  }

  method ProposeEach(state: SessionState, sessionId: string, more: seq<Obligation>)
    modifies state
    ensures var d := old(state.Read(sessionId)); state.Read(sessionId) == d.(obligations := ProposedAll(d.obligations, more))
    ensures state.files - {FileOf(sessionId)} == old(state.files) - {FileOf(sessionId)}
  {
    for i := 0 to |more|
      invariant var d := old(state.Read(sessionId)); state.Read(sessionId) == d.(obligations := ProposedAll(d.obligations, more[..i]))
      invariant state.files - {FileOf(sessionId)} == old(state.files) - {FileOf(sessionId)}
    {
      assert more[..i + 1][..i] == more[..i];
      var _ := state.AddObligation(sessionId, more[i]);
    }
    assert more[..|more|] == more;
  }

  /** The gate before an edit. */
  method HandleEdit(state: SessionState, sessionId: string, r: Request) returns (v: Verdict)
    modifies state
    ensures var d := old(state.Read(sessionId)); v == EditVerdict(d, r) && state.Read(sessionId) == AfterEdit(d, r)
    ensures state.files - {FileOf(sessionId)} == old(state.files) - {FileOf(sessionId)}
    ensures v.Allow? ==> state.files == old(state.files)
  {
    var data := state.Read(sessionId);
    if !r.skipped {
      if r.specBlocks {
        return AuthoringBlock;
      }
      if r.untraced != [] {
        var work := data.activeWork;
        var req := if |data.requirements| == 1 then data.requirements[0] else "";
        if (work.None? || work.value == "") && req == "" {
          return AuthoringBlock;
        }
        ProposeEach(state, sessionId, ProposalsOf(data, r));
        return AuthoringBlock;
      }
    }
    if r.node.None? || !r.guarded {
      return Allow;
    }
    if state.ContextLoaded(sessionId, r.node.value) {
      return Allow;
    }
    if state.BlockedWithoutContext(sessionId, r.node.value) {
      return Allow;
    }
    state.RecordBlockedEdit(sessionId, r.node.value);
    return ContextBlock;
  }

  // ----- reconciling with the tree -----

  /** The landed keys of one file. */
  function LandedAt(t: TreeView, obs: seq<Obligation>, path: string): set<Key> {
    set k | k in LandedKeys(t, obs) && k.path == path
  }

  function LandedIn(t: TreeView, obs: seq<Obligation>, paths: seq<string>): set<Key> {
    set k | k in LandedKeys(t, obs) && k.path in paths
  }

  lemma {:induction false} HasLandedIsListed(t: TreeView, obs: seq<Obligation>, k: Key)
    requires HasLanded(t, obs, k)
    ensures StateOf(obs, k).Some?
  {
    IsListedExactly(obs, k);
  }

  /** Resolving a key that has landed satisfies it. */
  lemma {:induction false} LandedIsSatisfied(t: TreeView, obs: seq<Obligation>, keys: set<Key>, k: Key)
    requires k in keys ==> HasLanded(t, obs, k)
    ensures StateOf(Resolved(obs, keys), k) == if k in keys then Some(Satisfied) else StateOf(obs, k)
  {
    ResolvedState(obs, keys, k);
    if HasLanded(t, obs, k) { HasLandedIsListed(t, obs, k); }
  }

  /** Resolves the obligations of one file that its text now meets. */
  method ResolveIn(state: SessionState, sessionId: string, t: TreeView, path: string)
    modifies state
    ensures var obs := old(state.Read(sessionId).obligations); forall k ::
      StateOf(state.Read(sessionId).obligations, k) == if k.path == path && HasLanded(t, obs, k) then Some(Satisfied) else StateOf(obs, k)
    ensures var d := old(state.Read(sessionId));
      state.Read(sessionId) == d.(obligations := Resolved(d.obligations, LandedAt(t, d.obligations, path)))
    ensures state.files - {FileOf(sessionId)} == old(state.files) - {FileOf(sessionId)}
  {
    ghost var d := state.Read(sessionId);
    var pending := state.PendingObligations(sessionId);
    ghost var done: set<Key> := {};
    ResolvedNone(d.obligations);
    for i := 0 to |pending|
      invariant state.Read(sessionId) == d.(obligations := Resolved(d.obligations, done))
      invariant state.files - {FileOf(sessionId)} == old(state.files) - {FileOf(sessionId)}
      invariant done == set o | o in pending[..i] && o.path == path && Lands(t, o) :: ObligationKey(o)
    {
      assert pending[..i + 1] == pending[..i] + [pending[i]];
      var o := pending[i];
      if o.path == path && Lands(t, o) {
        state.ResolveObligation(sessionId, path, o.symbol);
        ResolvedTwice(d.obligations, done, {ObligationKey(o)});
        done := done + {ObligationKey(o)};
      }
    }
    assert pending[..|pending|] == pending;
    assert done == LandedAt(t, d.obligations, path);
    forall k ensures StateOf(Resolved(d.obligations, done), k) ==
      if k.path == path && HasLanded(t, d.obligations, k) then Some(Satisfied) else StateOf(d.obligations, k)
    {
      LandedKeysExactly(t, d.obligations, k);
      LandedIsSatisfied(t, d.obligations, done, k);
    }
  }

  method PathsOf(pending: seq<Obligation>) returns (paths: seq<string>)
    ensures forall p :: p in paths <==> exists o | o in pending :: o.path == p
  {
    paths := [];
    for i := 0 to |pending|
      invariant forall p :: p in paths <==> exists o | o in pending[..i] :: o.path == p
    {
      assert pending[..i + 1] == pending[..i] + [pending[i]];
      if pending[i].path !in paths {
        paths := paths + [pending[i].path];
      }
    }
    assert pending[..|pending|] == pending;
  }

  /** Resolving what has landed leaves the rest of the pending obligations as they are. */
  lemma {:induction false} StillPending(obs: seq<Obligation>, keys: set<Key>, o: Obligation)
    ensures o in PendingOf(Resolved(obs, keys)) <==> o in PendingOf(obs) && ObligationKey(o) !in keys
  {
    var r := Resolved(obs, keys);
    PendingMembers(obs, o);
    PendingMembers(r, o);
    if o in obs && ObligationKey(o) !in keys {
      var i :| 0 <= i < |obs| && obs[i] == o;
      assert r[i] == o;
    }
    if o in r && o.state.Pending? {
      var i :| 0 <= i < |r| && r[i] == o;
      assert obs[i] == o;
    }
  }

  lemma {:induction false} LandedLater(t: TreeView, obs: seq<Obligation>, paths: seq<string>, path: string)
    ensures LandedIn(t, obs, paths) + LandedAt(t, Resolved(obs, LandedIn(t, obs, paths)), path) == LandedIn(t, obs, paths + [path])
  {
    var keys := LandedIn(t, obs, paths);
    var r := Resolved(obs, keys);
    forall k ensures k in keys + LandedAt(t, r, path) <==> k in LandedIn(t, obs, paths + [path]) {
      if k in LandedAt(t, r, path) {
        var o :| o in PendingOf(r) && Lands(t, o) && ObligationKey(o) == k;
        StillPending(obs, keys, o);
      }
      if k in LandedIn(t, obs, paths + [path]) && k !in keys {
        var o :| o in PendingOf(obs) && Lands(t, o) && ObligationKey(o) == k;
        StillPending(obs, keys, o);
      }
    }
  }

  /** Resolves the pending obligations that the tree now meets, file by file. */
  method Reconcile(state: SessionState, sessionId: string, t: TreeView) returns (left: seq<Obligation>)
    modifies state
    ensures var obs := old(state.Read(sessionId).obligations); forall k ::
      StateOf(state.Read(sessionId).obligations, k) == if HasLanded(t, obs, k) then Some(Satisfied) else StateOf(obs, k)
    ensures state.Read(sessionId) == Reconciled(old(state.Read(sessionId)), Some(t))
    ensures left == PendingOf(state.Read(sessionId).obligations)
    ensures state.files - {FileOf(sessionId)} == old(state.files) - {FileOf(sessionId)}
  {
    ghost var d := state.Read(sessionId);
    var pending := state.PendingObligations(sessionId);
    var paths := PathsOf(pending);
    ResolvedNone(d.obligations);
    assert LandedIn(t, d.obligations, []) == {};
    for i := 0 to |paths|
      invariant state.Read(sessionId) == d.(obligations := Resolved(d.obligations, LandedIn(t, d.obligations, paths[..i])))
      invariant state.files - {FileOf(sessionId)} == old(state.files) - {FileOf(sessionId)}
    {
      assert paths[..i + 1] == paths[..i] + [paths[i]];
      LandedLater(t, d.obligations, paths[..i], paths[i]);
      ResolvedTwice(d.obligations, LandedIn(t, d.obligations, paths[..i]),
        LandedAt(t, Resolved(d.obligations, LandedIn(t, d.obligations, paths[..i])), paths[i]));
      ResolveIn(state, sessionId, t, paths[i]);
    }
    assert paths[..|paths|] == paths;
    assert LandedIn(t, d.obligations, paths) == LandedKeys(t, d.obligations);
    left := state.PendingObligations(sessionId);
    forall k ensures StateOf(Resolved(d.obligations, LandedKeys(t, d.obligations)), k) ==
      if HasLanded(t, d.obligations, k) then Some(Satisfied) else StateOf(d.obligations, k)
    {
      LandedKeysExactly(t, d.obligations, k);
      LandedIsSatisfied(t, d.obligations, LandedKeys(t, d.obligations), k);
    }
  }

  /** The session after reconciling; nothing changes when that fails. */
  function Reconciled(d: SessionData, tree: Option<TreeView>): SessionData {
    if tree.None? then d else d.(obligations := Resolved(d.obligations, LandedKeys(tree.value, d.obligations)))
  }

  lemma {:induction false} NothingToReconcile(d: SessionData, tree: Option<TreeView>)
    requires PendingOf(d.obligations) == []
    ensures Reconciled(d, tree) == d
  {
    ResolvedNone(d.obligations);
    if tree.Some? {
      assert LandedKeys(tree.value, d.obligations) == {};
    }
  }

  // ----- completion -----

  /** The results of verifying the changes and the whole graph. */
  datatype Verified = Verified(changedBlocks: bool, wholeBlocks: bool) {
    predicate Blocking() { changedBlocks || wholeBlocks }
  }

  datatype Finish = Idle | Blocked(pending: nat) | Done(work: Option<string>)

  function Left(d: SessionData, tree: Option<TreeView>): seq<Obligation> {
    PendingOf(Reconciled(d, tree).obligations)
  }

  function FinishOf(d: SessionData, tree: Option<TreeView>, verified: Verified): Finish {
    if d.activeWork.None? && PendingOf(d.obligations) == [] then Idle
    else if Left(d, tree) != [] || verified.Blocking() then Blocked(|Left(d, tree)|)
    else Done(d.activeWork)
  }

  function AfterFinish(d: SessionData, tree: Option<TreeView>, verified: Verified): SessionData {
    if FinishOf(d, tree, verified).Done? then CLEAN else Reconciled(d, tree)
  }

  /** What is pending when the tree is taken into account; when that fails, what was pending before. */
  method ReconcilePending(state: SessionState, sessionId: string, tree: Option<TreeView>) returns (left: seq<Obligation>)
    modifies state
    ensures var d := old(state.Read(sessionId)); left == Left(d, tree) && state.Read(sessionId) == Reconciled(d, tree)
    ensures state.files - {FileOf(sessionId)} == old(state.files) - {FileOf(sessionId)}
  {
    left := state.PendingObligations(sessionId);
    if left == [] {
      NothingToReconcile(state.Read(sessionId), tree);
    } else if tree.Some? {
      left := Reconcile(state, sessionId, tree.value);
    }
  }

  /** Finishing a task: done, and the session cleared, when there is something to finish, nothing is
      pending, and neither verification blocks. */
  method FinishTask(state: SessionState, sessionId: string, tree: Option<TreeView>, verified: Verified) returns (r: Finish)
    modifies state
    ensures var d := old(state.Read(sessionId)); r == FinishOf(d, tree, verified) && state.Read(sessionId) == AfterFinish(d, tree, verified)
    ensures state.files - {FileOf(sessionId)} == old(state.files) - {FileOf(sessionId)}
  {
    var work := state.Read(sessionId).activeWork;
    if work.None? && state.PendingObligations(sessionId) == [] {
      NothingToReconcile(state.Read(sessionId), tree);
      return Idle;
    }
    var pending := ReconcilePending(state, sessionId, tree);
    if verified.changedBlocks || verified.wholeBlocks || pending != [] {
      return Blocked(|pending|);
    }
    state.Clear(sessionId);
    return Done(work);
  }

  /** What the stop gate finds: its own verification, which blocks when there is no index; the tree; and
      the stricter verification when it then finishes the work, unless that fails. */
  datatype StopRequest = StopRequest(verified: Verified, unavailable: bool, tree: Option<TreeView>, merge: Option<Verified>)

  predicate MayStop(d: SessionData, g: StopRequest) {
    !g.verified.Blocking() && Left(d, g.tree) == []
  }

  function TreeSeen(g: StopRequest): Option<TreeView> {
    if g.verified.Blocking() then None else g.tree
  }

  /** Finishing the work at a stop, when it is tried. */
  function StopFinish(d: SessionData, g: StopRequest): Option<Finish> {
    if MayStop(d, g) && WorkOf(d) != "" && g.merge.Some? then Some(FinishOf(Reconciled(d, g.tree), g.tree, g.merge.value)) else None
  }

  function AfterStop(d: SessionData, g: StopRequest): SessionData {
    if StopFinish(d, g).Some? && StopFinish(d, g).value.Done? then CLEAN else Reconciled(d, TreeSeen(g))
  }

  /** The stop gate: the agent may stop when verification does not block and nothing is pending any
      more; only then the active work is finished, under its own verification. */
  method HandleStop(state: SessionState, sessionId: string, g: StopRequest) returns (allowed: bool, left: seq<Obligation>, finalized: Option<Finish>)
    requires g.unavailable ==> g.verified.Blocking()
    modifies state
    ensures var d := old(state.Read(sessionId));
      && allowed == MayStop(d, g) && left == Left(d, TreeSeen(g)) && finalized == StopFinish(d, g)
      && state.Read(sessionId) == AfterStop(d, g)
    ensures state.files - {FileOf(sessionId)} == old(state.files) - {FileOf(sessionId)}
  {
    ghost var d := state.Read(sessionId);
    finalized := None;
    if !g.verified.Blocking() {
      left := ReconcilePending(state, sessionId, g.tree);
    } else {
      left := state.PendingObligations(sessionId);
    }
    if g.unavailable || left != [] || g.verified.Blocking() {
      return false, left, None;
    }
    allowed := true;
    var work := state.Read(sessionId).activeWork;
    if work.Some? && work.value != "" && g.merge.Some? {
      NothingToReconcile(state.Read(sessionId), g.tree);
      var finish := FinishTask(state, sessionId, g.tree, g.merge.value);
      finalized := Some(finish);
    }
  }
}
