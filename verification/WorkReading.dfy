/** What a readiness answer says, in terms of the stored nodes and edges. */
module WorkReading {
  import opened Models
  import opened Store
  import opened Grammar
  import opened Work

  // ----- states from texts -----

  /** The other spellings of task states. */
  const TASK_ALIASES: seq<(string, TaskState)> := [
    ("HALF_FINISHED", PARTIALLY_COMPLETE), ("PARTIAL", PARTIALLY_COMPLETE), ("UNFINISHED", TODO), ("FOLLOW_UP", TODO),
    ("FOLLOWUP", TODO), ("UNIMPLEMENTED", NOT_IMPLEMENTED), ("INPROGRESS", IN_PROGRESS)]

  /** The text is what stripping, upper case and underscores for blanks and dashes make of the value. */
  ghost predicate Reads(value: Option<string>, text: string) {
    if value.None? then text == ""
    else
      var s := Strip(value.value);
      |text| == |s| && forall i | 0 <= i < |s| ::
        text[i] == if s[i] == '-' || s[i] == ' ' then '_' else if 'a' <= s[i] <= 'z' then s[i] - 'a' + 'A' else s[i]
  }

  lemma {:induction false} CanonReads(value: Option<string>)
    ensures Reads(value, Canon(value))
  {
    if value.Some? {
      CanonAt(Strip(value.value));
    }
  }

  lemma {:induction false} CanonAt(s: string)
    ensures forall i | 0 <= i < |s| :: CanonChars(s)[i] == CanonChar(s[i])
  {
    if s != "" {
      CanonAt(s[1..]);
    }
  }

  /** The text is another spelling of the state. */
  ghost predicate IsAlias(text: string, s: TaskState) {
    exists k | 0 <= k < |TASK_ALIASES| :: TASK_ALIASES[k] == (text, s)
  }

  lemma {:induction false} AliasExactly(text: string, s: TaskState)
    ensures IsAlias(text, s) <==> TaskAlias(text) != text && TaskAlias(text) == TaskName(s)
  {
    var rows := TASK_ALIASES;
    AliasNames(text);
    if TaskAlias(text) != text && TaskAlias(text) == TaskName(s) {
      var i := AliasRow(text);
      NamesDiffer(rows[i].1, s);
    }
    if IsAlias(text, s) {
      var k :| 0 <= k < |rows| && rows[k] == (text, s);
      AliasOfRow(k);
    }
  }

  lemma {:induction false} AliasOfRow(k: nat)
    requires k < |TASK_ALIASES|
    ensures var (text, s) := TASK_ALIASES[k]; TaskAlias(text) == TaskName(s) && TaskAlias(text) != text
  {}

  lemma {:induction false} AliasRow(text: string) returns (k: nat)
    requires TaskAlias(text) != text
    ensures k < |TASK_ALIASES| && TASK_ALIASES[k].0 == text && TaskName(TASK_ALIASES[k].1) == TaskAlias(text)
  {
    k := if text == "HALF_FINISHED" then 0 else if text == "PARTIAL" then 1 else if text == "UNFINISHED" then 2
      else if text == "FOLLOW_UP" then 3 else if text == "FOLLOWUP" then 4 else if text == "UNIMPLEMENTED" then 5 else 6;
  }

  lemma {:induction false} AliasNames(text: string)
    ensures TaskAlias(text) == text || exists s :: TaskName(s) == TaskAlias(text)
  {
    if TaskAlias(text) != text {
      var k := AliasRow(text);
    }
  }

  lemma {:induction false} FindIsNamed(states: seq<TaskState>, name: string)
    ensures FindTask(states, name) == TODO || TaskName(FindTask(states, name)) == name
  {
    if states != [] {
      FindIsNamed(states[1..], name);
    }
  }

  /** A value stands for a task state exactly when its text is the name or another spelling of the state; and
      what is neither for any state stands for a task to do. */
  lemma {:induction false} TaskStateExactly(value: Option<string>, text: string, s: TaskState)
    requires Reads(value, text)
    ensures NormalizeTaskState(value) == s <==>
      text == TaskName(s) || IsAlias(text, s) || (s == TODO && forall x :: text != TaskName(x) && !IsAlias(text, x))
  {
    CanonReads(value);
    assert text == Canon(value);
    var name := TaskAlias(text);
    FindIsNamed(TASK_STATES, name);
    forall x ensures TaskName(x) == name ==> NormalizeTaskState(value) == x {
      if TaskName(x) == name {
        EveryStateIsListed(x, TASK_STATES);
        FindFinds(TASK_STATES, x);
      }
    }
    forall x ensures IsAlias(text, x) <==> name != text && name == TaskName(x) { AliasExactly(text, x); }
    forall x ensures text == TaskName(x) ==> name == text { NamesAreNotAliases(x); }
  }

  /** The same of questions: what stands for no other state is an open question. */
  lemma {:induction false} QuestionStateExactly(value: Option<string>, text: string)
    requires Reads(value, text)
    ensures NormalizeQuestionState(value) ==
      if text in {"NO_LONGER_RELEVANT", "NOT_RELEVANT", "IRRELEVANT", "OBSOLETE"} then NO_LONGER_RELEVANT
      else if text == "ANSWERED" then ANSWERED else if text == "SUPERSEDED" then SUPERSEDED
      else if text == "DEFERRED" then QUESTION_DEFERRED else OPEN
  {
    CanonReads(value);
    assert text == Canon(value);
  }

  // ----- readiness in the graph -----

  ghost predicate IsActive(g: Graph, id: string) {
    id in g.nodes && g.nodes[id].active
  }

  /** The node is an active task in this state, joined to the work by an active edge. */
  ghost predicate IsMember(g: Graph, work: string, id: string) {
    && IsActive(g, id)
    && exists e | e in g.edges :: e.key.source == EntityUid(id) && e.key.target == EntityUid(work) && e.key.predicateName == "work" && e.status == Active
  }

  ghost predicate IsMemberTask(g: Graph, work: string, id: string) {
    IsMember(g, work, id) && g.nodes[id].nodeType == "task"
  }

  ghost function StateOf(g: Graph, id: string): TaskState
    requires id in g.nodes
  {
    NormalizeTaskState(g.nodes[id].state)
  }

  /** The node waits for something: an active task neither done nor cancelled, or an open question. */
  ghost predicate IsWaiting(g: Graph, b: string) {
    IsActive(g, b) &&
    var n := g.nodes[b];
    || (n.nodeType == "task" && StateOf(g, b) != DONE && StateOf(g, b) != CANCELLED)
    || (n.nodeType == "question" && NormalizeQuestionState(n.state) == OPEN)
  }

  /** The edge says that b holds up t. */
  predicate Says(e: Edge, t: string, b: string) {
    || (e.key.source == EntityUid(t) && e.key.target == EntityUid(b) && e.key.predicateName in {"blocked_by", "depends_on", "asks"})
    || (e.key.source == EntityUid(b) && e.key.target == EntityUid(t) && e.key.predicateName == "blocks" && e.status == Active)
  }

  ghost predicate HoldsUp(g: Graph, t: string, b: string) {
    IsWaiting(g, b) && exists e | e in g.edges :: Says(e, t, b)
  }

  lemma {:induction false} HoldsUpIsBlocks(g: Graph, t: string, b: string)
    ensures HoldsUp(g, t, b) <==> Blocks(ViewOf(g), EntityUid(t), EntityUid(b))
  {
    forall e: Edge ensures Says(e, t, b) <==> Holds(e, EntityUid(t), EntityUid(b)) {}
  }

  lemma {:induction false} FreeExactly(g: Graph, t: string)
    ensures Free(ViewOf(g), EntityUid(t)) <==> forall b :: !HoldsUp(g, t, b)
  {
    forall b ensures HoldsUp(g, t, b) <==> Blocks(ViewOf(g), EntityUid(t), EntityUid(b)) { HoldsUpIsBlocks(g, t, b); }
    if forall b :: !HoldsUp(g, t, b) {
      forall u: Uid ensures !Blocks(ViewOf(g), EntityUid(t), u) {
        assert u == EntityUid(u.traceId) && !HoldsUp(g, t, u.traceId);
      }
    }
  }

  lemma {:induction false} MemberExactly(g: Graph, work: string, id: string)
    ensures IsMemberTask(g, work, id) <==> MemberTask(ViewOf(g), EntityUid(work), EntityUid(id))
    ensures IsMemberTask(g, work, id) ==> StateAt(ViewOf(g), EntityUid(id)) == StateOf(g, id)
  {
    if MemberTask(ViewOf(g), EntityUid(work), EntityUid(id)) {
      var e :| e in g.edges && JoinsWork(e, EntityUid(work)) && e.key.source == EntityUid(id);
    }
    if IsMemberTask(g, work, id) {
      var e :| e in g.edges && e.key.source == EntityUid(id) && e.key.target == EntityUid(work) && e.key.predicateName == "work" && e.status == Active;
      assert JoinsWork(e, EntityUid(work));
    }
  }

  /** Where a task in this state belongs: under its state, if that tells; blocked when its state says so or
      something waiting holds it up; or else ready. */
  function PlaceBy(s: TaskState, held: bool): Bucket {
    if s == DONE then DoneB else if s == CANCELLED then CancelledB else if s == DEFERRED then DeferredB
    else if s == NOT_IMPLEMENTED then NotImplementedB else if s == IN_PROGRESS then InProgressB
    else if s == PARTIALLY_COMPLETE then PartialB
    else if s in {BLOCKED, WAITING_FOR_DECISION, WAITING_FOR_INPUT} || held then BlockedB
    else ReadyB
  }

  ghost predicate IsHeldUp(g: Graph, id: string) {
    exists b :: HoldsUp(g, id, b)
  }

  ghost function PlaceOf(g: Graph, id: string): Bucket
    requires id in g.nodes
  {
    PlaceBy(StateOf(g, id), IsHeldUp(g, id))
  }

  lemma {:induction false} BucketIsPlace(v: View, t: Uid)
    requires IsTask(v, t)
    ensures BucketOf(v, t) == PlaceBy(StateAt(v, t), !Free(v, t))
  {}

  lemma {:induction false} PlaceExactly(g: Graph, work: string, id: string, b: Bucket)
    ensures InBucket(ViewOf(g), EntityUid(work), id, b) <==> IsMemberTask(g, work, id) && PlaceOf(g, id) == b
  {
    MemberExactly(g, work, id);
    HeldExactly(g, id);
    if IsMemberTask(g, work, id) {
      BucketIsPlace(ViewOf(g), EntityUid(id));
    }
  }

  lemma {:induction false} HeldExactly(g: Graph, id: string)
    ensures IsHeldUp(g, id) <==> !Free(ViewOf(g), EntityUid(id))
  {
    FreeExactly(g, id);
  }

  /** The listings of a readiness answer, exactly: every member task of the work where it belongs. */
  lemma {:induction false} ListingsExactly(g: Graph, work: string, r: Readiness, id: string)
    requires IsReadiness(ViewOf(g), EntityUid(work), r)
    ensures var member := IsMemberTask(g, work, id);
      && (id in r.ready <==> member && PlaceOf(g, id) == ReadyB) && (id in r.blocked <==> member && PlaceOf(g, id) == BlockedB)
      && (id in r.inProgress <==> member && PlaceOf(g, id) == InProgressB) && (id in r.partial <==> member && PlaceOf(g, id) == PartialB)
      && (id in r.deferred <==> member && PlaceOf(g, id) == DeferredB) && (id in r.done <==> member && PlaceOf(g, id) == DoneB)
      && (id in r.cancelled <==> member && PlaceOf(g, id) == CancelledB)
      && (id in r.notImplemented <==> member && PlaceOf(g, id) == NotImplementedB)
  {
    forall b ensures InBucket(ViewOf(g), EntityUid(work), id, b) <==> IsMemberTask(g, work, id) && PlaceOf(g, id) == b {
      PlaceExactly(g, work, id, b);
    }
  }

  ghost predicate IsOpenOf(g: Graph, work: string, id: string) {
    IsMember(g, work, id) && g.nodes[id].nodeType == "question" && NormalizeQuestionState(g.nodes[id].state) == OPEN
  }

  /** The open questions listed are the open questions of the work, in order and once each. */
  lemma {:induction false} QuestionsExactly(g: Graph, work: string, r: Readiness, id: string)
    requires IsReadiness(ViewOf(g), EntityUid(work), r)
    ensures id in r.openQuestions <==> IsOpenOf(g, work, id)
  {
    var v, w := ViewOf(g), EntityUid(work);
    assert id in r.openQuestions <==> id in SetOf(r.openQuestions);
    if id in OpenQuestionIds(v, w) {
      var u :| u in MemberUids(v, w) && IsOpenQuestion(v, u) && u.traceId == id;
      var e :| e in g.edges && JoinsWork(e, w) && e.key.source == u;
      assert u == EntityUid(id);
    }
    if IsOpenOf(g, work, id) {
      var e :| e in g.edges && e.key.source == EntityUid(id) && e.key.target == w && e.key.predicateName == "work" && e.status == Active;
      assert JoinsWork(e, w) && EntityUid(id) in MemberUids(v, w);
    }
  }

  ghost predicate HasEdge(g: Graph, t: string, b: string, name: string) {
    exists e | e in g.edges :: e.key.source == EntityUid(t) && e.key.target == EntityUid(b) && e.key.predicateName == name
  }

  /** The reason that speaks of b. */
  ghost predicate About(r: Reason, b: string) {
    !r.InState? && r.id == b
  }

  /** The reason names the state of a task, or an open question, and the strongest edge there is. */
  ghost predicate ReasonIsRight(g: Graph, t: string, b: string, x: Reason) {
    && (x.OnTask? ==> IsActive(g, b) && g.nodes[b].nodeType == "task" && x.state == StateOf(g, b))
    && (x.OnQuestion? ==> IsActive(g, b) && g.nodes[b].nodeType == "question")
    && (!x.InState? ==> x.via == StrongestEdge(g, t, b))
  }

  ghost function StrongestEdge(g: Graph, t: string, b: string): Via {
    if HasEdge(g, t, b, "blocked_by") then BlockedBy
    else if HasEdge(g, t, b, "depends_on") then DependsOn
    else if HasEdge(g, t, b, "asks") then Asks
    else BlockedBy
  }

  lemma {:induction false} RightReason(g: Graph, t: string, b: string, x: Reason)
    requires !x.InState? && ReasonId(x) == b
    requires ReasonFor(ViewOf(g), x, EntityUid(b)) && ReasonVia(x) == ViaOf(ViewOf(g), EntityUid(t), EntityUid(b))
    ensures ReasonIsRight(g, t, b, x)
  {
    forall name ensures HasEdge(g, t, b, name) <==> LeadsTo(g.edges, EntityUid(t), EntityUid(b), name) {}
  }

  lemma {:induction false} FoundReasons(g: Graph, t: string, b: string, found: seq<Reason>)
    requires forall x :: x in ReasonIds(found) <==> Blocks(ViewOf(g), EntityUid(t), EntityUid(x))
    requires forall x | x in found ::
      ReasonFor(ViewOf(g), x, EntityUid(ReasonId(x))) && ReasonVia(x) == ViaOf(ViewOf(g), EntityUid(t), EntityUid(ReasonId(x)))
    ensures (exists x | x in found :: About(x, b)) <==> HoldsUp(g, t, b)
    ensures forall x | x in found :: !x.InState? && (About(x, b) ==> ReasonIsRight(g, t, b, x))
  {
    HoldsUpIsBlocks(g, t, b);
    if HoldsUp(g, t, b) {
      var x :| x in found && ReasonId(x) == b;
      assert About(x, b);
    }
    forall x | x in found && About(x, b) ensures ReasonIsRight(g, t, b, x) && HoldsUp(g, t, b) {
      assert ReasonId(x) in ReasonIds(found);
      RightReason(g, t, b, x);
    }
  }

  /** Reasons in two parts: the task's own state, and what holds it up. */
  lemma {:induction false} SplitReasons(v: View, t: Uid, reasons: seq<Reason>) returns (own: seq<Reason>, found: seq<Reason>)
    requires IsTask(v, t) && GivesReasons(v, t, reasons)
    ensures reasons == own + found
    ensures own == if StateAt(v, t) in {BLOCKED, WAITING_FOR_DECISION, WAITING_FOR_INPUT} then [InState(StateAt(v, t))] else []
    ensures forall x :: x in ReasonIds(found) <==> Blocks(v, t, EntityUid(x))
    ensures forall x | x in found :: ReasonFor(v, x, EntityUid(ReasonId(x))) && ReasonVia(x) == ViaOf(v, t, EntityUid(ReasonId(x)))
  {
    own := if StateBlocked(StateAt(v, t)) then [InState(StateAt(v, t))] else [];
    found :|
      && reasons == own + found && DistinctReasons(found)
      && (forall x :: x in ReasonIds(found) <==> Blocks(v, t, EntityUid(x)))
      && (forall x | x in found :: ReasonFor(v, x, EntityUid(ReasonId(x))) && ReasonVia(x) == ViaOf(v, t, EntityUid(ReasonId(x))));
  }

  lemma {:induction false} BlockedHasReasons(v: View, work: Uid, r: Readiness, id: string)
    requires IsReadiness(v, work, r) && id in r.blocked
    ensures MemberTask(v, work, EntityUid(id)) && IsTask(v, EntityUid(id)) && GivesReasons(v, EntityUid(id), r.blocked[id])
  {
    assert InBucket(v, work, id, BlockedB);
  }

  /** The reasons a blocked task is listed with, in two parts. */
  lemma {:induction false} ReasonParts(g: Graph, work: string, r: Readiness, id: string, b: string) returns (own: seq<Reason>, found: seq<Reason>)
    requires IsReadiness(ViewOf(g), EntityUid(work), r) && id in r.blocked
    ensures IsMemberTask(g, work, id) && r.blocked[id] == own + found
    ensures own == if StateOf(g, id) in {BLOCKED, WAITING_FOR_DECISION, WAITING_FOR_INPUT} then [InState(StateOf(g, id))] else []
    ensures (exists x | x in found :: About(x, b)) <==> HoldsUp(g, id, b)
    ensures forall x | x in found :: !x.InState? && (About(x, b) ==> ReasonIsRight(g, id, b, x))
  {
    BlockedHasReasons(ViewOf(g), EntityUid(work), r, id);
    MemberExactly(g, work, id);
    own, found := SplitReasons(ViewOf(g), EntityUid(id), r.blocked[id]);
    FoundReasons(g, id, b, found);
  }

  /** The reasons given for a blocked task: its own state comes first where that blocks; every other reason
      is about a node that holds the task up, and every such node has one, with its state and in the words of
      the strongest edge. */
  lemma {:induction false} ReasonsExactly(g: Graph, work: string, r: Readiness, id: string, b: string)
    requires IsReadiness(ViewOf(g), EntityUid(work), r) && id in r.blocked
    ensures IsMemberTask(g, work, id)
    ensures var rs := r.blocked[id];
      && (forall x | x in rs && x.InState? :: x == rs[0] == InState(StateOf(g, id)))
      && (StateOf(g, id) in {BLOCKED, WAITING_FOR_DECISION, WAITING_FOR_INPUT} <==> exists x | x in rs :: x.InState?)
      && ((exists x | x in rs :: About(x, b)) <==> HoldsUp(g, id, b))
      && (forall x | x in rs && About(x, b) :: ReasonIsRight(g, id, b, x))
  {
    var own, found := ReasonParts(g, work, r, id, b);
    var rs := r.blocked[id];
    assert forall x :: x in rs <==> x in own || x in found;
    assert own != [] ==> own[0] in rs;
  }
}
