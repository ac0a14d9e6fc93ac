/** Lifecycle states of tasks and questions, and which tasks of a work item are ready. */
module Work {
  import opened Models
  import opened Store
  import opened Ordering
  import opened Grammar

  datatype TaskState =
    | TODO | READY | IN_PROGRESS | PARTIALLY_COMPLETE | BLOCKED | WAITING_FOR_DECISION
    | WAITING_FOR_INPUT | DEFERRED | DONE | CANCELLED | NOT_IMPLEMENTED

  datatype QuestionState = OPEN | ANSWERED | SUPERSEDED | NO_LONGER_RELEVANT | QUESTION_DEFERRED

  // ----- state names -----

  const TASK_STATES: seq<TaskState> := [
    TODO, READY, IN_PROGRESS, PARTIALLY_COMPLETE, BLOCKED, WAITING_FOR_DECISION,
    WAITING_FOR_INPUT, DEFERRED, DONE, CANCELLED, NOT_IMPLEMENTED]

  function TaskName(s: TaskState): string {
    match s
    case TODO => "TODO" case READY => "READY" case IN_PROGRESS => "IN_PROGRESS"
    case PARTIALLY_COMPLETE => "PARTIALLY_COMPLETE" case BLOCKED => "BLOCKED"
    case WAITING_FOR_DECISION => "WAITING_FOR_DECISION" case WAITING_FOR_INPUT => "WAITING_FOR_INPUT"
    case DEFERRED => "DEFERRED" case DONE => "DONE" case CANCELLED => "CANCELLED"
    case NOT_IMPLEMENTED => "NOT_IMPLEMENTED"
  }

  /** The task alias of a canonical text. Texts with a hyphen are listed as aliases too, but the
      canonical form has no hyphens, so they never apply. */
  function TaskAlias(canon: string): string {
    if canon == "HALF_FINISHED" || canon == "PARTIAL" then "PARTIALLY_COMPLETE"
    else if canon == "UNFINISHED" || canon == "FOLLOW_UP" || canon == "FOLLOWUP" then "TODO"
    else if canon == "UNIMPLEMENTED" then "NOT_IMPLEMENTED"
    else if canon == "INPROGRESS" then "IN_PROGRESS"
    else canon
  }

  function UpperChar(c: char): char {
    if 'a' <= c <= 'z' then c - 32 as char else c
  }

  function CanonChar(c: char): char {
    if c == '-' || c == ' ' then '_' else UpperChar(c)
  }

  function CanonChars(s: string): (r: string)
    ensures |r| == |s|
  {
    if s == [] then [] else [CanonChar(s[0])] + CanonChars(s[1..])
  }

  /** Upper case, with spaces and hyphens as underscores. */
  function Canon(value: Option<string>): string {
    if value.None? then "" else CanonChars(Strip(value.value))
  }

  function FindTask(states: seq<TaskState>, name: string): TaskState {
    if states == [] then TODO else if TaskName(states[0]) == name then states[0] else FindTask(states[1..], name)
  }

  /** The task state a marker value stands for; anything else counts as to do. */
  function NormalizeTaskState(value: Option<string>): TaskState {
    FindTask(TASK_STATES, TaskAlias(Canon(value)))
  }

  function QuestionOf(canon: string): QuestionState {
    if canon == "NOT_RELEVANT" || canon == "IRRELEVANT" || canon == "OBSOLETE" || canon == "NO_LONGER_RELEVANT" then NO_LONGER_RELEVANT
    else if canon == "ANSWERED" then ANSWERED
    else if canon == "SUPERSEDED" then SUPERSEDED
    else if canon == "DEFERRED" then QUESTION_DEFERRED
    else OPEN
  }

  function NormalizeQuestionState(value: Option<string>): QuestionState {
    QuestionOf(Canon(value))
  }

  // ----- canonical names are fixed -----

  predicate IsNameChar(c: char) { 'A' <= c <= 'Z' || c == '_' }

  lemma {:induction false} NameChars(s: TaskState)
    ensures TaskName(s) != [] && forall c | c in TaskName(s) :: IsNameChar(c)
  {}

  lemma {:induction false} CanonFixes(t: string)
    requires forall c | c in t :: IsNameChar(c)
    ensures CanonChars(t) == t
  {
    if t != [] {
      assert t[0] in t;
      assert forall c | c in t[1..] :: c in t;
      CanonFixes(t[1..]);
    }
  }

  lemma {:induction false} NamesDiffer(a: TaskState, b: TaskState)
    requires TaskName(a) == TaskName(b)
    ensures a == b
  {
    assert |TaskName(a)| == |TaskName(b)| && TaskName(a)[0] == TaskName(b)[0] && TaskName(a)[|TaskName(a)| - 1] == TaskName(b)[|TaskName(b)| - 1];
  }

  lemma {:induction false} FindFinds(states: seq<TaskState>, s: TaskState)
    requires s in states
    ensures FindTask(states, TaskName(s)) == s
  {
    if TaskName(states[0]) == TaskName(s) {
      NamesDiffer(states[0], s);
    } else {
      FindFinds(states[1..], s);
    }
  }

  lemma {:induction false} NamesAreNotAliases(s: TaskState)
    ensures TaskAlias(TaskName(s)) == TaskName(s)
  {}

  lemma {:induction false} NameIsStripped(t: string)
    requires t != [] && forall c | c in t :: IsNameChar(c)
    ensures Strip(t) == t
  {
    assert t[0] in t && t[|t| - 1] in t;
  }

  lemma {:induction false} EveryStateIsListed(s: TaskState, states: seq<TaskState>)
    requires states == TASK_STATES
    ensures s in states
  {}

  /** The name of a state normalizes to that state, so storing a normalized state and reading it
      again changes nothing. */
  lemma {:induction false} NormalizedStateIsFixed(states: seq<TaskState>, s: TaskState)
    requires states == TASK_STATES
    ensures NormalizeTaskState(Some(TaskName(s))) == s
  {
    NameChars(s);
    NameIsStripped(TaskName(s));
    CanonFixes(TaskName(s));
    NamesAreNotAliases(s);
    EveryStateIsListed(s, states);
    FindFinds(states, s);
  }

  // ----- blocking -----

  predicate Terminal(s: TaskState) { s.DONE? || s.CANCELLED? }

  predicate StateBlocked(s: TaskState) { s.BLOCKED? || s.WAITING_FOR_DECISION? || s.WAITING_FOR_INPUT? }

  /** What an active node counts as. */
  datatype Item = TaskItem(state: TaskState) | QuestionItem(asked: QuestionState) | OtherItem

  function ItemOf(n: Node): Item {
    if n.nodeType == "task" then TaskItem(NormalizeTaskState(n.state))
    else if n.nodeType == "question" then QuestionItem(NormalizeQuestionState(n.state))
    else OtherItem
  }

  /** The active nodes of the graph by id, and its edges. */
  datatype View = View(items: map<string, Item>, edges: seq<Edge>)

  function ViewOf(g: Graph): View {
    View(map id | id in g.nodes && g.nodes[id].active :: ItemOf(g.nodes[id]), g.edges)
  }

  predicate IsTask(g: View, u: Uid) {
    u.traceId in g.items && g.items[u.traceId].TaskItem?
  }

  function StateAt(g: View, u: Uid): TaskState
    requires IsTask(g, u)
  {
    g.items[u.traceId].state
  }

  predicate IsOpenQuestion(g: View, u: Uid) {
    u.traceId in g.items && g.items[u.traceId].QuestionItem? && g.items[u.traceId].asked.OPEN?
  }

  predicate UnresolvedItem(i: Item) {
    (i.TaskItem? && !Terminal(i.state)) || (i.QuestionItem? && i.asked.OPEN?)
  }

  /** A task that is not finished, or a question that is open. */
  predicate Unresolved(g: View, u: Uid) {
    u.traceId in g.items && UnresolvedItem(g.items[u.traceId])
  }

  datatype Via = BlockedBy | DependsOn | Asks

  /** The edge makes `b` hold up `t`: an outgoing one of any status, or an active incoming one. */
  predicate Holds(e: Edge, t: Uid, b: Uid) {
    || (e.key.source == t && e.key.target == b && (e.key.predicateName == "blocked_by" || e.key.predicateName == "depends_on" || e.key.predicateName == "asks"))
    || (e.key.source == b && e.key.target == t && e.key.predicateName == "blocks" && e.status == Active)
  }

  /** `b` is unresolved and holds up `t`. */
  predicate Blocks(g: View, t: Uid, b: Uid) {
    Unresolved(g, b) && exists e | e in g.edges :: Holds(e, t, b)
  }

  /** Nothing unresolved holds up `t`. */
  ghost predicate Free(g: View, t: Uid) {
    forall b :: !Blocks(g, t, b)
  }

  // ----- members -----

  predicate JoinsWork(e: Edge, work: Uid) {
    e.key.target == work && e.key.predicateName == "work" && e.status == Active
  }

  function MemberUids(g: View, work: Uid): set<Uid> {
    set e | e in g.edges && JoinsWork(e, work) :: e.key.source
  }

  predicate MemberTask(g: View, work: Uid, t: Uid) {
    t in MemberUids(g, work) && IsTask(g, t)
  }

  /** A member task that waits to be started. */
  predicate Startable(g: View, work: Uid, t: Uid) {
    MemberTask(g, work, t) && (StateAt(g, t).TODO? || StateAt(g, t).READY?)
  }

  /** A member task that waits to be started, and that nothing unresolved holds up. */
  ghost predicate IsReady(g: View, work: Uid, t: Uid) {
    Startable(g, work, t) && Free(g, t)
  }

  // ----- finishing work never blocks anything -----

  /** The view after one active node changes. */
  function WithItem(g: View, x: Uid, item: Item): View {
    g.(items := g.items[x.traceId := item])
  }

  lemma {:induction false} BlocksAfter(g: View, x: Uid, item: Item, t: Uid, b: Uid)
    requires !UnresolvedItem(item)
    ensures Blocks(WithItem(g, x, item), t, b) <==> Blocks(g, t, b) && b != x
  {
    assert b == EntityUid(b.traceId) && x == EntityUid(x.traceId);
  }

  /** Finishing a task or closing a question makes another task ready exactly when nothing else
      holds it up. In particular it never takes another task out of the ready ones. */
  lemma {:induction false} ResolvingFreesExactly(g: View, work: Uid, x: Uid, item: Item, t: Uid)
    requires !UnresolvedItem(item) && t != x
    ensures IsReady(WithItem(g, x, item), work, t) <==> Startable(g, work, t) && forall b | Blocks(g, t, b) :: b == x
    ensures IsReady(g, work, t) ==> IsReady(WithItem(g, x, item), work, t)
  {
    assert t == EntityUid(t.traceId) && x == EntityUid(x.traceId);
    assert MemberUids(WithItem(g, x, item), work) == MemberUids(g, work);
    forall b ensures Blocks(WithItem(g, x, item), t, b) <==> Blocks(g, t, b) && b != x { BlocksAfter(g, x, item, t, b); }
  }

  /** Setting the state of an active node in the graph changes its item and nothing else. */
  lemma {:induction false} StateChangesItem(g: Graph, x: string, state: string)
    requires x in g.nodes && g.nodes[x].active
    ensures var n := g.nodes[x].(state := Some(state));
            ViewOf(g.(nodes := g.nodes[x := n])) == WithItem(ViewOf(g), EntityUid(x), ItemOf(n))
  {}

  // ----- why a task is not ready -----

  /** Each node of the walk is an unresolved blocker of the one before. */
  ghost predicate IsWalk(g: View, walk: seq<Uid>) {
    walk != [] && forall i | 0 <= i < |walk| - 1 :: Blocks(g, walk[i], walk[i + 1])
  }

  ghost predicate NoRepeat(walk: seq<Uid>) {
    forall i, j | 0 <= i < j < |walk| :: walk[i] != walk[j]
  }

  /** The walk runs into a circle: its last blocker is already on it. */
  ghost predicate RunsInCircle(g: View, walk: seq<Uid>) {
    IsWalk(g, walk) && exists i | 0 <= i < |walk| :: Blocks(g, walk[|walk| - 1], walk[i])
  }

  function StoredUids(g: View): set<Uid> {
    set id | id in g.items :: EntityUid(id)
  }

  lemma {:induction false} WalkStays(g: View, walk: seq<Uid>, b: Uid)
    requires IsWalk(g, walk) && NoRepeat(walk) && Blocks(g, walk[|walk| - 1], b) && b !in walk
    ensures IsWalk(g, walk + [b]) && NoRepeat(walk + [b])
  {
    var w := walk + [b];
    forall i | 0 <= i < |w| - 1 ensures Blocks(g, w[i], w[i + 1]) {
      assert i < |walk| - 1 ==> Blocks(g, walk[i], walk[i + 1]);
    }
  }

  lemma {:induction false} UnresolvedIsStored(g: View, u: Uid)
    requires Unresolved(g, u)
    ensures u in StoredUids(g)
  {
    assert u == EntityUid(u.traceId);
  }

  /** From every startable task a chain of unresolved blockers leads to a ready task, or to a
      blocker that cannot be started, or into a circle. */
  lemma {:induction false} WhyNotReady(g: View, work: Uid, walk: seq<Uid>) returns (w: seq<Uid>)
    requires IsWalk(g, walk) && NoRepeat(walk) && (forall u | u in walk :: u in StoredUids(g))
    requires Startable(g, work, walk[|walk| - 1])
    ensures IsWalk(g, w) && w[0] == walk[0]
    ensures IsReady(g, work, w[|w| - 1]) || !Startable(g, work, w[|w| - 1]) || RunsInCircle(g, w)
    decreases |StoredUids(g)| - |walk|
  {
    var t := walk[|walk| - 1];
    w := walk;
    if b :| Blocks(g, t, b) {
      if b in walk {
        assert exists i | 0 <= i < |walk| :: walk[i] == b;
      } else {
        WalkStays(g, walk, b);
        UnresolvedIsStored(g, b);
        WalkFits(g, walk + [b]);
        w := walk + [b];
        if Startable(g, work, b) {
          w := WhyNotReady(g, work, w);
        }
      }
    }
  }

  lemma {:induction false} WalkFits(g: View, walk: seq<Uid>)
    requires NoRepeat(walk) && forall u | u in walk :: u in StoredUids(g)
    ensures |walk| <= |StoredUids(g)|
  {
    SizeOfDistinct(walk);
    SubsetSize(SetOf(walk), StoredUids(g));
  }

  lemma {:induction false} SizeOfDistinct(walk: seq<Uid>)
    requires NoRepeat(walk)
    ensures |SetOf(walk)| == |walk|
  {
    if walk != [] {
      var init := walk[..|walk| - 1];
      SizeOfDistinct(init);
      assert walk == init + [walk[|walk| - 1]];
      assert SetOf(walk) == SetOf(init) + {walk[|walk| - 1]};
    }
  }

  lemma {:induction false} SubsetSize(a: set<Uid>, b: set<Uid>)
    requires a <= b
    ensures |a| <= |b|
  {
    if a != {} {
      var x :| x in a;
      SubsetSize(a - {x}, b - {x});
    }
  }

  /** No chain of unresolved blockers comes back to where it started. */
  ghost predicate Acyclic(g: View) {
    forall walk | IsWalk(g, walk) && |walk| > 1 :: walk[0] != walk[|walk| - 1]
  }

  /** Everything that holds up t, directly or not, is a member task that can be started. */
  ghost predicate OnlyStartableBehind(g: View, work: Uid, t: Uid) {
    forall walk | IsWalk(g, walk) && walk[0] == t :: Startable(g, work, walk[|walk| - 1])
  }

  /** Progress: with acyclic blocking and nothing but startable member tasks behind it, a task
      that waits means that some task is ready. */
  lemma {:induction false} SomeTaskIsReady(g: View, work: Uid, t: Uid) returns (r: Uid)
    requires Acyclic(g) && OnlyStartableBehind(g, work, t)
    ensures IsReady(g, work, r)
  {
    assert IsWalk(g, [t]);
    assert Startable(g, work, [t][|[t]| - 1]);
    assert t in StoredUids(g) by { assert t == EntityUid(t.traceId); }
    var w := WhyNotReady(g, work, [t]);
    r := w[|w| - 1];
    assert Startable(g, work, r);
    if !IsReady(g, work, r) {
      var i :| 0 <= i < |w| && Blocks(g, r, w[i]);
      CircleIsCycle(g, w, i);
    }
  }

  lemma {:induction false} CircleIsCycle(g: View, w: seq<Uid>, i: nat)
    requires IsWalk(g, w) && i < |w| && Blocks(g, w[|w| - 1], w[i])
    ensures !Acyclic(g)
  {
    var c := w[i..] + [w[i]];
    forall k | 0 <= k < |c| - 1 ensures Blocks(g, c[k], c[k + 1]) {
      if k < |c| - 2 {
        assert Blocks(g, w[i + k], w[i + k + 1]);
      }
    }
    assert IsWalk(g, c) && c[0] == c[|c| - 1];
  }

  // ----- readiness as it is computed -----

  datatype Reason =
    | InState(state: TaskState)
    | OnTask(via: Via, id: string, state: TaskState)
    | OnQuestion(id: string, via: Via)

  datatype Readiness = Readiness(
    ready: seq<string>, inProgress: seq<string>, partial: seq<string>, blocked: map<string, seq<Reason>>,
    openQuestions: seq<string>, done: seq<string>, deferred: seq<string>, cancelled: seq<string>, notImplemented: seq<string>)

  const EMPTY := Readiness([], [], [], map[], [], [], [], [], [])

  /** One possible blocker and how the edge names it. */
  datatype Target = Target(uid: Uid, via: Via)

  function Outgoing(rows: seq<Edge>, t: Uid, name: string, via: Via): seq<Target> {
    if rows == [] then []
    else
      var e := rows[|rows| - 1];
      Outgoing(rows[..|rows| - 1], t, name, via) +
      if e.key.source == t && e.key.predicateName == name then [Target(e.key.target, via)] else []
  }

  function Incoming(rows: seq<Edge>, t: Uid): seq<Target> {
    if rows == [] then []
    else
      var e := rows[|rows| - 1];
      Incoming(rows[..|rows| - 1], t) +
      if e.key.target == t && e.key.predicateName == "blocks" && e.status == Active then [Target(e.key.source, BlockedBy)] else []
  }

  /** Possible blockers in the order they are looked at. */
  function Targets(g: View, t: Uid): seq<Target> {
    Outgoing(g.edges, t, "blocked_by", BlockedBy) + Outgoing(g.edges, t, "depends_on", DependsOn)
      + Outgoing(g.edges, t, "asks", Asks) + Incoming(g.edges, t)
  }

  predicate Names(ts: seq<Target>, b: Uid) {
    exists x | x in ts :: x.uid == b
  }

  lemma {:induction false} NamesConcat(a: seq<Target>, c: seq<Target>, b: Uid)
    ensures Names(a + c, b) <==> Names(a, b) || Names(c, b)
  {
    if x :| x in a && x.uid == b { assert x in a + c; }
    if x :| x in c && x.uid == b { assert x in a + c; }
  }

  lemma {:induction false} NamesOne(t: Target, b: Uid)
    ensures Names([t], b) <==> t.uid == b
  {
    assert t in [t];
  }

  lemma {:induction false} OutgoingNames(rows: seq<Edge>, t: Uid, name: string, via: Via, b: Uid)
    ensures Names(Outgoing(rows, t, name, via), b)
      <==> exists e | e in rows :: e.key.source == t && e.key.target == b && e.key.predicateName == name
  {
    if rows != [] {
      var k := |rows| - 1;
      var e := rows[k];
      assert rows == rows[..k] + [e];
      OutgoingNames(rows[..k], t, name, via, b);
      var one := if e.key.source == t && e.key.predicateName == name then [Target(e.key.target, via)] else [];
      NamesConcat(Outgoing(rows[..k], t, name, via), one, b);
      NamesOne(Target(e.key.target, via), b);
    }
  }

  lemma {:induction false} IncomingNames(rows: seq<Edge>, t: Uid, b: Uid)
    ensures Names(Incoming(rows, t), b)
      <==> exists e | e in rows :: e.key.target == t && e.key.source == b && e.key.predicateName == "blocks" && e.status == Active
  {
    if rows != [] {
      var k := |rows| - 1;
      var e := rows[k];
      assert rows == rows[..k] + [e];
      IncomingNames(rows[..k], t, b);
      var one := if e.key.target == t && e.key.predicateName == "blocks" && e.status == Active then [Target(e.key.source, BlockedBy)] else [];
      NamesConcat(Incoming(rows[..k], t), one, b);
      NamesOne(Target(e.key.source, BlockedBy), b);
    }
  }

  /** The targets name exactly the nodes that hold up the task. */
  lemma {:induction false} TargetsHold(g: View, t: Uid, b: Uid)
    ensures Names(Targets(g, t), b) <==> exists e | e in g.edges :: Holds(e, t, b)
  {
    var x, y := Outgoing(g.edges, t, "blocked_by", BlockedBy), Outgoing(g.edges, t, "depends_on", DependsOn);
    var z, w := Outgoing(g.edges, t, "asks", Asks), Incoming(g.edges, t);
    OutgoingNames(g.edges, t, "blocked_by", BlockedBy, b);
    OutgoingNames(g.edges, t, "depends_on", DependsOn, b);
    OutgoingNames(g.edges, t, "asks", Asks, b);
    IncomingNames(g.edges, t, b);
    NamesConcat(x, y, b);
    NamesConcat(x + y, z, b);
    NamesConcat(x + y + z, w, b);
  }

  /** The unresolved nodes among the targets. */
  ghost function UnresolvedIds(g: View, ts: seq<Target>): set<string> {
    set x | x in ts && Unresolved(g, x.uid) :: x.uid.traceId
  }

  /** One reason for each unresolved target, in the words of the first edge that names it. */
  predicate ReasonFor(g: View, r: Reason, b: Uid) {
    || (r.OnTask? && r.id == b.traceId && IsTask(g, b) && r.state == StateAt(g, b))
    || (r.OnQuestion? && r.id == b.traceId && IsOpenQuestion(g, b))
  }

  function ReasonId(r: Reason): string {
    if r.InState? then "" else r.id
  }

  predicate DistinctReasons(rs: seq<Reason>) {
    forall i, j | 0 <= i < j < |rs| :: ReasonId(rs[i]) != ReasonId(rs[j])
  }

  function ReasonIds(rs: seq<Reason>): set<string> {
    set r | r in rs :: ReasonId(r)
  }

  lemma {:induction false} AddReason(rs: seq<Reason>, r: Reason)
    requires DistinctReasons(rs) && ReasonId(r) !in ReasonIds(rs)
    ensures DistinctReasons(rs + [r]) && ReasonIds(rs + [r]) == ReasonIds(rs) + {ReasonId(r)}
  {
    forall i | 0 <= i < |rs| ensures ReasonId(rs[i]) != ReasonId(r) {
      assert rs[i] in rs;
    }
    assert forall x | x in rs + [r] :: x in rs || x == r;
    assert forall x | x in rs :: x in rs + [r];
    assert r in rs + [r];
  }

  lemma {:induction false} UnresolvedStep(g: View, ts: seq<Target>, i: nat)
    requires i < |ts|
    ensures UnresolvedIds(g, ts[..i + 1]) == UnresolvedIds(g, ts[..i]) + if Unresolved(g, ts[i].uid) then {ts[i].uid.traceId} else {}
  {
    assert ts[..i + 1] == ts[..i] + [ts[i]];
  }

  /** The edges say in this way that b holds up t: as a stated blocker, a dependency, an open question, or,
      without one of those, by blocking it from its own side. */
  function ViaOf(g: View, t: Uid, b: Uid): Via {
    if LeadsTo(g.edges, t, b, "blocked_by") then BlockedBy
    else if LeadsTo(g.edges, t, b, "depends_on") then DependsOn
    else if LeadsTo(g.edges, t, b, "asks") then Asks
    else BlockedBy
  }

  predicate LeadsTo(rows: seq<Edge>, t: Uid, b: Uid, name: string) {
    exists e | e in rows :: e.key.source == t && e.key.target == b && e.key.predicateName == name
  }

  predicate IsFirst(ts: seq<Target>, k: int) {
    0 <= k < |ts| && forall j | 0 <= j < k :: ts[j].uid != ts[k].uid
  }

  lemma {:induction false} OutgoingVia(rows: seq<Edge>, t: Uid, name: string, via: Via)
    ensures forall x | x in Outgoing(rows, t, name, via) :: x.via == via
  {
    if rows != [] {
      OutgoingVia(rows[..|rows| - 1], t, name, via);
    }
  }

  lemma {:induction false} IncomingVia(rows: seq<Edge>, t: Uid)
    ensures forall x | x in Incoming(rows, t) :: x.via == BlockedBy
  {
    if rows != [] {
      IncomingVia(rows[..|rows| - 1], t);
    }
  }

  /** The first target in a list is in its first part when that names it, and else in the second. */
  lemma {:induction false} FirstInParts(a: seq<Target>, c: seq<Target>, k: int)
    requires IsFirst(a + c, k)
    ensures if Names(a, (a + c)[k].uid) then IsFirst(a, k) else |a| <= k && IsFirst(c, k - |a|)
  {
    var b := (a + c)[k].uid;
    if x :| x in a && x.uid == b {
      var j :| 0 <= j < |a| && a[j] == x;
      assert (a + c)[j] == x;
      forall i | 0 <= i < k ensures a[i].uid != b { assert (a + c)[i] == a[i]; }
    } else {
      forall j | 0 <= j < |a| ensures (a + c)[j].uid != b { assert a[j] in a && (a + c)[j] == a[j]; }
      forall i | 0 <= i < k - |a| ensures c[i].uid != b { assert (a + c)[i + |a|] == c[i]; }
    }
  }

  lemma {:induction false} FirstSaysVia(g: View, t: Uid, k: int)
    requires IsFirst(Targets(g, t), k)
    ensures var x := Targets(g, t)[k]; x.via == ViaOf(g, t, x.uid)
  {
    var x, y := Outgoing(g.edges, t, "blocked_by", BlockedBy), Outgoing(g.edges, t, "depends_on", DependsOn);
    var z, w := Outgoing(g.edges, t, "asks", Asks), Incoming(g.edges, t);
    var b := Targets(g, t)[k].uid;
    OutgoingNames(g.edges, t, "blocked_by", BlockedBy, b);
    OutgoingNames(g.edges, t, "depends_on", DependsOn, b);
    OutgoingNames(g.edges, t, "asks", Asks, b);
    OutgoingVia(g.edges, t, "blocked_by", BlockedBy);
    OutgoingVia(g.edges, t, "depends_on", DependsOn);
    OutgoingVia(g.edges, t, "asks", Asks);
    IncomingVia(g.edges, t);
    FirstOfFour(x, y, z, w, k);
  }

  lemma {:induction false} FirstOfFour(x: seq<Target>, y: seq<Target>, z: seq<Target>, w: seq<Target>, k: int)
    requires IsFirst(x + y + z + w, k)
    ensures var f := (x + y + z + w)[k];
      if Names(x, f.uid) then f in x else if Names(y, f.uid) then f in y else if Names(z, f.uid) then f in z else f in w
  {
    var b := (x + y + z + w)[k].uid;
    FirstInParts(x + y + z, w, k);
    NamesConcat(x + y, z, b);
    NamesConcat(x, y, b);
    if Names(x + y + z, b) {
      FirstInParts(x + y, z, k);
      if Names(x + y, b) {
        FirstInParts(x, y, k);
      }
    }
  }

  function ReasonVia(r: Reason): Via {
    if r.InState? then BlockedBy else r.via
  }

  /** The reason speaks of the first target with its id, in the words of that target. */
  ghost predicate FromFirst(ts: seq<Target>, r: Reason) {
    exists k :: IsFirst(ts, k) && ts[k].uid.traceId == ReasonId(r) && ts[k].via == ReasonVia(r)
  }

  /** A target whose id has not been seen among the unresolved ones is the first with its uid. */
  lemma {:induction false} NewIsFirst(g: View, ts: seq<Target>, i: nat, r: Reason)
    requires i < |ts| && Unresolved(g, ts[i].uid) && ts[i].uid.traceId !in UnresolvedIds(g, ts[..i])
    requires ReasonId(r) == ts[i].uid.traceId && ReasonVia(r) == ts[i].via
    ensures FromFirst(ts, r)
  {
    forall j | 0 <= j < i ensures ts[j].uid != ts[i].uid {
      assert ts[..i][j] in ts[..i];
    }
    assert IsFirst(ts, i);
  }

  /** What holds up a task: each unresolved task or question once, in the words of the edge looked at first. */
  method Blockers(g: View, t: Uid) returns (reasons: seq<Reason>)
    ensures DistinctReasons(reasons) && ReasonIds(reasons) == UnresolvedIds(g, Targets(g, t))
    ensures forall r | r in reasons :: ReasonFor(g, r, EntityUid(ReasonId(r))) && FromFirst(Targets(g, t), r)
  {
    reasons := [];
    var seen: set<string> := {};
    var targets := Targets(g, t);
    for i := 0 to |targets|
      invariant seen == ReasonIds(reasons) == UnresolvedIds(g, targets[..i])
      invariant DistinctReasons(reasons)
      invariant forall r | r in reasons :: ReasonFor(g, r, EntityUid(ReasonId(r))) && FromFirst(targets, r)
    {
      UnresolvedStep(g, targets, i);
      var id := targets[i].uid.traceId;
      if id in g.items && id !in seen {
        if g.items[id].TaskItem? {
          var state := g.items[id].state;
          if !Terminal(state) {
            AddReason(reasons, OnTask(targets[i].via, id, state));
            NewIsFirst(g, targets, i, OnTask(targets[i].via, id, state));
            seen := seen + {id};
            reasons := reasons + [OnTask(targets[i].via, id, state)];
          }
        } else if g.items[id].QuestionItem? {
          if g.items[id].asked.OPEN? {
            AddReason(reasons, OnQuestion(id, targets[i].via));
            NewIsFirst(g, targets, i, OnQuestion(id, targets[i].via));
            seen := seen + {id};
            reasons := reasons + [OnQuestion(id, targets[i].via)];
          }
        }
      }
    }
    assert targets[..|targets|] == targets;
  }

  lemma {:induction false} BlockerIsNamed(g: View, t: Uid, b: Uid)
    ensures Blocks(g, t, b) <==> Unresolved(g, b) && Names(Targets(g, t), b)
  {
    TargetsHold(g, t, b);
  }

  /** The unresolved targets are exactly the unresolved blockers. */
  lemma {:induction false} UnresolvedTargetsBlock(g: View, t: Uid, id: string)
    ensures id in UnresolvedIds(g, Targets(g, t)) <==> Blocks(g, t, EntityUid(id))
  {
    var ts := Targets(g, t);
    BlockerIsNamed(g, t, EntityUid(id));
    if id in UnresolvedIds(g, ts) {
      var x :| x in ts && Unresolved(g, x.uid) && x.uid.traceId == id;
      assert x.uid == EntityUid(id);
    }
    if Blocks(g, t, EntityUid(id)) {
      var x :| x in ts && x.uid == EntityUid(id);
    }
  }

  lemma {:induction false} NoReasonMeansFree(g: View, t: Uid, reasons: seq<Reason>)
    requires ReasonIds(reasons) == UnresolvedIds(g, Targets(g, t))
    ensures reasons == [] <==> Free(g, t)
  {
    if reasons == [] {
      forall b ensures !Blocks(g, t, b) {
        UnresolvedTargetsBlock(g, t, b.traceId);
        assert b == EntityUid(b.traceId);
      }
    } else {
      assert ReasonId(reasons[0]) in ReasonIds(reasons);
      UnresolvedTargetsBlock(g, t, ReasonId(reasons[0]));
    }
  }

  datatype Bucket = ReadyB | BlockedB | InProgressB | PartialB | DeferredB | DoneB | CancelledB | NotImplementedB

  /** Where a task belongs. */
  ghost function BucketOf(g: View, t: Uid): Bucket
    requires IsTask(g, t)
  {
    match StateAt(g, t)
    case DONE => DoneB
    case CANCELLED => CancelledB
    case DEFERRED => DeferredB
    case NOT_IMPLEMENTED => NotImplementedB
    case IN_PROGRESS => InProgressB
    case PARTIALLY_COMPLETE => PartialB
    case TODO => if Free(g, t) then ReadyB else BlockedB
    case READY => if Free(g, t) then ReadyB else BlockedB
    case BLOCKED => BlockedB
    case WAITING_FOR_DECISION => BlockedB
    case WAITING_FOR_INPUT => BlockedB
  }

  /** The reasons listed for a blocked task: its own state, and then each unresolved blocker once. */
  ghost predicate GivesReasons(g: View, t: Uid, reasons: seq<Reason>)
    requires IsTask(g, t)
  {
    exists found: seq<Reason> ::
      && reasons == (if StateBlocked(StateAt(g, t)) then [InState(StateAt(g, t))] else []) + found
      && DistinctReasons(found)
      && (forall id :: id in ReasonIds(found) <==> Blocks(g, t, EntityUid(id)))
      && (forall r | r in found :: ReasonFor(g, r, EntityUid(ReasonId(r))) && ReasonVia(r) == ViaOf(g, t, EntityUid(ReasonId(r))))
  }

  /** The tasks of a list that belong in the bucket. */
  ghost function Pick(g: View, ids: seq<string>, b: Bucket): seq<string>
    requires forall id | id in ids :: IsTask(g, EntityUid(id))
  {
    if ids == [] then []
    else
      var k := |ids| - 1;
      assert forall id | id in ids[..k] :: id in ids;
      Pick(g, ids[..k], b) + if BucketOf(g, EntityUid(ids[k])) == b then [ids[k]] else []
  }

  /** Every task of the list is where it belongs. */
  ghost predicate Placed(g: View, ids: seq<string>, r: Readiness)
    requires forall id | id in ids :: IsTask(g, EntityUid(id))
  {
    ListsPlaced(g, ids, r) && BlockedPlaced(g, ids, r.blocked)
  }

  ghost predicate ListsPlaced(g: View, ids: seq<string>, r: Readiness)
    requires forall id | id in ids :: IsTask(g, EntityUid(id))
  {
    && r.ready == Pick(g, ids, ReadyB) && r.inProgress == Pick(g, ids, InProgressB)
    && r.partial == Pick(g, ids, PartialB) && r.deferred == Pick(g, ids, DeferredB)
    && r.done == Pick(g, ids, DoneB) && r.cancelled == Pick(g, ids, CancelledB)
    && r.notImplemented == Pick(g, ids, NotImplementedB)
  }

  ghost predicate BlockedPlaced(g: View, ids: seq<string>, blocked: map<string, seq<Reason>>)
    requires forall id | id in ids :: IsTask(g, EntityUid(id))
  {
    && (forall id :: id in blocked <==> id in Pick(g, ids, BlockedB))
    && (forall id | id in blocked :: IsTask(g, EntityUid(id)) && GivesReasons(g, EntityUid(id), blocked[id]))
  }

  function Put(r: Readiness, b: Bucket, id: string, reasons: seq<Reason>): Readiness {
    match b
    case ReadyB => r.(ready := r.ready + [id])
    case BlockedB => r.(blocked := r.blocked[id := reasons])
    case InProgressB => r.(inProgress := r.inProgress + [id])
    case PartialB => r.(partial := r.partial + [id])
    case DeferredB => r.(deferred := r.deferred + [id])
    case DoneB => r.(done := r.done + [id])
    case CancelledB => r.(cancelled := r.cancelled + [id])
    case NotImplementedB => r.(notImplemented := r.notImplemented + [id])
  }

  lemma {:induction false} PickStep(g: View, ids: seq<string>, id: string, b: Bucket)
    requires (forall x | x in ids :: IsTask(g, EntityUid(x))) && IsTask(g, EntityUid(id))
    ensures forall x | x in ids + [id] :: IsTask(g, EntityUid(x))
    ensures Pick(g, ids + [id], b) == Pick(g, ids, b) + if BucketOf(g, EntityUid(id)) == b then [id] else []
  {
    assert (ids + [id])[..|ids|] == ids;
  }

  lemma {:induction false} PutLists(g: View, ids: seq<string>, id: string, r: Readiness, reasons: seq<Reason>)
    requires (forall x | x in ids :: IsTask(g, EntityUid(x))) && IsTask(g, EntityUid(id)) && ListsPlaced(g, ids, r)
    ensures forall x | x in ids + [id] :: IsTask(g, EntityUid(x))
    ensures ListsPlaced(g, ids + [id], Put(r, BucketOf(g, EntityUid(id)), id, reasons))
  {
    PickStep(g, ids, id, ReadyB);
    PickStep(g, ids, id, InProgressB);
    PickStep(g, ids, id, PartialB);
    PickStep(g, ids, id, DeferredB);
    PickStep(g, ids, id, DoneB);
    PickStep(g, ids, id, CancelledB);
    PickStep(g, ids, id, NotImplementedB);
  }

  lemma {:induction false} PutBlocked(g: View, ids: seq<string>, id: string, r: Readiness, reasons: seq<Reason>)
    requires (forall x | x in ids :: IsTask(g, EntityUid(x))) && IsTask(g, EntityUid(id)) && BlockedPlaced(g, ids, r.blocked)
    requires BucketOf(g, EntityUid(id)) == BlockedB ==> GivesReasons(g, EntityUid(id), reasons)
    ensures forall x | x in ids + [id] :: IsTask(g, EntityUid(x))
    ensures BlockedPlaced(g, ids + [id], Put(r, BucketOf(g, EntityUid(id)), id, reasons).blocked)
  {
    PickStep(g, ids, id, BlockedB);
  }

  lemma {:induction false} PutStep(g: View, ids: seq<string>, id: string, r: Readiness, reasons: seq<Reason>)
    requires (forall x | x in ids :: IsTask(g, EntityUid(x))) && IsTask(g, EntityUid(id)) && Placed(g, ids, r)
    requires BucketOf(g, EntityUid(id)) == BlockedB ==> GivesReasons(g, EntityUid(id), reasons)
    ensures forall x | x in ids + [id] :: IsTask(g, EntityUid(x))
    ensures Placed(g, ids + [id], Put(r, BucketOf(g, EntityUid(id)), id, reasons))
  {
    PutLists(g, ids, id, r, reasons);
    PutBlocked(g, ids, id, r, reasons);
  }

  /** One task, put where its state and its blockers say. */
  method PlaceTask(g: View, id: string, r: Readiness) returns (r': Readiness, reasons: seq<Reason>)
    requires IsTask(g, EntityUid(id))
    ensures r' == Put(r, BucketOf(g, EntityUid(id)), id, reasons)
    ensures BucketOf(g, EntityUid(id)) == BlockedB ==> GivesReasons(g, EntityUid(id), reasons)
  {
    var state := g.items[id].state;
    reasons := [];
    if state.DONE? {
      r' := r.(done := r.done + [id]);
    } else if state.CANCELLED? {
      r' := r.(cancelled := r.cancelled + [id]);
    } else if state.DEFERRED? {
      r' := r.(deferred := r.deferred + [id]);
    } else if state.NOT_IMPLEMENTED? {
      r' := r.(notImplemented := r.notImplemented + [id]);
    } else if state.IN_PROGRESS? {
      r' := r.(inProgress := r.inProgress + [id]);
    } else if state.PARTIALLY_COMPLETE? {
      r' := r.(partial := r.partial + [id]);
    } else {
      var found := ReasonsOf(g, EntityUid(id), state);
      reasons := found;
      if found != [] {
        r' := r.(blocked := r.blocked[id := found]);
      } else {
        r' := r.(ready := r.ready + [id]);
      }
    }
  }

  method PlaceAll(g: View, ids: seq<string>) returns (r: Readiness)
    requires forall x | x in ids :: IsTask(g, EntityUid(x))
    ensures Placed(g, ids, r)
  {
    r := EMPTY;
    for i := 0 to |ids|
      invariant TasksPlaced(g, ids[..i], r)
    {
      r := PlaceNext(g, ids, i, r);
    }
    assert ids[..|ids|] == ids;
  }

  ghost predicate TasksPlaced(g: View, ids: seq<string>, r: Readiness) {
    (forall x | x in ids :: IsTask(g, EntityUid(x))) && Placed(g, ids, r)
  }

  method PlaceNext(g: View, ids: seq<string>, i: nat, r: Readiness) returns (r': Readiness)
    requires i < |ids| && IsTask(g, EntityUid(ids[i])) && TasksPlaced(g, ids[..i], r)
    ensures TasksPlaced(g, ids[..i + 1], r')
  {
    var reasons;
    r', reasons := PlaceTask(g, ids[i], r);
    PutStep(g, ids[..i], ids[i], r, reasons);
    assert ids[..i + 1] == ids[..i] + [ids[i]];
  }

  lemma {:induction false} ReasonSaysVia(g: View, t: Uid, r: Reason)
    requires FromFirst(Targets(g, t), r)
    ensures ReasonVia(r) == ViaOf(g, t, EntityUid(ReasonId(r)))
  {
    var ts := Targets(g, t);
    var k :| IsFirst(ts, k) && ts[k].uid.traceId == ReasonId(r) && ts[k].via == ReasonVia(r);
    assert ts[k].uid == EntityUid(ReasonId(r));
    FirstSaysVia(g, t, k);
  }

  method ReasonsOf(g: View, t: Uid, state: TaskState) returns (reasons: seq<Reason>)
    requires IsTask(g, t) && state == StateAt(g, t)
    ensures GivesReasons(g, t, reasons)
    ensures reasons == [] <==> !StateBlocked(state) && Free(g, t)
  {
    var found := Blockers(g, t);
    NoReasonMeansFree(g, t, found);
    forall id ensures id in ReasonIds(found) <==> Blocks(g, t, EntityUid(id)) { UnresolvedTargetsBlock(g, t, id); }
    forall r | r in found ensures ReasonVia(r) == ViaOf(g, t, EntityUid(ReasonId(r))) { ReasonSaysVia(g, t, r); }
    reasons := found;
    assert [] + found == found;
    if StateBlocked(state) {
      reasons := [InState(state)] + reasons;
    }
  }

  // ----- listing in order -----

  /** Ascending and without repeats. */
  ghost predicate InOrder(ids: seq<string>) {
    forall i, j | 0 <= i < j < |ids| :: StringLe(ids[i], ids[j]) && ids[i] != ids[j]
  }

  function ByText(): (string, string) -> bool {
    (a: string, b: string) => StringLe(a, b)
  }

  lemma {:induction false} TextOrder()
    ensures TotalPreorder(ByText())
  {
    forall a: string, b: string ensures StringLe(a, b) || StringLe(b, a) { StringLeTotal(a, b); }
    forall a: string, b: string, c: string | StringLe(a, b) && StringLe(b, c) ensures StringLe(a, c) { StringLeTransitive(a, b, c); }
  }

  lemma {:induction false} DistinctBySize(ids: seq<string>)
    requires |SetOf(ids)| == |ids|
    ensures forall i, j | 0 <= i < j < |ids| :: ids[i] != ids[j]
  {
    if ids != [] {
      var k := |ids| - 1;
      assert ids == ids[..k] + [ids[k]];
      assert SetOf(ids) == SetOf(ids[..k]) + {ids[k]};
      AtMostLength(ids[..k]);
      SizeWith(SetOf(ids[..k]), ids[k]);
      DistinctBySize(ids[..k]);
      forall i, j | 0 <= i < j < |ids| ensures ids[i] != ids[j] {
        if j == k { assert ids[..k][i] == ids[i]; } else { assert ids[..k][i] != ids[..k][j]; }
      }
    }
  }

  lemma {:induction false} SizeWith(a: set<string>, x: string)
    ensures |a + {x}| == |a| + if x in a then 0 else 1
  {
    if x in a {
      assert a + {x} == a;
    }
  }

  lemma {:induction false} AtMostLength(ids: seq<string>)
    ensures |SetOf(ids)| <= |ids|
  {
    if ids != [] {
      var k := |ids| - 1;
      assert ids == ids[..k] + [ids[k]];
      assert SetOf(ids) == SetOf(ids[..k]) + {ids[k]};
      AtMostLength(ids[..k]);
    }
  }

  /** The ids of a set in ascending order. */
  method ListIds(s: set<string>) returns (list: seq<string>)
    ensures SetOf(list) == s && |list| == |s|
  {
    list := [];
    var todo := s;
    while todo != {}
      invariant todo <= s && SetOf(list) == s - todo && |list| + |todo| == |s|
      decreases |todo|
    {
      var id :| id in todo;
      todo := todo - {id};
      assert SetOf(list + [id]) == SetOf(list) + {id};
      list := list + [id];
    }
  }

  method SortedIds(s: set<string>) returns (ids: seq<string>)
    ensures InOrder(ids) && SetOf(ids) == s
  {
    var list := ListIds(s);
    TextOrder();
    ids := Sort(list, ByText());
    SortCorrect(list, ByText());
    assert SetOf(ids) == s;
    DistinctBySize(ids);
    forall i, j | 0 <= i < j < |ids| ensures StringLe(ids[i], ids[j]) {
      assert ByText()(ids[i], ids[j]);
    }
  }

  function MemberTaskIds(g: View, work: Uid): set<string> {
    set u | u in MemberUids(g, work) && IsTask(g, u) :: u.traceId
  }

  function OpenQuestionIds(g: View, work: Uid): set<string> {
    set u | u in MemberUids(g, work) && IsOpenQuestion(g, u) :: u.traceId
  }

  lemma {:induction false} PickMembers(g: View, ids: seq<string>, b: Bucket, id: string)
    requires forall x | x in ids :: IsTask(g, EntityUid(x))
    ensures id in Pick(g, ids, b) <==> id in ids && BucketOf(g, EntityUid(id)) == b
  {
    if ids != [] {
      var k := |ids| - 1;
      assert ids == ids[..k] + [ids[k]];
      PickMembers(g, ids[..k], b, id);
    }
  }

  lemma {:induction false} PickInOrder(g: View, ids: seq<string>, b: Bucket)
    requires (forall x | x in ids :: IsTask(g, EntityUid(x))) && InOrder(ids)
    ensures InOrder(Pick(g, ids, b))
  {
    if ids != [] {
      var k := |ids| - 1;
      PickInOrder(g, ids[..k], b);
      var init := Pick(g, ids[..k], b);
      forall i | 0 <= i < |init| ensures StringLe(init[i], ids[k]) && init[i] != ids[k] {
        assert init[i] in init;
        PickMembers(g, ids[..k], b, init[i]);
        var j :| 0 <= j < k && ids[j] == init[i];
      }
    }
  }

  /** The listing of a bucket: exactly the member tasks that belong there, in order. */
  ghost predicate Lists(g: View, work: Uid, ids: seq<string>, b: Bucket) {
    InOrder(ids) && forall id :: id in ids <==> InBucket(g, work, id, b)
  }

  ghost predicate InBucket(g: View, work: Uid, id: string, b: Bucket) {
    MemberTask(g, work, EntityUid(id)) && BucketOf(g, EntityUid(id)) == b
  }

  /** Each member task is in exactly the one bucket where it belongs, blocked ones with exactly
      their reasons; the open questions of the work are listed. */
  ghost predicate IsReadiness(g: View, work: Uid, r: Readiness) {
    && Lists(g, work, r.ready, ReadyB) && Lists(g, work, r.inProgress, InProgressB)
    && Lists(g, work, r.partial, PartialB) && Lists(g, work, r.deferred, DeferredB)
    && Lists(g, work, r.done, DoneB) && Lists(g, work, r.cancelled, CancelledB)
    && Lists(g, work, r.notImplemented, NotImplementedB)
    && (forall id :: id in r.blocked <==> InBucket(g, work, id, BlockedB))
    && (forall id | id in r.blocked :: IsTask(g, EntityUid(id)) && GivesReasons(g, EntityUid(id), r.blocked[id]))
    && InOrder(r.openQuestions) && SetOf(r.openQuestions) == OpenQuestionIds(g, work)
  }

  lemma {:induction false} PickLists(g: View, work: Uid, ids: seq<string>, b: Bucket)
    requires InOrder(ids) && SetOf(ids) == MemberTaskIds(g, work)
    ensures forall x | x in ids :: IsTask(g, EntityUid(x))
    ensures Lists(g, work, Pick(g, ids, b), b)
  {
    MembersAreTasks(g, work, ids);
    PickInOrder(g, ids, b);
    forall id ensures id in Pick(g, ids, b) <==> InBucket(g, work, id, b) {
      PickMembers(g, ids, b, id);
      MemberId(g, work, id);
      assert id in ids <==> id in SetOf(ids);
    }
  }

  lemma {:induction false} MemberId(g: View, work: Uid, id: string)
    ensures id in MemberTaskIds(g, work) <==> MemberTask(g, work, EntityUid(id))
  {
    if id in MemberTaskIds(g, work) {
      var u :| u in MemberUids(g, work) && IsTask(g, u) && u.traceId == id;
      assert u == EntityUid(id);
    }
  }

  lemma {:induction false} MembersAreTasks(g: View, work: Uid, ids: seq<string>)
    requires SetOf(ids) == MemberTaskIds(g, work)
    ensures forall x | x in ids :: IsTask(g, EntityUid(x))
  {
    forall x | x in ids ensures IsTask(g, EntityUid(x)) {
      assert x in SetOf(ids);
      MemberId(g, work, x);
    }
  }

  /** Readiness of one work item; None when there is no active node of that id. */
  method ComputeReadiness(graph: Graph, workId: string) returns (r: Option<Readiness>)
    ensures r.None? <==> workId !in graph.nodes || !graph.nodes[workId].active
    ensures r.Some? ==> IsReadiness(ViewOf(graph), EntityUid(workId), r.value)
  {
    if workId !in graph.nodes || !graph.nodes[workId].active {
      return None;
    }
    var g, work := ViewOf(graph), EntityUid(workId);
    var ids := SortedIds(MemberTaskIds(g, work));
    MembersAreTasks(g, work, ids);
    var result := PlaceAll(g, ids);
    var questions := SortedIds(OpenQuestionIds(g, work));
    result := result.(openQuestions := questions);
    AllListed(g, work, ids, result);
    return Some(result);
  }

  lemma {:induction false} AllListed(g: View, work: Uid, ids: seq<string>, r: Readiness)
    requires InOrder(ids) && SetOf(ids) == MemberTaskIds(g, work) && (forall x | x in ids :: IsTask(g, EntityUid(x)))
    requires Placed(g, ids, r) && InOrder(r.openQuestions) && SetOf(r.openQuestions) == OpenQuestionIds(g, work)
    ensures IsReadiness(g, work, r)
  {
    PickLists(g, work, ids, ReadyB);
    PickLists(g, work, ids, BlockedB);
    PickLists(g, work, ids, InProgressB);
    PickLists(g, work, ids, PartialB);
    PickLists(g, work, ids, DeferredB);
    PickLists(g, work, ids, DoneB);
    PickLists(g, work, ids, CancelledB);
    PickLists(g, work, ids, NotImplementedB);
  }

  /** The ready listing is what the theorems about ready tasks speak of. */
  lemma {:induction false} ReadyListing(g: View, work: Uid, r: Readiness, id: string)
    requires IsReadiness(g, work, r)
    ensures id in r.ready <==> IsReady(g, work, EntityUid(id))
  {
    assert id in r.ready <==> InBucket(g, work, id, ReadyB);
  }
}
