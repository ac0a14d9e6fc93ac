/** Hook state kept for each session: obligations, loaded contexts, blocked edits. */
module Session {
  import opened Models
  import opened Grammar

  datatype ObligationState = Pending | Satisfied

  /** Behavior that still needs a marker. */
  datatype Obligation = Obligation(
    path: string, symbol: string, kind: string, work: string, requirement: string, suggestedMarker: string,
    state: ObligationState)

  datatype Key = Key(path: string, symbol: string)

  function ObligationKey(o: Obligation): Key { Key(o.path, o.symbol) }

  datatype SessionData = SessionData(
    contextsLoaded: seq<string>, blocked: seq<string>, activeWork: Option<string>, requirements: seq<string>,
    obligations: seq<Obligation>)

  const CLEAN := SessionData([], [], None, [], [])

  // ----- what the operations do to one session -----

  function AddOnce(ids: seq<string>, id: string): seq<string> {
    if id in ids then ids else ids + [id]
  }

  /** Position of the obligation with the key; the length when there is none. */
  function IndexOf(obs: seq<Obligation>, k: Key): (i: nat)
    ensures i <= |obs| && (i < |obs| ==> ObligationKey(obs[i]) == k)
  {
    if obs == [] || ObligationKey(obs[0]) == k then 0 else 1 + IndexOf(obs[1..], k)
  }

  function Newer(was: string, now: string): string {
    if now == "" then was else now
  }

  /** Refreshed coaching data; the state stays. */
  function Refreshed(o: Obligation, proposed: Obligation): Obligation {
    o.(work := Newer(o.work, proposed.work), requirement := Newer(o.requirement, proposed.requirement),
       suggestedMarker := Newer(o.suggestedMarker, proposed.suggestedMarker), kind := Newer(o.kind, proposed.kind))
  }

  /** A new key is appended; a pending one refreshed; a satisfied one left alone. */
  function Proposed(obs: seq<Obligation>, o: Obligation): seq<Obligation> {
    var i := IndexOf(obs, ObligationKey(o));
    if i == |obs| then obs + [o]
    else if obs[i].state.Satisfied? then obs
    else obs[i := Refreshed(obs[i], o)]
  }

  /** Satisfied when its key is one of these. */
  function Settled(o: Obligation, keys: set<Key>): Obligation {
    if ObligationKey(o) in keys then o.(state := Satisfied) else o
  }

  function Resolved(obs: seq<Obligation>, keys: set<Key>): (r: seq<Obligation>)
    ensures |r| == |obs|
  {
    seq(|obs|, i requires 0 <= i < |obs| => Settled(obs[i], keys))
  }

  /** The obligations that are not satisfied. */
  function PendingOf(obs: seq<Obligation>): seq<Obligation> {
    if obs == [] then []
    else
      var n := |obs| - 1;
      PendingOf(obs[..n]) + if obs[n].state.Satisfied? then [] else [obs[n]]
  }

  predicate IsSafe(c: char) {
    IsLetter(c) || IsDigit(c) || c == '.' || c == '_' || c == '-'
  }

  /** Every run of unsafe characters becomes one dash. */
  function Sanitize(s: string, inRun: bool): string {
    if s == "" then ""
    else if IsSafe(s[0]) then [s[0]] + Sanitize(s[1..], false)
    else (if inRun then "" else "-") + Sanitize(s[1..], true)
  }

  predicate IsEdge(c: char) { c == '-' || c == '.' }

  function StripEdges(s: string): string {
    if s != "" && IsEdge(s[0]) then StripEdges(s[1..])
    else if s != "" && IsEdge(s[|s| - 1]) then StripEdges(s[..|s| - 1])
    else s
  }

  /** The file a session id is kept under. */
  function FileOf(sessionId: string): string {
    var name := StripEdges(Sanitize(sessionId, false));
    if name == "" then "default" else name
  }

  lemma {:induction false} SanitizeIsSafe(s: string, inRun: bool)
    ensures forall c | c in Sanitize(s, inRun) :: IsSafe(c)
  {
    if s != "" {
      SanitizeIsSafe(s[1..], !IsSafe(s[0]));
    }
  }

  lemma {:induction false} StripEdgesShape(s: string)
    requires forall c | c in s :: IsSafe(c)
    ensures var r := StripEdges(s); (forall c | c in r :: IsSafe(c)) && (r != "" ==> !IsEdge(r[0]))
    decreases |s|
  {
    if s != "" && IsEdge(s[0]) {
      forall c | c in s[1..] ensures c in s {}
      StripEdgesShape(s[1..]);
    } else if s != "" && IsEdge(s[|s| - 1]) {
      forall c | c in s[..|s| - 1] ensures c in s {}
      StripEdgesShape(s[..|s| - 1]);
    }
  }

  /** No session id names a file outside the session directory: the name has only safe characters,
      is not empty, and does not start with a dot. */
  lemma {:induction false} FileStaysInDirectory(sessionId: string)
    ensures FileOf(sessionId) != "" && FileOf(sessionId)[0] != '.' && forall c | c in FileOf(sessionId) :: IsSafe(c)
  {
    SanitizeIsSafe(sessionId, false);
    StripEdgesShape(Sanitize(sessionId, false));
    var name := FileOf(sessionId);
    assert name == "default" || name == StripEdges(Sanitize(sessionId, false));
  }

  lemma {:induction false} SafeStays(s: string)
    requires forall c | c in s :: IsSafe(c)
    ensures Sanitize(s, false) == s
  {
    if s != "" {
      assert s == [s[0]] + s[1..];
      SafeStays(s[1..]);
    }
  }

  lemma {:induction false} StripEdgesEnds(s: string)
    ensures var r := StripEdges(s); r == "" || (!IsEdge(r[0]) && !IsEdge(r[|r| - 1]))
    decreases |s|
  {
    if s != "" && IsEdge(s[0]) {
      StripEdgesEnds(s[1..]);
    } else if s != "" && IsEdge(s[|s| - 1]) {
      StripEdgesEnds(s[..|s| - 1]);
    }
  }

  predicate IsPlainChar(c: char) {
    'a' <= c <= 'z' || 'A' <= c <= 'Z' || '0' <= c <= '9' || c in "._-"
  }

  lemma {:induction false} UnsafeVanishes(u: string, b: string)
    requires (forall c | c in u :: !IsSafe(c)) && (b != "" ==> IsSafe(b[0]))
    ensures Sanitize(u + b, true) == Sanitize(b, false)
  {
    if u == "" {
      assert u + b == b;
    } else {
      assert u[0] in u && (u + b)[1..] == u[1..] + b;
      assert forall c | c in u[1..] :: c in u;
      UnsafeVanishes(u[1..], b);
    }
  }

  /** Safe characters stay, and a run of others becomes one dash. */
  lemma {:induction false} UnsafeRunIsDash(a: string, u: string, b: string)
    requires (forall c | c in a :: IsPlainChar(c)) && u != "" && (forall c | c in u :: !IsPlainChar(c)) && (b != "" ==> IsPlainChar(b[0]))
    ensures Sanitize(a + (u + b), false) == a + ("-" + Sanitize(b, false))
  {
    if a == "" {
      assert a + (u + b) == u + b && u[0] in u && (u + b)[1..] == u[1..] + b;
      assert forall c | c in u[1..] :: c in u;
      UnsafeVanishes(u[1..], b);
    } else {
      assert a[0] in a && (a + (u + b))[1..] == a[1..] + (u + b);
      assert forall c | c in a[1..] :: c in a;
      UnsafeRunIsDash(a[1..], u, b);
    }
  }

  predicate IsPlainName(s: string) {
    s != "" && (forall c | c in s :: IsPlainChar(c)) && s[0] !in "-." && s[|s| - 1] !in "-."
  }

  lemma {:induction false} FileIsPlain(sessionId: string)
    ensures IsPlainName(FileOf(sessionId))
  {
    SanitizeIsSafe(sessionId, false);
    StripEdgesShape(Sanitize(sessionId, false));
    StripEdgesEnds(Sanitize(sessionId, false));
  }

  /** A session keeps its id as file name exactly when the id is plain: letters, digits, dots, underscores
      and dashes, with no dot or dash at either end. So plain ids never share a file. */
  lemma {:induction false} FileIsIdExactly(sessionId: string)
    ensures FileOf(sessionId) == sessionId <==> IsPlainName(sessionId)
  {
    FileIsPlain(sessionId);
    if IsPlainName(sessionId) {
      SafeStays(sessionId);
    }
  }

  lemma {:induction false} IsListedExactly(obs: seq<Obligation>, k: Key)
    ensures IndexOf(obs, k) < |obs| <==> exists x | x in obs :: ObligationKey(x) == k
  {
    if obs != [] {
      IsListedExactly(obs[1..], k);
      assert obs == [obs[0]] + obs[1..];
    }
  }

  method FindKey(obs: seq<Obligation>, k: Key) returns (i: nat)
    ensures i == IndexOf(obs, k)
  {
    i := 0;
    while i < |obs| && ObligationKey(obs[i]) != k
      invariant i <= |obs| && IndexOf(obs, k) == i + IndexOf(obs[i..], k)
    {
      assert obs[i..][1..] == obs[i + 1..];
      i := i + 1;
    }
  }

  /** Sets every obligation with the key to satisfied. */
  method MarkSatisfied(all: seq<Obligation>, k: Key) returns (obs: seq<Obligation>, changed: bool)
    ensures obs == Resolved(all, {k}) && (!changed ==> obs == all)
  {
    obs, changed := all, false;
    for i := 0 to |all|
      invariant |obs| == |all|
      invariant forall j | 0 <= j < i :: obs[j] == Settled(all[j], {k})
      invariant forall j | i <= j < |all| :: obs[j] == all[j]
      invariant !changed ==> obs == all
    {
      if ObligationKey(obs[i]) == k {
        obs := obs[i := obs[i].(state := Satisfied)];
        changed := true;
      }
    }
  }

  function AddAll(ids: seq<string>, more: seq<string>): seq<string> {
    if more == [] then ids else AddOnce(AddAll(ids, more[..|more| - 1]), more[|more| - 1])
  }

  /** The id stands at this place of the list, and not before. */
  predicate FirstAt(ids: seq<string>, id: string, i: int) {
    0 <= i < |ids| && ids[i] == id && id !in ids[..i]
  }

  /** Ids in the order in which they first come up, each once. */
  lemma {:induction false} AddAllKeepsFirsts(ids: seq<string>)
    ensures var r := AddAll([], ids);
      && (forall id :: id in r <==> id in ids)
      && (forall i, j | 0 <= i < j < |r| :: r[i] != r[j])
      && (forall i, j, a, b | 0 <= i < |r| && 0 <= j < |r| && FirstAt(ids, r[i], a) && FirstAt(ids, r[j], b) && a < b :: i < j)
  {
    if ids != [] {
      var n := |ids| - 1;
      var init, last := ids[..n], ids[n];
      AddAllKeepsFirsts(init);
      assert ids == init + [last];
      var before, r := AddAll([], init), AddAll([], ids);
      forall i, j, a, b | 0 <= i < |r| && 0 <= j < |r| && FirstAt(ids, r[i], a) && FirstAt(ids, r[j], b) && a < b ensures i < j {
        assert a < n;
        assert FirstAt(init, r[i], a) && r[i] in init;
        if b < n {
          assert FirstAt(init, r[j], b) && r[j] in init;
        } else {
          assert r[j] !in init && j == |before|;
        }
      }
    }
  }

  /** Session state backed by one file for each session. */
  class SessionState {
    var files: map<string, SessionData>

    constructor ()
      ensures files == map[]
    {
      files := map[];
    }

    function Read(sessionId: string): SessionData reads this {
      if FileOf(sessionId) in files then files[FileOf(sessionId)] else CLEAN
    }

    method Write(sessionId: string, data: SessionData)
      modifies this
      ensures files == old(files)[FileOf(sessionId) := data]
    {
      files := files[FileOf(sessionId) := data];
    }

    predicate ContextLoaded(sessionId: string, traceId: string) reads this {
      traceId in Read(sessionId).contextsLoaded
    }

    predicate BlockedWithoutContext(sessionId: string, traceId: string) reads this {
      traceId in Read(sessionId).blocked
    }

    method RecordContextLoad(sessionId: string, traceId: string)
      modifies this
      ensures var d := old(Read(sessionId));
              files == old(files)[FileOf(sessionId) := d.(contextsLoaded := AddOnce(d.contextsLoaded, traceId))]
    {
      var data := Read(sessionId);
      if traceId !in data.contextsLoaded {
        data := data.(contextsLoaded := data.contextsLoaded + [traceId]);
      }
      Write(sessionId, data);
    }

    method RecordBlockedEdit(sessionId: string, traceId: string)
      modifies this
      ensures var d := old(Read(sessionId));
              files == old(files)[FileOf(sessionId) := d.(blocked := AddOnce(d.blocked, traceId))]
    {
      var data := Read(sessionId);
      if traceId !in data.blocked {
        data := data.(blocked := data.blocked + [traceId]);
      }
      Write(sessionId, data);
    }

    method SetActiveWork(sessionId: string, workId: Option<string>)
      modifies this
      ensures files == if workId.None? then old(files)
                       else old(files)[FileOf(sessionId) := old(Read(sessionId)).(activeWork := workId)]
    {
      if workId.None? {
        return;
      }
      Write(sessionId, Read(sessionId).(activeWork := workId));
    }

    /** The requirements of the task, each once. */
    method SetActiveRequirements(sessionId: string, ids: seq<string>)
      modifies this
      ensures files == if ids == [] then old(files)
                       else old(files)[FileOf(sessionId) := old(Read(sessionId)).(requirements := AddAll([], ids))]
    {
      if ids == [] {
        return;
      }
      var ordered := [];
      for i := 0 to |ids|
        invariant ordered == AddAll([], ids[..i])
      {
        assert ids[..i + 1][..i] == ids[..i];
        if ids[i] !in ordered {
          ordered := ordered + [ids[i]];
        }
      }
      assert ids[..|ids|] == ids;
      Write(sessionId, Read(sessionId).(requirements := ordered));
    }

    method AddActiveRequirement(sessionId: string, id: string)
      modifies this
      ensures var d := old(Read(sessionId)); files == old(files)[FileOf(sessionId) := d.(requirements := AddOnce(d.requirements, id))]
    {
      var data := Read(sessionId);
      if id !in data.requirements {
        data := data.(requirements := data.requirements + [id]);
      }
      Write(sessionId, data);
    }

    /** True when the obligation is new; known keys are not listed twice. */
    method AddObligation(sessionId: string, o: Obligation) returns (added: bool)
      modifies this
      ensures var d := old(Read(sessionId));
        && Read(sessionId) == d.(obligations := Proposed(d.obligations, o))
        && files - {FileOf(sessionId)} == old(files) - {FileOf(sessionId)}
      ensures added <==> forall x | x in old(Read(sessionId)).obligations :: ObligationKey(x) != ObligationKey(o)
    {
      var data := Read(sessionId);
      var obs := data.obligations;
      var i := FindKey(obs, ObligationKey(o));
      IsListedExactly(obs, ObligationKey(o));
      if i < |obs| {
        if !obs[i].state.Satisfied? {
          Write(sessionId, data.(obligations := obs[i := Refreshed(obs[i], o)]));
        }
        return false;
      }
      Write(sessionId, data.(obligations := obs + [o]));
      return true;
    }

    method ResolveObligation(sessionId: string, path: string, symbol: string)
      modifies this
      ensures var d := old(Read(sessionId));
        && Read(sessionId) == d.(obligations := Resolved(d.obligations, {Key(path, symbol)}))
        && files - {FileOf(sessionId)} == old(files) - {FileOf(sessionId)}
    {
      var data := Read(sessionId);
      var obs, changed := MarkSatisfied(data.obligations, Key(path, symbol));
      if changed {
        Write(sessionId, data.(obligations := obs));
      }
    }

    function PendingObligations(sessionId: string): seq<Obligation> reads this {
      PendingOf(Read(sessionId).obligations)
    }

    method Clear(sessionId: string)
      modifies this
      ensures files == old(files)[FileOf(sessionId) := CLEAN]
    {
      Write(sessionId, CLEAN);
    }
  }
}
