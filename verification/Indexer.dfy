/** The index passes as they run: loops over lists, dictionaries and the store. */
module Indexer {
  import opened Models
  import opened Ordering
  import opened Store
  import opened IndexSpec
  import Ids

  /** One entry of the change set reported by git. */
  datatype ChangedFile = ChangedFile(path: string, deleted: bool)

  function ChangedPaths(files: seq<ChangedFile>): set<string> {
    set f | f in files :: f.path
  }

  /** Paths the incremental pass scans: not deleted, not ignored, readable. */
  function Parsed(tree: Tree, files: seq<ChangedFile>): (r: seq<string>)
    ensures forall p | p in r :: p in tree
  {
    if files == [] then []
    else
      var k := |files| - 1;
      var init := Parsed(tree, files[..k]);
      if files[k].deleted || files[k].path !in tree then init else init + [files[k].path]
  }

  // ----- helpers -----

  lemma {:induction false} ListsAppend(ns: seq<Node>, m: NodeMap, n: Node)
    requires Lists(ns, m) && n.traceId !in m
    ensures Lists(ns + [n], m[n.traceId := n])
  {}

  /** Keeps the first declaration of each trace id. */
  method DedupeNodes(nodes: seq<Node>) returns (out: seq<Node>)
    ensures Lists(out, FirstMap(nodes))
  {
    out := [];
    var seen: set<string> := {};
    for i := 0 to |nodes|
      invariant Lists(out, FirstMap(nodes[..i]))
      invariant seen == FirstMap(nodes[..i]).Keys
    {
      var n := nodes[i];
      assert nodes[..i + 1] == nodes[..i] + [n];
      FirstMapAppend(nodes[..i], n);
      if n.traceId !in seen {
        ListsAppend(out, FirstMap(nodes[..i]), n);
        out := out + [n];
        seen := seen + {n.traceId};
      }
    }
    assert nodes[..|nodes|] == nodes;
  }

  lemma {:induction false} MergeStep(work: seq<Node>, i: nat, m: NodeMap)
    requires i < |work|
    ensures FirstMap(work[..i + 1]) + m == Otherwise(FirstMap(work[..i]) + m, work[i])
  {
    assert work[..i + 1] == work[..i] + [work[i]];
    FirstMapAppend(work[..i], work[i]);
    OtherwiseUnion(FirstMap(work[..i]), m, work[i]);
  }

  /** Appends work.toml nodes whose id no marker declares. */
  method MergeWork(nodes: seq<Node>, work: seq<Node>, ghost m: NodeMap) returns (out: seq<Node>)
    requires Lists(nodes, m)
    ensures Lists(out, FirstMap(work) + m)
  {
    out := nodes;
    var seen := set n | n in nodes :: n.traceId;
    assert map[] + m == m;
    for i := 0 to |work|
      invariant Lists(out, FirstMap(work[..i]) + m)
      invariant seen == (FirstMap(work[..i]) + m).Keys
    {
      MergeStep(work, i, m);
      if work[i].traceId !in seen {
        ListsAppend(out, FirstMap(work[..i]) + m, work[i]);
        out := out + [work[i]];
        seen := seen + {work[i].traceId};
      }
    }
    assert work[..|work|] == work;
  }

  // ----- structural containment -----

  function StartLine(n: Node): int {
    if n.span.Some? then n.span.value.start else 0
  }

  function NodeOrder(): (Node, Node) -> bool {
    (a: Node, b: Node) => StartLine(a) < StartLine(b) || (StartLine(a) == StartLine(b) && StringLe(a.traceId, b.traceId))
  }

  lemma {:induction false} NodeOrderTotal()
    ensures TotalPreorder(NodeOrder())
  {
    forall a, b ensures NodeOrder()(a, b) || NodeOrder()(b, a) { StringLeTotal(a.traceId, b.traceId); }
    forall a, b, c | NodeOrder()(a, b) && NodeOrder()(b, c) ensures NodeOrder()(a, c) {
      if StringLe(a.traceId, b.traceId) && StringLe(b.traceId, c.traceId) {
        StringLeTransitive(a.traceId, b.traceId, c.traceId);
      }
    }
  }

  lemma {:induction false} EdgeOrderTotal(uid: EdgeUid)
    ensures TotalPreorder(EdgeOrder(uid))
  {}

  ghost predicate IsPair(ns: seq<Node>, e: Edge) {
    exists a, b :: a in ns && b in ns && Encloses(a, b) && e == ContainsEdge(a, b)
  }

  /** The containment edges among the symbols of one file. */
  method GroupEdges(group: seq<Node>) returns (out: seq<Edge>)
    requires forall n | n in group :: Participates(n)
    requires forall a, b | a in group && b in group :: a.path == b.path
    ensures forall e :: e in out <==> IsPair(group, e)
  {
    var sorted := Sort(group, NodeOrder());
    NodeOrderTotal();
    SortCorrect(group, NodeOrder());
    out := [];
    for i := 0 to |sorted|
      invariant forall e :: e in out <==> IsPair(sorted[..i], e)
    {
      var inner := sorted[i];
      ghost var before := out;
      for j := 0 to i
        invariant forall e :: e in out <==> e in before || exists k :: 0 <= k < j && Encloses(sorted[k], inner) && e == ContainsEdge(sorted[k], inner)
      {
        var outer := sorted[j];
        assert outer in group && inner in group;
        if outer.span.value.start < inner.span.value.start && outer.span.value.end > inner.span.value.end {
          out := out + [ContainsEdge(outer, inner)];
        }
      }
      PairsOfPrefix(sorted, i, before, out);
    }
    assert sorted[..|sorted|] == sorted;
    forall e ensures IsPair(sorted, e) <==> IsPair(group, e) {}
  }

  lemma {:induction false} PairsOfPrefix(sorted: seq<Node>, i: nat, before: seq<Edge>, out: seq<Edge>)
    requires i < |sorted| && SortedBy(sorted, NodeOrder())
    requires forall n | n in sorted :: Participates(n)
    requires forall e :: e in before <==> IsPair(sorted[..i], e)
    requires forall e :: e in out <==> e in before || exists k :: 0 <= k < i && Encloses(sorted[k], sorted[i]) && e == ContainsEdge(sorted[k], sorted[i])
    ensures forall e :: e in out <==> IsPair(sorted[..i + 1], e)
  {
    var b := sorted[i];
    assert sorted[..i + 1] == sorted[..i] + [b];
    forall a | a in sorted[..i] ensures !Encloses(b, a) {
      var k :| 0 <= k < i && sorted[k] == a;
      assert NodeOrder()(sorted[k], sorted[i]);
      assert Participates(sorted[k]) && Participates(sorted[i]);
    }
    forall e | IsPair(sorted[..i + 1], e) ensures e in out {
      var x, y :| x in sorted[..i + 1] && y in sorted[..i + 1] && Encloses(x, y) && e == ContainsEdge(x, y);
      if y in sorted[..i] && x in sorted[..i] {
        assert IsPair(sorted[..i], e);
      } else {
        assert y == b && x in sorted[..i];
        var k :| 0 <= k < i && sorted[k] == x;
        assert Encloses(sorted[k], sorted[i]) && e == ContainsEdge(sorted[k], sorted[i]);
      }
    }
    forall e | e in out ensures IsPair(sorted[..i + 1], e) {
      if e in before {
        var x, y :| x in sorted[..i] && y in sorted[..i] && Encloses(x, y) && e == ContainsEdge(x, y);
        assert x in sorted[..i + 1] && y in sorted[..i + 1];
      } else {
        var k :| 0 <= k < i && Encloses(sorted[k], sorted[i]) && e == ContainsEdge(sorted[k], sorted[i]);
        assert sorted[k] in sorted[..i + 1] && b in sorted[..i + 1];
      }
    }
  }

  /** Participating nodes grouped by path, in list order. */
  method GroupByPath(nodes: seq<Node>) returns (byPath: map<string, seq<Node>>)
    ensures forall p | p in byPath :: forall n :: n in byPath[p] <==> n in nodes && Participates(n) && n.path == Some(p)
    ensures forall n | n in nodes && Participates(n) :: n.path.value in byPath
  {
    byPath := map[];
    for i := 0 to |nodes|
      invariant forall p | p in byPath :: forall n :: n in byPath[p] <==> n in nodes[..i] && Participates(n) && n.path == Some(p)
      invariant forall n | n in nodes[..i] && Participates(n) :: n.path.value in byPath
    {
      var n := nodes[i];
      assert nodes[..i + 1] == nodes[..i] + [n];
      if Participates(n) {
        var p := n.path.value;
        byPath := byPath[p := (if p in byPath then byPath[p] else []) + [n]];
      }
    }
    assert nodes[..|nodes|] == nodes;
  }

  /** Strict enclosure among the symbol-attached nodes of each file. */
  method StructuralContainsEdges(nodes: seq<Node>, ghost m: NodeMap) returns (out: seq<Edge>)
    requires Lists(nodes, m)
    ensures SetOf(out) == StructuralEdges(m)
  {
    var byPath := GroupByPath(nodes);
    out := [];
    var todo := byPath.Keys;
    while todo != {}
      invariant todo <= byPath.Keys
      invariant forall e :: e in out <==> exists p :: p in byPath && p !in todo && IsPair(byPath[p], e)
      decreases |todo|
    {
      var p :| p in todo;
      var es := GroupEdges(byPath[p]);
      out := out + es;
      todo := todo - {p};
    }
    forall e ensures e in StructuralEdges(m) <==> exists p :: p in byPath && IsPair(byPath[p], e) {
      PairsAreStructural(nodes, m, byPath, e);
    }
  }

  lemma {:induction false} PairsAreStructural(nodes: seq<Node>, m: NodeMap, byPath: map<string, seq<Node>>, e: Edge)
    requires Lists(nodes, m)
    requires forall p | p in byPath :: forall n :: n in byPath[p] <==> n in nodes && Participates(n) && n.path == Some(p)
    requires forall n | n in nodes && Participates(n) :: n.path.value in byPath
    ensures e in StructuralEdges(m) <==> exists p :: p in byPath && IsPair(byPath[p], e)
  {
    if e in StructuralEdges(m) {
      var a, b :| a in m && b in m && Encloses(m[a], m[b]) && e == ContainsEdge(m[a], m[b]);
      assert m[a] in nodes && m[b] in nodes;
      var p := m[a].path.value;
      assert m[a] in byPath[p] && m[b] in byPath[p];
      assert IsPair(byPath[p], e);
    }
    if p :| p in byPath && IsPair(byPath[p], e) {
      var a, b :| a in byPath[p] && b in byPath[p] && Encloses(a, b) && e == ContainsEdge(a, b);
      assert m[a.traceId] == a && m[b.traceId] == b;
    }
  }

  // ----- staleness -----

  /** An edge seen so far leads from the uid to a changed artifact. */
  ghost predicate Propagates(edges: seq<Edge>, changedUids: set<Uid>, uid: Uid) {
    exists e :: e in edges && e.key.kind == Declared && e.status == Active && e.key.target in changedUids && e.key.source == uid
  }

  /** First loop: flags changed artifacts and carries old statuses over. */
  method CarryStatuses(store: GraphStore, nodes: array<Node>, clean: bool) returns (changed: set<string>)
    requires UniqueIds(nodes[..])
    modifies nodes
    ensures forall i | 0 <= i < nodes.Length :: nodes[i] == Carried(store.history, store.nodes, old(nodes[i]), clean)
    ensures forall id :: id in changed <==> exists i :: 0 <= i < nodes.Length && old(nodes[i]).traceId == id && IsChanged(store.history, old(nodes[i]))
  {
    changed := {};
    for i := 0 to nodes.Length
      invariant forall k | i <= k < nodes.Length :: nodes[k] == old(nodes[k])
      invariant forall k | 0 <= k < i :: nodes[k] == Carried(store.history, store.nodes, old(nodes[k]), clean)
      invariant forall id :: id in changed <==> exists k :: 0 <= k < i && old(nodes[k]).traceId == id && IsChanged(store.history, old(nodes[k]))
    {
      var node := nodes[i];
      var prior := store.nodes;
      if node.fingerprint.Some? {
        var prev := PreviousFingerprints(store.history, node.traceId, node.fingerprint.value);
        if prev != {} {
          changed := changed + {node.traceId};
          nodes[i] := node.(changed := true, status := Current);
        } else if node.traceId in prior && prior[node.traceId].status != Current && !clean {
          nodes[i] := node.(status := prior[node.traceId].status);
        }
      } else if node.traceId in prior && prior[node.traceId].status != Current && !clean {
        nodes[i] := node.(status := prior[node.traceId].status);
      }
    }
  }

  /** uid -> position of the node. */
  method IndexByUid(nodes: array<Node>) returns (index: map<Uid, nat>)
    requires UniqueIds(nodes[..])
    ensures forall u | u in index :: index[u] < nodes.Length && u == EntityUid(nodes[index[u]].traceId)
    ensures forall i | 0 <= i < nodes.Length :: EntityUid(nodes[i].traceId) in index && index[EntityUid(nodes[i].traceId)] == i
  {
    index := map[];
    for i := 0 to nodes.Length
      invariant forall u | u in index :: index[u] < i && u == EntityUid(nodes[index[u]].traceId)
      invariant forall k | 0 <= k < i :: EntityUid(nodes[k].traceId) in index && index[EntityUid(nodes[k].traceId)] == k
    {
      forall k | 0 <= k < i ensures EntityUid(nodes[k].traceId) != EntityUid(nodes[i].traceId) {
        assert nodes[..][k].traceId != nodes[..][i].traceId;
      }
      index := index[EntityUid(nodes[i].traceId) := i];
    }
  }

  /** Second loop: declared edges into changed artifacts make their source stale. */
  method PropagateStaleness(nodes: array<Node>, edges: seq<Edge>, changedUids: set<Uid>)
    requires UniqueIds(nodes[..])
    modifies nodes
    ensures forall i | 0 <= i < nodes.Length ::
      nodes[i] == if Propagates(edges, changedUids, EntityUid(old(nodes[i]).traceId)) then MarkStale(old(nodes[i])) else old(nodes[i])
  {
    var index := IndexByUid(nodes);
    for j := 0 to |edges|
      invariant forall i | 0 <= i < nodes.Length :: nodes[i].traceId == old(nodes[i]).traceId
      invariant forall i | 0 <= i < nodes.Length ::
        nodes[i] == if Propagates(edges[..j], changedUids, EntityUid(old(nodes[i]).traceId)) then MarkStale(old(nodes[i])) else old(nodes[i])
    {
      var e := edges[j];
      assert edges[..j + 1] == edges[..j] + [e];
      forall u ensures Propagates(edges[..j + 1], changedUids, u) <==>
        Propagates(edges[..j], changedUids, u) || (e.key.kind == Declared && e.status == Active && e.key.target in changedUids && e.key.source == u)
      {
        assert e in edges[..j + 1];
      }
      if e.key.kind == Declared && e.status == Active && e.key.target in changedUids && e.key.source in index {
        var d := index[e.key.source];
        if nodes[d].status != StaleReviewRequired {
          nodes[d] := nodes[d].(status := StaleReviewRequired, historical := true);
        }
      }
    }
    assert edges[..|edges|] == edges;
  }

  /** Compares fingerprints with the version history and marks dependents, in place. */
  method StalenessPass(store: GraphStore, nodes: array<Node>, edges: seq<Edge>, clean: bool, ghost m: NodeMap)
    requires Lists(nodes[..], m)
    modifies nodes
    ensures Lists(nodes[..], StaledMap(store.history, store.nodes, m, SetOf(edges), clean))
  {
    ghost var was := nodes[..];
    var changed := CarryStatuses(store, nodes, clean);
    ghost var base := nodes[..];
    assert forall i | 0 <= i < |was| :: base[i] == Carried(store.history, store.nodes, was[i], clean);
    CarriedIds(store.history, store.nodes, was, base, clean);
    var changedUids := Uids(changed);
    if changed != {} {
      PropagateStaleness(nodes, edges, changedUids);
    }
    LoopsStale(store.history, store.nodes, was, base, nodes[..], m, edges, changed, clean);
  }

  function Uids(ids: set<string>): set<Uid> {
    set t | t in ids :: EntityUid(t)
  }

  lemma {:induction false} CarriedIds(h: map<string, set<string>>, prior: NodeMap, was: seq<Node>, base: seq<Node>, clean: bool)
    requires |base| == |was| && UniqueIds(was)
    requires forall i | 0 <= i < |was| :: base[i] == Carried(h, prior, was[i], clean)
    ensures UniqueIds(base)
  {
    forall i, j | 0 <= i < j < |base| ensures base[i].traceId != base[j].traceId {
      assert base[i].traceId == was[i].traceId && base[j].traceId == was[j].traceId;
    }
  }

  lemma {:induction false} LoopsStale(h: map<string, set<string>>, prior: NodeMap, was: seq<Node>, base: seq<Node>, now: seq<Node>, m: NodeMap, edges: seq<Edge>, changed: set<string>, clean: bool)
    requires Lists(was, m) && |base| == |was| == |now|
    requires forall t :: t in changed <==> exists i :: 0 <= i < |was| && was[i].traceId == t && IsChanged(h, was[i])
    requires forall i | 0 <= i < |was| :: base[i] == Carried(h, prior, was[i], clean)
    requires if changed == {} then now == base else
             forall i | 0 <= i < |was| :: now[i] == if Propagates(edges, Uids(changed), EntityUid(base[i].traceId)) then MarkStale(base[i]) else base[i]
    ensures Lists(now, StaledMap(h, prior, m, SetOf(edges), clean))
  {
    forall i | 0 <= i < |was|
      ensures was[i].traceId in m && now[i] == Staled(h, prior, m, SetOf(edges), clean, was[i].traceId)
    {
      assert was[i] in was;
      DependentsAgree(h, was, m, edges, changed, was[i].traceId);
    }
    StaledList(h, prior, was, m, edges, clean, now);
  }

  lemma {:induction false} DependentsAgree(h: map<string, set<string>>, was: seq<Node>, m: NodeMap, edges: seq<Edge>, changed: set<string>, id: string)
    requires Lists(was, m)
    requires forall t :: t in changed <==> exists i :: 0 <= i < |was| && was[i].traceId == t && IsChanged(h, was[i])
    ensures Propagates(edges, Uids(changed), EntityUid(id)) <==> DependsOnChanged(h, m, SetOf(edges), id)
  {
    forall t ensures t in changed <==> t in m && IsChanged(h, m[t]) {
      if t in changed {
        var i :| 0 <= i < |was| && was[i].traceId == t && IsChanged(h, was[i]);
        assert was[i] in was;
      }
      if t in m && IsChanged(h, m[t]) {
        assert m[t] in was;
      }
    }
    if Propagates(edges, Uids(changed), EntityUid(id)) {
      var e :| e in edges && e.key.kind == Declared && e.status == Active && e.key.target in Uids(changed) && e.key.source == EntityUid(id);
      var t :| t in changed && e.key.target == EntityUid(t);
      assert e in SetOf(edges) && t in m;
    }
  }

  lemma {:induction false} StaledList(h: map<string, set<string>>, prior: NodeMap, was: seq<Node>, m: NodeMap, edges: seq<Edge>, clean: bool, now: seq<Node>)
    requires Lists(was, m) && |now| == |was|
    requires forall i | 0 <= i < |was| :: was[i].traceId in m && now[i] == Staled(h, prior, m, SetOf(edges), clean, was[i].traceId)
    ensures Lists(now, StaledMap(h, prior, m, SetOf(edges), clean))
  {
    var s := StaledMap(h, prior, m, SetOf(edges), clean);
    forall i | 0 <= i < |was| ensures now[i].traceId == was[i].traceId && was[i].traceId in s && s[was[i].traceId] == now[i] {
      StaledKeepsRow(h, prior, m, SetOf(edges), clean, was[i].traceId);
      assert was[i] in was;
    }
    RelistRows(was, m, now, s);
  }

  lemma {:induction false} RelistRows(was: seq<Node>, m: NodeMap, now: seq<Node>, s: NodeMap)
    requires Lists(was, m) && |now| == |was| && s.Keys == m.Keys
    requires forall i | 0 <= i < |was| :: now[i].traceId == was[i].traceId && was[i].traceId in s && s[was[i].traceId] == now[i]
    ensures Lists(now, s)
  {
    forall id | id in s ensures s[id] in now && s[id].traceId == id {
      assert m[id] in was;
      var i :| 0 <= i < |was| && was[i] == m[id];
      assert now[i] == s[id];
    }
  }

  /** A list as an array, to be updated in place. */
  method ToArray(ns: seq<Node>) returns (a: array<Node>)
    ensures fresh(a) && a[..] == ns
  {
    a := new Node[|ns|](i requires 0 <= i < |ns| => ns[i]);
  }

  function FingerprintIn(m: NodeMap, ns: seq<Node>, id: string): set<string> {
    if id in m && m[id] in ns && m[id].fingerprint.Some? then {m[id].fingerprint.value} else {}
  }

  /** Records the fingerprint of every listed node. */
  method RecordVersions(store: GraphStore, nodes: seq<Node>, ghost m: NodeMap)
    requires Lists(nodes, m)
    modifies store`history
    ensures Recorded(old(store.history), m, store.history)
  {
    ghost var h := store.history;
    for i := 0 to |nodes|
      invariant forall id :: History(store.history, id) == History(h, id) + FingerprintIn(m, nodes[..i], id)
    {
      var n := nodes[i];
      assert nodes[..i + 1] == nodes[..i] + [n];
      assert n in nodes && m[n.traceId] == n;
      if n.fingerprint.Some? {
        store.RecordArtifactVersion(n.traceId, n.fingerprint.value);
      }
    }
    assert nodes[..|nodes|] == nodes;
  }

  // ----- the passes -----

  /** A list without repeats, read as a table one row at a time. */
  lemma {:induction false} PrefixStep(ns: seq<Node>, i: nat)
    requires UniqueIds(ns) && i < |ns|
    ensures ns[i].traceId !in FirstMap(ns[..i])
    ensures FirstMap(ns[..i + 1]) == FirstMap(ns[..i])[ns[i].traceId := ns[i]]
  {
    if ns[i].traceId in FirstMap(ns[..i]) {
      FirstMapAt(ns[..i], ns[i].traceId);
    }
    assert ns[..i + 1] == ns[..i] + [ns[i]];
    FirstMapAppend(ns[..i], ns[i]);
  }

  lemma {:induction false} ListsFirst(ns: seq<Node>, m: NodeMap)
    requires Lists(ns, m)
    ensures FirstMap(ns) == m && ns[..|ns|] == ns
  {
    forall id | id in m ensures id in FirstMap(ns) { FirstMapHas(ns, m[id]); }
    forall id | id in FirstMap(ns) ensures id in m && m[id] == FirstMap(ns)[id] { FirstMapAt(ns, id); }
  }

  lemma {:induction false} InactiveStep(t: NodeMap, n: Node, m: NodeMap)
    requires n.traceId !in t
    ensures InactiveCopies(t[n.traceId := n]) + m ==
      if n.traceId in m then InactiveCopies(t) + m else (InactiveCopies(t) + m)[n.traceId := n.(active := false)]
  {}

  lemma {:induction false} KeptStep(t: NodeMap, n: Node, changed: set<string>)
    requires n.traceId !in t
    ensures Kept(t[n.traceId := n], changed) == if OnPath(n, changed) then Kept(t, changed) else Kept(t, changed)[n.traceId := n]
  {}

  lemma {:induction false} GoneStep(t: NodeMap, n: Node, changed: set<string>, r: NodeMap)
    requires n.traceId !in t
    ensures Gone(t[n.traceId := n], changed, r) ==
      if n.active && OnPath(n, changed) && n.traceId !in r then Gone(t, changed, r)[n.traceId := n.(active := false)] else Gone(t, changed, r)
  {}

  lemma {:induction false} ListedIds(ns: seq<Node>, m: NodeMap)
    requires Lists(ns, m)
    ensures (set n | n in ns :: n.traceId) == m.Keys
  {}

  /** Historical copies of stored nodes that are not in the list. */
  method AddInactive(prior: seq<Node>, nodes: seq<Node>, ghost table: NodeMap, ghost m: NodeMap) returns (out: seq<Node>)
    requires Lists(prior, table) && Lists(nodes, m)
    ensures Lists(out, InactiveCopies(table) + m)
  {
    var newIds := set n | n in nodes :: n.traceId;
    ListedIds(nodes, m);
    out := nodes;
    assert InactiveCopies(map[]) + m == m;
    for i := 0 to |prior|
      invariant Lists(out, InactiveCopies(FirstMap(prior[..i])) + m)
    {
      var n := prior[i];
      PrefixStep(prior, i);
      InactiveStep(FirstMap(prior[..i]), n, m);
      if n.traceId !in newIds {
        ListsAppend(out, InactiveCopies(FirstMap(prior[..i])) + m, n.(active := false));
        out := out + [n.(active := false)];
      }
    }
    ListsFirst(prior, table);
  }

  /** Nodes and edges of the scanned files, appended in order. */
  method ScanFiles(tree: Tree, paths: seq<string>) returns (nodes: seq<Node>, edges: seq<Edge>)
    requires forall p | p in paths :: p in tree
    ensures nodes == NodesOf(tree, paths) && edges == EdgesOf(tree, paths)
  {
    nodes, edges := [], [];
    for i := 0 to |paths|
      invariant nodes == NodesOf(tree, paths[..i]) && edges == EdgesOf(tree, paths[..i])
    {
      assert paths[i] in paths;
      assert paths[..i + 1][..i] == paths[..i];
      nodes := nodes + tree[paths[i]].nodes;
      edges := edges + tree[paths[i]].edges;
    }
    assert paths[..|paths|] == paths;
  }

  ghost predicate StorableEdges(edges: seq<Edge>) {
    forall e | e in edges :: e.status == Active
  }

  lemma {:induction false} ScannedStorable(tree: Tree, paths: seq<string>)
    requires ValidTree(tree) && forall p | p in paths :: p in tree
    ensures StorableEdges(EdgesOf(tree, paths))
  {
    forall e | e in EdgesOf(tree, paths) ensures e.status == Active {
      var p :| p in paths && e in tree[p].edges;
      assert ValidExtraction(p, tree[p]);
    }
  }

  lemma {:induction false} StructuralStorable(m: NodeMap, edges: seq<Edge>)
    requires SetOf(edges) == StructuralEdges(m)
    ensures StorableEdges(edges)
  {
    forall e | e in edges ensures e.status == Active {
      assert e in SetOf(edges);
      var a, b :| a in m && b in m && Encloses(m[a], m[b]) && e == ContainsEdge(m[a], m[b]);
    }
  }

  /** Sorts the edges by uid and rebuilds both tables. */
  method Rebuild(store: GraphStore, nodes: seq<Node>, edges: seq<Edge>, ghost m: NodeMap)
    requires Injective(store.uid) && Lists(nodes, m) && StorableEdges(edges)
    modifies store`nodes, store`edges
    ensures store.nodes == m && IsEdgeTable(store.edges, SetOf(edges), store.uid)
    ensures store.Valid()
  {
    var sorted := Sort(edges, EdgeOrder(store.uid));
    EdgeOrderTotal(store.uid);
    SortCorrect(edges, EdgeOrder(store.uid));
    assert SetOf(sorted) == SetOf(edges);
    store.ReplaceAll(nodes, sorted, m);
    forall e | e in store.edges ensures e.status == Active {
      assert e in SetOf(edges);
    }
  }

  lemma {:induction false} SetOfConcat<T>(a: seq<T>, b: seq<T>)
    ensures SetOf(a + b) == SetOf(a) + SetOf(b)
  {}

  /** The nodes with the statuses the staleness pass gives them. */
  method StaleNodes(store: GraphStore, nodes: seq<Node>, edges: seq<Edge>, clean: bool, ghost m: NodeMap) returns (out: seq<Node>)
    requires Lists(nodes, m)
    ensures Lists(out, StaledMap(store.history, store.nodes, m, SetOf(edges), clean))
  {
    var array_ := ToArray(nodes);
    StalenessPass(store, array_, edges, clean, m);
    out := array_[..];
  }

  /** The node list and the edges of a full pass: every file scanned, work.toml merged, vanished nodes
      kept as inactive copies, containment derived. */
  method CollectAll(store: GraphStore, tree: Tree, files: seq<string>, work: seq<Node>) returns (nodes: seq<Node>, all: seq<Edge>)
    requires store.Valid() && ValidTree(tree) && forall p | p in files :: p in tree
    ensures Lists(nodes, FullNodes(store.nodes, NodesOf(tree, files), work)) && StorableEdges(all)
    ensures SetOf(all) == SetOf(EdgesOf(tree, files)) + StructuralEdges(FullNodes(store.nodes, NodesOf(tree, files), work))
  {
    var scanned, edges := ScanFiles(tree, files);
    ScannedStorable(tree, files);
    nodes := DedupeNodes(scanned);
    nodes := MergeWork(nodes, work, FirstMap(scanned));
    var prior := store.AllNodes();
    nodes := AddInactive(prior, nodes, store.nodes, FirstMap(work) + FirstMap(scanned));
    UnionAssociates(InactiveCopies(store.nodes), FirstMap(work), FirstMap(scanned));
    var structural := StructuralContainsEdges(nodes, FullNodes(store.nodes, scanned, work));
    StructuralStorable(FullNodes(store.nodes, scanned, work), structural);
    SetOfConcat(edges, structural);
    all := edges + structural;
  }

  /** The full pass: collect, propagate staleness, rebuild the store, record versions. */
  method IndexAll(store: GraphStore, tree: Tree, files: seq<string>, work: seq<Node>, clean: bool)
    requires store.Valid() && ValidTree(tree)
    requires SetOf(files) == tree.Keys && forall p | p in files :: p in tree
    modifies store
    ensures store.Valid()
    ensures FullResult(old(store.Contents()), NodesOf(tree, files), SetOf(EdgesOf(tree, files)), work, clean, store.uid, store.Contents())
  {
    ghost var g := store.Contents();
    ghost var m := FullNodes(g.nodes, NodesOf(tree, files), work);
    var nodes, all := CollectAll(store, tree, files, work);
    nodes := StaleNodes(store, nodes, all, clean, m);
    ghost var staled := StaledMap(g.history, g.nodes, m, SetOf(all), clean);
    Rebuild(store, nodes, all, staled);
    RecordVersions(store, nodes, staled);
    SameFingerprints(g.history, g.nodes, m, SetOf(all), clean, store.history);
  }

  lemma {:induction false} UnionAssociates(a: NodeMap, b: NodeMap, c: NodeMap)
    ensures (a + b) + c == a + (b + c)
  {}

  lemma {:induction false} SameFingerprints(h: map<string, set<string>>, prior: NodeMap, m: NodeMap, edges: set<Edge>, clean: bool, h': map<string, set<string>>)
    requires Recorded(h, StaledMap(h, prior, m, edges, clean), h')
    ensures Recorded(h, m, h')
  {
    forall id | id in m ensures StaledMap(h, prior, m, edges, clean)[id].fingerprint == m[id].fingerprint {
      StaledKeepsRow(h, prior, m, edges, clean, id);
    }
  }

  /** Overwrites or adds each scanned row in the merge dictionary; drops rows of changed files;
      keeps active rows nothing declares any more as inactive copies. */
  method MergeNodes(existing: seq<Node>, recent: seq<Node>, changed: set<string>, ghost prior: NodeMap, ghost r: NodeMap)
      returns (merged: NodeMap, deleted: set<string>)
    requires Lists(existing, prior) && Lists(recent, r)
    ensures merged == IncNodes(prior, changed, r)
    ensures deleted == Gone(prior, changed, r).Keys
  {
    merged := KeepUnchanged(existing, changed, prior);
    merged := Overlay(merged, recent, r);
    merged, deleted := MarkGone(merged, existing, recent, changed, prior, r);
  }

  lemma {:induction false} UnionUpdate(m: NodeMap, t: NodeMap, n: Node)
    ensures m + t[n.traceId := n] == (m + t)[n.traceId := n]
    ensures t[n.traceId := n].Keys == t.Keys + {n.traceId}
  {}

  method KeepUnchanged(existing: seq<Node>, changed: set<string>, ghost prior: NodeMap) returns (merged: NodeMap)
    requires Lists(existing, prior)
    ensures merged == Kept(prior, changed)
  {
    merged := map[];
    for i := 0 to |existing|
      invariant merged == Kept(FirstMap(existing[..i]), changed)
    {
      PrefixStep(existing, i);
      KeptStep(FirstMap(existing[..i]), existing[i], changed);
      if !OnPath(existing[i], changed) {
        merged := merged[existing[i].traceId := existing[i]];
      }
    }
    ListsFirst(existing, prior);
  }

  method Overlay(merged: NodeMap, recent: seq<Node>, ghost r: NodeMap) returns (out: NodeMap)
    requires Lists(recent, r)
    ensures out == merged + r
  {
    out := merged;
    for i := 0 to |recent|
      invariant out == merged + FirstMap(recent[..i])
    {
      PrefixStep(recent, i);
      UnionUpdate(merged, FirstMap(recent[..i]), recent[i]);
      out := out[recent[i].traceId := recent[i]];
    }
    ListsFirst(recent, r);
  }

  method MarkGone(merged: NodeMap, existing: seq<Node>, recent: seq<Node>, changed: set<string>, ghost prior: NodeMap, ghost r: NodeMap)
      returns (out: NodeMap, deleted: set<string>)
    requires Lists(existing, prior) && Lists(recent, r)
    ensures out == merged + Gone(prior, changed, r)
    ensures deleted == Gone(prior, changed, r).Keys
  {
    var newIds := set n | n in recent :: n.traceId;
    ListedIds(recent, r);
    out, deleted := merged, {};
    for i := 0 to |existing|
      invariant out == merged + Gone(FirstMap(existing[..i]), changed, r)
      invariant deleted == Gone(FirstMap(existing[..i]), changed, r).Keys
    {
      var n := existing[i];
      ghost var t := FirstMap(existing[..i]);
      PrefixStep(existing, i);
      GoneStep(t, n, changed, r);
      if n.active && OnPath(n, changed) && n.traceId !in newIds {
        UnionUpdate(merged, Gone(t, changed, r), n.(active := false));
        out := out[n.traceId := n.(active := false)];
        deleted := deleted + {n.traceId};
      }
    }
    ListsFirst(existing, prior);
  }

  /** Edges whose source was neither declared again nor deleted, structural ones excepted. */
  method FilterEdges(edges: seq<Edge>, ids: set<string>, ghost r: NodeMap, ghost gone: NodeMap) returns (kept: seq<Edge>)
    requires ids == r.Keys + gone.Keys
    ensures SetOf(kept) == KeptEdges(edges, r, gone)
    ensures forall e | e in kept :: e in edges
  {
    var changedUids := Uids(ids);
    kept := [];
    for i := 0 to |edges|
      invariant forall e :: e in kept <==> e in edges[..i] && e.key.source !in changedUids && e.key.kind != Structural
    {
      assert edges[..i + 1] == edges[..i] + [edges[i]];
      if edges[i].key.source !in changedUids && edges[i].key.kind != Structural {
        kept := kept + [edges[i]];
      }
    }
    assert edges[..|edges|] == edges;
    forall e: Edge ensures e.key.source !in changedUids <==> forall id | id in r || id in gone :: e.key.source != EntityUid(id) {
      if e.key.source in changedUids {
        var t :| t in ids && e.key.source == EntityUid(t);
        assert t in r || t in gone;
      }
      forall id | id in r || id in gone ensures EntityUid(id) in changedUids { assert id in ids; }
    }
  }

  predicate WantsStub(activeUids: set<Uid>, e: Edge) {
    && e.status == Active && e.key.target !in activeUids
    && var t := Ids.InferredType(UidText(e.key.target)); t == Some("requirement") || t == Some("work")
  }

  function ActiveUids(nodes: seq<Node>): set<Uid> {
    set n | n in nodes && n.active :: EntityUid(n.traceId)
  }

  /** The bootstrap loop: stub nodes for missing requirement or work targets. */
  method StubNodes(nodes: seq<Node>, edges: seq<Edge>) returns (stubs: seq<Node>)
    ensures forall e | e in edges && WantsStub(ActiveUids(nodes), e) :: exists s :: s in stubs && s.traceId == UidText(e.key.target)
    ensures stubs == [] || exists e :: e in edges && WantsStub(ActiveUids(nodes), e)
  {
    var activeUids := ActiveUids(nodes);
    ghost var atStart := activeUids;
    stubs := [];
    for i := 0 to |edges|
      invariant atStart <= activeUids
      invariant forall u | u in activeUids :: u in atStart || exists s :: s in stubs && s.traceId == UidText(u)
      invariant forall e | e in edges[..i] && WantsStub(atStart, e) :: e.key.target in activeUids
      invariant stubs == [] || exists e :: e in edges && WantsStub(atStart, e)
    {
      var e := edges[i];
      assert edges[..i + 1] == edges[..i] + [e];
      if e.status == Active && e.key.target !in activeUids {
        var ntype := Ids.InferNodeType(UidText(e.key.target));
        if ntype == Some("requirement") || ntype == Some("work") {
          assert WantsStub(atStart, e);
          var stub := Node(UidText(e.key.target), ntype.value, None, Suggested, Some(e.key.path), None, false, None, None, Current, false, false, true);
          ghost var before := stubs;
          stubs := stubs + [stub];
          assert forall s | s in before :: s in stubs;
          assert stub in stubs;
          activeUids := activeUids + {e.key.target};
        }
      }
    }
    assert edges[..|edges|] == edges;
  }

  /** Edge targets are uids, and no uid reads as an id of any type: the loop adds nothing. */
  lemma {:induction false} NoStubWanted(activeUids: set<Uid>, e: Edge)
    ensures !WantsStub(activeUids, e)
  {
    Ids.UidHasNoType(e.key.target);
  }

  method AddStubs(nodes: seq<Node>, edges: seq<Edge>) returns (out: seq<Node>)
    ensures out == nodes
  {
    var stubs := StubNodes(nodes, edges);
    forall e | e in edges ensures !WantsStub(ActiveUids(nodes), e) { NoStubWanted(ActiveUids(nodes), e); }
    out := nodes + stubs;
  }

  /** The incremental pass: rescan the change set, merge it into the stored graph, rebuild. */
  method IndexChanged(store: GraphStore, tree: Tree, changedFiles: seq<ChangedFile>, work: seq<Node>)
    requires store.Valid() && ValidTree(tree)
    modifies store
    ensures store.Valid()
    ensures changedFiles == [] ==> store.Contents() == old(store.Contents())
    ensures changedFiles != [] ==>
      IncResult(old(store.Contents()), NodesOf(tree, Parsed(tree, changedFiles)), SetOf(EdgesOf(tree, Parsed(tree, changedFiles))),
                work, ChangedPaths(changedFiles), store.uid, store.Contents())
  {
    if changedFiles == [] {
      return;
    }
    ghost var g := store.Contents();
    var changed := ChangedPaths(changedFiles);
    var newNodes, newEdges := CollectChanged(tree, changedFiles, work);
    ghost var r := Rescanned(tree, changedFiles, work);
    var merged, all := MergeGraph(store, newNodes, newEdges, changed, r);
    var nodes := NodeList(merged);
    nodes := StaleNodes(store, nodes, all, false, merged);
    nodes := AddStubs(nodes, all);
    Rebuild(store, nodes, all, StaledMap(g.history, g.nodes, merged, SetOf(all), false));
    RecordVersions(store, newNodes, r);
  }

  ghost function Rescanned(tree: Tree, changedFiles: seq<ChangedFile>, work: seq<Node>): NodeMap {
    FirstMap(work) + FirstMap(NodesOf(tree, Parsed(tree, changedFiles)))
  }

  /** The nodes and declared edges of the changed files, work.toml merged. */
  method CollectChanged(tree: Tree, changedFiles: seq<ChangedFile>, work: seq<Node>) returns (newNodes: seq<Node>, newEdges: seq<Edge>)
    requires ValidTree(tree)
    ensures Lists(newNodes, Rescanned(tree, changedFiles, work))
    ensures newEdges == EdgesOf(tree, Parsed(tree, changedFiles)) && StorableEdges(newEdges)
  {
    var parsed := ParseList(tree, changedFiles);
    var scanned;
    scanned, newEdges := ScanFiles(tree, parsed);
    ScannedStorable(tree, parsed);
    newNodes := DedupeNodes(scanned);
    newNodes := MergeWork(newNodes, work, FirstMap(scanned));
  }

  /** The merged node table and the edges that go with it. */
  method MergeGraph(store: GraphStore, newNodes: seq<Node>, newEdges: seq<Edge>, changed: set<string>, ghost r: NodeMap)
      returns (merged: NodeMap, all: seq<Edge>)
    requires store.Valid() && Lists(newNodes, r) && StorableEdges(newEdges)
    ensures merged == IncNodes(store.nodes, changed, r) && WellKeyed(merged)
    ensures StorableEdges(all)
    ensures SetOf(all) == KeptEdges(store.edges, r, Gone(store.nodes, changed, r)) + SetOf(newEdges) + StructuralEdges(merged)
  {
    var existing := store.AllNodes();
    var deleted;
    merged, deleted := MergeNodes(existing, newNodes, changed, store.nodes, r);
    IncNodesKeyed(store.nodes, changed, r);
    var nodes := NodeList(merged);
    var newIds := set n | n in newNodes :: n.traceId;
    ListedIds(newNodes, r);
    var kept := FilterEdges(store.edges, newIds + deleted, r, Gone(store.nodes, changed, r));
    var structural := StructuralContainsEdges(nodes, merged);
    StructuralStorable(merged, structural);
    SetOfConcat(kept, newEdges);
    SetOfConcat(kept + newEdges, structural);
    all := kept + newEdges + structural;
  }

  lemma {:induction false} IncNodesKeyed(prior: NodeMap, changed: set<string>, r: NodeMap)
    requires WellKeyed(prior) && WellKeyed(r)
    ensures WellKeyed(IncNodes(prior, changed, r))
  {}

  method ParseList(tree: Tree, files: seq<ChangedFile>) returns (paths: seq<string>)
    ensures paths == Parsed(tree, files)
  {
    paths := [];
    for i := 0 to |files|
      invariant paths == Parsed(tree, files[..i])
    {
      assert files[..i + 1][..i] == files[..i];
      if files[i].deleted || files[i].path !in tree {
        continue;
      }
      paths := paths + [files[i].path];
    }
    assert files[..|files|] == files;
  }
}
