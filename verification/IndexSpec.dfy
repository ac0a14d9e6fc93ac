/** What an index pass has to produce, as functions of the tree and the old store. */
module IndexSpec {
  import opened Models
  import opened Store

  /** What the extractor reads out of one file: its nodes and its declared edges. */
  datatype Extraction = Extraction(nodes: seq<Node>, edges: seq<Edge>)

  /** The discovered, readable files of a repository, each already extracted. */
  type Tree = map<string, Extraction>

  const WORK_TOML := ".trace/work.toml"

  /** Nodes carry the path of their file and a fingerprint; every edge starts at a node of the same
      file. The file may be work.toml itself, when it holds marker comments. */
  ghost predicate ValidExtraction(path: string, x: Extraction) {
    && (forall n | n in x.nodes :: n.path == Some(path) && n.active && Declaration(n) == n && n.fingerprint.Some?)
    && (forall e | e in x.edges ::
          && e.status == Active && e.key.kind == Declared && e.key.path == path
          && exists n :: n in x.nodes && e.key.source == EntityUid(n.traceId))
  }

  ghost predicate ValidTree(tree: Tree) {
    forall p | p in tree :: ValidExtraction(p, tree[p])
  }

  /** Nodes of `.trace/work.toml`: no symbol, no fingerprint, no edges. */
  ghost predicate ValidWork(work: seq<Node>) {
    forall n | n in work ::
      && n.path == Some(WORK_TOML) && n.active && Declaration(n) == n
      && !n.symbolAttached && n.fingerprint == None
  }

  /** First declaration of each id. */
  function FirstMap(ns: seq<Node>): NodeMap {
    if ns == [] then map[] else Otherwise(FirstMap(ns[..|ns| - 1]), ns[|ns| - 1])
  }

  lemma {:induction false} FirstMapAt(ns: seq<Node>, id: string)
    requires id in FirstMap(ns)
    ensures FirstMap(ns)[id] in ns && FirstMap(ns)[id].traceId == id
  {
    var init := ns[..|ns| - 1];
    if id in FirstMap(init) { FirstMapAt(init, id); }
  }

  lemma {:induction false} FirstMapHas(ns: seq<Node>, n: Node)
    requires n in ns
    ensures n.traceId in FirstMap(ns)
  {
    var init := ns[..|ns| - 1];
    assert ns == init + [ns[|ns| - 1]];
    if n in init { FirstMapHas(init, n); }
  }

  function Otherwise(m: NodeMap, n: Node): NodeMap {
    if n.traceId in m then m else m[n.traceId := n]
  }

  lemma {:induction false} FirstMapAppend(s: seq<Node>, n: Node)
    ensures FirstMap(s + [n]) == Otherwise(FirstMap(s), n)
  {
    assert (s + [n])[..|s|] == s;
  }

  /** Earlier declarations win. */
  lemma {:induction false} FirstMapConcat(a: seq<Node>, b: seq<Node>)
    ensures FirstMap(a + b) == FirstMap(b) + FirstMap(a)
  {
    if b == [] {
      assert a + b == a;
    } else {
      var init, n := b[..|b| - 1], b[|b| - 1];
      calc {
        FirstMap(a + b);
        { assert a + b == (a + init) + [n]; }
        FirstMap((a + init) + [n]);
        { FirstMapAppend(a + init, n); }
        Otherwise(FirstMap(a + init), n);
        { FirstMapConcat(a, init); }
        Otherwise(FirstMap(init) + FirstMap(a), n);
        { OtherwiseUnion(FirstMap(init), FirstMap(a), n); }
        Otherwise(FirstMap(init), n) + FirstMap(a);
        { FirstMapAppend(init, n); assert b == init + [n]; }
        FirstMap(b) + FirstMap(a);
      }
    }
  }

  lemma {:induction false} OtherwiseUnion(m: NodeMap, m': NodeMap, n: Node)
    ensures Otherwise(m + m', n) == Otherwise(m, n) + m'
  {}

  function NodesOf(tree: Tree, paths: seq<string>): seq<Node>
    requires forall p | p in paths :: p in tree
  {
    if paths == [] then []
    else
      var k := |paths| - 1;
      assert paths[k] in paths;
      NodesOf(tree, paths[..k]) + tree[paths[k]].nodes
  }

  function EdgesOf(tree: Tree, paths: seq<string>): (r: seq<Edge>)
    requires forall p | p in paths :: p in tree
    ensures forall p, e | p in paths && e in tree[p].edges :: e in r
    ensures forall e | e in r :: exists p :: p in paths && e in tree[p].edges
  {
    if paths == [] then []
    else
      var k := |paths| - 1;
      assert paths == paths[..k] + [paths[k]];
      EdgesOf(tree, paths[..k]) + tree[paths[k]].edges
  }

  // ----- what a tree declares -----

  predicate Declares(tree: Tree, p: string, id: string) {
    p in tree && id in FirstMap(tree[p].nodes)
  }

  /** No id is declared in two files (TL001 reports it otherwise). */
  ghost predicate UniqueAcrossFiles(tree: Tree) {
    forall p, q, id :: Declares(tree, p, id) && Declares(tree, q, id) ==> p == q
  }

  ghost function DeclaredIds(tree: Tree): set<string> {
    set p, id | p in tree && id in FirstMap(tree[p].nodes) :: id
  }

  ghost function Owner(tree: Tree, id: string): (p: string)
    requires id in DeclaredIds(tree)
    ensures Declares(tree, p, id)
  {
    var p :| p in tree && id in FirstMap(tree[p].nodes);
    p
  }

  ghost function DeclMap(tree: Tree): NodeMap {
    map id | id in DeclaredIds(tree) :: FirstMap(tree[Owner(tree, id)].nodes)[id]
  }

  lemma {:induction false} DeclMapAt(tree: Tree, p: string, id: string)
    requires UniqueAcrossFiles(tree) && Declares(tree, p, id)
    ensures id in DeclMap(tree) && DeclMap(tree)[id] == FirstMap(tree[p].nodes)[id]
  {
    assert id in DeclaredIds(tree);
    assert Owner(tree, id) == p;
  }

  /** Scanning files in any order, with repeats, finds each id where it is declared. */
  lemma {:induction false} ScanFinds(tree: Tree, paths: seq<string>, p: string, id: string)
    requires UniqueAcrossFiles(tree) && Declares(tree, p, id)
    requires p in paths && forall q | q in paths :: q in tree
    ensures id in FirstMap(NodesOf(tree, paths)) && FirstMap(NodesOf(tree, paths))[id] == FirstMap(tree[p].nodes)[id]
  {
    var k := |paths| - 1;
    assert paths == paths[..k] + [paths[k]];
    FirstMapConcat(NodesOf(tree, paths[..k]), tree[paths[k]].nodes);
    if p in paths[..k] {
      ScanFinds(tree, paths[..k], p, id);
    } else if id in FirstMap(NodesOf(tree, paths[..k])) {
      var q := ScannedFrom(tree, paths[..k], id);
    }
  }

  lemma {:induction false} ScannedFrom(tree: Tree, paths: seq<string>, id: string) returns (p: string)
    requires UniqueAcrossFiles(tree)
    requires forall q | q in paths :: q in tree
    requires id in FirstMap(NodesOf(tree, paths))
    ensures p in paths && Declares(tree, p, id) && FirstMap(NodesOf(tree, paths))[id] == FirstMap(tree[p].nodes)[id]
  {
    var k := |paths| - 1;
    assert paths == paths[..k] + [paths[k]];
    FirstMapConcat(NodesOf(tree, paths[..k]), tree[paths[k]].nodes);
    if id in FirstMap(NodesOf(tree, paths[..k])) {
      p := ScannedFrom(tree, paths[..k], id);
    } else {
      p := paths[k];
      assert p in paths;
    }
  }

  ghost function DeclEdges(tree: Tree): set<Edge> {
    set p, e | p in tree && e in tree[p].edges :: e
  }

  /** The nodes a repository state calls for: markers win over work.toml entries. */
  ghost function Live(tree: Tree, work: seq<Node>): NodeMap {
    FirstMap(work) + DeclMap(tree)
  }

  // ----- structural containment -----

  predicate Participates(n: Node) {
    n.active && n.symbolAttached && n.span.Some? && n.path.Some? && n.path.value != ""
  }

  /** One traced symbol strictly encloses another in the same file. */
  predicate Encloses(outer: Node, inner: Node) {
    && Participates(outer) && Participates(inner)
    && outer.path == inner.path
    && outer.span.value.start < inner.span.value.start
    && outer.span.value.end > inner.span.value.end
  }

  function ContainsEdge(outer: Node, inner: Node): Edge
    requires Encloses(outer, inner)
  {
    Edge(EdgeKey(EntityUid(outer.traceId), "contains", EntityUid(inner.traceId), Structural,
                 inner.path.value, inner.span.value.start), Active)
  }

  ghost function StructuralEdges(m: NodeMap): set<Edge> {
    set a, b | a in m && b in m && Encloses(m[a], m[b]) :: ContainsEdge(m[a], m[b])
  }

  /** The edges a repository state calls for. */
  ghost function LiveEdges(tree: Tree, work: seq<Node>): set<Edge> {
    DeclEdges(tree) + StructuralEdges(Live(tree, work))
  }

  // ----- staleness -----

  /** Some other fingerprint was recorded for this artifact. */
  predicate IsChanged(h: map<string, set<string>>, n: Node) {
    n.fingerprint.Some? && PreviousFingerprints(h, n.traceId, n.fingerprint.value) != {}
  }

  /** Status of a node from its own history and its old row. */
  function Carried(h: map<string, set<string>>, prior: NodeMap, n: Node, clean: bool): Node {
    if IsChanged(h, n) then n.(changed := true, status := Current)
    else if n.traceId in prior && prior[n.traceId].status != Current && !clean then
      n.(status := prior[n.traceId].status)
    else n
  }

  function MarkStale(n: Node): Node {
    if n.status != StaleReviewRequired then n.(status := StaleReviewRequired, historical := true) else n
  }

  /** A declared active edge leads from the node to a changed artifact. */
  ghost predicate DependsOnChanged(h: map<string, set<string>>, m: NodeMap, edges: set<Edge>, id: string) {
    exists e, t :: e in edges && e.key.kind == Declared && e.status == Active && e.key.source == EntityUid(id)
      && t in m && IsChanged(h, m[t]) && e.key.target == EntityUid(t)
  }

  ghost function Staled(h: map<string, set<string>>, prior: NodeMap, m: NodeMap, edges: set<Edge>, clean: bool, id: string): Node
    requires id in m
  {
    var n := Carried(h, prior, m[id], clean);
    if DependsOnChanged(h, m, edges, id) then MarkStale(n) else n
  }

  ghost function StaledMap(h: map<string, set<string>>, prior: NodeMap, m: NodeMap, edges: set<Edge>, clean: bool): NodeMap {
    map id | id in m :: Staled(h, prior, m, edges, clean, id)
  }

  /** Two versions of a row that differ in status, changed and historical flags at most. */
  predicate SameRow(a: Node, b: Node) {
    && a.traceId == b.traceId && a.active == b.active
    && a.fingerprint == b.fingerprint && a.path == b.path
    && Declaration(a) == Declaration(b)
  }

  lemma {:induction false} CarriedKeepsRow(h: map<string, set<string>>, prior: NodeMap, n: Node, clean: bool)
    ensures SameRow(Carried(h, prior, n, clean), n)
  {}

  lemma {:induction false} MarkKeepsRow(n: Node)
    ensures SameRow(MarkStale(n), n)
  {}

  /** The staleness pass rewrites bookkeeping only. */
  lemma {:induction false} StaledKeepsRow(h: map<string, set<string>>, prior: NodeMap, m: NodeMap, edges: set<Edge>, clean: bool, id: string)
    requires id in m
    ensures SameRow(Staled(h, prior, m, edges, clean, id), m[id])
  {
    CarriedKeepsRow(h, prior, m[id], clean);
    MarkKeepsRow(Carried(h, prior, m[id], clean));
  }

  function WithFingerprint(h: map<string, set<string>>, n: Node): map<string, set<string>> {
    if n.fingerprint.Some? then h[n.traceId := History(h, n.traceId) + {n.fingerprint.value}] else h
  }

  /** The history after every fingerprint of the table has been recorded. */
  ghost predicate Recorded(h: map<string, set<string>>, m: NodeMap, h': map<string, set<string>>) {
    forall id :: History(h', id) ==
      History(h, id) + if id in m && m[id].fingerprint.Some? then {m[id].fingerprint.value} else {}
  }

  // ----- the two passes -----

  /** Historical copy of nodes whose marker disappeared. */
  function InactiveCopies(m: NodeMap): NodeMap {
    map id | id in m :: m[id].(active := false)
  }

  function FullNodes(prior: NodeMap, declared: seq<Node>, work: seq<Node>): NodeMap {
    InactiveCopies(prior) + FirstMap(work) + FirstMap(declared)
  }

  ghost predicate FullResult(g: Graph, declared: seq<Node>, edges: set<Edge>, work: seq<Node>, clean: bool, uid: EdgeUid, g': Graph) {
    var m := FullNodes(g.nodes, declared, work);
    var all := edges + StructuralEdges(m);
    && g'.nodes == StaledMap(g.history, g.nodes, m, all, clean)
    && IsEdgeTable(g'.edges, all, uid)
    && Recorded(g.history, m, g'.history)
  }

  predicate OnPath(n: Node, paths: set<string>) {
    n.path.Some? && n.path.value in paths
  }

  /** Rows whose file is not part of the change set. */
  function Kept(prior: NodeMap, changed: set<string>): NodeMap {
    map id | id in prior && !OnPath(prior[id], changed) :: prior[id]
  }

  /** Active rows of changed files that nothing declares any more. */
  function Gone(prior: NodeMap, changed: set<string>, recent: NodeMap): NodeMap {
    map id | id in prior && prior[id].active && OnPath(prior[id], changed) && id !in recent :: prior[id].(active := false)
  }

  function IncNodes(prior: NodeMap, changed: set<string>, recent: NodeMap): NodeMap {
    Kept(prior, changed) + recent + Gone(prior, changed, recent)
  }

  /** An edge whose source was not declared again or deleted. */
  ghost predicate Survives(e: Edge, recent: NodeMap, gone: NodeMap) {
    && e.key.kind != Structural
    && forall id | id in recent || id in gone :: e.key.source != EntityUid(id)
  }

  ghost function KeptEdges(edges: seq<Edge>, recent: NodeMap, gone: NodeMap): set<Edge> {
    set e | e in edges && Survives(e, recent, gone)
  }

  ghost predicate IncResult(g: Graph, declared: seq<Node>, edges: set<Edge>, work: seq<Node>, changed: set<string>, uid: EdgeUid, g': Graph) {
    var recent := FirstMap(work) + FirstMap(declared);
    var m := IncNodes(g.nodes, changed, recent);
    var all := KeptEdges(g.edges, recent, Gone(g.nodes, changed, recent)) + edges + StructuralEdges(m);
    && g'.nodes == StaledMap(g.history, g.nodes, m, all, false)
    && IsEdgeTable(g'.edges, all, uid)
    && Recorded(g.history, recent, g'.history)
  }
}
