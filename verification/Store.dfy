/** The graph store: node and edge tables plus the artifact version history. */
module Store {
  import opened Models
  import opened Ordering

  datatype Graph = Graph(nodes: NodeMap, edges: seq<Edge>, history: map<string, set<string>>)

  function History(h: map<string, set<string>>, id: string): set<string> {
    if id in h then h[id] else {}
  }

  /** Fingerprints recorded for an artifact other than the given one. The code asks for the
      newest of them, and only whether there is one. */
  function PreviousFingerprints(h: map<string, set<string>>, id: string, exclude: string): set<string> {
    History(h, id) - {exclude}
  }

  /** Every version of `h` is still recorded in `h'`. */
  ghost predicate HistoryGrows(h: map<string, set<string>>, h': map<string, set<string>>) {
    forall id :: History(h, id) <= History(h', id)
  }

  // ----- the edge table -----

  ghost predicate StrictlySorted(rows: seq<Edge>, uid: EdgeUid) {
    forall i, j | 0 <= i < j < |rows| :: uid(rows[i].key) < uid(rows[j].key)
  }

  /** The rows are the given edges, one per uid, in uid order. */
  ghost predicate IsEdgeTable(rows: seq<Edge>, edges: set<Edge>, uid: EdgeUid) {
    && StrictlySorted(rows, uid)
    && (forall e :: e in rows <==> e in edges)
  }

  /** The first row has the least uid of all edges. */
  lemma {:induction false} FirstIsLeast(rows: seq<Edge>, edges: set<Edge>, uid: EdgeUid)
    requires rows != [] && IsEdgeTable(rows, edges, uid)
    ensures rows[0] in edges
    ensures forall e | e in edges && uid(e.key) <= uid(rows[0].key) :: e == rows[0]
  {
    assert rows[0] in rows;
    forall e | e in edges ensures e == rows[0] || uid(rows[0].key) < uid(e.key) {
      assert e in rows;
      var i :| 0 <= i < |rows| && rows[i] == e;
    }
  }

  /** A set of edges has at most one table: clean and incremental rebuilds of the same
      edges store identical row sequences. */
  lemma {:induction false} EdgeTableUnique(r1: seq<Edge>, r2: seq<Edge>, edges: set<Edge>, uid: EdgeUid)
    requires IsEdgeTable(r1, edges, uid) && IsEdgeTable(r2, edges, uid)
    ensures r1 == r2
  {
    assert r1 == [] <==> edges == {} by { if r1 != [] { assert r1[0] in r1; } }
    assert r2 == [] <==> edges == {} by { if r2 != [] { assert r2[0] in r2; } }
    if r1 != [] {
      FirstIsLeast(r1, edges, uid);
      FirstIsLeast(r2, edges, uid);
      TailIsTable(r1, edges, uid);
      TailIsTable(r2, edges, uid);
      EdgeTableUnique(r1[1..], r2[1..], edges - {r1[0]}, uid);
      assert r1 == [r1[0]] + r1[1..];
      assert r2 == [r2[0]] + r2[1..];
    }
  }

  lemma {:induction false} TailIsTable(rows: seq<Edge>, edges: set<Edge>, uid: EdgeUid)
    requires rows != [] && IsEdgeTable(rows, edges, uid)
    ensures IsEdgeTable(rows[1..], edges - {rows[0]}, uid)
  {
    forall e | e in edges - {rows[0]} ensures e in rows[1..] {
      assert e in rows;
      var i :| 0 <= i < |rows| && rows[i] == e;
      assert rows[1..][i - 1] == e;
    }
    forall e | e in rows[1..] ensures e in edges - {rows[0]} {
      var i :| 0 <= i < |rows[1..]| && rows[1..][i] == e;
      assert rows[i + 1] == e && rows[i + 1] in edges;
      assert uid(rows[0].key) < uid(rows[i + 1].key);
    }
  }

  function EdgeOrder(uid: EdgeUid): (Edge, Edge) -> bool {
    (a: Edge, b: Edge) => uid(a.key) <= uid(b.key)
  }

  /** SQL `INSERT OR REPLACE` of one edge: a row of the same uid goes, the new one comes last. */
  function Upsert(rows: seq<Edge>, e: Edge, uid: EdgeUid): seq<Edge> {
    RemoveUid(rows, uid(e.key), uid) + [e]
  }

  function RemoveUid(rows: seq<Edge>, u: nat, uid: EdgeUid): (r: seq<Edge>)
    ensures forall e :: e in r <==> e in rows && uid(e.key) != u
    ensures StrictlySorted(rows, uid) ==> StrictlySorted(r, uid)
  {
    if rows == [] then []
    else
      var last := rows[|rows| - 1];
      var init := RemoveUid(rows[..|rows| - 1], u, uid);
      assert rows == rows[..|rows| - 1] + [last];
      if uid(last.key) == u then init else init + [last]
  }

  /** Inserting sorted edges one by one keeps the rows the table of what was inserted. */
  lemma {:induction false} UpsertKeepsTable(rows: seq<Edge>, es: seq<Edge>, i: nat, uid: EdgeUid)
    requires i < |es| && Injective(uid)
    requires forall e | e in es :: e.status == Active
    requires SortedBy(es, EdgeOrder(uid))
    requires IsEdgeTable(rows, SetOf(es[..i]), uid)
    ensures IsEdgeTable(Upsert(rows, es[i], uid), SetOf(es[..i + 1]), uid)
  {
    var e := es[i];
    var kept := RemoveUid(rows, uid(e.key), uid);
    forall k | 0 <= k < |kept| ensures uid(kept[k].key) < uid(e.key) {
      assert kept[k] in kept && kept[k] in rows && kept[k] in es[..i];
      var m :| 0 <= m < i && es[m] == kept[k];
      assert EdgeOrder(uid)(es[m], es[i]);
    }
    assert es[..i + 1] == es[..i] + [e];
    forall x | x in es[..i + 1] ensures x in kept + [e] {
      if x != e {
        assert x in es[..i] && x in rows;
        assert x.status == Active && e.status == Active;
      }
    }
  }

  /** The rows of a store only hold active edges, in uid order. */
  ghost predicate ValidGraph(g: Graph, uid: EdgeUid) {
    && WellKeyed(g.nodes)
    && StrictlySorted(g.edges, uid)
    && (forall e | e in g.edges :: e.status == Active)
  }

  function NodeByUid(nodes: NodeMap, uid: Uid): Option<Node> {
    if uid.traceId in nodes then Some(nodes[uid.traceId]) else None
  }

  /** The rows keyed by id. */
  method NodeTable(ns: seq<Node>, ghost table: NodeMap) returns (m: NodeMap)
    requires Lists(ns, table)
    ensures m == table
  {
    m := map[];
    for i := 0 to |ns|
      invariant forall id :: id in m <==> exists k :: 0 <= k < i && ns[k].traceId == id
      invariant forall id | id in m :: id in table && m[id] == table[id]
    {
      m := m[ns[i].traceId := ns[i]];
    }
    forall id | id in table ensures id in m {
      assert table[id] in ns;
    }
  }

  class GraphStore {
    var nodes: NodeMap
    var edges: seq<Edge>
    var history: map<string, set<string>>
    const uid: EdgeUid

    constructor (uid: EdgeUid)
      ensures Contents() == Graph(map[], [], map[]) && this.uid == uid
    {
      this.uid := uid;
      nodes, edges, history := map[], [], map[];
    }

    function Contents(): Graph reads this { Graph(nodes, edges, history) }

    ghost predicate Valid() reads this {
      ValidGraph(Contents(), uid) && Injective(uid)
    }

    /** All rows of the nodes table. The order by uid is a hash order, so callers get it
        as some order. */
    method AllNodes() returns (r: seq<Node>)
      requires WellKeyed(nodes)
      ensures Lists(r, nodes)
    {
      r := NodeList(nodes);
    }

    /** Replaces both tables by the given batch; the version history is untouched. */
    method ReplaceAll(ns: seq<Node>, es: seq<Edge>, ghost table: NodeMap)
      requires Injective(uid)
      requires Lists(ns, table)
      requires forall e | e in es :: e.status == Active
      requires SortedBy(es, EdgeOrder(uid))
      modifies this`nodes, this`edges
      ensures nodes == table
      ensures IsEdgeTable(edges, SetOf(es), uid)
    {
      nodes := NodeTable(ns, table);
      edges := [];
      for i := 0 to |es|
        invariant nodes == table
        invariant IsEdgeTable(edges, SetOf(es[..i]), uid)
      {
        UpsertKeepsTable(edges, es, i, uid);
        edges := Upsert(edges, es[i], uid);
      }
      assert es[..|es|] == es;
    }

    method RecordArtifactVersion(id: string, fp: string)
      modifies this`history
      ensures history == old(history)[id := History(old(history), id) + {fp}]
    {
      history := history[id := History(history, id) + {fp}];
    }

    method SetNodeStatus(id: string, status: Status)
      modifies this`nodes
      ensures nodes == if id in old(nodes) then old(nodes)[id := old(nodes)[id].(status := status)] else old(nodes)
    {
      if id in nodes {
        nodes := nodes[id := nodes[id].(status := status)];
      }
    }
  }

  /** The values of a node table as a list, in some order. */
  method NodeList(m: NodeMap) returns (r: seq<Node>)
    requires WellKeyed(m)
    ensures Lists(r, m)
  {
    r := [];
    var todo := m.Keys;
    while todo != {}
      invariant todo <= m.Keys
      invariant UniqueIds(r)
      invariant forall n | n in r :: n.traceId in m && n.traceId !in todo && m[n.traceId] == n
      invariant forall id | id in m && id !in todo :: m[id] in r
      decreases |todo|
    {
      var id :| id in todo;
      r := r + [m[id]];
      todo := todo - {id};
    }
  }
}
