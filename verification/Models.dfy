/** Nodes and edges of the trace graph. */
module Models {

  datatype Option<+T> = None | Some(value: T)

  function SetOf<T>(s: seq<T>): set<T> {
    set x | x in s
  }

  datatype Status = Current | StaleReviewRequired | ReviewedNeedsVerification | Retired

  datatype EdgeStatus = Active | Inactive(reason: string)

  datatype SourceKind = Declared | Structural | Observed | Imported | Suggested

  datatype Span = Span(start: int, end: int)

  /** One trace node. `historical` is the evidence flag `historical_not_current`,
      `changed` the flag of the same name, `state` the lifecycle state of a task or question. */
  datatype Node = Node(
    traceId: string,
    nodeType: string,
    title: Option<string>,
    sourceKind: SourceKind,
    path: Option<string>,
    span: Option<Span>,
    symbolAttached: bool,
    fingerprint: Option<string>,
    state: Option<string>,
    status: Status,
    changed: bool,
    historical: bool,
    active: bool)

  /** The uid of a node: a digest of its trace id, taken to be injective, so a uid is
      represented by the trace id it comes from. */
  datatype Uid = EntityUid(traceId: string)

  /** A uid in writing. The digest is left out; what matters is how every uid starts. */
  function UidText(u: Uid): string {
    "n_" + u.traceId
  }

  /** The parts an edge uid is computed from. */
  datatype EdgeKey = EdgeKey(
    source: Uid,
    predicateName: string,
    target: Uid,
    kind: SourceKind,
    path: string,
    line: int)

  datatype Edge = Edge(key: EdgeKey, status: EdgeStatus)

  /** The uid scheme of edges: a hash of the key, taken to be injective. */
  type EdgeUid = EdgeKey -> nat

  ghost predicate Injective(uid: EdgeUid) {
    forall a, b :: uid(a) == uid(b) ==> a == b
  }

  /** A node as its source text declares it: what the passes themselves write is erased. */
  function Declaration(n: Node): Node {
    n.(status := Current, changed := false, historical := false)
  }

  /** A node table keyed by trace id, the unique column of the nodes table. */
  type NodeMap = map<string, Node>

  predicate WellKeyed(m: NodeMap) {
    forall id | id in m :: m[id].traceId == id
  }

  predicate UniqueIds(ns: seq<Node>) {
    forall i, j | 0 <= i < j < |ns| :: ns[i].traceId != ns[j].traceId
  }

  /** The list holds exactly the nodes of the table, each once. */
  ghost predicate Lists(ns: seq<Node>, m: NodeMap) {
    && UniqueIds(ns)
    && WellKeyed(m)
    && (forall n | n in ns :: n.traceId in m && m[n.traceId] == n)
    && (forall id | id in m :: m[id] in ns)
  }
}
