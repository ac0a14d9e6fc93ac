/** Causal paths as a reader sees them: root first, and ranked by the nodes they meet. */
module CausalPaths {
  import opened Models
  import opened Store
  import opened Ordering
  import opened Why

  // ----- paths -----

  predicate IsCause(name: string) {
    name in {"work", "satisfies", "implements", "addresses", "derived_from"}
  }

  /** The hop leads to a stored node, and carries it. */
  predicate IsStoredHop(g: Graph, h: Hop) {
    h.edge.key.target.traceId in g.nodes && h.node == g.nodes[h.edge.key.target.traceId]
  }

  /** What hop i of a path to u explains: the node of the next hop, or u. */
  function Explained(u: Uid, p: Chain, i: nat): Uid
    requires i < |p|
  {
    if i + 1 < |p| then p[i + 1].edge.key.target else u
  }

  /** From a root to u, every edge leads from what it explains to a cause of it, and no node is met twice. */
  ghost predicate IsCausalPath(g: Graph, u: Uid, p: Chain) {
    && (forall i | 0 <= i < |p| ::
          p[i].edge in g.edges && IsCause(p[i].edge.key.predicateName) && p[i].edge.key.source == Explained(u, p, i) && IsStoredHop(g, p[i]))
    && (forall i | 0 <= i < |p| :: p[i].edge.key.target != u)
    && (forall i, j | 0 <= i < j < |p| :: p[i].edge.key.target != p[j].edge.key.target)
  }

  /** Every stored cause of the first node is on the path. */
  ghost predicate StartsAtRoot(g: Graph, u: Uid, p: Chain)
    requires p != []
  {
    forall e | e in g.edges && e.key.source == p[0].edge.key.target && IsCause(e.key.predicateName) && e.key.target.traceId in g.nodes ::
      e.key.target == u || exists i | 0 <= i < |p| :: p[i].edge.key.target == e.key.target
  }

  lemma {:induction false} CausalExactly(e: Edge)
    ensures Causal(e) <==> IsCause(e.key.predicateName) && e.key.target != e.key.source
  {}

  const PREFERRED_CAUSES: seq<string> := ["work", "satisfies", "implements", "addresses", "derived_from"]

  /** The predicate of a stands before that of b in the list, or is the same and its cause has the
      smaller uid. */
  ghost predicate WalkedFirst(order: UidOrder, a: Edge, b: Edge) {
    exists i, j | 0 <= i <= j < |PREFERRED_CAUSES| ::
      && a.key.predicateName == PREFERRED_CAUSES[i] && b.key.predicateName == PREFERRED_CAUSES[j]
      && (i == j ==> order(a.key.target) <= order(b.key.target))
  }

  lemma {:induction false} RankIsPosition(name: string) returns (i: nat)
    requires IsCause(name)
    ensures i < |PREFERRED_CAUSES| && PREFERRED_CAUSES[i] == name && PredicateRank(name) == Some(i)
  {
    i := if name == "work" then 0 else if name == "satisfies" then 1 else if name == "implements" then 2 else if name == "addresses" then 3 else 4;
  }

  lemma {:induction false} PreferenceIsTotal(order: UidOrder)
    ensures TotalPreorder(ByPreference(order))
  {
    forall a: Edge, b: Edge, c: Edge | Preferred(order, a, b) && Preferred(order, b, c) ensures Preferred(order, a, c) {}
  }

  /** The causes of a node are walked in the order of the list, and those by one predicate in uid order. */
  lemma {:induction false} PredecessorsInOrder(g: Graph, order: UidOrder, u: Uid, i: nat, j: nat)
    requires i < j < |Predecessors(g, order, u)|
    ensures WalkedFirst(order, Predecessors(g, order, u)[i], Predecessors(g, order, u)[j])
  {
    var es := Predecessors(g, order, u);
    PreferenceIsTotal(order);
    SortCorrect(CausalFrom(g.edges, u), ByPreference(order));
    PredecessorsMembers(g, order, u, es[i]);
    PredecessorsMembers(g, order, u, es[j]);
    assert ByPreference(order)(es[i], es[j]);
    var a := RankIsPosition(es[i].key.predicateName);
    var b := RankIsPosition(es[j].key.predicateName);
    assert a <= b;
  }

  // ----- in arrival order -----

  predicate ArrivalHop(g: Graph, u: Uid, c: Chain, i: nat)
    requires i < |c|
  {
    && c[i].edge in g.edges && IsCause(c[i].edge.key.predicateName) && IsStoredHop(g, c[i])
    && c[i].edge.key.source == if i == 0 then u else c[i - 1].edge.key.target
  }

  ghost predicate Avoids(c: Chain, stack: set<Uid>) {
    && (forall i | 0 <= i < |c| :: c[i].edge.key.target !in stack)
    && (forall i, j | 0 <= i < j < |c| :: c[i].edge.key.target != c[j].edge.key.target)
  }

  ghost predicate Arrives(g: Graph, u: Uid, stack: set<Uid>, c: Chain) {
    (forall i | 0 <= i < |c| :: ArrivalHop(g, u, c, i)) && Avoids(c, stack)
  }

  lemma {:induction false} AvoidsTail(c: Chain, stack: set<Uid>)
    requires c != []
    ensures var v := c[0].edge.key.target; Avoids(c, stack) <==> v !in stack && Avoids(c[1..], stack + {v})
  {
    var v := c[0].edge.key.target;
    if Avoids(c, stack) {
      forall i | 0 <= i < |c[1..]| ensures c[1..][i].edge.key.target !in stack + {v} {
        assert c[0].edge.key.target != c[i + 1].edge.key.target;
      }
    }
    if v !in stack && Avoids(c[1..], stack + {v}) {
      forall i | 0 < i < |c| ensures c[i].edge.key.target !in stack + {v} {
        assert c[1..][i - 1].edge.key.target !in stack + {v};
      }
      forall i, j | 0 < i < j < |c| ensures c[i].edge.key.target != c[j].edge.key.target {
        assert c[1..][i - 1].edge.key.target != c[1..][j - 1].edge.key.target;
      }
    }
  }

  lemma {:induction false} ArrivalTail(g: Graph, u: Uid, c: Chain)
    requires c != []
    ensures (forall i | 0 <= i < |c| :: ArrivalHop(g, u, c, i)) <==>
      ArrivalHop(g, u, c, 0) && forall i | 0 <= i < |c[1..]| :: ArrivalHop(g, c[0].edge.key.target, c[1..], i)
  {
    var v := c[0].edge.key.target;
    forall i | 0 <= i < |c[1..]| ensures ArrivalHop(g, v, c[1..], i) <==> ArrivalHop(g, u, c, i + 1) {}
    if ArrivalHop(g, u, c, 0) && forall i | 0 <= i < |c[1..]| :: ArrivalHop(g, v, c[1..], i) {
      forall i | 0 <= i < |c| ensures ArrivalHop(g, u, c, i) {
        if i > 0 { assert ArrivalHop(g, v, c[1..], i - 1); }
      }
    }
  }

  /** The chains of the search are told by their hops. */
  lemma {:induction false} ChainExactly(g: Graph, u: Uid, stack: set<Uid>, c: Chain)
    requires u in stack
    ensures IsChain(g, u, stack, c) <==> Arrives(g, u, stack, c)
    decreases |c|
  {
    if c != [] {
      var v := c[0].edge.key.target;
      ChainExactly(g, v, stack + {v}, c[1..]);
      AvoidsTail(c, stack);
      ArrivalTail(g, u, c);
      CausalExactly(c[0].edge);
      assert c[0] == Hop(c[0].edge, c[0].node);
    }
  }

  function Met(c: Chain): set<Uid> {
    set i | 0 <= i < |c| :: c[i].edge.key.target
  }

  function FarEnd(u: Uid, c: Chain): Uid {
    if c == [] then u else c[|c| - 1].edge.key.target
  }

  lemma {:induction false} MetTail(c: Chain, stack: set<Uid>)
    requires c != []
    ensures stack + Met(c) == (stack + {c[0].edge.key.target}) + Met(c[1..])
  {
    forall x | x in Met(c) ensures x in {c[0].edge.key.target} + Met(c[1..]) {
      var i :| 0 <= i < |c| && c[i].edge.key.target == x;
      if i > 0 { assert c[1..][i - 1].edge.key.target == x; }
    }
    forall x | x in Met(c[1..]) ensures x in Met(c) {
      var i :| 0 <= i < |c[1..]| && c[1..][i].edge.key.target == x;
      assert c[i + 1].edge.key.target == x;
    }
    assert c[0].edge.key.target in Met(c);
  }

  /** A chain cannot be prolonged when its far end is a root beside what it has met. */
  lemma {:induction false} MaximalExactly(g: Graph, u: Uid, stack: set<Uid>, c: Chain)
    ensures IsMaximal(g, u, stack, c) <==> IsRoot(g, FarEnd(u, c), stack + Met(c))
    decreases |c|
  {
    if c == [] {
      assert stack + Met(c) == stack;
    } else {
      var v := c[0].edge.key.target;
      MaximalExactly(g, v, stack + {v}, c[1..]);
      MetTail(c, stack);
      assert FarEnd(u, c) == FarEnd(v, c[1..]);
    }
  }

  // ----- turned around -----

  /** Root first instead of target first. */
  function Reversed(c: Chain): (r: Chain)
    ensures |r| == |c|
  {
    if c == [] then [] else Reversed(c[1..]) + [c[0]]
  }

  lemma {:induction false} ReversedAt(c: Chain, i: nat)
    requires i < |c|
    ensures Reversed(c)[i] == c[|c| - 1 - i]
  {
    if i < |c| - 1 {
      ReversedAt(c[1..], i);
    }
  }

  lemma {:induction false} AllReversed(c: Chain)
    ensures forall i | 0 <= i < |c| :: Reversed(c)[i] == c[|c| - 1 - i]
    ensures forall i | 0 <= i < |c| :: c[i] == Reversed(c)[|c| - 1 - i]
  {
    forall i: nat | i < |c| ensures Reversed(c)[i] == c[|c| - 1 - i] { ReversedAt(c, i); }
  }

  lemma {:induction false} ReversedTwice(c: Chain)
    ensures Reversed(Reversed(c)) == c
  {
    AllReversed(c);
    AllReversed(Reversed(c));
  }

  /** Turned around, the chains of the search from u are the causal paths to u. */
  lemma {:induction false} PathExactly(g: Graph, u: Uid, c: Chain)
    ensures IsChain(g, u, {u}, c) <==> IsCausalPath(g, u, Reversed(c))
  {
    var p := Reversed(c);
    ChainExactly(g, u, {u}, c);
    AllReversed(c);
    if Arrives(g, u, {u}, c) {
      forall i | 0 <= i < |p|
        ensures p[i].edge in g.edges && IsCause(p[i].edge.key.predicateName) && p[i].edge.key.source == Explained(u, p, i) && IsStoredHop(g, p[i])
      {
        assert ArrivalHop(g, u, c, |c| - 1 - i);
      }
    }
    if IsCausalPath(g, u, p) {
      forall i | 0 <= i < |c| ensures ArrivalHop(g, u, c, i) {
        var j := |c| - 1 - i;
        assert p[j].edge.key.source == Explained(u, p, j);
      }
      forall i, j | 0 <= i < j < |c| ensures c[i].edge.key.target != c[j].edge.key.target {
        assert p[|c| - 1 - j].edge.key.target != p[|c| - 1 - i].edge.key.target;
      }
    }
  }

  lemma {:induction false} RootExactly(g: Graph, u: Uid, c: Chain)
    requires c != []
    ensures IsMaximal(g, u, {u}, c) <==> StartsAtRoot(g, u, Reversed(c))
  {
    var p := Reversed(c);
    MaximalExactly(g, u, {u}, c);
    AllReversed(c);
    forall x ensures x in Met(c) <==> exists i | 0 <= i < |p| :: p[i].edge.key.target == x {
      if x in Met(c) {
        var i :| 0 <= i < |c| && c[i].edge.key.target == x;
        assert p[|c| - 1 - i].edge.key.target == x;
      }
      if i :| 0 <= i < |p| && p[i].edge.key.target == x {
        assert c[|c| - 1 - i].edge.key.target == x;
      }
    }
    assert p[0].edge.key.target == FarEnd(u, c) && FarEnd(u, c) in Met(c);
    forall e: Edge ensures Causal(e) <==> IsCause(e.key.predicateName) && e.key.target != e.key.source { CausalExactly(e); }
  }

  // ----- ranking -----

  const PREFERRED_TYPES := ["work", "requirement", "decision", "plan", "implementation"]

  /** s stands before t in the preferred chain; types outside it come last. */
  predicate ComesBefore(s: string, t: string) {
    exists i | 0 <= i < |PREFERRED_TYPES| :: PREFERRED_TYPES[i] == s && forall j | 0 <= j <= i :: PREFERRED_TYPES[j] != t
  }

  /** The types on the path, the target's last. */
  function TypesOn(p: Chain, target: Node): seq<string> {
    seq(|p| + 1, i requires 0 <= i <= |p| => if i < |p| then p[i].node.nodeType else target.nodeType)
  }

  function IdsOn(p: Chain, target: Node): seq<string> {
    seq(|p| + 1, i requires 0 <= i <= |p| => if i < |p| then p[i].node.traceId else target.traceId)
  }

  /** The pairs of places on the path that are in preferred order. */
  function PairsBefore(types: seq<string>): set<(nat, nat)> {
    set i: nat, j: nat | i < j < |types| && ComesBefore(types[i], types[j]) :: (i, j)
  }

  /** What the path is worth: its types by weight, two for each pair in preferred order, less its length. */
  function Merit(p: Chain, target: Node): int {
    var types := TypesOn(p, target);
    var m := multiset(types);
    100 * m["work"] + 90 * m["requirement"] + 80 * m["decision"] + 70 * m["plan"] + 2 * |PairsBefore(types)| - |p|
  }

  function JoinDashes(ids: seq<string>): string {
    if ids == [] then "" else if |ids| == 1 then ids[0] else ids[0] + "-" + JoinDashes(ids[1..])
  }

  /** p is worth more, or as much and shorter, or as long too and first by its ids. */
  predicate Outranks(p: Chain, q: Chain, target: Node) {
    || Merit(p, target) > Merit(q, target)
    || (Merit(p, target) == Merit(q, target) &&
        (|p| < |q| || (|p| == |q| && StringLe(JoinDashes(IdsOn(p, target)), JoinDashes(IdsOn(q, target))))))
  }

  /** Both paths meet the same nodes in the same order. */
  predicate SameNodes(p: Chain, q: Chain) {
    |p| == |q| && forall i | 0 <= i < |p| :: p[i].node.traceId == q[i].node.traceId
  }
}
