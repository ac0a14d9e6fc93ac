/** The causal path query: candidates turned around, made unique, ranked, and cut to size. */
module WhyPaths {
  import opened Models
  import opened Store
  import opened Ordering
  import opened Why
  import opened CausalPaths

  // ----- ranking -----

  function TypePresence(t: string): nat {
    if t == "work" then 100 else if t == "requirement" then 90 else if t == "decision" then 80 else if t == "plan" then 70 else 0
  }

  function TypePosition(t: string): nat {
    if t == "work" then 0 else if t == "requirement" then 1 else if t == "decision" then 2
    else if t == "plan" then 3 else if t == "implementation" then 4 else 5
  }

  function TotalPresence(types: seq<string>): nat {
    if types == [] then 0 else TypePresence(types[0]) + TotalPresence(types[1..])
  }

  /** Later positions in `types` that come after position p in the preferred order. */
  function InOrderAfter(p: nat, types: seq<string>): nat {
    if types == [] then 0 else (if p < TypePosition(types[0]) then 1 else 0) + InOrderAfter(p, types[1..])
  }

  function PairsInOrder(types: seq<string>): nat {
    if types == [] then 0 else InOrderAfter(TypePosition(types[0]), types[1..]) + PairsInOrder(types[1..])
  }

  function NodeIds(path: Chain): seq<string> {
    if path == [] then [] else [path[0].node.traceId] + NodeIds(path[1..])
  }

  function NodeTypes(path: Chain): seq<string> {
    if path == [] then [] else [path[0].node.nodeType] + NodeTypes(path[1..])
  }

  /** Sort key: negated score, length, then the chain of ids. */
  datatype Rank = Rank(penalty: int, length: nat, ids: string)

  function Score(path: Chain, target: Node): Rank {
    var types := NodeTypes(path) + [target.nodeType];
    Rank(|path| - TotalPresence(types) - 2 * PairsInOrder(types), |path|, JoinDashes(NodeIds(path) + [target.traceId]))
  }

  predicate RankLe(a: Rank, b: Rank) {
    || a.penalty < b.penalty
    || (a.penalty == b.penalty && (a.length < b.length || (a.length == b.length && StringLe(a.ids, b.ids))))
  }

  function Better(target: Node): (Chain, Chain) -> bool {
    (a: Chain, b: Chain) => RankLe(Score(a, target), Score(b, target))
  }

  lemma {:induction false} RankTotal(a: Rank, b: Rank)
    ensures RankLe(a, b) || RankLe(b, a)
  {
    StringLeTotal(a.ids, b.ids);
  }

  lemma {:induction false} RankTransitive(a: Rank, b: Rank, c: Rank)
    requires RankLe(a, b) && RankLe(b, c)
    ensures RankLe(a, c)
  {
    if StringLe(a.ids, b.ids) && StringLe(b.ids, c.ids) {
      StringLeTransitive(a.ids, b.ids, c.ids);
    }
  }

  lemma {:induction false} BetterIsAPreorder(target: Node)
    ensures TotalPreorder(Better(target))
  {
    var le := Better(target);
    forall x: Chain, y: Chain ensures le(x, y) || le(y, x) {
      RankTotal(Score(x, target), Score(y, target));
    }
    forall x: Chain, y: Chain, z: Chain | le(x, y) && le(y, z) ensures le(x, z) {
      RankTransitive(Score(x, target), Score(y, target), Score(z, target));
    }
  }

  // ----- what the sort key says -----

  lemma {:induction false} ListsOfPath(path: Chain, target: Node)
    ensures NodeTypes(path) + [target.nodeType] == TypesOn(path, target)
    ensures NodeIds(path) + [target.traceId] == IdsOn(path, target)
  {
    if path != [] {
      var rest := path[1..];
      ListsOfPath(rest, target);
      forall i | 0 < i <= |path| ensures TypesOn(path, target)[i] == TypesOn(rest, target)[i - 1] && IdsOn(path, target)[i] == IdsOn(rest, target)[i - 1] {}
      assert TypesOn(path, target) == [path[0].node.nodeType] + TypesOn(rest, target);
      assert IdsOn(path, target) == [path[0].node.traceId] + IdsOn(rest, target);
    }
  }

  lemma {:induction false} PresenceByWeight(types: seq<string>)
    ensures var m := multiset(types);
      TotalPresence(types) == 100 * m["work"] + 90 * m["requirement"] + 80 * m["decision"] + 70 * m["plan"]
  {
    if types != [] {
      PresenceByWeight(types[1..]);
      assert types == [types[0]] + types[1..];
    }
  }

  lemma {:induction false} PositionIsOrder(s: string, t: string)
    ensures ComesBefore(s, t) <==> TypePosition(s) < TypePosition(t)
  {
    var order := PREFERRED_TYPES;
    forall i: nat | i < |order| ensures (order[i] == s <==> TypePosition(s) == i) && (order[i] == t <==> TypePosition(t) == i) {}
    assert TypePosition(s) < |order| ==> order[TypePosition(s)] == s;
    assert TypePosition(t) < |order| ==> order[TypePosition(t)] == t;
  }

  /** The pairs of place k with those of the places from m up to n that are marked. */
  function Row(k: nat, marks: nat -> bool, m: nat, n: nat): set<(nat, nat)> {
    set j: nat | m <= j < n && marks(j) :: (k, j)
  }

  function Marked(marks: nat -> bool, m: nat, n: nat): nat
    requires m <= n
    decreases n - m
  {
    if m == n then 0 else (if marks(m) then 1 else 0) + Marked(marks, m + 1, n)
  }

  lemma {:induction false} RowSize(k: nat, marks: nat -> bool, m: nat, n: nat)
    requires m <= n
    ensures |Row(k, marks, m, n)| == Marked(marks, m, n)
    decreases n - m
  {
    if m == n {
      assert Row(k, marks, m, n) == {};
    } else {
      RowSize(k, marks, m + 1, n);
      var rest := Row(k, marks, m + 1, n);
      assert Row(k, marks, m, n) == rest + if marks(m) then {(k, m)} else {};
      assert (k, m) !in rest;
    }
  }

  lemma {:induction false} MarkedInOrder(types: seq<string>, p: nat, marks: nat -> bool, m: nat)
    requires m <= |types| && forall j: nat | j < |types| :: marks(j) <==> p < TypePosition(types[j])
    ensures Marked(marks, m, |types|) == InOrderAfter(p, types[m..])
    decreases |types| - m
  {
    if m < |types| {
      MarkedInOrder(types, p, marks, m + 1);
      assert types[m..][1..] == types[m + 1..];
    }
  }

  /** What place k comes before. */
  function Behind(types: seq<string>, k: nat): nat -> bool
    requires k < |types|
  {
    (j: nat) => j < |types| && ComesBefore(types[k], types[j])
  }

  lemma {:induction false} RowInOrder(types: seq<string>, k: nat)
    requires k < |types|
    ensures |Row(k, Behind(types, k), k + 1, |types|)| == InOrderAfter(TypePosition(types[k]), types[k + 1..])
  {
    RowSize(k, Behind(types, k), k + 1, |types|);
    forall j: nat | j < |types| ensures Behind(types, k)(j) <==> TypePosition(types[k]) < TypePosition(types[j]) {
      PositionIsOrder(types[k], types[j]);
    }
    MarkedInOrder(types, TypePosition(types[k]), Behind(types, k), k + 1);
  }

  /** The pairs in preferred order whose first place is k or later. */
  function RowsFrom(types: seq<string>, k: nat): set<(nat, nat)> {
    set i: nat, j: nat | k <= i < j < |types| && ComesBefore(types[i], types[j]) :: (i, j)
  }

  lemma {:induction false} RowsSplit(types: seq<string>, k: nat)
    requires k < |types|
    ensures var row := Row(k, Behind(types, k), k + 1, |types|);
      RowsFrom(types, k) == row + RowsFrom(types, k + 1) && row !! RowsFrom(types, k + 1)
  {}

  lemma {:induction false} RowsSize(types: seq<string>, k: nat)
    requires k <= |types|
    ensures |RowsFrom(types, k)| == PairsInOrder(types[k..])
    decreases |types| - k
  {
    if k == |types| {
      assert RowsFrom(types, k) == {};
    } else {
      RowsSize(types, k + 1);
      RowInOrder(types, k);
      assert types[k..][1..] == types[k + 1..];
      RowsSplit(types, k);
    }
  }

  /** The sort key is what the path is worth, turned around, then its length and its ids. */
  lemma {:induction false} ScoreIsMerit(path: Chain, target: Node)
    ensures Score(path, target) == Rank(-Merit(path, target), |path|, JoinDashes(IdsOn(path, target)))
  {
    var types := TypesOn(path, target);
    ListsOfPath(path, target);
    PresenceByWeight(types);
    RowsSize(types, 0);
    assert types[0..] == types && RowsFrom(types, 0) == PairsBefore(types);
  }

  lemma {:induction false} RankedIsOutranks(p: Chain, q: Chain, target: Node)
    ensures RankLe(Score(p, target), Score(q, target)) <==> Outranks(p, q, target)
  {
    ScoreIsMerit(p, target);
    ScoreIsMerit(q, target);
  }

  lemma {:induction false} SameIdsExactly(p: Chain, q: Chain)
    ensures NodeIds(p) == NodeIds(q) <==> SameNodes(p, q)
  {
    if p != [] && q != [] {
      SameIdsExactly(p[1..], q[1..]);
      assert NodeIds(p) == [p[0].node.traceId] + NodeIds(p[1..]) && NodeIds(q) == [q[0].node.traceId] + NodeIds(q[1..]);
      if NodeIds(p) == NodeIds(q) {
        assert NodeIds(p)[0] == NodeIds(q)[0] && NodeIds(p)[1..] == NodeIds(q)[1..];
        assert SameNodes(p, q);
      }
      if SameNodes(p, q) {
        forall i | 0 <= i < |p[1..]| ensures p[1..][i].node.traceId == q[1..][i].node.traceId {
          assert p[i + 1].node.traceId == q[i + 1].node.traceId;
        }
      }
    }
  }

  lemma {:induction false} SameNodesIsSameIds()
    ensures forall p, q {:trigger SameNodes(p, q)} :: SameNodes(p, q) <==> NodeIds(p) == NodeIds(q)
  {
    forall p, q ensures SameNodes(p, q) <==> NodeIds(p) == NodeIds(q) { SameIdsExactly(p, q); }
  }

  // ----- from arrivals to paths -----

  /** The non-empty arrivals, each turned around. */
  method Arrived(arrivals: seq<Chain>) returns (paths: seq<Chain>)
    ensures forall p | p in paths :: exists c | c in arrivals :: c != [] && p == Reversed(c)
    ensures forall c | c in arrivals && c != [] :: Reversed(c) in paths
  {
    paths := [];
    for i := 0 to |arrivals|
      invariant forall p | p in paths :: exists c | c in arrivals :: c != [] && p == Reversed(c)
      invariant forall j | 0 <= j < i && arrivals[j] != [] :: Reversed(arrivals[j]) in paths
    {
      if arrivals[i] != [] {
        paths := paths + [Reversed(arrivals[i])];
      }
    }
  }

  ghost predicate DistinctPaths(paths: seq<Chain>) {
    forall i, j | 0 <= i < j < |paths| :: !SameNodes(paths[i], paths[j])
  }

  /** Some path of the list meets the same nodes. */
  ghost predicate Represented(p: Chain, paths: seq<Chain>) {
    exists q | q in paths :: SameNodes(q, p)
  }

  lemma {:induction false} RepresentedMore(p: Chain, paths: seq<Chain>, q: Chain)
    requires Represented(p, paths)
    ensures Represented(p, paths + [q])
  {
    var r :| r in paths && SameNodes(r, p);
    assert r in paths + [q];
  }

  /** Keeps the first path of each sequence of nodes. */
  method Unique(paths: seq<Chain>) returns (unique: seq<Chain>)
    ensures DistinctPaths(unique)
    ensures forall p | p in unique :: p in paths
    ensures forall p | p in paths :: Represented(p, unique)
  {
    SameNodesIsSameIds();
    unique := [];
    var seen: set<seq<string>> := {};
    for i := 0 to |paths|
      invariant DistinctPaths(unique)
      invariant forall p | p in unique :: p in paths
      invariant forall k :: k in seen <==> exists q | q in unique :: NodeIds(q) == k
      invariant forall j | 0 <= j < i :: Represented(paths[j], unique)
    {
      if NodeIds(paths[i]) !in seen {
        forall j | 0 <= j < i ensures Represented(paths[j], unique + [paths[i]]) {
          RepresentedMore(paths[j], unique, paths[i]);
        }
        SeenMore(unique, seen, paths[i]);
        seen := seen + {NodeIds(paths[i])};
        unique := unique + [paths[i]];
      }
    }
  }

  lemma {:induction false} SeenMore(unique: seq<Chain>, seen: set<seq<string>>, p: Chain)
    requires forall k :: k in seen <==> exists q | q in unique :: NodeIds(q) == k
    ensures forall k :: k in seen + {NodeIds(p)} <==> exists q | q in unique + [p] :: NodeIds(q) == k
    ensures Represented(p, unique + [p])
  {
    assert p in unique + [p] && SameNodes(p, p);
    forall k ensures k in seen + {NodeIds(p)} <==> exists q | q in unique + [p] :: NodeIds(q) == k {
      if q :| q in unique && NodeIds(q) == k {
        assert q in unique + [p];
      }
    }
  }

  // ----- the query -----

  /** The path explains u, and is short. */
  ghost predicate Explains(g: Graph, u: Uid, p: Chain) {
    IsCausalPath(g, u, p) && 1 <= |p| <= MAX_DEPTH
  }

  /** Every path outranks those behind it. */
  ghost predicate BestFirst(r: seq<Chain>, target: Node) {
    forall i, j | 0 <= i < j < |r| :: Outranks(r[i], r[j], target)
  }

  /** The k best of the list, best first. */
  ghost predicate BestOf(r: seq<Chain>, unique: seq<Chain>, target: Node, k: nat) {
    && |r| <= k && BestFirst(r, target) && DistinctPaths(r)
    && (forall p | p in r :: p in unique)
    && (forall p | p in unique :: p in r || (|r| == k && AllBetter(r, p, target)))
  }

  ghost predicate AllBetter(r: seq<Chain>, p: Chain, target: Node) {
    forall q | q in r :: Outranks(q, p, target)
  }

  lemma {:induction false} SortKeepsDistinct(s: seq<Chain>, le: (Chain, Chain) -> bool)
    requires DistinctPaths(s)
    ensures DistinctPaths(Sort(s, le)) && forall p :: p in Sort(s, le) <==> p in s
  {
    SameNodesIsSameIds();
    if s != [] {
      SortKeepsDistinct(s[1..], le);
      InsertKeepsDistinct(Sort(s[1..], le), s[0], le);
      assert s == [s[0]] + s[1..];
    }
  }

  lemma {:induction false} AheadKeepsDistinct(x: Chain, rest: seq<Chain>)
    requires DistinctPaths(rest) && forall p | p in rest :: !SameNodes(p, x)
    ensures DistinctPaths([x] + rest)
  {
    SameNodesIsSameIds();
    forall j | 0 <= j < |rest| ensures !SameNodes(x, rest[j]) {
      assert rest[j] in rest;
    }
  }

  lemma {:induction false} InsertKeepsDistinct(s: seq<Chain>, x: Chain, le: (Chain, Chain) -> bool)
    requires DistinctPaths(s) && forall p | p in s :: !SameNodes(p, x)
    ensures DistinctPaths(Insert(s, x, le)) && forall p :: p in Insert(s, x, le) <==> p == x || p in s
  {
    SameNodesIsSameIds();
    if s != [] && !le(x, s[0]) {
      InsertKeepsDistinct(s[1..], x, le);
      assert s == [s[0]] + s[1..];
      var rest := Insert(s[1..], x, le);
      forall p | p in rest ensures !SameNodes(p, s[0]) {
        if p != x {
          var j :| 0 < j < |s| && s[j] == p;
          assert !SameNodes(s[0], s[j]);
        } else {
          assert s[0] in s && !SameNodes(s[0], x);
        }
      }
      AheadKeepsDistinct(s[0], rest);
    } else {
      AheadKeepsDistinct(x, s);
    }
  }

  lemma {:induction false} SortedIsBestFirst(s: seq<Chain>, target: Node)
    requires SortedBy(s, Better(target))
    ensures BestFirst(s, target)
  {
    forall i, j | 0 <= i < j < |s| ensures Outranks(s[i], s[j], target) {
      assert Better(target)(s[i], s[j]);
      RankedIsOutranks(s[i], s[j], target);
    }
  }

  lemma {:induction false} KeptOrBeaten(s: seq<Chain>, p: Chain, target: Node, k: nat)
    requires BestFirst(s, target) && p in s && k < |s|
    ensures p in s[..k] || AllBetter(s[..k], p, target)
  {
    var i :| 0 <= i < |s| && s[i] == p;
    if i < k {
      assert s[..k][i] == p;
    }
  }

  function Cut(s: seq<Chain>, k: nat): seq<Chain> {
    if |s| > k then s[..k] else s
  }

  lemma {:induction false} CutToBest(unique: seq<Chain>, target: Node, k: nat)
    requires DistinctPaths(unique)
    ensures BestOf(Cut(Sort(unique, Better(target)), k), unique, target, k)
  {
    var s := Sort(unique, Better(target));
    BetterIsAPreorder(target);
    SortCorrect(unique, Better(target));
    SortedIsBestFirst(s, target);
    SortKeepsDistinct(unique, Better(target));
    if |s| > k {
      forall p | p in unique ensures p in s[..k] || AllBetter(s[..k], p, target) {
        assert p in s;
        KeptOrBeaten(s, p, target, k);
      }
    }
  }

  function AtLeastOne(n: int): nat {
    if n < 1 then 1 else n
  }

  function Candidates(maxPaths: int): nat {
    AtLeastOne(maxPaths) * CANDIDATE_FACTOR
  }

  /** What an answer of at most k paths has to be. */
  ghost predicate IsAnswer(g: Graph, order: UidOrder, u: Uid, target: Node, r: seq<Chain>, k: nat, cap: nat) {
    && |r| <= k && BestFirst(r, target) && DistinctPaths(r)
    && (forall p | p in r :: Explains(g, u, p))
    && (Fits(g, order, u, {u}, 0, cap) ==> AnswersAll(g, u, target, r, k))
  }

  lemma {:induction false} CutAnswers(g: Graph, order: UidOrder, u: Uid, target: Node, arrivals: seq<Chain>, paths: seq<Chain>, unique: seq<Chain>, k: nat, cap: nat)
    requires WellKeyed(g.nodes) && SoundChains(g, u, {u}, arrivals)
    requires Fits(g, order, u, {u}, 0, cap) ==> arrivals == AllChains(g, order, u, {u})
    requires forall p | p in paths :: exists c | c in arrivals :: c != [] && p == Reversed(c)
    requires forall c | c in arrivals && c != [] :: Reversed(c) in paths
    requires DistinctPaths(unique) && (forall p | p in unique :: p in paths) && (forall p | p in paths :: Represented(p, unique))
    ensures IsAnswer(g, order, u, target, Cut(Sort(unique, Better(target)), k), k, cap)
  {
    CutToBest(unique, target, k);
    AllExplain(g, u, arrivals, paths);
    if Fits(g, order, u, {u}, 0, cap) {
      Answered(g, order, u, target, arrivals, paths, unique, Cut(Sort(unique, Better(target)), k), k);
    }
  }

  /** At most `maxPaths` causal paths ending at the target, best first, no two over the same nodes.
      Work never exceeds the bound by more than one expansion for each candidate and depth. When no
      bound cuts the search, every causal path from a root is represented, unless the answer is full
      of paths that outrank it. */
  method Query(g: Graph, order: UidOrder, traceId: string, maxPaths: int) returns (r: seq<Chain>, work: nat)
    requires WellKeyed(g.nodes)
    ensures traceId !in g.nodes ==> r == []
    ensures work <= MAX_EXPANSIONS + MAX_DEPTH * Candidates(maxPaths)
    ensures traceId in g.nodes ==>
      IsAnswer(g, order, EntityUid(traceId), g.nodes[traceId], r, AtLeastOne(maxPaths), Candidates(maxPaths))
  {
    if traceId !in g.nodes {
      return [], 0;
    }
    var u, target := EntityUid(traceId), g.nodes[traceId];
    var cap := Candidates(maxPaths);
    var search := new PathSearch(g, order, cap, u);
    var arrivals := search.PathsFrom(u);
    work := search.expansions;
    BudgetIs(1, cap);
    var paths := Arrived(arrivals);
    var unique := Unique(paths);
    var ranked := Sort(unique, Better(target));
    CutAnswers(g, order, u, target, arrivals, paths, unique, AtLeastOne(maxPaths), cap);
    r := Cut(ranked, AtLeastOne(maxPaths));
  }

  lemma {:induction false} AllExplain(g: Graph, u: Uid, arrivals: seq<Chain>, paths: seq<Chain>)
    requires SoundChains(g, u, {u}, arrivals)
    requires forall p | p in paths :: exists c | c in arrivals :: c != [] && p == Reversed(c)
    ensures forall p | p in paths :: Explains(g, u, p)
  {
    forall p | p in paths ensures Explains(g, u, p) {
      var c :| c in arrivals && c != [] && p == Reversed(c);
      assert WithinDepth({u}, c);
      PathExactly(g, u, c);
    }
  }

  /** Every causal path from a root is represented in the answer, or outranked by every path of a full
      answer. */
  ghost predicate AnswersAll(g: Graph, u: Uid, target: Node, r: seq<Chain>, k: nat) {
    forall p | p != [] && IsCausalPath(g, u, p) && StartsAtRoot(g, u, p) ::
      Represented(p, r) || (|r| == k && AllBetter(r, p, target))
  }

  lemma {:induction false} SameNodesSameLists(g: Graph, u: Uid, p: Chain, q: Chain, target: Node)
    requires WellKeyed(g.nodes) && IsCausalPath(g, u, p) && IsCausalPath(g, u, q) && SameNodes(p, q)
    ensures TypesOn(p, target) == TypesOn(q, target) && IdsOn(p, target) == IdsOn(q, target)
  {
    forall i | 0 <= i < |p| ensures p[i].node == q[i].node {
      assert IsStoredHop(g, p[i]) && IsStoredHop(g, q[i]);
    }
  }

  /** What outranks a path outranks every path over the same stored nodes. */
  lemma {:induction false} StandsFor(g: Graph, u: Uid, target: Node, q: Chain, p: Chain, r: seq<Chain>, k: nat)
    requires WellKeyed(g.nodes) && IsCausalPath(g, u, q) && IsCausalPath(g, u, p) && SameNodes(q, p)
    requires q in r || (|r| == k && AllBetter(r, q, target))
    ensures Represented(p, r) || (|r| == k && AllBetter(r, p, target))
  {
    SameNodesSameLists(g, u, q, p, target);
  }

  lemma {:induction false} AnsweredOne(g: Graph, u: Uid, target: Node, unique: seq<Chain>, r: seq<Chain>, k: nat, p: Chain)
    requires WellKeyed(g.nodes) && IsCausalPath(g, u, p) && Represented(p, unique)
    requires (forall q | q in unique :: Explains(g, u, q)) && BestOf(r, unique, target, k)
    ensures Represented(p, r) || (|r| == k && AllBetter(r, p, target))
  {
    var q :| q in unique && SameNodes(q, p);
    StandsFor(g, u, target, q, p, r, k);
  }

  /** A causal path from a root is found by the unbounded search. */
  lemma {:induction false} RootPathIsFound(g: Graph, order: UidOrder, u: Uid, p: Chain)
    requires p != [] && IsCausalPath(g, u, p) && StartsAtRoot(g, u, p)
    ensures Reversed(p) in AllChains(g, order, u, {u}) && Reversed(Reversed(p)) == p
  {
    ReversedTwice(p);
    PathExactly(g, u, Reversed(p));
    RootExactly(g, u, Reversed(p));
    AllChainsExactly(g, order, u, {u}, Reversed(p));
  }

  lemma {:induction false} Answered(g: Graph, order: UidOrder, u: Uid, target: Node, arrivals: seq<Chain>, paths: seq<Chain>, unique: seq<Chain>, r: seq<Chain>, k: nat)
    requires WellKeyed(g.nodes) && arrivals == AllChains(g, order, u, {u})
    requires forall c | c in arrivals && c != [] :: Reversed(c) in paths
    requires forall p | p in paths :: Represented(p, unique)
    requires forall p | p in unique :: Explains(g, u, p)
    requires BestOf(r, unique, target, k)
    ensures AnswersAll(g, u, target, r, k)
  {
    forall p | p != [] && IsCausalPath(g, u, p) && StartsAtRoot(g, u, p)
      ensures Represented(p, r) || (|r| == k && AllBetter(r, p, target))
    {
      RootPathIsFound(g, order, u, p);
      assert Reversed(p) != [];
      AnsweredOne(g, u, target, unique, r, k, p);
    }
  }
}
