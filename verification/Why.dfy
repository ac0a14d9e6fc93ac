/** Causal paths: why a node exists, by walking preferred edges back to their roots. */
module Why {
  import opened Models
  import opened Store
  import opened Ordering

  const MAX_DEPTH := 8
  const MAX_EXPANSIONS := 200
  const CANDIDATE_FACTOR := 4

  /** Preference of a causal predicate; None for the others. */
  function PredicateRank(name: string): Option<nat> {
    if name == "work" then Some(0)
    else if name == "satisfies" then Some(1)
    else if name == "implements" then Some(2)
    else if name == "addresses" then Some(3)
    else if name == "derived_from" then Some(4)
    else None
  }

  predicate Causal(e: Edge) {
    PredicateRank(e.key.predicateName).Some? && e.key.target != e.key.source
  }

  /** How node uids compare; the uid is a digest, so this is some order. */
  type UidOrder = Uid -> nat

  function EdgeRank(e: Edge): nat {
    var r := PredicateRank(e.key.predicateName);
    if r.Some? then r.value else 5
  }

  predicate Preferred(order: UidOrder, a: Edge, b: Edge) {
    EdgeRank(a) < EdgeRank(b) || (EdgeRank(a) == EdgeRank(b) && order(a.key.target) <= order(b.key.target))
  }

  function ByPreference(order: UidOrder): (Edge, Edge) -> bool {
    (a: Edge, b: Edge) => Preferred(order, a, b)
  }

  function CausalFrom(rows: seq<Edge>, u: Uid): seq<Edge> {
    if rows == [] then []
    else CausalFrom(rows[..|rows| - 1], u) + if rows[|rows| - 1].key.source == u && Causal(rows[|rows| - 1]) then [rows[|rows| - 1]] else []
  }

  /** Causal edges out of u, most preferred first. */
  function Predecessors(g: Graph, order: UidOrder, u: Uid): seq<Edge> {
    Sort(CausalFrom(g.edges, u), ByPreference(order))
  }

  lemma {:induction false} CausalFromMembers(rows: seq<Edge>, u: Uid, e: Edge)
    ensures e in CausalFrom(rows, u) <==> e in rows && e.key.source == u && Causal(e)
  {
    if rows != [] {
      assert rows == rows[..|rows| - 1] + [rows[|rows| - 1]];
      CausalFromMembers(rows[..|rows| - 1], u, e);
    }
  }

  lemma {:induction false} PredecessorsMembers(g: Graph, order: UidOrder, u: Uid, e: Edge)
    ensures e in Predecessors(g, order, u) <==> e in g.edges && e.key.source == u && Causal(e)
  {
    CausalFromMembers(g.edges, u, e);
    SortCorrect(CausalFrom(g.edges, u), ByPreference(order));
  }

  // ----- chains -----

  datatype Hop = Hop(edge: Edge, node: Node)

  /** Hops in arrival order: closest to the target first. */
  type Chain = seq<Hop>

  function AllUids(g: Graph): set<Uid> {
    set id | id in g.nodes :: EntityUid(id)
  }

  predicate Stored(g: Graph, u: Uid) { u.traceId in g.nodes }

  /** The far end of the edge can be added to the chain. */
  predicate Eligible(g: Graph, stack: set<Uid>, e: Edge) {
    e.key.target !in stack && Stored(g, e.key.target)
  }

  function HopOver(g: Graph, e: Edge): Hop
    requires Stored(g, e.key.target)
  {
    Hop(e, g.nodes[e.key.target.traceId])
  }

  /** A chain of causal edges between stored nodes, from u on, that meets no node twice. */
  predicate IsChain(g: Graph, u: Uid, stack: set<Uid>, c: Chain)
    decreases |c|
  {
    c == [] ||
    (&& c[0].edge in g.edges && c[0].edge.key.source == u && Causal(c[0].edge)
     && Eligible(g, stack, c[0].edge) && c[0] == HopOver(g, c[0].edge)
     && IsChain(g, c[0].edge.key.target, stack + {c[0].edge.key.target}, c[1..]))
  }

  lemma {:induction false} ChainAvoids(g: Graph, u: Uid, stack: set<Uid>, c: Chain, k: nat)
    requires IsChain(g, u, stack, c) && k < |c|
    ensures c[k].edge.key.target !in stack
    decreases |c|
  {
    if k > 0 {
      var v := c[0].edge.key.target;
      ChainAvoids(g, v, stack + {v}, c[1..], k - 1);
    }
  }

  /** The hops of a chain link up, and no two of them lead to the same node. */
  lemma {:induction false} ChainIsSimple(g: Graph, u: Uid, stack: set<Uid>, c: Chain, i: nat, j: nat)
    requires IsChain(g, u, stack, c) && i < j < |c|
    ensures c[i].edge.key.target != c[j].edge.key.target
    ensures c[i + 1].edge.key.source == c[i].edge.key.target
    decreases |c|
  {
    var v := c[0].edge.key.target;
    if i > 0 {
      ChainIsSimple(g, v, stack + {v}, c[1..], i - 1, j - 1);
    } else {
      ChainAvoids(g, v, stack + {v}, c[1..], j - 1);
    }
  }

  /** No causal edge leads on from u to a stored node outside the chain. */
  predicate IsRoot(g: Graph, u: Uid, stack: set<Uid>) {
    forall e | e in g.edges && e.key.source == u && Causal(e) :: !Eligible(g, stack, e)
  }

  /** A chain that cannot be prolonged. */
  predicate IsMaximal(g: Graph, u: Uid, stack: set<Uid>, c: Chain)
    decreases |c|
  {
    if c == [] then IsRoot(g, u, stack)
    else IsMaximal(g, c[0].edge.key.target, stack + {c[0].edge.key.target}, c[1..])
  }

  // ----- the unbounded search -----

  function PrefixAll(h: Hop, cs: seq<Chain>): (r: seq<Chain>)
    ensures |r| == |cs|
  {
    if cs == [] then [] else PrefixAll(h, cs[..|cs| - 1]) + [[h] + cs[|cs| - 1]]
  }

  lemma {:induction false} FewerLeft(g: Graph, stack: set<Uid>, u: Uid)
    requires Stored(g, u) && u !in stack
    ensures |AllUids(g) - (stack + {u})| < |AllUids(g) - stack|
  {
    assert u == EntityUid(u.traceId);
    assert AllUids(g) - stack == (AllUids(g) - (stack + {u})) + {u};
  }

  /** All chains from u that cannot be prolonged, in search order. */
  ghost function AllChains(g: Graph, order: UidOrder, u: Uid, stack: set<Uid>): (r: seq<Chain>)
    ensures r != []
    decreases |AllUids(g) - stack|, 2, 0
  {
    var r := ChainsOver(g, order, Predecessors(g, order, u), stack);
    if r == [] then [[]] else r
  }

  ghost function ChainsOver(g: Graph, order: UidOrder, es: seq<Edge>, stack: set<Uid>): seq<Chain>
    decreases |AllUids(g) - stack|, 1, |es|
  {
    if es == [] then [] else ChainsOver(g, order, es[..|es| - 1], stack) + ChainsVia(g, order, es[|es| - 1], stack)
  }

  ghost function ChainsVia(g: Graph, order: UidOrder, e: Edge, stack: set<Uid>): seq<Chain>
    decreases |AllUids(g) - stack|, 0, 0
  {
    if Eligible(g, stack, e) then
      FewerLeft(g, stack, e.key.target);
      PrefixAll(HopOver(g, e), AllChains(g, order, e.key.target, stack + {e.key.target}))
    else []
  }

  /** Nodes the unbounded search visits below u. */
  ghost function Work(g: Graph, order: UidOrder, u: Uid, stack: set<Uid>): nat
    decreases |AllUids(g) - stack|, 2, 0
  {
    WorkOver(g, order, Predecessors(g, order, u), stack)
  }

  ghost function WorkOver(g: Graph, order: UidOrder, es: seq<Edge>, stack: set<Uid>): nat
    decreases |AllUids(g) - stack|, 1, |es|
  {
    if es == [] then 0 else WorkOver(g, order, es[..|es| - 1], stack) + WorkVia(g, order, es[|es| - 1], stack)
  }

  ghost function WorkVia(g: Graph, order: UidOrder, e: Edge, stack: set<Uid>): nat
    decreases |AllUids(g) - stack|, 0, 0
  {
    if Eligible(g, stack, e) then
      FewerLeft(g, stack, e.key.target);
      1 + Work(g, order, e.key.target, stack + {e.key.target})
    else 0
  }

  // ----- the unbounded search finds exactly the chains that cannot be prolonged -----

  lemma {:induction false} PrefixAllMembers(h: Hop, cs: seq<Chain>, c: Chain)
    ensures c in PrefixAll(h, cs) <==> c != [] && c[0] == h && c[1..] in cs
  {
    if cs != [] {
      var k := |cs| - 1;
      assert cs == cs[..k] + [cs[k]];
      PrefixAllMembers(h, cs[..k], c);
      assert ([h] + cs[k])[1..] == cs[k];
      if c != [] && c[0] == h && c[1..] == cs[k] {
        assert c == [h] + cs[k];
      }
    }
  }

  lemma {:induction false} ChainsOverMembers(g: Graph, order: UidOrder, es: seq<Edge>, stack: set<Uid>, c: Chain)
    ensures c in ChainsOver(g, order, es, stack) <==> exists e | e in es :: c in ChainsVia(g, order, e, stack)
  {
    if es != [] {
      var k := |es| - 1;
      assert es == es[..k] + [es[k]];
      ChainsOverMembers(g, order, es[..k], stack, c);
      if e :| e in es && c in ChainsVia(g, order, e, stack) {
        assert e in es[..k] || e == es[k];
      }
      assert forall e | e in es[..k] :: e in es;
      assert es[k] in es;
    }
  }

  lemma {:induction false} ViaMembers(g: Graph, order: UidOrder, e: Edge, stack: set<Uid>, c: Chain)
    ensures c in ChainsVia(g, order, e, stack) <==>
      && Eligible(g, stack, e) && c != [] && c[0] == HopOver(g, e)
      && c[1..] in AllChains(g, order, e.key.target, stack + {e.key.target})
  {
    if Eligible(g, stack, e) {
      PrefixAllMembers(HopOver(g, e), AllChains(g, order, e.key.target, stack + {e.key.target}), c);
    }
  }

  lemma {:induction false} RootHasNoChains(g: Graph, order: UidOrder, u: Uid, stack: set<Uid>)
    ensures ChainsOver(g, order, Predecessors(g, order, u), stack) == [] <==> IsRoot(g, u, stack)
  {
    var es := Predecessors(g, order, u);
    NoneOver(g, order, es, stack);
    forall e: Edge ensures e in es <==> e in g.edges && e.key.source == u && Causal(e) { PredecessorsMembers(g, order, u, e); }
  }

  lemma {:induction false} NoneOver(g: Graph, order: UidOrder, es: seq<Edge>, stack: set<Uid>)
    ensures ChainsOver(g, order, es, stack) == [] <==> forall e | e in es :: !Eligible(g, stack, e)
  {
    if es != [] {
      var k := |es| - 1;
      assert es == es[..k] + [es[k]];
      NoneOver(g, order, es[..k], stack);
    }
  }

  /** The unbounded search returns exactly the simple chains that cannot be prolonged. */
  lemma {:induction false} AllChainsExactly(g: Graph, order: UidOrder, u: Uid, stack: set<Uid>, c: Chain)
    ensures c in AllChains(g, order, u, stack) <==> IsChain(g, u, stack, c) && IsMaximal(g, u, stack, c)
    decreases |c|
  {
    RootHasNoChains(g, order, u, stack);
    var es := Predecessors(g, order, u);
    ChainsOverMembers(g, order, es, stack, c);
    if c != [] {
      var e := c[0].edge;
      PredecessorsMembers(g, order, u, e);
      forall x: Edge | x in es && c in ChainsVia(g, order, x, stack) ensures x == e { ViaMembers(g, order, x, stack, c); }
      ViaMembers(g, order, e, stack, c);
      AllChainsExactly(g, order, e.key.target, stack + {e.key.target}, c[1..]);
      if IsChain(g, u, stack, c) {
        assert !IsRoot(g, u, stack);
      }
    } else {
      forall x: Edge ensures c !in ChainsVia(g, order, x, stack) { ViaMembers(g, order, x, stack, c); }
    }
  }

  // ----- the bounded search as it runs -----

  /** Hops the search may still take from a node reached over `stack`. */
  predicate WithinDepth(stack: set<Uid>, c: Chain) {
    c == [] || |stack| + |c| <= MAX_DEPTH + 1
  }

  /** The expansions that frames still on the stack can add once the work bound is met: each of
      them one for every path it can still collect. */
  function Budget(size: nat, cap: nat): nat
    decreases MAX_DEPTH + 1 - size
  {
    if size > MAX_DEPTH then 0 else cap + Budget(size + 1, cap)
  }

  lemma {:induction false} BudgetIs(size: nat, cap: nat)
    requires size <= MAX_DEPTH + 1
    ensures Budget(size, cap) == (MAX_DEPTH + 1 - size) * cap
    decreases MAX_DEPTH + 1 - size
  {
    if size <= MAX_DEPTH {
      BudgetIs(size + 1, cap);
    }
  }

  /** No bound cuts the search at u: few enough chains, all short enough, little enough work. */
  ghost predicate Fits(g: Graph, order: UidOrder, u: Uid, stack: set<Uid>, spent: nat, cap: nat) {
    && |AllChains(g, order, u, stack)| <= cap
    && (forall c | c in AllChains(g, order, u, stack) :: WithinDepth(stack, c))
    && spent + Work(g, order, u, stack) <= MAX_EXPANSIONS
  }

  /** No bound cuts the search over the edges es. */
  ghost predicate FitsOver(g: Graph, order: UidOrder, es: seq<Edge>, stack: set<Uid>, spent: nat, cap: nat) {
    && |ChainsOver(g, order, es, stack)| <= cap
    && (forall c | c in ChainsOver(g, order, es, stack) :: WithinDepth(stack, c))
    && spent + WorkOver(g, order, es, stack) <= MAX_EXPANSIONS
  }

  /** The chains start at u, avoid the stack, and are short enough. */
  predicate SoundChains(g: Graph, u: Uid, stack: set<Uid>, cs: seq<Chain>) {
    forall c | c in cs :: IsChain(g, u, stack, c) && WithinDepth(stack, c)
  }

  /** The search over a prefix of the edges is a prefix of the whole search. */
  lemma {:induction false} OverSplits(g: Graph, order: UidOrder, es: seq<Edge>, i: nat, stack: set<Uid>)
    requires i <= |es|
    ensures ChainsOver(g, order, es[..i], stack) <= ChainsOver(g, order, es, stack)
    ensures WorkOver(g, order, es[..i], stack) <= WorkOver(g, order, es, stack)
    decreases |es| - i
  {
    if i < |es| {
      OverSplits(g, order, es, i + 1, stack);
      assert es[..i + 1][..i] == es[..i];
    } else {
      assert es[..i] == es;
    }
  }

  lemma {:induction false} FitsChild(g: Graph, order: UidOrder, es: seq<Edge>, i: nat, stack: set<Uid>, spent: nat, cap: nat)
    requires i < |es| && FitsOver(g, order, es, stack, spent, cap) && Eligible(g, stack, es[i])
    ensures var v := es[i].key.target;
            Fits(g, order, v, stack + {v}, spent + WorkOver(g, order, es[..i], stack) + 1, cap)
  {
    var v := es[i].key.target;
    var h := HopOver(g, es[i]);
    var all := AllChains(g, order, v, stack + {v});
    OverSplits(g, order, es, i + 1, stack);
    assert es[..i + 1][..i] == es[..i];
    forall c | c in all ensures WithinDepth(stack + {v}, c) {
      PrefixAllMembers(h, all, [h] + c);
      assert ([h] + c)[1..] == c;
      assert [h] + c in ChainsOver(g, order, es[..i + 1], stack);
      assert [h] + c in ChainsOver(g, order, es, stack);
    }
  }

  lemma {:induction false} NoWork(g: Graph, order: UidOrder, es: seq<Edge>, stack: set<Uid>)
    ensures WorkOver(g, order, es, stack) == 0 <==> ChainsOver(g, order, es, stack) == []
  {
    if es != [] {
      NoWork(g, order, es[..|es| - 1], stack);
    }
  }

  lemma {:induction false} OverNonEmpty(g: Graph, order: UidOrder, es: seq<Edge>, stack: set<Uid>)
    ensures [] !in ChainsOver(g, order, es, stack)
  {
    ChainsOverMembers(g, order, es, stack, []);
    forall e: Edge ensures [] !in ChainsVia(g, order, e, stack) { ViaMembers(g, order, e, stack, []); }
  }

  /** A node where a bound is met, though no bound cuts anything, is a root. */
  lemma {:induction false} CutShort(g: Graph, order: UidOrder, u: Uid, stack: set<Uid>, spent: nat, cap: nat)
    requires |stack| > MAX_DEPTH || spent >= MAX_EXPANSIONS
    requires Fits(g, order, u, stack, spent, cap)
    ensures AllChains(g, order, u, stack) == [[]] && Work(g, order, u, stack) == 0
  {
    var es := Predecessors(g, order, u);
    var over := ChainsOver(g, order, es, stack);
    NoWork(g, order, es, stack);
    OverNonEmpty(g, order, es, stack);
    if |stack| > MAX_DEPTH {
      assert forall c | c in AllChains(g, order, u, stack) :: c == [];
      OnlyEmpty(over);
    }
  }

  lemma {:induction false} OnlyEmpty(cs: seq<Chain>)
    requires cs != [] ==> forall c | c in cs :: c == []
    ensures cs != [] ==> [] in cs
  {
    if cs != [] {
      assert cs[0] in cs;
    }
  }

  lemma {:induction false} FitsFrom(g: Graph, order: UidOrder, u: Uid, stack: set<Uid>, spent: nat, cap: nat)
    requires Fits(g, order, u, stack, spent, cap)
    ensures FitsOver(g, order, Predecessors(g, order, u), stack, spent, cap)
  {
    var over := ChainsOver(g, order, Predecessors(g, order, u), stack);
    assert over != [] ==> over == AllChains(g, order, u, stack);
  }

  /** When the first i edges already give as many chains as all of them, they give all. */
  lemma {:induction false} NoneLeft(g: Graph, order: UidOrder, es: seq<Edge>, i: nat, stack: set<Uid>)
    requires i <= |es| && |ChainsOver(g, order, es[..i], stack)| >= |ChainsOver(g, order, es, stack)|
    ensures ChainsOver(g, order, es[..i], stack) == ChainsOver(g, order, es, stack)
    ensures WorkOver(g, order, es[..i], stack) == WorkOver(g, order, es, stack)
    decreases |es| - i
  {
    OverSplits(g, order, es, i, stack);
    if i < |es| {
      OverSplits(g, order, es, i + 1, stack);
      assert es[..i + 1][..i] == es[..i];
      assert ChainsVia(g, order, es[i], stack) == [];
      NoneLeft(g, order, es, i + 1, stack);
    } else {
      assert es[..i] == es;
    }
  }

  lemma {:induction false} SoundHop(g: Graph, order: UidOrder, u: Uid, stack: set<Uid>, e: Edge, suffixes: seq<Chain>)
    requires e in Predecessors(g, order, u) && Eligible(g, stack, e) && |stack| <= MAX_DEPTH
    requires SoundChains(g, e.key.target, stack + {e.key.target}, suffixes)
    ensures SoundChains(g, u, stack, PrefixAll(HopOver(g, e), suffixes))
  {
    PredecessorsMembers(g, order, u, e);
    var h := HopOver(g, e);
    forall c | c in PrefixAll(h, suffixes) ensures IsChain(g, u, stack, c) && WithinDepth(stack, c) {
      PrefixAllMembers(h, suffixes, c);
      assert WithinDepth(stack + {e.key.target}, c[1..]);
    }
  }

  lemma {:induction false} OverStep(g: Graph, order: UidOrder, es: seq<Edge>, i: nat, stack: set<Uid>)
    requires i < |es|
    ensures ChainsOver(g, order, es[..i + 1], stack) == ChainsOver(g, order, es[..i], stack) + ChainsVia(g, order, es[i], stack)
    ensures WorkOver(g, order, es[..i + 1], stack) == WorkOver(g, order, es[..i], stack) + WorkVia(g, order, es[i], stack)
  {
    assert es[..i + 1][..i] == es[..i];
  }

  /** The search over the first i edges so far: sound, within its budget, complete if it fits. */
  ghost predicate Searched(g: Graph, order: UidOrder, es: seq<Edge>, i: nat, u: Uid, stack: set<Uid>, spent: nat, cap: nat, r: seq<Chain>, expansions: nat)
    requires i <= |es|
  {
    && SoundChains(g, u, stack, r)
    && expansions <= MAX_EXPANSIONS + Budget(|stack| + 1, cap) + |r|
    && (FitsOver(g, order, es, stack, spent, cap) ==>
        r == ChainsOver(g, order, es[..i], stack) && expansions == spent + WorkOver(g, order, es[..i], stack))
  }

  method Collect(h: Hop, suffixes: seq<Chain>, results: seq<Chain>, cap: nat) returns (r: seq<Chain>)
    requires |results| < cap && suffixes != []
    ensures |results| < |r| <= cap
    ensures r <= results + PrefixAll(h, suffixes)
    ensures |results| + |suffixes| <= cap ==> r == results + PrefixAll(h, suffixes)
  {
    r := results;
    for i := 0 to |suffixes|
      invariant |r| == |results| + i < cap
      invariant r == results + PrefixAll(h, suffixes[..i])
    {
      assert suffixes[..i + 1][..i] == suffixes[..i];
      r := r + [[h] + suffixes[i]];
      assert r == results + PrefixAll(h, suffixes[..i + 1]);
      PrefixOfPrefixAll(h, suffixes, i + 1);
      if |r| >= cap {
        assert |results| + |suffixes| <= cap ==> suffixes[..i + 1] == suffixes;
        return;
      }
    }
    assert suffixes[..|suffixes|] == suffixes;
  }

  lemma {:induction false} PrefixOfPrefixAll(h: Hop, cs: seq<Chain>, i: nat)
    requires i <= |cs|
    ensures PrefixAll(h, cs[..i]) <= PrefixAll(h, cs)
    decreases |cs| - i
  {
    if i < |cs| {
      assert cs[..i + 1][..i] == cs[..i];
      PrefixOfPrefixAll(h, cs, i + 1);
    } else {
      assert cs[..i] == cs;
    }
  }

  lemma {:induction false} SearchedStep(g: Graph, order: UidOrder, es: seq<Edge>, i: nat, u: Uid, stack: set<Uid>, spent: nat, cap: nat,
      r: seq<Chain>, expansions: nat, suffixes: seq<Chain>, r': seq<Chain>, expansions': nat)
    requires es == Predecessors(g, order, u) && i < |es| && Eligible(g, stack, es[i]) && |stack| <= MAX_DEPTH
    requires Searched(g, order, es, i, u, stack, spent, cap, r, expansions) && |r| < cap && suffixes != []
    requires |r| < |r'| <= cap && r' <= r + PrefixAll(HopOver(g, es[i]), suffixes)
    requires |r| + |suffixes| <= cap ==> r' == r + PrefixAll(HopOver(g, es[i]), suffixes)
    requires SoundChains(g, es[i].key.target, stack + {es[i].key.target}, suffixes)
    requires expansions >= MAX_EXPANSIONS ==> expansions' == expansions + 1
    requires expansions < MAX_EXPANSIONS ==> expansions' <= MAX_EXPANSIONS + Budget(|stack| + 1, cap)
    requires var v := es[i].key.target;
      Fits(g, order, v, stack + {v}, expansions + 1, cap) ==>
        suffixes == AllChains(g, order, v, stack + {v}) && expansions' == expansions + 1 + Work(g, order, v, stack + {v})
    ensures Searched(g, order, es, i + 1, u, stack, spent, cap, r', expansions')
  {
    assert es[i] in es;
    SoundHop(g, order, u, stack, es[i], suffixes);
    var more := PrefixAll(HopOver(g, es[i]), suffixes);
    forall c | c in r' ensures c in r || c in more {
      assert c in r + more;
    }
    if FitsOver(g, order, es, stack, spent, cap) {
      FitsChild(g, order, es, i, stack, spent, cap);
      OverStep(g, order, es, i, stack);
      OverSplits(g, order, es, i + 1, stack);
    }
  }

  /** What a call of the search on u returns: at least one path and no more than the cap, all
      sound; work within its budget; everything when no bound cuts it. */
  ghost predicate Outcome(g: Graph, order: UidOrder, u: Uid, stack: set<Uid>, spent: nat, cap: nat, r: seq<Chain>, expansions: nat) {
    && 1 <= |r| <= cap && SoundChains(g, u, stack, r)
    && (spent >= MAX_EXPANSIONS ==> expansions == spent)
    && (spent <= MAX_EXPANSIONS ==> expansions <= MAX_EXPANSIONS + Budget(|stack|, cap))
    && (Fits(g, order, u, stack, spent, cap) ==>
        r == AllChains(g, order, u, stack) && expansions == spent + Work(g, order, u, stack))
  }

  lemma {:induction false} CutOutcome(g: Graph, order: UidOrder, u: Uid, stack: set<Uid>, spent: nat, cap: nat)
    requires cap >= 1 && (|stack| > MAX_DEPTH || spent >= MAX_EXPANSIONS)
    ensures Outcome(g, order, u, stack, spent, cap, [[]], spent)
  {
    if Fits(g, order, u, stack, spent, cap) {
      CutShort(g, order, u, stack, spent, cap);
    }
  }

  /** The search over all edges, or over enough of them to fill the cap, is an outcome. */
  lemma {:induction false} SearchedOutcome(g: Graph, order: UidOrder, u: Uid, i: nat, stack: set<Uid>, spent: nat, cap: nat, r: seq<Chain>, expansions: nat)
    requires |stack| <= MAX_DEPTH && spent < MAX_EXPANSIONS && cap >= 1 && |r| <= cap
    requires var es := Predecessors(g, order, u);
      i <= |es| && (i == |es| || |r| == cap) && Searched(g, order, es, i, u, stack, spent, cap, r, expansions)
    ensures Outcome(g, order, u, stack, spent, cap, if r == [] then [[]] else r, expansions)
  {
    if Fits(g, order, u, stack, spent, cap) {
      var es := Predecessors(g, order, u);
      FitsFrom(g, order, u, stack, spent, cap);
      if i == |es| {
        assert es[..i] == es;
      } else {
        NoneLeft(g, order, es, i, stack);
      }
    }
  }

  lemma {:induction false} SkippedStep(g: Graph, order: UidOrder, es: seq<Edge>, i: nat, u: Uid, stack: set<Uid>, spent: nat, cap: nat, r: seq<Chain>, expansions: nat)
    requires i < |es| && !Eligible(g, stack, es[i]) && Searched(g, order, es, i, u, stack, spent, cap, r, expansions)
    ensures Searched(g, order, es, i + 1, u, stack, spent, cap, r, expansions)
  {
    OverStep(g, order, es, i, stack);
  }

  class PathSearch {
    const g: Graph
    const order: UidOrder
    const cap: nat
    var onStack: set<Uid>
    var expansions: nat

    constructor (g: Graph, order: UidOrder, cap: nat, u: Uid)
      ensures this.g == g && this.order == order && this.cap == cap
      ensures onStack == {u} && expansions == 0
    {
      this.g, this.order, this.cap := g, order, cap;
      onStack, expansions := {u}, 0;
    }

    /** Bounded chains from u. A chain that meets the depth or the work bound ends there. */
    method PathsFrom(u: Uid) returns (r: seq<Chain>)
      requires cap >= 1
      modifies this
      decreases MAX_DEPTH + 1 - |onStack|, 1
      ensures onStack == old(onStack)
      ensures Outcome(g, order, u, old(onStack), old(expansions), cap, r, expansions)
    {
      if |onStack| > MAX_DEPTH || expansions >= MAX_EXPANSIONS {
        CutOutcome(g, order, u, onStack, expansions, cap);
        return [[]];
      }
      ghost var spent := expansions;
      r := [];
      var es := Predecessors(g, order, u);
      for i := 0 to |es|
        invariant onStack == old(onStack) && |r| < cap
        invariant Searched(g, order, es, i, u, onStack, spent, cap, r, expansions)
      {
        if es[i].key.target !in onStack && Stored(g, es[i].key.target) {
          r := Descend(es, i, u, r, spent);
          if |r| >= cap {
            SearchedOutcome(g, order, u, i + 1, onStack, spent, cap, r, expansions);
            return;
          }
        } else {
          SkippedStep(g, order, es, i, u, onStack, spent, cap, r, expansions);
        }
      }
      SearchedOutcome(g, order, u, |es|, onStack, spent, cap, r, expansions);
      if r == [] {
        r := [[]];
      }
    }

    /** One edge: the chains behind it, each prefixed by its hop. */
    method Descend(es: seq<Edge>, i: nat, u: Uid, results: seq<Chain>, ghost spent: nat) returns (r: seq<Chain>)
      requires es == Predecessors(g, order, u) && i < |es| && Eligible(g, onStack, es[i])
      requires |onStack| <= MAX_DEPTH && |results| < cap
      requires Searched(g, order, es, i, u, onStack, spent, cap, results, expansions)
      modifies this
      decreases MAX_DEPTH + 1 - |onStack|, 0
      ensures onStack == old(onStack) && |r| <= cap
      ensures Searched(g, order, es, i + 1, u, old(onStack), spent, cap, r, expansions)
    {
      var v := es[i].key.target;
      expansions := expansions + 1;
      onStack := onStack + {v};
      var suffixes := PathsFrom(v);
      onStack := onStack - {v};
      r := Collect(HopOver(g, es[i]), suffixes, results, cap);
      SearchedStep(g, order, es, i, u, old(onStack), spent, cap, results, old(expansions), suffixes, r, expansions);
    }
  }
}
