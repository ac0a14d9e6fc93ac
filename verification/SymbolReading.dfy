/** What the symbol walk lists, said over the nodes on the way down to each symbol. */
module SymbolReading {
  import opened Models
  import opened Trees

  // ----- lines and sources -----

  /** The newlines before the offset. */
  ghost function NewlinesBefore(text: seq<byte>, offset: nat): set<nat> {
    set i: nat | i < offset && i < |text| && text[i] == 10
  }

  lemma {:induction false} NewlinesAreCounted(text: seq<byte>, offset: nat)
    ensures CountNewlines(text[..Least(offset, |text|)]) == |NewlinesBefore(text, offset)|
  {
    var n := Least(offset, |text|);
    if n == 0 {
      assert NewlinesBefore(text, offset) == {};
    } else {
      NewlinesAreCounted(text, n - 1);
      assert text[..n][..n - 1] == text[..n - 1];
      assert NewlinesBefore(text, offset) == NewlinesBefore(text, n - 1) + if text[n - 1] == 10 then {n - 1} else {};
    }
  }

  /** The line is one more than the newlines before the offset, and one more again at the end of the text. */
  ghost predicate IsLineOf(text: seq<byte>, offset: nat, line: nat) {
    line == 1 + |NewlinesBefore(text, offset)| + if offset < |text| then 0 else 1
  }

  /** The bytes of the range that the text has. */
  lemma {:induction false} SliceExactly(text: seq<byte>, start: nat, end: nat)
    ensures var r := Slice(text, start, end);
      && (start <= end <= |text| ==> r == text[start..end])
      && |r| == (if start < end && start < |text| then Least(end, |text|) - start else 0)
      && (forall i: nat | i < |r| :: r[i] == text[start + i])
  {}

  // ----- qualified names -----

  /** Empty parts do not count; the others stand one behind the other with dots in between. */
  lemma {:induction false} JoinExactly(a: seq<string>, b: seq<string>)
    ensures JoinNonEmpty(a + b) == if JoinNonEmpty(a) == "" then JoinNonEmpty(b)
      else if JoinNonEmpty(b) == "" then JoinNonEmpty(a) else JoinNonEmpty(a) + "." + JoinNonEmpty(b)
  {
    if a == [] {
      assert a + b == b;
    } else {
      assert (a + b)[1..] == a[1..] + b;
      JoinExactly(a[1..], b);
      var x, y, z := a[0], JoinNonEmpty(a[1..]), JoinNonEmpty(b);
      assert x + ("." + (y + "." + z)) == (x + ("." + y)) + "." + z;
    }
  }

  lemma {:induction false} JoinOne(part: string)
    ensures JoinNonEmpty([part]) == part && JoinNonEmpty([]) == ""
  {
    assert [part][1..] == [];
  }

  // ----- the way down -----

  predicate IsClass(l: Language, t: Tree, inClass: bool) {
    l.symbolInfo(t, inClass).Some? && l.symbolInfo(t, inClass).value.kind == "class"
  }

  /** The nodes lead from t down, each a child of the one before, and the flags say which of them have a
      class above them, or are in one to begin with. */
  ghost predicate IsLineage(l: Language, t: Tree, inClass: bool, nodes: seq<Tree>, flags: seq<bool>) {
    && |nodes| == |flags| > 0 && nodes[0] == t && flags[0] == inClass
    && (forall i | 0 <= i < |nodes| - 1 :: nodes[i + 1] in nodes[i].children)
    && (forall i | 0 <= i < |nodes| - 1 :: flags[i + 1] <==> flags[i] || IsClass(l, nodes[i], flags[i]))
  }

  /** The name a node gives to what is below it: that of its symbol, or else of its scope. */
  ghost function TitleOf(l: Language, t: Tree, inClass: bool): seq<string> {
    match l.symbolInfo(t, inClass)
    case Some(info) => [info.name]
    case None => if l.scopeName(t).Some? then [l.scopeName(t).value] else []
  }

  /** The names of the first k nodes. */
  ghost function Titles(l: Language, nodes: seq<Tree>, flags: seq<bool>, k: nat): seq<string>
    requires k <= |nodes| && k <= |flags|
  {
    if k == 0 then [] else Titles(l, nodes, flags, k - 1) + TitleOf(l, nodes[k - 1], flags[k - 1])
  }

  /** The record of a symbol on the node t, with these names above it. */
  ghost predicate IsSymbol(s: Source, t: Tree, names: seq<string>, info: SymbolInfo, x: SymbolRef) {
    && x.kind == info.kind && x.name == info.name
    && x.qualifiedName == JoinNonEmpty([s.module_] + names + [info.name])
    && IsLineOf(s.text, t.start, x.startLine)
    && IsLineOf(s.text, if t.start < t.end then t.end - 1 else t.start, x.endLine)
    && x.source == Slice(s.text, t.start, t.end)
  }

  /** The last of the nodes is a symbol, and x is its record. */
  ghost predicate Emits(s: Source, names: seq<string>, nodes: seq<Tree>, flags: seq<bool>, x: SymbolRef)
    requires |nodes| == |flags| > 0
  {
    var k := |nodes| - 1;
    var info := s.language.symbolInfo(nodes[k], flags[k]);
    info.Some? && IsSymbol(s, nodes[k], names + Titles(s.language, nodes, flags, k), info.value, x)
  }

  predicate KnowsLines(s: Source) {
    s.starts == Starts(s.text) + [|s.text|]
  }

  lemma {:induction false} SymbolExactly(s: Source, t: Tree, names: seq<string>, info: SymbolInfo, x: SymbolRef)
    requires KnowsLines(s)
    ensures x == SymbolOf(s, t, names, info) <==> IsSymbol(s, t, names, info, x)
  {
    var last := if t.start < t.end then t.end - 1 else t.start;
    LineAtCountsNewlines(s.text, t.start);
    LineAtCountsNewlines(s.text, last);
    NewlinesAreCounted(s.text, t.start);
    NewlinesAreCounted(s.text, last);
  }

  lemma {:induction false} SomeChildLists(s: Source, ts: seq<Tree>, c: Context, x: SymbolRef)
    ensures x in PreorderAll(s, ts, c) <==> exists t :: t in ts && x in Preorder(s, t, c)
  {
    if ts != [] {
      SomeChildLists(s, ts[1..], c, x);
      assert PreorderAll(s, ts, c) == Preorder(s, ts[0], c) + PreorderAll(s, ts[1..], c);
      if t :| t in ts && x in Preorder(s, t, c) {
        assert t == ts[0] || t in ts[1..];
      }
      if x in PreorderAll(s, ts[1..], c) {
        var t :| t in ts[1..] && x in Preorder(s, t, c);
        assert t in ts;
      }
    }
  }

  lemma {:induction false} BelowIs(s: Source, t: Tree, c: Context)
    ensures Below(s, t, c).names == c.names + TitleOf(s.language, t, c.inClass)
    ensures Below(s, t, c).inClass <==> c.inClass || IsClass(s.language, t, c.inClass)
  {}

  /** The first node's name comes first. */
  lemma {:induction false} TitlesFromFirst(l: Language, nodes: seq<Tree>, flags: seq<bool>, k: nat)
    requires 0 < k <= |nodes| && k <= |flags|
    ensures Titles(l, nodes, flags, k) == TitleOf(l, nodes[0], flags[0]) + Titles(l, nodes[1..], flags[1..], k - 1)
  {
    if k > 1 {
      TitlesFromFirst(l, nodes, flags, k - 1);
    } else {
      assert Titles(l, nodes, flags, 0) == [];
    }
  }

  lemma {:induction false} LineageTail(s: Source, t: Tree, c: Context, nodes: seq<Tree>, flags: seq<bool>, x: SymbolRef)
    requires |nodes| == |flags| > 1 && nodes[0] == t && flags[0] == c.inClass
    ensures IsLineage(s.language, t, c.inClass, nodes, flags) <==>
      nodes[1] in t.children && IsLineage(s.language, nodes[1], Below(s, t, c).inClass, nodes[1..], flags[1..])
    ensures Emits(s, c.names, nodes, flags, x) <==> Emits(s, Below(s, t, c).names, nodes[1..], flags[1..], x)
  {
    BelowIs(s, t, c);
    LineageShift(s.language, t, c.inClass, nodes, flags);
    TitlesFromFirst(s.language, nodes, flags, |nodes| - 1);
    var rest := Titles(s.language, nodes[1..], flags[1..], |nodes| - 2);
    assert c.names + (TitleOf(s.language, t, c.inClass) + rest) == (c.names + TitleOf(s.language, t, c.inClass)) + rest;
  }

  lemma {:induction false} LineageShift(l: Language, t: Tree, inClass: bool, nodes: seq<Tree>, flags: seq<bool>)
    requires |nodes| == |flags| > 1 && nodes[0] == t && flags[0] == inClass
    ensures IsLineage(l, t, inClass, nodes, flags) <==>
      nodes[1] in t.children && IsLineage(l, nodes[1], inClass || IsClass(l, t, inClass), nodes[1..], flags[1..])
  {
    var ns, fs := nodes[1..], flags[1..];
    if IsLineage(l, nodes[1], inClass || IsClass(l, t, inClass), ns, fs) && nodes[1] in t.children {
      forall i | 0 <= i < |nodes| - 1 ensures nodes[i + 1] in nodes[i].children && (flags[i + 1] <==> flags[i] || IsClass(l, nodes[i], flags[i])) {
        if i > 0 { assert nodes[i] == ns[i - 1] && nodes[i + 1] == ns[i - 1 + 1] && flags[i] == fs[i - 1] && flags[i + 1] == fs[i - 1 + 1]; }
      }
    }
    if IsLineage(l, t, inClass, nodes, flags) {
      forall i | 0 <= i < |ns| - 1 ensures ns[i + 1] in ns[i].children && (fs[i + 1] <==> fs[i] || IsClass(l, ns[i], fs[i])) {
        assert nodes[i + 1 + 1] in nodes[i + 1].children;
      }
    }
  }

  lemma {:induction false} ListedHasLineage(s: Source, t: Tree, c: Context, x: SymbolRef) returns (nodes: seq<Tree>, flags: seq<bool>)
    requires KnowsLines(s) && x in Preorder(s, t, c)
    ensures IsLineage(s.language, t, c.inClass, nodes, flags) && Emits(s, c.names, nodes, flags, x)
    decreases t
  {
    if x in Emitted(s, t, c) {
      nodes, flags := [t], [c.inClass];
      var info := s.language.symbolInfo(t, c.inClass).value;
      SymbolExactly(s, t, c.names, info, x);
      assert c.names + [] == c.names;
    } else {
      var below := Below(s, t, c);
      SomeChildLists(s, t.children, below, x);
      var child :| child in t.children && x in Preorder(s, child, below);
      var ns, fs := ListedHasLineage(s, child, below, x);
      nodes, flags := [t] + ns, [c.inClass] + fs;
      assert nodes[1..] == ns && flags[1..] == fs;
      LineageTail(s, t, c, nodes, flags, x);
    }
  }

  lemma {:induction false} LineageIsListed(s: Source, t: Tree, c: Context, nodes: seq<Tree>, flags: seq<bool>, x: SymbolRef)
    requires KnowsLines(s) && IsLineage(s.language, t, c.inClass, nodes, flags) && Emits(s, c.names, nodes, flags, x)
    ensures x in Preorder(s, t, c)
    decreases |nodes|
  {
    if |nodes| == 1 {
      var info := s.language.symbolInfo(t, c.inClass).value;
      assert c.names + [] == c.names;
      SymbolExactly(s, t, c.names, info, x);
    } else {
      LineageTail(s, t, c, nodes, flags, x);
      LineageIsListed(s, nodes[1], Below(s, t, c), nodes[1..], flags[1..], x);
      SomeChildLists(s, t.children, Below(s, t, c), x);
    }
  }

  /** The walk lists exactly the symbols of the tree: for each node that is one, given whether a class is
      above it, the record with the names above it, its lines and its bytes. */
  lemma {:induction false} SymbolsExactly(root: Tree, text: seq<byte>, module_: string, language: Language, x: SymbolRef)
    ensures var s := Source(module_, text, Starts(text) + [|text|], language);
      x in Preorder(s, root, Context([], false)) <==>
        exists nodes: seq<Tree>, flags: seq<bool> :: IsLineage(language, root, false, nodes, flags) && Emits(s, [], nodes, flags, x)
  {
    var s := Source(module_, text, Starts(text) + [|text|], language);
    var c := Context([], false);
    if x in Preorder(s, root, c) {
      var nodes, flags := ListedHasLineage(s, root, c, x);
    }
    if nodes: seq<Tree>, flags: seq<bool> :| IsLineage(language, root, false, nodes, flags) && Emits(s, [], nodes, flags, x) {
      LineageIsListed(s, root, c, nodes, flags, x);
    }
  }

  // ----- in document order -----

  /** Children lie inside their node, one behind the other. */
  predicate Laid(t: Tree) {
    && t.start <= t.end
    && (forall i | 0 <= i < |t.children| :: Laid(t.children[i]) && t.start <= t.children[i].start && t.children[i].end <= t.end)
    && LaidOut(t.children)
  }

  predicate LaidOut(ts: seq<Tree>) {
    forall i, j | 0 <= i < j < |ts| :: ts[i].end <= ts[j].start
  }

  predicate InLineOrder(xs: seq<SymbolRef>) {
    forall i, j | 0 <= i < j < |xs| :: xs[i].startLine <= xs[j].startLine
  }

  predicate Between(s: Source, xs: seq<SymbolRef>, a: nat, b: nat) {
    forall i | 0 <= i < |xs| :: LineAt(s.starts, a) <= xs[i].startLine <= LineAt(s.starts, b)
  }

  lemma {:induction false} BetweenInOrder(s: Source, xs: seq<SymbolRef>, ys: seq<SymbolRef>, a: nat, b: nat, c: nat)
    requires InLineOrder(xs) && InLineOrder(ys) && Between(s, xs, a, b) && Between(s, ys, b, c) && a <= b <= c
    ensures InLineOrder(xs + ys) && Between(s, xs + ys, a, c)
  {
    CountGrows(s.starts, a, b);
    CountGrows(s.starts, b, c);
  }

  lemma {:induction false} ListedInOrder(s: Source, t: Tree, c: Context)
    requires Laid(t)
    ensures InLineOrder(Preorder(s, t, c)) && Between(s, Preorder(s, t, c), t.start, t.end)
    decreases t, 0
  {
    ChildrenInOrder(s, t.children, Below(s, t, c), t.start, t.end);
    BetweenInOrder(s, Emitted(s, t, c), PreorderAll(s, t.children, Below(s, t, c)), t.start, t.start, t.end);
  }

  lemma {:induction false} ChildrenInOrder(s: Source, ts: seq<Tree>, c: Context, a: nat, b: nat)
    requires a <= b && LaidOut(ts) && forall i | 0 <= i < |ts| :: Laid(ts[i]) && a <= ts[i].start && ts[i].end <= b
    ensures InLineOrder(PreorderAll(s, ts, c)) && Between(s, PreorderAll(s, ts, c), a, b)
    decreases ts
  {
    if ts != [] {
      ListedInOrder(s, ts[0], c);
      ChildrenInOrder(s, ts[1..], c, ts[0].end, b);
      BetweenInOrder(s, [], Preorder(s, ts[0], c), a, ts[0].start, ts[0].end);
      assert [] + Preorder(s, ts[0], c) == Preorder(s, ts[0], c);
      BetweenInOrder(s, Preorder(s, ts[0], c), PreorderAll(s, ts[1..], c), a, ts[0].end, b);
    }
  }

  /** Where the nodes of a tree lie one behind the other, the symbols are listed in the order of their lines. */
  lemma {:induction false} SymbolsInOrder(root: Tree, text: seq<byte>, module_: string, language: Language)
    requires Laid(root)
    ensures InLineOrder(Preorder(Source(module_, text, Starts(text) + [|text|], language), root, Context([], false)))
  {
    ListedInOrder(Source(module_, text, Starts(text) + [|text|], language), root, Context([], false));
  }
}
