/** Syntax trees: the iterative walks that list symbols and serialize a tree. */
module Trees {
  import opened Models

  newtype byte = x: int | 0 <= x < 256

  const NEWLINE: byte := 10

  /** A parsed node: its type, its byte range, its children. */
  datatype Tree = Tree(kind: string, start: nat, end: nat, children: seq<Tree>)

  function Size(t: Tree): nat
    decreases t, 0
  {
    1 + Sizes(t.children)
  }

  function Sizes(ts: seq<Tree>): nat
    decreases ts
  {
    if ts == [] then 0 else Size(ts[0]) + Sizes(ts[1..])
  }

  // ----- line numbers -----

  function CountNewlines(data: seq<byte>): nat {
    if data == [] then 0 else CountNewlines(data[..|data| - 1]) + if data[|data| - 1] == NEWLINE then 1 else 0
  }

  /** How many of the offsets are at most the given one: where `bisect_right` points in an
      ascending list. */
  function CountUpTo(starts: seq<nat>, offset: nat): nat {
    if starts == [] then 0 else CountUpTo(starts[..|starts| - 1], offset) + if starts[|starts| - 1] <= offset then 1 else 0
  }

  predicate Ascending(s: seq<nat>) {
    forall i, j | 0 <= i < j < |s| :: s[i] <= s[j]
  }

  /** In an ascending list the offsets up to the given one come first. */
  lemma {:induction false} CountIsBisect(starts: seq<nat>, offset: nat)
    requires Ascending(starts)
    ensures var k := CountUpTo(starts, offset);
            k <= |starts| && (forall i | 0 <= i < k :: starts[i] <= offset) && forall i | k <= i < |starts| :: starts[i] > offset
  {
    if starts != [] {
      CountIsBisect(starts[..|starts| - 1], offset);
    }
  }

  /** Offsets after each newline of the first i bytes, behind the start of the first line. */
  function Starts(data: seq<byte>): seq<nat> {
    if data == [] then [0] else Starts(data[..|data| - 1]) + if data[|data| - 1] == NEWLINE then [|data|] else []
  }

  /** Offset of each line's first byte, then the length of the data. */
  method LineStarts(data: seq<byte>) returns (starts: seq<nat>)
    ensures starts == Starts(data) + [|data|]
  {
    starts := [0];
    for i := 0 to |data|
      invariant starts == Starts(data[..i])
    {
      assert data[..i + 1][..i] == data[..i];
      if data[i] == NEWLINE {
        starts := starts + [i + 1];
      }
    }
    assert data[..|data|] == data;
    starts := starts + [|data|];
  }

  lemma {:induction false} StartsAscend(data: seq<byte>)
    ensures Ascending(Starts(data)) && forall s | s in Starts(data) :: s <= |data|
  {
    if data != [] {
      StartsAscend(data[..|data| - 1]);
      var init := Starts(data[..|data| - 1]);
      forall i | 0 <= i < |init| ensures init[i] < |data| { assert init[i] in init; }
    }
  }

  lemma {:induction false} CountAppend(starts: seq<nat>, s: nat, offset: nat)
    ensures CountUpTo(starts + [s], offset) == CountUpTo(starts, offset) + if s <= offset then 1 else 0
  {
    assert (starts + [s])[..|starts|] == starts;
  }

  function Least(a: nat, b: nat): nat {
    if a < b then a else b
  }

  lemma {:induction false} CountStarts(data: seq<byte>, offset: nat)
    ensures CountUpTo(Starts(data), offset) == 1 + CountNewlines(data[..Least(offset, |data|)])
  {
    if data == [] {
      assert CountUpTo([], offset) == 0;
      assert [0][..0] == [];
    } else {
      var n := |data| - 1;
      CountStarts(data[..n], offset);
      if data[n] == NEWLINE {
        CountAppend(Starts(data[..n]), |data|, offset);
      } else {
        assert Starts(data[..n]) + [] == Starts(data[..n]);
      }
      if offset >= |data| {
        assert data[..|data|] == data && data[..n][..n] == data[..n];
      } else {
        assert data[..n][..offset] == data[..offset];
      }
    }
  }

  /** The line of an offset: one more than the newlines before it, and one more again at and
      past the end of the data, where the closing offset counts too. */
  lemma {:induction false} LineAtCountsNewlines(data: seq<byte>, offset: nat)
    ensures CountUpTo(Starts(data) + [|data|], offset)
      == 1 + CountNewlines(data[..Least(offset, |data|)]) + if offset >= |data| then 1 else 0
  {
    CountStarts(data, offset);
    CountAppend(Starts(data), |data|, offset);
  }

  function LineAt(starts: seq<nat>, offset: nat): nat {
    CountUpTo(starts, offset)
  }

  /** First and last line of a byte range; an empty range is on the line where it starts. */
  function SymbolLines(starts: seq<nat>, start: nat, end: nat): (nat, nat) {
    (LineAt(starts, start), LineAt(starts, if end > start then end - 1 else start))
  }

  lemma {:induction false} CountGrows(starts: seq<nat>, a: nat, b: nat)
    requires a <= b
    ensures CountUpTo(starts, a) <= CountUpTo(starts, b)
  {
    if starts != [] {
      CountGrows(starts[..|starts| - 1], a, b);
    }
  }

  /** A symbol inside another spans lines inside the other's. */
  lemma {:induction false} LinesNest(starts: seq<nat>, a: nat, b: nat, c: nat, d: nat)
    requires a <= c <= d <= b
    ensures var outer, inner := SymbolLines(starts, a, b), SymbolLines(starts, c, d);
            outer.0 <= inner.0 <= inner.1 && (c < b ==> inner.1 <= outer.1)
  {
    CountGrows(starts, a, c);
    var last := if d > c then d - 1 else c;
    CountGrows(starts, c, last);
    if c < b {
      CountGrows(starts, last, b - 1);
    }
  }

  // ----- symbols -----

  datatype SymbolInfo = SymbolInfo(kind: string, name: string)

  datatype SymbolRef = SymbolRef(kind: string, name: string, qualifiedName: string, startLine: nat, endLine: nat, source: seq<byte>)

  /** How a language reads a tree: which nodes define symbols, given whether they are in a class,
      and which nodes only open a named scope. */
  datatype Language = Language(symbolInfo: (Tree, bool) -> Option<SymbolInfo>, scopeName: Tree -> Option<string>)

  /** What the walk knows at a node: the names around it, and whether it is in a class. */
  datatype Context = Context(names: seq<string>, inClass: bool)

  datatype Source = Source(module_: string, text: seq<byte>, starts: seq<nat>, language: Language)

  function JoinNonEmpty(parts: seq<string>): string {
    if parts == [] then ""
    else if parts[0] == "" then JoinNonEmpty(parts[1..])
    else
      var rest := JoinNonEmpty(parts[1..]);
      parts[0] + if rest == "" then "" else "." + rest
  }

  function Slice(text: seq<byte>, start: nat, end: nat): seq<byte> {
    var e := Least(end, |text|);
    if start < e then text[start..e] else []
  }

  function SymbolOf(s: Source, t: Tree, names: seq<string>, info: SymbolInfo): SymbolRef {
    var (startLine, endLine) := SymbolLines(s.starts, t.start, t.end);
    SymbolRef(info.kind, info.name, JoinNonEmpty([s.module_] + names + [info.name]), startLine, endLine, Slice(s.text, t.start, t.end))
  }

  /** What a node emits itself. */
  function Emitted(s: Source, t: Tree, c: Context): seq<SymbolRef> {
    var info := s.language.symbolInfo(t, c.inClass);
    if info.Some? then [SymbolOf(s, t, c.names, info.value)] else []
  }

  /** What its children are told. */
  function Below(s: Source, t: Tree, c: Context): Context {
    var info := s.language.symbolInfo(t, c.inClass);
    if info.Some? then Context(c.names + [info.value.name], c.inClass || info.value.kind == "class")
    else
      var scope := s.language.scopeName(t);
      if scope.Some? then c.(names := c.names + [scope.value]) else c
  }

  /** The recursive walk: the node first, then its children from left to right. */
  function Preorder(s: Source, t: Tree, c: Context): seq<SymbolRef>
    decreases t, 0
  {
    Emitted(s, t, c) + PreorderAll(s, t.children, Below(s, t, c))
  }

  function PreorderAll(s: Source, ts: seq<Tree>, c: Context): seq<SymbolRef>
    decreases ts
  {
    if ts == [] then [] else Preorder(s, ts[0], c) + PreorderAll(s, ts[1..], c)
  }

  datatype Pending = Pending(node: Tree, context: Context)

  /** A list of nodes pushed in reverse, so that the first one is popped first. */
  function Pushed(ts: seq<Tree>, c: Context): seq<Pending> {
    if ts == [] then [] else Pushed(ts[1..], c) + [Pending(ts[0], c)]
  }

  /** What popping everything off the stack would emit. */
  function Outstanding(s: Source, stack: seq<Pending>): seq<SymbolRef> {
    if stack == [] then []
    else
      var top := stack[|stack| - 1];
      Preorder(s, top.node, top.context) + Outstanding(s, stack[..|stack| - 1])
  }

  function StackSize(stack: seq<Pending>): nat {
    if stack == [] then 0 else StackSize(stack[..|stack| - 1]) + Size(stack[|stack| - 1].node)
  }

  lemma {:induction false} PushedIsOutstanding(s: Source, stack: seq<Pending>, ts: seq<Tree>, c: Context)
    ensures Outstanding(s, stack + Pushed(ts, c)) == PreorderAll(s, ts, c) + Outstanding(s, stack)
    ensures StackSize(stack + Pushed(ts, c)) == StackSize(stack) + Sizes(ts)
  {
    if ts == [] {
      assert stack + [] == stack;
    } else {
      var all := stack + Pushed(ts, c);
      assert all == (stack + Pushed(ts[1..], c)) + [Pending(ts[0], c)];
      assert all[..|all| - 1] == stack + Pushed(ts[1..], c);
      PushedIsOutstanding(s, stack, ts[1..], c);
      assert Preorder(s, ts[0], c) + (PreorderAll(s, ts[1..], c) + Outstanding(s, stack))
        == (Preorder(s, ts[0], c) + PreorderAll(s, ts[1..], c)) + Outstanding(s, stack);
    }
  }

  lemma {:induction false} PopStep(s: Source, out: seq<SymbolRef>, stack: seq<Pending>)
    requires stack != []
    ensures var top, rest := stack[|stack| - 1], stack[..|stack| - 1];
            var next := rest + Pushed(top.node.children, Below(s, top.node, top.context));
      && out + Outstanding(s, stack) == (out + Emitted(s, top.node, top.context)) + Outstanding(s, next)
      && StackSize(next) < StackSize(stack)
  {
    var top, rest := stack[|stack| - 1], stack[..|stack| - 1];
    var c := Below(s, top.node, top.context);
    PushedIsOutstanding(s, rest, top.node.children, c);
    AssociateThree(out, Emitted(s, top.node, top.context), PreorderAll(s, top.node.children, c), Outstanding(s, rest));
  }

  lemma {:induction false} AssociateThree<T>(a: seq<T>, b: seq<T>, c: seq<T>, d: seq<T>)
    ensures a + ((b + c) + d) == (a + b) + (c + d)
  {}

  /** The walk with an explicit stack: it emits what the recursive walk emits, and ends because
      each step takes a node off the total size left on the stack. */
  method CollectSymbols(root: Tree, text: seq<byte>, module_: string, language: Language) returns (out: seq<SymbolRef>)
    ensures out == Preorder(Source(module_, text, Starts(text) + [|text|], language), root, Context([], false))
  {
    out := [];
    var starts := LineStarts(text);
    var s := Source(module_, text, starts, language);
    var pending := [Pending(root, Context([], false))];
    assert pending == [] + Pushed([root], Context([], false));
    PushedIsOutstanding(s, [], [root], Context([], false));
    while pending != []
      invariant out + Outstanding(s, pending) == Preorder(s, root, Context([], false))
      decreases StackSize(pending)
    {
      PopStep(s, out, pending);
      var top := pending[|pending| - 1];
      pending := pending[..|pending| - 1];
      var info := language.symbolInfo(top.node, top.context.inClass);
      if info.Some? {
        out := out + [SymbolOf(s, top.node, top.context.names, info.value)];
        var below := Context(top.context.names + [info.value.name], top.context.inClass || info.value.kind == "class");
        pending := pending + Pushed(top.node.children, below);
      } else {
        assert out + [] == out;
        var scope := language.scopeName(top.node);
        if scope.Some? {
          pending := pending + Pushed(top.node.children, top.context.(names := top.context.names + [scope.value]));
        } else {
          pending := pending + Pushed(top.node.children, top.context);
        }
      }
    }
  }
}
