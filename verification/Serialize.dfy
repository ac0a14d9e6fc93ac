/** The canonical serialization of a syntax tree, and what it does and does not tell apart. */
module Serialize {
  import opened Models
  import opened Trees

  /** One part of the serialization. */
  datatype Token = Open(kind: string) | Text(text: string) | Close

  /** What the serialization shows of a tree: node types, and the text of the leaves. */
  datatype Shape = Leaf(kind: string, text: string) | Branch(kind: string, children: seq<Shape>)

  /** A leaf prints its text; a branch its children. */
  predicate WellFormed(t: Shape) {
    t.Branch? ==> t.children != [] && forall c | c in t.children :: WellFormed(c)
  }

  /** Decoded text of a leaf's byte range. */
  type Decoder = Tree -> string

  function ShapeOf(t: Tree, decode: Decoder): Shape
    decreases t, 0
  {
    if t.children == [] then Leaf(t.kind, decode(t)) else Branch(t.kind, ShapesOf(t.children, decode))
  }

  function ShapesOf(ts: seq<Tree>, decode: Decoder): (r: seq<Shape>)
    ensures |r| == |ts|
    decreases ts
  {
    if ts == [] then [] else [ShapeOf(ts[0], decode)] + ShapesOf(ts[1..], decode)
  }

  /** The recursive s-expression. */
  function Tokens(t: Shape): seq<Token>
    decreases t, 0
  {
    [Open(t.kind)] + (if t.Leaf? then [Text(t.text)] else AllTokens(t.children)) + [Close]
  }

  function AllTokens(ts: seq<Shape>): seq<Token>
    decreases ts
  {
    if ts == [] then [] else Tokens(ts[0]) + AllTokens(ts[1..])
  }

  // ----- the iterative walk -----

  datatype Entry = Entry(node: Tree, close: bool)

  function Pushed(ts: seq<Tree>): seq<Entry> {
    if ts == [] then [] else Pushed(ts[1..]) + [Entry(ts[0], false)]
  }

  function EntryTokens(e: Entry, decode: Decoder): seq<Token> {
    if e.close then [Close] else Tokens(ShapeOf(e.node, decode))
  }

  function Outstanding(stack: seq<Entry>, decode: Decoder): seq<Token> {
    if stack == [] then []
    else EntryTokens(stack[|stack| - 1], decode) + Outstanding(stack[..|stack| - 1], decode)
  }

  /** Two units for a node to open, one for a node to close. */
  function StackSize(stack: seq<Entry>): nat {
    if stack == [] then 0
    else
      var top := stack[|stack| - 1];
      StackSize(stack[..|stack| - 1]) + if top.close then 1 else 2 * Size(top.node)
  }

  lemma {:induction false} OutstandingPush(stack: seq<Entry>, e: Entry, decode: Decoder)
    ensures Outstanding(stack + [e], decode) == EntryTokens(e, decode) + Outstanding(stack, decode)
    ensures StackSize(stack + [e]) == StackSize(stack) + if e.close then 1 else 2 * Size(e.node)
  {
    assert (stack + [e])[..|stack|] == stack;
  }

  lemma {:induction false} OutstandingPushed(stack: seq<Entry>, ts: seq<Tree>, decode: Decoder)
    ensures Outstanding(stack + Pushed(ts), decode) == AllTokens(ShapesOf(ts, decode)) + Outstanding(stack, decode)
    ensures StackSize(stack + Pushed(ts)) == StackSize(stack) + 2 * Sizes(ts)
  {
    if ts == [] {
      assert stack + [] == stack;
    } else {
      assert stack + Pushed(ts) == (stack + Pushed(ts[1..])) + [Entry(ts[0], false)];
      OutstandingPushed(stack, ts[1..], decode);
      OutstandingPush(stack + Pushed(ts[1..]), Entry(ts[0], false), decode);
      var shapes := ShapesOf(ts, decode);
      assert shapes[1..] == ShapesOf(ts[1..], decode);
      Associate(Tokens(shapes[0]), AllTokens(shapes[1..]), Outstanding(stack, decode));
    }
  }

  lemma {:induction false} Associate(a: seq<Token>, b: seq<Token>, c: seq<Token>)
    ensures a + (b + c) == (a + b) + c
  {}

  /** What replaces the entry of a node on the stack. */
  function Opened(rest: seq<Entry>, t: Tree): seq<Entry> {
    (rest + [Entry(t, true)]) + Pushed(t.children)
  }

  function LeafText(t: Tree, decode: Decoder): seq<Token> {
    if t.children == [] then [Text(decode(t))] else []
  }

  lemma {:induction false} OpenStep(parts: seq<Token>, rest: seq<Entry>, t: Tree, decode: Decoder)
    ensures parts + (Tokens(ShapeOf(t, decode)) + Outstanding(rest, decode))
      == (parts + [Open(t.kind)] + LeafText(t, decode)) + Outstanding(Opened(rest, t), decode)
    ensures StackSize(Opened(rest, t)) < StackSize(rest) + 2 * Size(t)
  {
    OutstandingPush(rest, Entry(t, true), decode);
    OutstandingPushed(rest + [Entry(t, true)], t.children, decode);
    var below := AllTokens(ShapesOf(t.children, decode));
    Spread(parts, [Open(t.kind)], LeafText(t, decode) + below, [Close], Outstanding(rest, decode));
    Associate(parts + [Open(t.kind)], LeafText(t, decode), below + ([Close] + Outstanding(rest, decode)));
    Associate(LeafText(t, decode), below, [Close] + Outstanding(rest, decode));
    if t.children == [] {
      assert LeafText(t, decode) + below == [Text(decode(t))];
    } else {
      assert LeafText(t, decode) + below == below;
    }
  }

  lemma {:induction false} Spread(a: seq<Token>, b: seq<Token>, c: seq<Token>, d: seq<Token>, e: seq<Token>)
    ensures a + ((b + c + d) + e) == (a + b) + (c + (d + e))
  {}

  /** The walk with an explicit stack prints the recursive s-expression. */
  method AstTokens(root: Tree, decode: Decoder) returns (parts: seq<Token>)
    ensures parts == Tokens(ShapeOf(root, decode))
  {
    parts := [];
    var stack := [Entry(root, false)];
    ghost var goal := Tokens(ShapeOf(root, decode));
    assert [] + [Entry(root, false)] == stack;
    OutstandingPush([], Entry(root, false), decode);
    assert goal + [] == goal && [] + goal == goal;
    while stack != []
      invariant parts + Outstanding(stack, decode) == goal
      decreases StackSize(stack)
    {
      var top, rest := stack[|stack| - 1], stack[..|stack| - 1];
      stack := rest;
      if top.close {
        Associate(parts, [Close], Outstanding(rest, decode));
        parts := parts + [Close];
      } else {
        OpenStep(parts, rest, top.node, decode);
        parts := parts + [Open(top.node.kind)];
        stack := stack + [Entry(top.node, true)];
        if top.node.children == [] {
          parts := parts + [Text(decode(top.node))];
          assert stack == stack + Pushed(top.node.children);
        } else {
          assert parts == parts + LeafText(top.node, decode);
          stack := stack + Pushed(top.node.children);
        }
      }
    }
    assert parts + [] == parts;
  }

  lemma {:induction false} ShapeIsWellFormed(t: Tree, decode: Decoder)
    ensures WellFormed(ShapeOf(t, decode))
    decreases t, 0
  {
    ShapesAreWellFormed(t.children, decode);
  }

  lemma {:induction false} ShapesAreWellFormed(ts: seq<Tree>, decode: Decoder)
    ensures forall c | c in ShapesOf(ts, decode) :: WellFormed(c)
    decreases ts
  {
    if ts != [] {
      ShapeIsWellFormed(ts[0], decode);
      ShapesAreWellFormed(ts[1..], decode);
    }
  }

  // ----- balance -----

  function Height(ts: seq<Token>): int {
    if ts == [] then 0
    else Height(ts[..|ts| - 1]) + (match ts[|ts| - 1] case Open(_) => 1 case Close => -1 case Text(_) => 0)
  }

  lemma {:induction false} HeightConcat(a: seq<Token>, b: seq<Token>)
    ensures Height(a + b) == Height(a) + Height(b)
  {
    if b == [] {
      assert a + b == a;
    } else {
      assert (a + b)[..|a + b| - 1] == a + b[..|b| - 1];
      HeightConcat(a, b[..|b| - 1]);
    }
  }

  lemma {:induction false} HeightOne(t: Token)
    ensures Height([t]) == match t case Open(_) => 1 case Close => -1 case Text(_) => 0
  {
    assert [t][..0] == [];
  }

  /** Every close has its open, and the first open is closed only at the very end. */
  lemma {:induction false} TokensBalance(t: Shape)
    ensures Height(Tokens(t)) == 0
    ensures forall k | 0 < k < |Tokens(t)| :: Height(Tokens(t)[..k]) > 0
    decreases t, 0
  {
    var open, inner := [Open(t.kind)], if t.Leaf? then [Text(t.text)] else AllTokens(t.children);
    if t.Leaf? { TextIsFlat(t.text); } else { AllTokensBalance(t.children); }
    HeightOne(Open(t.kind));
    HeightOne(Close);
    HeightConcat(open, inner);
    HeightConcat(open + inner, [Close]);
    forall k | 0 < k < |Tokens(t)| ensures Height(Tokens(t)[..k]) > 0 {
      assert Tokens(t)[..k] == open + inner[..k - 1];
      HeightConcat(open, inner[..k - 1]);
    }
  }

  lemma {:induction false} TextIsFlat(text: string)
    ensures Height([Text(text)]) == 0 && forall k | 0 <= k <= 1 :: Height([Text(text)][..k]) >= 0
  {
    HeightOne(Text(text));
    assert [Text(text)][..0] == [] && [Text(text)][..1] == [Text(text)];
  }

  lemma {:induction false} AllTokensBalance(ts: seq<Shape>)
    ensures Height(AllTokens(ts)) == 0
    ensures forall k | 0 <= k <= |AllTokens(ts)| :: Height(AllTokens(ts)[..k]) >= 0
    decreases ts
  {
    if ts != [] {
      TokensBalance(ts[0]);
      AllTokensBalance(ts[1..]);
      var a, b := Tokens(ts[0]), AllTokens(ts[1..]);
      HeightConcat(a, b);
      forall k | 0 <= k <= |a + b| ensures Height((a + b)[..k]) >= 0 {
        if k <= |a| {
          assert (a + b)[..k] == a[..k];
          assert a[..|a|] == a;
        } else {
          assert (a + b)[..k] == a + b[..k - |a|];
          HeightConcat(a, b[..k - |a|]);
        }
      }
    }
  }

  // ----- the tokens determine the tree -----

  lemma {:induction false} TokensStart(t: Shape)
    ensures |Tokens(t)| >= 2 && Tokens(t)[0] == Open(t.kind) && Tokens(t)[|Tokens(t)| - 1] == Close
  {}

  /** No serialization continues another one. */
  lemma {:induction false} TokensDetermine(a: Shape, b: Shape, ra: seq<Token>, rb: seq<Token>)
    requires WellFormed(a) && WellFormed(b) && Tokens(a) + ra == Tokens(b) + rb
    ensures a == b && ra == rb
    decreases a, 0
  {
    var x, y := Tokens(a) + ra, Tokens(b) + rb;
    assert x[0] == Open(a.kind) && y[0] == Open(b.kind);
    InnerOf(a, ra);
    InnerOf(b, rb);
    FirstInner(a, ra);
    FirstInner(b, rb);
    if a.Leaf? {
      assert x[1..] == [Text(a.text)] + ([Close] + ra) && y[1..] == [Text(b.text)] + ([Close] + rb);
      assert x[1..][2..] == ra && y[1..][2..] == rb;
    } else {
      AllTokensDetermine(a.children, b.children, ra, rb);
    }
  }

  function Inner(t: Shape): seq<Token> {
    if t.Leaf? then [Text(t.text)] else AllTokens(t.children)
  }

  lemma {:induction false} InnerOf(t: Shape, r: seq<Token>)
    ensures (Tokens(t) + r)[1..] == Inner(t) + ([Close] + r)
  {}

  lemma {:induction false} FirstInner(t: Shape, r: seq<Token>)
    requires WellFormed(t)
    ensures |Tokens(t) + r| > 1
    ensures t.Leaf? <==> (Tokens(t) + r)[1].Text?
    ensures t.Leaf? ==> (Tokens(t) + r)[1] == Text(t.text)
  {
    InnerOf(t, r);
    if t.Branch? {
      TokensStart(t.children[0]);
    }
  }

  lemma {:induction false} FirstOfAll(ts: seq<Shape>, r: seq<Token>)
    ensures |AllTokens(ts) + ([Close] + r)| > 0
    ensures (AllTokens(ts) + ([Close] + r))[0] == if ts == [] then Close else Open(ts[0].kind)
  {
    if ts != [] {
      TokensStart(ts[0]);
    }
  }

  lemma {:induction false} AllTokensDetermine(as_: seq<Shape>, bs: seq<Shape>, ra: seq<Token>, rb: seq<Token>)
    requires (forall c | c in as_ :: WellFormed(c)) && (forall c | c in bs :: WellFormed(c))
    requires AllTokens(as_) + ([Close] + ra) == AllTokens(bs) + ([Close] + rb)
    ensures as_ == bs && ra == rb
    decreases as_
  {
    var x, y := AllTokens(as_) + ([Close] + ra), AllTokens(bs) + ([Close] + rb);
    FirstOfAll(as_, ra);
    FirstOfAll(bs, rb);
    if as_ == [] {
      assert x[1..] == ra && y[1..] == rb;
    } else {
      Associate(Tokens(as_[0]), AllTokens(as_[1..]), [Close] + ra);
      Associate(Tokens(bs[0]), AllTokens(bs[1..]), [Close] + rb);
      TokensDetermine(as_[0], bs[0], AllTokens(as_[1..]) + ([Close] + ra), AllTokens(bs[1..]) + ([Close] + rb));
      AllTokensDetermine(as_[1..], bs[1..], ra, rb);
      assert as_ == [as_[0]] + as_[1..] && bs == [bs[0]] + bs[1..];
    }
  }

  /** The trees have the same node types and leaf texts in the same arrangement. */
  ghost predicate Alike(a: Tree, b: Tree, da: Decoder, db: Decoder)
    decreases a
  {
    && a.kind == b.kind && |a.children| == |b.children|
    && (a.children == [] ==> da(a) == db(b))
    && forall i | 0 <= i < |a.children| :: Alike(a.children[i], b.children[i], da, db)
  }

  lemma {:induction false} ShapesPointwise(ts: seq<Tree>, decode: Decoder)
    ensures forall i | 0 <= i < |ts| :: ShapesOf(ts, decode)[i] == ShapeOf(ts[i], decode)
  {
    if ts != [] {
      ShapesPointwise(ts[1..], decode);
    }
  }

  lemma {:induction false} SameShapeExactly(a: Tree, b: Tree, da: Decoder, db: Decoder)
    ensures ShapeOf(a, da) == ShapeOf(b, db) <==> Alike(a, b, da, db)
    decreases a
  {
    ShapesPointwise(a.children, da);
    ShapesPointwise(b.children, db);
    if |a.children| == |b.children| {
      forall i | 0 <= i < |a.children|
        ensures ShapesOf(a.children, da)[i] == ShapesOf(b.children, db)[i] <==> Alike(a.children[i], b.children[i], da, db)
      {
        SameShapeExactly(a.children[i], b.children[i], da, db);
      }
    }
  }

  /** Two trees have the same token list exactly when they are alike. */
  lemma {:induction false} SameTokensExactly(a: Tree, b: Tree, da: Decoder, db: Decoder)
    ensures Tokens(ShapeOf(a, da)) == Tokens(ShapeOf(b, db)) <==> Alike(a, b, da, db)
  {
    SameShapeExactly(a, b, da, db);
    if Tokens(ShapeOf(a, da)) == Tokens(ShapeOf(b, db)) {
      ShapeIsWellFormed(a, da);
      ShapeIsWellFormed(b, db);
      assert Tokens(ShapeOf(a, da)) + [] == Tokens(ShapeOf(b, db)) + [];
      TokensDetermine(ShapeOf(a, da), ShapeOf(b, db), [], []);
    }
  }

  // ----- the printed text -----

  function PartText(t: Token): string {
    match t
    case Open(kind) => "(" + kind
    case Text(text) => "\"" + text + "\""
    case Close => ")"
  }

  /** The parts joined by spaces. */
  function Printed(ts: seq<Token>): string {
    if ts == [] then "" else PartText(ts[0]) + if |ts| == 1 then "" else " " + Printed(ts[1..])
  }

  lemma {:induction false} PrintedCons(t: Token, rest: seq<Token>)
    requires rest != []
    ensures Printed([t] + rest) == PartText(t) + (" " + Printed(rest))
  {
    assert ([t] + rest)[1..] == rest;
  }

  lemma {:induction false} SameBehind(t: Token, x: seq<Token>, y: seq<Token>)
    requires x != [] && y != [] && Printed(x) == Printed(y)
    ensures Printed([t] + x) == Printed([t] + y)
  {
    PrintedCons(t, x);
    PrintedCons(t, y);
  }

  lemma {:induction false} TextOverTokens(kind: string, a: string, b: string, rest: seq<Token>)
    requires rest != []
    ensures Printed([Text(a + "\" ) (" + kind + " \"" + b)] + rest)
      == Printed([Text(a)] + ([Close] + ([Open(kind)] + ([Text(b)] + rest))))
  {
    PrintedCons(Text(b), rest);
    PrintedCons(Open(kind), [Text(b)] + rest);
    PrintedCons(Close, [Open(kind)] + ([Text(b)] + rest));
    PrintedCons(Text(a), [Close] + ([Open(kind)] + ([Text(b)] + rest)));
    PrintedCons(Text(a + "\" ) (" + kind + " \"" + b), rest);
    ImitatedText(a, kind, b, Printed(rest));
  }

  lemma {:induction false} ImitatedText(a: string, kind: string, b: string, rest: string)
    ensures ("\"" + (a + "\" ) (" + kind + " \"" + b) + "\"") + (" " + rest)
      == ("\"" + a + "\"") + (" " + (")" + (" " + (("(" + kind) + (" " + (("\"" + b + "\"") + (" " + rest)))))))
  {}

  // ----- leaf text that prints like tokens -----

  /** Text that looks like the end of its leaf and the start of another one. */
  function Imitation(a: string, kind: string, b: string): string {
    a + "\" ) (" + kind + " \"" + b
  }

  predicate HasText(ts: seq<Shape>, text: string)
    decreases ts
  {
    && ts != []
    && ((if ts[0].Leaf? then ts[0].text == text else HasText(ts[0].children, text)) || HasText(ts[1..], text))
  }

  function LeafCount(ts: seq<Shape>): nat
    decreases ts
  {
    if ts == [] then 0
    else (if ts[0].Leaf? then 1 else LeafCount(ts[0].children)) + LeafCount(ts[1..])
  }

  /** The shapes with the first leaf of the imitating text made into the two leaves it imitates. */
  function Twin(ts: seq<Shape>, a: string, kind: string, b: string): seq<Shape>
    requires HasText(ts, Imitation(a, kind, b))
    decreases ts
  {
    var t := ts[0];
    if t.Leaf? && t.text == Imitation(a, kind, b) then [Leaf(t.kind, a), Leaf(kind, b)] + ts[1..]
    else if t.Branch? && HasText(t.children, Imitation(a, kind, b))
    then [Branch(t.kind, Twin(t.children, a, kind, b))] + ts[1..]
    else [t] + Twin(ts[1..], a, kind, b)
  }

  lemma {:induction false} Uncons(pre: seq<Token>, x: seq<Token>)
    requires pre != []
    ensures pre + x == [pre[0]] + (pre[1..] + x)
  {}

  lemma {:induction false} LeafTokens(kind: string, text: string, rest: seq<Token>)
    ensures Tokens(Leaf(kind, text)) + rest == [Open(kind)] + ([Text(text)] + ([Close] + rest))
  {}

  lemma {:induction false} PrintedBehind(pre: seq<Token>, x: seq<Token>, y: seq<Token>)
    requires x != [] && y != [] && Printed(x) == Printed(y)
    ensures Printed(pre + x) == Printed(pre + y)
  {
    if pre == [] {
      assert pre + x == x && pre + y == y;
    } else {
      PrintedBehind(pre[1..], x, y);
      SameBehind(pre[0], pre[1..] + x, pre[1..] + y);
      Uncons(pre, x);
      Uncons(pre, y);
    }
  }

  lemma {:induction false} TwoForOne(kind0: string, a: string, kind: string, b: string, rest: seq<Token>)
    ensures Printed(Tokens(Leaf(kind0, Imitation(a, kind, b))) + rest)
      == Printed(Tokens(Leaf(kind0, a)) + (Tokens(Leaf(kind, b)) + rest))
  {
    var end := [Close] + rest;
    TextOverTokens(kind, a, b, end);
    var x, y := [Text(Imitation(a, kind, b))] + end, [Text(a)] + ([Close] + ([Open(kind)] + ([Text(b)] + end)));
    SameBehind(Open(kind0), x, y);
    LeafTokens(kind0, Imitation(a, kind, b), rest);
    LeafTokens(kind, b, rest);
    LeafTokens(kind0, a, Tokens(Leaf(kind, b)) + rest);
  }

  lemma {:induction false} AllTokensOfTwo(s: Shape, t: Shape, ts: seq<Shape>)
    ensures AllTokens([s, t] + ts) == Tokens(s) + (Tokens(t) + AllTokens(ts))
  {
    AllTokensCons(s, [t] + ts);
    AllTokensCons(t, ts);
    assert [s, t] + ts == [s] + ([t] + ts);
  }

  lemma {:induction false} AllTokensCons(t: Shape, ts: seq<Shape>)
    ensures AllTokens([t] + ts) == Tokens(t) + AllTokens(ts)
  {
    assert ([t] + ts)[1..] == ts;
  }

  /** The tokens of the twin print the same, whatever comes behind. */
  lemma {:induction false} TwinPrints(ts: seq<Shape>, a: string, kind: string, b: string, rest: seq<Token>)
    requires HasText(ts, Imitation(a, kind, b)) && rest != []
    ensures Printed(AllTokens(ts) + rest) == Printed(AllTokens(Twin(ts, a, kind, b)) + rest)
    decreases ts
  {
    var t, more := ts[0], ts[1..];
    var behind := AllTokens(more) + rest;
    Associate(Tokens(t), AllTokens(more), rest);
    if t.Leaf? && t.text == Imitation(a, kind, b) {
      TwoForOne(t.kind, a, kind, b, behind);
      AllTokensOfTwo(Leaf(t.kind, a), Leaf(kind, b), more);
      Associate(Tokens(Leaf(kind, b)), AllTokens(more), rest);
      Associate(Tokens(Leaf(t.kind, a)), Tokens(Leaf(kind, b)) + AllTokens(more), rest);
    } else if t.Branch? && HasText(t.children, Imitation(a, kind, b)) {
      var u := Branch(t.kind, Twin(t.children, a, kind, b));
      TwinPrints(t.children, a, kind, b, [Close] + behind);
      SameBehind(Open(t.kind), AllTokens(t.children) + ([Close] + behind), AllTokens(u.children) + ([Close] + behind));
      InsideOf(t, behind);
      InsideOf(u, behind);
      AllTokensCons(u, more);
      Associate(Tokens(u), AllTokens(more), rest);
    } else {
      TwinPrints(more, a, kind, b, rest);
      PrintedBehind(Tokens(t), behind, AllTokens(Twin(more, a, kind, b)) + rest);
      AllTokensCons(t, Twin(more, a, kind, b));
      Associate(Tokens(t), AllTokens(Twin(more, a, kind, b)), rest);
    }
  }

  lemma {:induction false} InsideOf(t: Shape, r: seq<Token>)
    requires t.Branch?
    ensures Tokens(t) + r == [Open(t.kind)] + (AllTokens(t.children) + ([Close] + r))
  {}

  lemma {:induction false} TwinIsWellFormed(ts: seq<Shape>, a: string, kind: string, b: string)
    requires HasText(ts, Imitation(a, kind, b)) && forall t | t in ts :: WellFormed(t)
    ensures Twin(ts, a, kind, b) != [] && forall t | t in Twin(ts, a, kind, b) :: WellFormed(t)
    ensures LeafCount(Twin(ts, a, kind, b)) == LeafCount(ts) + 1
    decreases ts
  {
    var t, more := ts[0], ts[1..];
    assert t in ts && forall m | m in more :: m in ts;
    if t.Leaf? && t.text == Imitation(a, kind, b) {
      CountCons(Leaf(kind, b), more);
      CountCons(Leaf(t.kind, a), [Leaf(kind, b)] + more);
      assert [Leaf(t.kind, a), Leaf(kind, b)] + more == [Leaf(t.kind, a)] + ([Leaf(kind, b)] + more);
    } else if t.Branch? && HasText(t.children, Imitation(a, kind, b)) {
      TwinIsWellFormed(t.children, a, kind, b);
      CountCons(Branch(t.kind, Twin(t.children, a, kind, b)), more);
    } else {
      TwinIsWellFormed(more, a, kind, b);
      CountCons(t, Twin(more, a, kind, b));
    }
  }

  lemma {:induction false} CountCons(t: Shape, ts: seq<Shape>)
    ensures LeafCount([t] + ts) == (if t.Leaf? then 1 else LeafCount(t.children)) + LeafCount(ts)
  {
    assert ([t] + ts)[1..] == ts;
  }

  /** Any tree with a leaf below its root whose text looks like the end of a leaf and the start of
      another prints exactly like another tree, which has one leaf more: their fingerprints agree. */
  lemma {:induction false} LeafTextCanImitateTokens(t: Shape, a: string, kind: string, b: string)
    requires WellFormed(t) && t.Branch? && HasText(t.children, Imitation(a, kind, b))
    ensures var u := Branch(t.kind, Twin(t.children, a, kind, b));
            && WellFormed(u) && LeafCount([u]) == LeafCount([t]) + 1
            && Printed(Tokens(u)) == Printed(Tokens(t))
  {
    var u := Branch(t.kind, Twin(t.children, a, kind, b));
    TwinIsWellFormed(t.children, a, kind, b);
    TwinPrints(t.children, a, kind, b, [Close]);
    SameBehind(Open(t.kind), AllTokens(t.children) + [Close], AllTokens(u.children) + [Close]);
    assert Tokens(t) == [Open(t.kind)] + (AllTokens(t.children) + [Close]);
    assert Tokens(u) == [Open(t.kind)] + (AllTokens(u.children) + [Close]);
  }

  /** Text that looks like the end of its leaf and of the node around it, and the start of a node
      with another leaf. */
  function ClosingImitation(a: string, p: string, kind: string, b: string): string {
    a + "\" ) ) (" + p + " (" + kind + " \"" + b
  }

  lemma {:induction false} ClosingText(a: string, p: string, kind: string, b: string, rest: string)
    ensures ("\"" + ClosingImitation(a, p, kind, b) + "\"") + (" " + rest)
      == ("\"" + a + "\"") + (" " + (")" + (" " + (")" + (" " + (("(" + p) + (" " + (("(" + kind) + (" " + (("\"" + b + "\"") + (" " + rest)))))))))))
  {}

  lemma {:induction false} ClosingTokens(a: string, p: string, kind: string, b: string, rest: seq<Token>)
    requires rest != []
    ensures Printed([Text(ClosingImitation(a, p, kind, b))] + rest)
      == Printed([Text(a)] + ([Close] + ([Close] + ([Open(p)] + ([Open(kind)] + ([Text(b)] + rest))))))
  {
    var leaf := [Text(b)] + rest;
    var node := [Open(kind)] + leaf;
    PrintedCons(Text(b), rest);
    PrintedCons(Open(kind), leaf);
    PrintedCons(Open(p), node);
    PrintedCons(Close, [Open(p)] + node);
    PrintedCons(Close, [Close] + ([Open(p)] + node));
    PrintedCons(Text(a), [Close] + ([Close] + ([Open(p)] + node)));
    PrintedCons(Text(ClosingImitation(a, p, kind, b)), rest);
    ClosingText(a, p, kind, b, Printed(rest));
  }

  lemma {:induction false} NestedTokens(p: string, kind: string, text: string)
    ensures Tokens(Branch(p, [Leaf(kind, text)])) == [Open(p), Open(kind), Text(text), Close, Close]
  {
    AllTokensCons(Leaf(kind, text), []);
    assert [Leaf(kind, text)] + [] == [Leaf(kind, text)];
  }

  lemma {:induction false} OneNested(root: string, p: string, kind: string, text: string)
    ensures Tokens(Branch(root, [Branch(p, [Leaf(kind, text)])]))
      == [Open(root), Open(p), Open(kind)] + ([Text(text)] + [Close, Close, Close])
  {
    NestedTokens(p, kind, text);
    AllTokensCons(Branch(p, [Leaf(kind, text)]), []);
    assert [Branch(p, [Leaf(kind, text)])] + [] == [Branch(p, [Leaf(kind, text)])];
  }

  lemma {:induction false} TwoNested(root: string, p: string, kind: string, a: string, q: string, kind': string, b: string)
    ensures Tokens(Branch(root, [Branch(p, [Leaf(kind, a)]), Branch(q, [Leaf(kind', b)])]))
      == [Open(root), Open(p), Open(kind)] + ([Text(a)] + ([Close] + ([Close] + ([Open(q)] + ([Open(kind')]
        + ([Text(b)] + [Close, Close, Close]))))))
  {
    var y, z := Branch(p, [Leaf(kind, a)]), Branch(q, [Leaf(kind', b)]);
    NestedTokens(p, kind, a);
    NestedTokens(q, kind', b);
    AllTokensOfTwo(y, z, []);
    assert [y, z] + [] == [y, z];
    NestedRight(Open(root), [Open(p), Open(kind)], Text(a), [Open(q), Open(kind')], Text(b));
    assert Tokens(y) == [Open(p), Open(kind)] + [Text(a), Close, Close];
    assert Tokens(z) == [Open(q), Open(kind')] + [Text(b), Close, Close];
    assert AllTokens([]) == [];
    assert [Open(root)] + [Open(p), Open(kind)] == [Open(root), Open(p), Open(kind)];
    Associate([Open(q)], [Open(kind')], [Text(b)] + [Close, Close, Close]);
    assert [Open(q)] + [Open(kind')] == [Open(q), Open(kind')];
  }

  lemma {:induction false} NestedRight(r: Token, o1: seq<Token>, t1: Token, o2: seq<Token>, t2: Token)
    ensures [r] + ((o1 + [t1, Close, Close]) + ((o2 + [t2, Close, Close]) + [])) + [Close]
      == ([r] + o1) + ([t1] + ([Close] + ([Close] + (o2 + ([t2] + [Close, Close, Close])))))
  {}

  /** The imitation may end the node around the leaf too, and not its leaf alone. */
  lemma {:induction false} LeafTextCanCloseParent(root: string, p: string, kind: string, a: string, q: string, kind': string, b: string)
    ensures var one := Branch(root, [Branch(p, [Leaf(kind, ClosingImitation(a, q, kind', b))])]);
            var two := Branch(root, [Branch(p, [Leaf(kind, a)]), Branch(q, [Leaf(kind', b)])]);
            one != two && Printed(Tokens(one)) == Printed(Tokens(two))
  {
    var text, end := ClosingImitation(a, q, kind', b), [Close, Close, Close];
    OneNested(root, p, kind, text);
    TwoNested(root, p, kind, a, q, kind', b);
    ClosingTokens(a, q, kind', b, end);
    PrintedBehind([Open(root), Open(p), Open(kind)], [Text(text)] + end,
      [Text(a)] + ([Close] + ([Close] + ([Open(q)] + ([Open(kind')] + ([Text(b)] + end))))));
    assert |[Branch(p, [Leaf(kind, text)])]| != |[Branch(p, [Leaf(kind, a)]), Branch(q, [Leaf(kind', b)])]|;
  }

  // ----- text that prints like no token -----

  /** A node type that cannot be mistaken for a type followed by more tokens. */
  predicate PlainKind(k: string) {
    forall i | 0 <= i < |k| - 1 :: !BreaksAt(k, i)
  }

  predicate BreaksAt(k: string, i: nat)
    requires i + 1 < |k|
  {
    k[i] == ' ' && (k[i + 1] == '(' || k[i + 1] == '"')
  }

  /** Here the text goes on like the end of its leaf, with another close or an open behind. */
  predicate ImitatesEnd(text: string, i: nat)
    requires i + 4 < |text|
  {
    text[i] == '"' && text[i + 1] == ' ' && text[i + 2] == ')' && text[i + 3] == ' ' && (text[i + 4] == '(' || text[i + 4] == ')')
  }

  predicate PlainText(text: string) {
    forall i | 0 <= i < |text| - 4 :: !ImitatesEnd(text, i)
  }

  /** Plain node types and leaf texts. */
  predicate Plain(t: Shape) {
    PlainKind(t.kind) && (if t.Leaf? then PlainText(t.text) else forall c | c in t.children :: Plain(c))
  }

  /** The token can be read off the printed text: plain, and followed by what follows it in a tree. */
  predicate Fits(ts: seq<Token>, i: nat)
    requires i < |ts|
  {
    match ts[i]
    case Open(kind) => PlainKind(kind) && i + 1 < |ts| && !ts[i + 1].Close?
    case Text(text) => PlainText(text) && i + 1 < |ts| && ts[i + 1].Close?
    case Close => i + 1 < |ts| ==> !ts[i + 1].Text?
  }

  predicate Readable(ts: seq<Token>) {
    ts != [] && ts[|ts| - 1] == Close && forall i | 0 <= i < |ts| :: Fits(ts, i)
  }

  lemma {:induction false} ReadableTail(ts: seq<Token>)
    requires Readable(ts) && |ts| > 1
    ensures Readable(ts[1..])
  {
    var r := ts[1..];
    forall i | 0 <= i < |r| ensures Fits(r, i) {
      assert Fits(ts, i + 1);
    }
  }

  lemma {:induction false} ReadableConcat(a: seq<Token>, b: seq<Token>)
    requires Readable(a) && (b == [] || (Readable(b) && !b[0].Text?))
    ensures Readable(a + b)
  {
    var r := a + b;
    forall i | 0 <= i < |r| ensures Fits(r, i) {
      if i < |a| { assert Fits(a, i); } else { assert Fits(b, i - |a|); }
    }
  }

  lemma {:induction false} ReadableOpen(kind: string, ts: seq<Token>)
    requires Readable(ts) && PlainKind(kind) && !ts[0].Close?
    ensures Readable([Open(kind)] + ts)
  {
    var r := [Open(kind)] + ts;
    forall i | 0 <= i < |r| ensures Fits(r, i) {
      if i > 0 { assert Fits(ts, i - 1); }
    }
  }

  lemma {:induction false} ReadableText(text: string)
    requires PlainText(text)
    ensures Readable([Text(text), Close])
  {
    var r := [Text(text), Close];
    assert Fits(r, 0) && Fits(r, 1);
  }

  lemma {:induction false} PlainIsReadable(t: Shape)
    requires WellFormed(t) && Plain(t)
    ensures Readable(Tokens(t))
    decreases t, 0
  {
    if t.Leaf? {
      ReadableText(t.text);
      ReadableOpen(t.kind, [Text(t.text), Close]);
      assert Tokens(t) == [Open(t.kind)] + [Text(t.text), Close];
    } else {
      AllPlainIsReadable(t.children);
      TokensStart(t.children[0]);
      var inner := AllTokens(t.children) + [Close];
      assert Readable([Close]) by { assert Fits([Close], 0); }
      ReadableConcat(AllTokens(t.children), [Close]);
      ReadableOpen(t.kind, inner);
      assert Tokens(t) == [Open(t.kind)] + inner;
    }
  }

  lemma {:induction false} AllPlainIsReadable(ts: seq<Shape>)
    requires forall c | c in ts :: WellFormed(c) && Plain(c)
    ensures ts == [] || (Readable(AllTokens(ts)) && AllTokens(ts)[0].Open?)
    decreases ts
  {
    if ts != [] {
      PlainIsReadable(ts[0]);
      TokensStart(ts[0]);
      AllPlainIsReadable(ts[1..]);
      ReadableConcat(Tokens(ts[0]), AllTokens(ts[1..]));
    }
  }

  /** The quote that ends the text of a leaf, and the close behind it. */
  predicate EndsText(s: string) {
    && |s| >= 3 && s[0] == '"' && s[1] == ' ' && s[2] == ')'
    && (|s| == 3 || (|s| > 4 && s[3] == ' ' && (s[4] == '(' || s[4] == ')')))
  }

  /** Where the text of a leaf ends: at the first quote with the end of the leaf behind. */
  function TextEnd(s: string): nat {
    if s == [] || EndsText(s) then 0 else 1 + TextEnd(s[1..])
  }

  lemma {:induction false} TextEndsThere(a: string, r: string)
    requires PlainText(a) && EndsText("\"" + r)
    ensures TextEnd(a + ("\"" + r)) == |a|
  {
    var s := a + ("\"" + r);
    if a == [] {
      assert s == "\"" + r;
    } else {
      assert s[|a|] == '"';
      assert |a| > 4 ==> !ImitatesEnd(a, 0);
      assert s[1..] == a[1..] + ("\"" + r);
      forall i | 0 <= i < |a[1..]| - 4 ensures !ImitatesEnd(a[1..], i) {
        assert !ImitatesEnd(a, i + 1);
      }
      TextEndsThere(a[1..], r);
    }
  }

  lemma {:induction false} SplitAt(a: string, b: string, c: char, ra: string, rb: string)
    requires |a| == |b| && a + ([c] + ra) == b + ([c] + rb)
    ensures a == b && ra == rb
  {
    var x, y := a + ([c] + ra), b + ([c] + rb);
    assert x[..|a|] == a && y[..|b|] == b && x[|a| + 1..] == ra && y[|b| + 1..] == rb;
  }

  predicate StartsToken(s: string) {
    s != [] && (s[0] == '(' || s[0] == '"')
  }

  /** Where a node type ends: at the first blank before the start of a token. */
  function KindEnd(s: string): nat {
    if |s| < 2 || (s[0] == ' ' && StartsToken(s[1..])) then 0 else 1 + KindEnd(s[1..])
  }

  lemma {:induction false} KindEndsThere(a: string, r: string)
    requires PlainKind(a) && StartsToken(r)
    ensures KindEnd(a + (" " + r)) == |a|
  {
    var s := a + (" " + r);
    if a == [] {
      assert s == " " + r && s[1..] == r;
    } else {
      assert s[1..] == a[1..] + (" " + r);
      assert s[1] == if |a| > 1 then a[1] else ' ';
      assert |a| > 1 ==> !BreaksAt(a, 0);
      forall i | 0 <= i < |a[1..]| - 1 ensures !BreaksAt(a[1..], i) {
        assert !BreaksAt(a, i + 1);
      }
      KindEndsThere(a[1..], r);
    }
  }

  /** The text behind the first part. */
  function Behind(ts: seq<Token>): string
    requires ts != []
  {
    if |ts| == 1 then "" else " " + Printed(ts[1..])
  }

  lemma {:induction false} PrintedStart(ts: seq<Token>)
    requires ts != []
    ensures Printed(ts) != []
    ensures Printed(ts)[0] == match ts[0] case Open(_) => '(' case Text(_) => '"' case Close => ')'
    ensures Printed(ts)[1..] == match ts[0]
      case Open(kind) => kind + Behind(ts)
      case Text(text) => text + ("\"" + Behind(ts))
      case Close => Behind(ts)
  {
    match ts[0] {
      case Open(kind) => HeadTail('(', kind, Behind(ts));
      case Text(text) =>
        HeadTail('"', text, "\"" + Behind(ts));
        assert (("\"" + text) + "\"") + Behind(ts) == ("\"" + text) + ("\"" + Behind(ts));
      case Close => HeadTail(')', "", Behind(ts));
    }
  }

  lemma {:induction false} HeadTail(c: char, a: string, b: string)
    ensures var s := ([c] + a) + b; s[0] == c && s[1..] == a + b
  {}

  lemma {:induction false} BehindDetermines(x: seq<Token>, y: seq<Token>)
    requires x != [] && y != [] && Behind(x) == Behind(y)
    ensures (|x| == 1 <==> |y| == 1) && (|x| > 1 ==> Printed(x[1..]) == Printed(y[1..]))
  {
    if |x| > 1 && |y| > 1 {
      assert Behind(x)[1..] == Printed(x[1..]) && Behind(y)[1..] == Printed(y[1..]);
    }
  }

  lemma {:induction false} NextStartsToken(x: seq<Token>)
    requires Readable(x) && x[0].Open?
    ensures |x| > 1 && Behind(x) == " " + Printed(x[1..]) && StartsToken(Printed(x[1..]))
  {
    assert Fits(x, 0);
    PrintedStart(x[1..]);
  }

  lemma {:induction false} OpensAgree(x: seq<Token>, y: seq<Token>)
    requires Readable(x) && Readable(y) && x[0].Open? && y[0].Open?
    requires x[0].kind + Behind(x) == y[0].kind + Behind(y)
    ensures x[0] == y[0] && Behind(x) == Behind(y)
  {
    assert Fits(x, 0) && Fits(y, 0);
    NextStartsToken(x);
    NextStartsToken(y);
    KindEndsThere(x[0].kind, Printed(x[1..]));
    KindEndsThere(y[0].kind, Printed(y[1..]));
    SplitAt(x[0].kind, y[0].kind, ' ', Printed(x[1..]), Printed(y[1..]));
  }

  lemma {:induction false} TextIsClosed(x: seq<Token>)
    requires Readable(x) && x[0].Text?
    ensures PlainText(x[0].text) && EndsText("\"" + Behind(x))
  {
    assert Fits(x, 0) && Fits(x, 1);
    PrintedStart(x[1..]);
    if |x| > 2 {
      PrintedStart(x[2..]);
      assert x[1..][1..] == x[2..];
    }
  }

  lemma {:induction false} TextsAgree(x: seq<Token>, y: seq<Token>)
    requires Readable(x) && Readable(y) && x[0].Text? && y[0].Text?
    requires x[0].text + ("\"" + Behind(x)) == y[0].text + ("\"" + Behind(y))
    ensures x[0] == y[0] && Behind(x) == Behind(y)
  {
    TextIsClosed(x);
    TextIsClosed(y);
    TextEndsThere(x[0].text, Behind(x));
    TextEndsThere(y[0].text, Behind(y));
    SplitAt(x[0].text, y[0].text, '"', Behind(x), Behind(y));
  }

  lemma {:induction false} FirstsAgree(x: seq<Token>, y: seq<Token>)
    requires Readable(x) && Readable(y) && Printed(x) == Printed(y)
    ensures x[0] == y[0] && Behind(x) == Behind(y)
  {
    PrintedStart(x);
    PrintedStart(y);
    match x[0] {
      case Open(_) => OpensAgree(x, y);
      case Text(_) => TextsAgree(x, y);
      case Close =>
    }
  }

  /** The printed text of readable tokens determines them. */
  lemma {:induction false} PrintedDetermines(x: seq<Token>, y: seq<Token>)
    requires Readable(x) && Readable(y) && Printed(x) == Printed(y)
    ensures x == y
  {
    FirstsAgree(x, y);
    BehindDetermines(x, y);
    if |x| > 1 {
      ReadableTail(x);
      ReadableTail(y);
      PrintedDetermines(x[1..], y[1..]);
    }
    assert x == [x[0]] + x[1..] && y == [y[0]] + y[1..];
  }

  /** Where node types are plain and no leaf text goes on like the end of its leaf with another close
      or an open behind, the printed text determines the tree. */
  lemma {:induction false} PlainTextDeterminesShape(a: Shape, b: Shape)
    requires WellFormed(a) && WellFormed(b) && Plain(a) && Plain(b)
    requires Printed(Tokens(a)) == Printed(Tokens(b))
    ensures a == b
  {
    PlainIsReadable(a);
    PlainIsReadable(b);
    PrintedDetermines(Tokens(a), Tokens(b));
    TokensDetermine(a, b, [], []);
  }
}
