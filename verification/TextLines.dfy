/** The lines of a text: as the program splits it, and by the line endings of CommonMark. */
module TextLines {

  /** Where `str.splitlines` ends a line. */
  predicate IsBreak(c: char) {
    || '\n' <= c <= '\r' || '\U{1C}' <= c <= '\U{1E}' || c == '\U{85}' || c == '\U{2028}' || c == '\U{2029}'
  }

  predicate HasBreak(s: string) {
    exists c | c in s :: IsBreak(c)
  }

  /** Position of the first break; the length when there is none. */
  function BreakAt(s: string): (n: nat)
    ensures n <= |s| && (n < |s| ==> IsBreak(s[n]))
  {
    if s == [] || IsBreak(s[0]) then 0 else 1 + BreakAt(s[1..])
  }

  /** Where the next line starts: `\r\n` is one break. */
  function BehindBreak(s: string): (n: nat)
    requires BreakAt(s) < |s|
    ensures BreakAt(s) < n <= |s|
  {
    var n := BreakAt(s);
    if s[n] == '\r' && n + 1 < |s| && s[n + 1] == '\n' then n + 2 else n + 1
  }

  function Lines(s: string): seq<string>
    decreases |s|
  {
    if s == [] then []
    else if BreakAt(s) == |s| then [s]
    else [s[..BreakAt(s)]] + Lines(s[BehindBreak(s)..])
  }

  lemma {:induction false} BreakIsFirst(s: string)
    ensures BreakAt(s) == |s| <==> !HasBreak(s)
    ensures !HasBreak(s[..BreakAt(s)])
  {
    if s != [] && !IsBreak(s[0]) {
      BreakIsFirst(s[1..]);
      assert s == [s[0]] + s[1..];
      assert s[..BreakAt(s)] == [s[0]] + s[1..][..BreakAt(s[1..])];
    } else if s != [] {
      assert s[0] in s;
    }
  }

  lemma {:induction false} BreakConcat(a: string, b: string)
    ensures BreakAt(a + b) == if HasBreak(a) then BreakAt(a) else |a| + BreakAt(b)
  {
    if a == [] {
      assert a + b == b;
    } else {
      assert (a + b)[1..] == a[1..] + b && (a + b)[0] == a[0];
      assert a == [a[0]] + a[1..];
      BreakConcat(a[1..], b);
    }
  }

  lemma {:induction false} BreaksOfConcat(a: string, b: string)
    ensures HasBreak(a + b) <==> HasBreak(a) || HasBreak(b)
  {
    if c :| c in a && IsBreak(c) { assert c in a + b; }
    if c :| c in b && IsBreak(c) { assert c in a + b; }
  }

  /** Lines with a line feed behind each. */
  function Unlines(ls: seq<string>): string {
    if ls == [] then "" else ls[0] + ("\n" + Unlines(ls[1..]))
  }

  lemma {:induction false} UnlinesHead(ls: seq<string>, rest: string)
    requires ls != []
    ensures Unlines(ls) + rest == ls[0] + ("\n" + (Unlines(ls[1..]) + rest))
  {}

  lemma {:induction false} ConsLines(ls: seq<string>, more: seq<string>)
    requires ls != []
    ensures [ls[0]] + (ls[1..] + more) == ls + more
  {}

  lemma {:induction false} LinesOfUnlines(ls: seq<string>, rest: string)
    requires forall l | l in ls :: !HasBreak(l)
    ensures Lines(Unlines(ls) + rest) == ls + Lines(rest)
  {
    if ls == [] {
      assert Unlines(ls) + rest == rest;
    } else {
      assert ls[0] in ls && forall l | l in ls[1..] :: l in ls;
      calc {
        Lines(Unlines(ls) + rest);
        { UnlinesHead(ls, rest); }
        Lines(ls[0] + ("\n" + (Unlines(ls[1..]) + rest)));
        { FirstLineEnds(ls[0], Unlines(ls[1..]) + rest); }
        [ls[0]] + Lines(Unlines(ls[1..]) + rest);
        { LinesOfUnlines(ls[1..], rest); }
        [ls[0]] + (ls[1..] + Lines(rest));
        { ConsLines(ls, Lines(rest)); }
        ls + Lines(rest);
      }
    }
  }

  lemma {:induction false} FirstLineEnds(l: string, tail: string)
    requires !HasBreak(l)
    ensures Lines(l + ("\n" + tail)) == [l] + Lines(tail)
  {
    var s := l + ("\n" + tail);
    BreakConcat(l, "\n" + tail);
    assert s[|l|] == '\n' && s[..|l|] == l && s[|l| + 1..] == tail;
  }

  /** The text up to its first break. */
  function FirstLine(s: string): string {
    s[..BreakAt(s)]
  }

  lemma {:induction false} LineStarts(r: string, behind: string)
    requires r != [] && (behind == [] || IsBreak(behind[0]))
    ensures Lines(r + behind) != [] && Lines(r + behind)[0] == FirstLine(r)
  {
    BreakConcat(r, behind);
    BreakIsFirst(r);
    var s := r + behind;
    assert s[..BreakAt(s)] == r[..BreakAt(r)];
    if BreakAt(s) == |s| { assert s[..|s|] == s; }
  }

  lemma {:induction false} FirstLineOfConcat(a: string, b: string)
    ensures FirstLine(a + b) == if HasBreak(a) then FirstLine(a) else a + FirstLine(b)
  {
    BreakConcat(a, b);
    if !HasBreak(a) {
      assert (a + b)[..|a| + BreakAt(b)] == a + b[..BreakAt(b)];
    } else {
      assert (a + b)[..BreakAt(a)] == a[..BreakAt(a)];
    }
  }

  lemma {:induction false} SameBehind(a: string, b: string)
    requires a != [] && a[|a| - 1] == '\n'
    ensures BreakAt(a) < |a| && BreakAt(a + b) == BreakAt(a) && BehindBreak(a + b) == BehindBreak(a)
  {
    assert a[|a| - 1] in a;
    BreakIsFirst(a);
    BreakConcat(a, b);
    var n := BreakAt(a);
    assert (a + b)[n] == a[n];
    assert n + 1 < |a| ==> (a + b)[n + 1] == a[n + 1];
  }

  /** Behind a line feed a new line starts. */
  lemma {:induction false} LinesOfConcat(a: string, b: string)
    requires a != [] && a[|a| - 1] == '\n'
    ensures Lines(a + b) == Lines(a) + Lines(b)
    decreases |a|
  {
    SameBehind(a, b);
    var n, k := BreakAt(a), BehindBreak(a);
    assert (a + b)[..n] == a[..n] && (a + b)[k..] == a[k..] + b;
    if k < |a| {
      LinesOfConcat(a[k..], b);
    } else {
      assert a[k..] == [] && [] + b == b;
    }
  }

  /** No line has a break in it. */
  lemma {:induction false} LinesHaveNoBreak(s: string)
    ensures forall l | l in Lines(s) :: !HasBreak(l)
    decreases |s|
  {
    if s != [] {
      BreakIsFirst(s);
      if BreakAt(s) < |s| { LinesHaveNoBreak(s[BehindBreak(s)..]); }
    }
  }

  lemma {:induction false} FirstLineThenRest(s: string, rest: string)
    requires HasBreak(s)
    requires BreakAt(s) < |s| ==> rest == s[BehindBreak(s)..]
    ensures Lines(s) == [FirstLine(s)] + Lines(rest)
  {
    BreakIsFirst(s);
  }

  lemma {:induction false} BehindInFront(a: string, x: string)
    requires !HasBreak(a) && HasBreak(x)
    ensures BreakAt(x) < |x| && BreakAt(a + x) == |a| + BreakAt(x) < |a + x| && BehindBreak(a + x) == |a| + BehindBreak(x)
  {
    BreakIsFirst(x);
    BreakConcat(a, x);
    var n := BreakAt(x);
    assert (a + x)[|a| + n] == x[n];
    assert n + 1 < |x| ==> (a + x)[|a| + n + 1] == x[n + 1];
  }

  /** Text in front that has no break leaves the lines behind the first as they are. */
  lemma {:induction false} LinesInFront(a: string, x: string)
    requires !HasBreak(a) && HasBreak(x)
    ensures Lines(x) != [] && Lines(a + x) == [a + FirstLine(x)] + Lines(x)[1..]
  {
    BehindInFront(a, x);
    var rest := x[BehindBreak(x)..];
    FirstLineThenRest(x, rest);
    FrontThenRest(a, x, rest);
    ConsTail(FirstLine(x), Lines(rest));
  }

  lemma {:induction false} FrontThenRest(a: string, x: string, rest: string)
    requires !HasBreak(a) && HasBreak(x) && BreakAt(x) < |x| && rest == x[BehindBreak(x)..]
    ensures Lines(a + x) == [a + FirstLine(x)] + Lines(rest)
  {
    BehindInFront(a, x);
    BreaksOfConcat(a, x);
    DropInFront(a, x, BehindBreak(x));
    FirstLineOfConcat(a, x);
    FirstLineThenRest(a + x, rest);
  }

  lemma {:induction false} ConsTail(l: string, rest: seq<string>)
    ensures ([l] + rest)[1..] == rest
  {}

  lemma {:induction false} DropInFront(a: string, x: string, k: nat)
    requires k <= |x|
    ensures (a + x)[|a| + k..] == x[k..]
  {}

  // ----- the lines of CommonMark -----

  /** Section 2.1 of CommonMark: a line ends at a line feed, a carriage return, or both in a row. */
  predicate IsLineEnding(c: char) { c == '\n' || c == '\r' }

  function EndingAt(s: string): (n: nat)
    ensures n <= |s| && (n < |s| ==> IsLineEnding(s[n]))
  {
    if s == [] || IsLineEnding(s[0]) then 0 else 1 + EndingAt(s[1..])
  }

  function BehindEnding(s: string): (n: nat)
    requires EndingAt(s) < |s|
    ensures EndingAt(s) < n <= |s|
  {
    var n := EndingAt(s);
    if s[n] == '\r' && n + 1 < |s| && s[n + 1] == '\n' then n + 2 else n + 1
  }

  function CommonMarkLines(s: string): seq<string>
    decreases |s|
  {
    if s == [] then []
    else if EndingAt(s) == |s| then [s]
    else [s[..EndingAt(s)]] + CommonMarkLines(s[BehindEnding(s)..])
  }

  lemma {:induction false} SameEnding(s: string)
    requires forall c | c in s :: IsBreak(c) ==> IsLineEnding(c)
    ensures EndingAt(s) == BreakAt(s) && (BreakAt(s) < |s| ==> BehindEnding(s) == BehindBreak(s))
  {
    if s != [] {
      assert s[0] in s && forall c | c in s[1..] :: c in s;
      SameEnding(s[1..]);
    }
  }

  lemma {:induction false} LinesAgree(s: string)
    requires forall c | c in s :: IsBreak(c) ==> IsLineEnding(c)
    ensures Lines(s) == CommonMarkLines(s)
    decreases |s|
  {
    SameEnding(s);
    if BreakAt(s) < |s| {
      var k := BehindBreak(s);
      forall c | c in s[k..] ensures c in s {}
      LinesAgree(s[k..]);
      calc {
        Lines(s);
        [s[..BreakAt(s)]] + Lines(s[k..]);
        [s[..EndingAt(s)]] + CommonMarkLines(s[k..]);
        CommonMarkLines(s);
      }
    }
  }

  /** A character that ends no line is in some line. */
  lemma {:induction false} StaysInLine(s: string, i: nat) returns (l: string)
    requires i < |s| && !IsLineEnding(s[i])
    ensures l in CommonMarkLines(s) && s[i] in l
    decreases |s|
  {
    var n := EndingAt(s);
    if n == |s| {
      l := s;
      assert s[i] in s;
    } else if i < n {
      l := s[..n];
      assert l[i] == s[i];
    } else {
      var k := BehindEnding(s);
      assert s[k..][i - k] == s[i];
      l := StaysInLine(s[k..], i - k);
    }
  }

  /** The lines of a text are those of CommonMark exactly when no other character of the text ends a
      line. */
  lemma {:induction false} LinesAgreeExactly(s: string)
    ensures Lines(s) == CommonMarkLines(s) <==> forall c | c in s :: IsBreak(c) ==> IsLineEnding(c)
  {
    if c :| c in s && IsBreak(c) && !IsLineEnding(c) {
      var i :| 0 <= i < |s| && s[i] == c;
      var l := StaysInLine(s, i);
      assert HasBreak(l);
      LinesHaveNoBreak(s);
    } else {
      LinesAgree(s);
    }
  }
}
