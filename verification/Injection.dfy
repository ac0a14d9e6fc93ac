/** Injecting suggested markers into the proposed text of a file. */
module Injection {
  import opened Models
  import opened Ordering
  import opened Grammar
  import opened Attachment

  /** A marker to insert before the line with this index (from 0). */
  datatype Insertion = Insertion(index: int, marker: string)

  predicate Later(a: Insertion, b: Insertion) {
    a.index > b.index || (a.index == b.index && StringLe(b.marker, a.marker))
  }

  function LastFirst(): (Insertion, Insertion) -> bool {
    (a: Insertion, b: Insertion) => Later(a, b)
  }

  lemma {:induction false} LastFirstIsOrder()
    ensures TotalPreorder(LastFirst())
  {
    forall a: Insertion, b: Insertion ensures Later(a, b) || Later(b, a) { StringLeTotal(a.marker, b.marker); }
    forall a: Insertion, b: Insertion, c: Insertion | Later(a, b) && Later(b, c) ensures Later(a, c) {
      if StringLe(b.marker, a.marker) && StringLe(c.marker, b.marker) {
        StringLeTransitive(c.marker, b.marker, a.marker);
      }
    }
  }

  ghost predicate Descending(ins: seq<Insertion>) {
    forall i, j | 0 <= i < j < |ins| :: ins[i].index >= ins[j].index
  }

  predicate InFile(x: Insertion, n: nat) {
    0 <= x.index <= n
  }

  function InsertAt(lines: seq<string>, x: Insertion): seq<string> {
    if InFile(x, |lines|) then lines[..x.index] + [x.marker] + lines[x.index..] else lines
  }

  /** The insertions one after the other. */
  function Injected(lines: seq<string>, ins: seq<Insertion>): seq<string> {
    if ins == [] then lines else InsertAt(Injected(lines, ins[..|ins| - 1]), ins[|ins| - 1])
  }

  /** How many insertions land at or before original line k. */
  function CountUpTo(ins: seq<Insertion>, n: nat, k: int): nat {
    if ins == [] then 0
    else
      var x := ins[|ins| - 1];
      CountUpTo(ins[..|ins| - 1], n, k) + if InFile(x, n) && x.index <= k then 1 else 0
  }

  /** Where original line k ends up. */
  function Shifted(ins: seq<Insertion>, n: nat, k: nat): nat {
    k + CountUpTo(ins, n, k)
  }

  lemma {:induction false} DescendingInit(ins: seq<Insertion>)
    requires Descending(ins) && ins != []
    ensures Descending(ins[..|ins| - 1])
    ensures forall x | x in ins[..|ins| - 1] :: x.index >= ins[|ins| - 1].index
  {}

  lemma {:induction false} NoneBefore(ins: seq<Insertion>, n: nat, k: int)
    requires forall x | x in ins :: x.index > k
    ensures CountUpTo(ins, n, k) == 0
  {
    if ins != [] {
      assert ins[|ins| - 1] in ins;
      assert forall x | x in ins[..|ins| - 1] :: x in ins;
      NoneBefore(ins[..|ins| - 1], n, k);
    }
  }

  lemma {:induction false} LengthOf(lines: seq<string>, ins: seq<Insertion>)
    requires Descending(ins)
    ensures |Injected(lines, ins)| == |lines| + CountUpTo(ins, |lines|, |lines|)
    ensures forall x | x in ins :: x.index > |lines| ==> Injected(lines, ins) == lines || CountUpTo(ins, |lines|, |lines|) > 0
  {
    if ins != [] {
      DescendingInit(ins);
      LengthOf(lines, ins[..|ins| - 1]);
      var x := ins[|ins| - 1];
      if x.index > |lines| {
        NoneInFile(lines, ins[..|ins| - 1]);
        assert Injected(lines, ins[..|ins| - 1]) == lines;
      }
    }
  }

  /** Insertions past the end change nothing. */
  lemma {:induction false} NoneInFile(lines: seq<string>, ins: seq<Insertion>)
    requires forall x | x in ins :: x.index > |lines|
    ensures Injected(lines, ins) == lines
  {
    if ins != [] {
      assert ins[|ins| - 1] in ins;
      assert forall x | x in ins[..|ins| - 1] :: x in ins;
      NoneInFile(lines, ins[..|ins| - 1]);
    }
  }

  /** One insertion happens exactly when its index lies in the original text. */
  lemma {:induction false} LastStep(lines: seq<string>, ins: seq<Insertion>)
    requires Descending(ins) && ins != []
    ensures var before, x := Injected(lines, ins[..|ins| - 1]), ins[|ins| - 1];
            |before| >= |lines| && (InFile(x, |before|) <==> InFile(x, |lines|))
  {
    DescendingInit(ins);
    LengthOf(lines, ins[..|ins| - 1]);
    if ins[|ins| - 1].index > |lines| {
      NoneInFile(lines, ins[..|ins| - 1]);
    }
  }

  /** What one insertion does to a line that is there. */
  lemma {:induction false} InsertMoves(cur: seq<string>, x: Insertion, p: nat)
    requires p < |cur|
    ensures var p' := if InFile(x, |cur|) && x.index <= p then p + 1 else p;
            p' < |InsertAt(cur, x)| && InsertAt(cur, x)[p'] == cur[p]
  {}

  /** Every original line is still there, moved down by the insertions at or before it. */
  lemma {:induction false} LinesShift(lines: seq<string>, ins: seq<Insertion>, k: nat)
    requires Descending(ins) && k < |lines|
    ensures Shifted(ins, |lines|, k) < |Injected(lines, ins)|
    ensures Injected(lines, ins)[Shifted(ins, |lines|, k)] == lines[k]
  {
    if ins != [] {
      var init, x := ins[..|ins| - 1], ins[|ins| - 1];
      DescendingInit(ins);
      LastStep(lines, ins);
      LinesShift(lines, init, k);
      InsertMoves(Injected(lines, init), x, Shifted(init, |lines|, k));
      if x.index > k {
        NoneBefore(init, |lines|, k);
      }
    }
  }

  /** Original lines keep their order. */
  lemma {:induction false} ShiftKeepsOrder(ins: seq<Insertion>, n: nat, i: nat, j: nat)
    requires i < j
    ensures Shifted(ins, n, i) < Shifted(ins, n, j)
  {
    CountGrows(ins, n, i, j);
  }

  lemma {:induction false} CountGrows(ins: seq<Insertion>, n: nat, i: int, j: int)
    requires i <= j
    ensures CountUpTo(ins, n, i) <= CountUpTo(ins, n, j)
  {
    if ins != [] {
      CountGrows(ins[..|ins| - 1], n, i, j);
    }
  }

  // ----- erasing the inserted lines -----

  /** A line, and whether it was inserted. */
  datatype Line = Line(text: string, added: bool)

  function Untouched(lines: seq<string>): seq<Line> {
    if lines == [] then [] else Untouched(lines[..|lines| - 1]) + [Line(lines[|lines| - 1], false)]
  }

  function Texts(ls: seq<Line>): (r: seq<string>)
    ensures |r| == |ls|
    ensures forall i | 0 <= i < |ls| :: r[i] == ls[i].text
  {
    if ls == [] then [] else Texts(ls[..|ls| - 1]) + [ls[|ls| - 1].text]
  }

  /** The texts of the lines that were there, or of the ones that were inserted. */
  function Only(ls: seq<Line>, added: bool): seq<string> {
    if ls == [] then []
    else Only(ls[..|ls| - 1], added) + if ls[|ls| - 1].added == added then [ls[|ls| - 1].text] else []
  }

  lemma {:induction false} OnlyConcat(a: seq<Line>, b: seq<Line>, added: bool)
    ensures Only(a + b, added) == Only(a, added) + Only(b, added)
  {
    if b == [] {
      assert a + b == a;
    } else {
      assert (a + b)[..|a + b| - 1] == a + b[..|b| - 1];
      OnlyConcat(a, b[..|b| - 1], added);
    }
  }

  lemma {:induction false} OnlyOne(l: Line, added: bool)
    ensures Only([l], added) == if l.added == added then [l.text] else []
  {
    assert [l][..0] == [];
  }

  lemma {:induction false} UntouchedOnly(lines: seq<string>, added: bool)
    ensures Only(Untouched(lines), added) == if added then [] else lines
  {
    if lines != [] {
      var k := |lines| - 1;
      UntouchedOnly(lines[..k], added);
      OnlyConcat(Untouched(lines[..k]), [Line(lines[k], false)], added);
      OnlyOne(Line(lines[k], false), added);
      assert lines == lines[..k] + [lines[k]];
    }
  }

  lemma {:induction false} UntouchedTexts(lines: seq<string>)
    ensures Texts(Untouched(lines)) == lines
  {
    if lines != [] {
      var k := |lines| - 1;
      UntouchedTexts(lines[..k]);
      var u := Untouched(lines[..k]);
      assert (u + [Line(lines[k], false)])[..|u|] == u;
    }
  }

  function MarkLine(ls: seq<Line>, x: Insertion): seq<Line> {
    if InFile(x, |ls|) then ls[..x.index] + [Line(x.marker, true)] + ls[x.index..] else ls
  }

  function Marked(lines: seq<string>, ins: seq<Insertion>): seq<Line> {
    if ins == [] then Untouched(lines) else MarkLine(Marked(lines, ins[..|ins| - 1]), ins[|ins| - 1])
  }

  lemma {:induction false} MarkedTexts(ls: seq<Line>, x: Insertion)
    ensures Texts(MarkLine(ls, x)) == InsertAt(Texts(ls), x)
  {}

  lemma {:induction false} MarkedKeeps(ls: seq<Line>, x: Insertion)
    ensures Only(MarkLine(ls, x), false) == Only(ls, false)
  {
    if InFile(x, |ls|) {
      var a, m, b := ls[..x.index], [Line(x.marker, true)], ls[x.index..];
      assert ls == a + b;
      OnlyConcat(a, b, false);
      OnlyConcat(a, m, false);
      OnlyConcat(a + m, b, false);
      OnlyOne(m[0], false);
      assert Only(a, false) + [] == Only(a, false);
    }
  }

  /** Taking the inserted lines out again gives back the original lines. */
  lemma {:induction false} ErasingRestores(lines: seq<string>, ins: seq<Insertion>)
    ensures Texts(Marked(lines, ins)) == Injected(lines, ins)
    ensures Only(Marked(lines, ins), false) == lines
  {
    if ins == [] {
      UntouchedOnly(lines, false);
      UntouchedTexts(lines);
    } else {
      var init := ins[..|ins| - 1];
      ErasingRestores(lines, init);
      MarkedTexts(Marked(lines, init), ins[|ins| - 1]);
      MarkedKeeps(Marked(lines, init), ins[|ins| - 1]);
    }
  }

  // ----- the inserted markers end up next to their lines -----

  /** A marker that is to stand before line k is there, right above where line k ends up. */
  ghost predicate MarkerAbove(lines: seq<string>, ins: seq<Insertion>, k: nat)
    requires k < |lines|
  {
    var s := Shifted(ins, |lines|, k);
    0 < s <= |Injected(lines, ins)| && Insertion(k, Injected(lines, ins)[s - 1]) in ins
  }

  lemma {:induction false} AboveStays(lines: seq<string>, ins: seq<Insertion>, k: nat, j: nat)
    requires Descending(ins) && k < |lines| && j < |ins| - 1 && ins[j].index == k
    requires MarkerAbove(lines, ins[..|ins| - 1], k)
    ensures MarkerAbove(lines, ins, k)
  {
    var init, x := ins[..|ins| - 1], ins[|ins| - 1];
    LastStep(lines, ins);
    LinesShift(lines, init, k);
    SomeBefore(init, |lines|, k, j);
    InsertMoves(Injected(lines, init), x, Shifted(init, |lines|, k) - 1);
    assert x.index <= k;
  }

  lemma {:induction false} AboveArrives(lines: seq<string>, ins: seq<Insertion>, k: nat)
    requires Descending(ins) && k < |lines| && ins != [] && ins[|ins| - 1].index == k
    requires forall y | y in ins[..|ins| - 1] :: y.index > k
    ensures MarkerAbove(lines, ins, k)
  {
    LastStep(lines, ins);
    NoneBefore(ins[..|ins| - 1], |lines|, k);
    LinesShift(lines, ins[..|ins| - 1], k);
  }

  lemma {:induction false} MarkersAreAbove(lines: seq<string>, ins: seq<Insertion>, k: nat, j: nat)
    requires Descending(ins) && k < |lines| && j < |ins| && ins[j].index == k
    ensures MarkerAbove(lines, ins, k)
  {
    var init := ins[..|ins| - 1];
    DescendingInit(ins);
    if j < |init| {
      MarkersAreAbove(lines, init, k, j);
      AboveStays(lines, ins, k, j);
    } else if init != [] && init[|init| - 1].index == k {
      MarkersAreAbove(lines, init, k, |init| - 1);
      AboveStays(lines, ins, k, |init| - 1);
    } else {
      assert forall y | y in init :: y.index > k;
      AboveArrives(lines, ins, k);
    }
  }

  lemma {:induction false} SomeBefore(ins: seq<Insertion>, n: nat, k: nat, j: nat)
    requires k <= n && j < |ins| && ins[j].index == k
    ensures CountUpTo(ins, n, k) > 0
  {
    if j < |ins| - 1 {
      SomeBefore(ins[..|ins| - 1], n, k, j);
    }
  }

  /** A marker that is to stand after line k is right below where line k ends up. */
  ghost predicate MarkerBelow(lines: seq<string>, ins: seq<Insertion>, k: nat)
    requires k < |lines|
  {
    var s := Shifted(ins, |lines|, k);
    s + 1 < |Injected(lines, ins)| && Insertion(k + 1, Injected(lines, ins)[s + 1]) in ins
  }

  lemma {:induction false} BelowStays(lines: seq<string>, ins: seq<Insertion>, k: nat)
    requires Descending(ins) && k < |lines| && ins != [] && ins[|ins| - 1].index <= k
    requires MarkerBelow(lines, ins[..|ins| - 1], k)
    ensures MarkerBelow(lines, ins, k)
  {
    var init, x := ins[..|ins| - 1], ins[|ins| - 1];
    LastStep(lines, ins);
    InsertMoves(Injected(lines, init), x, Shifted(init, |lines|, k) + 1);
  }

  lemma {:induction false} BelowArrives(lines: seq<string>, ins: seq<Insertion>, k: nat)
    requires Descending(ins) && k < |lines| && ins != [] && ins[|ins| - 1].index == k + 1
    ensures MarkerBelow(lines, ins, k)
  {
    LastStep(lines, ins);
    DescendingInit(ins);
    NoneBefore(ins[..|ins| - 1], |lines|, k);
  }

  lemma {:induction false} MarkersAreBelow(lines: seq<string>, ins: seq<Insertion>, k: nat, j: nat)
    requires Descending(ins) && k < |lines| && j < |ins| && ins[j].index == k + 1
    ensures MarkerBelow(lines, ins, k)
  {
    DescendingInit(ins);
    if ins[|ins| - 1].index == k + 1 {
      BelowArrives(lines, ins, k);
    } else {
      MarkersAreBelow(lines, ins[..|ins| - 1], k, j);
      BelowStays(lines, ins, k);
    }
  }

  // ----- the text that comes out, gap by gap -----

  /** The text with the given lines in each gap: before the first line, between lines, after the last. */
  ghost function Woven(text: seq<string>, gaps: seq<seq<string>>): seq<string>
    requires |gaps| == |text| + 1
  {
    if text == [] then gaps[0] else gaps[0] + [text[0]] + Woven(text[1..], gaps[1..])
  }

  /** Each gap holds the markers inserted at its index, as often as they are inserted there, in
      ascending order. */
  ghost predicate FillsGaps(gaps: seq<seq<string>>, ins: seq<Insertion>) {
    forall k | 0 <= k < |gaps| :: FillsGap(gaps[k], k, ins)
  }

  ghost predicate FillsGap(gap: seq<string>, k: int, ins: seq<Insertion>) {
    && (forall m: string :: multiset(gap)[m] == multiset(ins)[Insertion(k, m)])
    && (forall i, j | 0 <= i < j < |gap| :: StringLe(gap[i], gap[j]))
  }

  lemma {:induction false} WovenPlain(text: seq<string>, gaps: seq<seq<string>>)
    requires |gaps| == |text| + 1 && forall k | 0 <= k < |gaps| :: gaps[k] == []
    ensures Woven(text, gaps) == text
  {
    if text != [] {
      WovenPlain(text[1..], gaps[1..]);
    }
  }

  /** When nothing is inserted before index k, a marker inserted there comes first in its gap. */
  lemma {:induction false} WovenInsert(text: seq<string>, gaps: seq<seq<string>>, k: nat, m: string)
    requires |gaps| == |text| + 1 && k <= |text|
    requires forall i | 0 <= i < k :: gaps[i] == []
    ensures k <= |Woven(text, gaps)|
    ensures Woven(text, gaps[k := [m] + gaps[k]]) == Woven(text, gaps)[..k] + [m] + Woven(text, gaps)[k..]
  {
    var now := gaps[k := [m] + gaps[k]];
    if k > 0 {
      var rest := Woven(text[1..], gaps[1..]);
      WovenInsert(text[1..], gaps[1..], k - 1, m);
      assert gaps[0] == [] && now[0] == [];
      assert now[1..] == gaps[1..][k - 1 := [m] + gaps[1..][k - 1]];
      assert Woven(text, gaps) == [text[0]] + rest;
      assert Woven(text, now) == [text[0]] + (rest[..k - 1] + [m] + rest[k - 1..]);
    } else if text != [] {
      assert now[1..] == gaps[1..];
    }
  }

  lemma {:induction false} FillsMore(gap: seq<string>, k: int, init: seq<Insertion>, x: Insertion)
    requires FillsGap(gap, k, init) && forall y | y in init :: Later(y, x)
    ensures FillsGap(if x.index == k then [x.marker] + gap else gap, k, init + [x])
  {
    if x.index == k {
      var now := [x.marker] + gap;
      forall i, j | 0 <= i < j < |now| ensures StringLe(now[i], now[j]) {
        if i == 0 {
          assert multiset(gap)[gap[j - 1]] > 0;
          assert Insertion(k, gap[j - 1]) in multiset(init);
          assert Insertion(k, gap[j - 1]) in init;
        }
      }
    }
  }

  /** The result by its gaps, whatever the order of the insertions was. */
  ghost predicate IsWoven(text: seq<string>, ins: seq<Insertion>, lines: seq<string>) {
    exists gaps: seq<seq<string>> :: |gaps| == |text| + 1 && FillsGaps(gaps, ins) && lines == Woven(text, gaps)
  }

  lemma {:induction false} InjectedIsWoven(text: seq<string>, ins: seq<Insertion>)
    requires SortedBy(ins, LastFirst())
    ensures IsWoven(text, ins, Injected(text, ins))
  {
    if ins == [] {
      var gaps := seq(|text| + 1, i => []);
      WovenPlain(text, gaps);
      assert FillsGaps(gaps, ins);
    } else {
      var init, x := ins[..|ins| - 1], ins[|ins| - 1];
      assert ins == init + [x];
      assert forall y | y in init :: LastFirst()(y, x);
      InjectedIsWoven(text, init);
      LaterDescends(ins);
      LastStep(text, ins);
      WovenStep(text, init, x);
    }
  }

  ghost function Filled(gaps: seq<seq<string>>, x: Insertion): (r: seq<seq<string>>)
    ensures |r| == |gaps|
  {
    if 0 <= x.index < |gaps| then gaps[x.index := [x.marker] + gaps[x.index]] else gaps
  }

  lemma {:induction false} FilledFills(gaps: seq<seq<string>>, init: seq<Insertion>, x: Insertion)
    requires FillsGaps(gaps, init) && forall y | y in init :: Later(y, x)
    ensures FillsGaps(Filled(gaps, x), init + [x])
  {
    forall k | 0 <= k < |gaps| ensures FillsGap(Filled(gaps, x)[k], k, init + [x]) {
      assert FillsGap(gaps[k], k, init);
      FillsMore(gaps[k], k, init, x);
    }
  }

  lemma {:induction false} WovenStep(text: seq<string>, init: seq<Insertion>, x: Insertion)
    requires IsWoven(text, init, Injected(text, init)) && forall y | y in init :: Later(y, x)
    requires InFile(x, |Injected(text, init)|) <==> InFile(x, |text|)
    ensures IsWoven(text, init + [x], InsertAt(Injected(text, init), x))
  {
    var gaps: seq<seq<string>> :| |gaps| == |text| + 1 && FillsGaps(gaps, init) && Injected(text, init) == Woven(text, gaps);
    FilledFills(gaps, init, x);
    FilledWeaves(text, gaps, init, x);
  }

  lemma {:induction false} FilledWeaves(text: seq<string>, gaps: seq<seq<string>>, init: seq<Insertion>, x: Insertion)
    requires |gaps| == |text| + 1 && FillsGaps(gaps, init) && forall y | y in init :: Later(y, x)
    requires InFile(x, |Woven(text, gaps)|) <==> InFile(x, |text|)
    ensures Woven(text, Filled(gaps, x)) == InsertAt(Woven(text, gaps), x)
  {
    if InFile(x, |text|) {
      NoEarlierGap(gaps, init, x.index);
      WovenInsert(text, gaps, x.index, x.marker);
    }
  }

  lemma {:induction false} LaterDescends(ins: seq<Insertion>)
    requires SortedBy(ins, LastFirst())
    ensures Descending(ins)
  {
    forall i, j | 0 <= i < j < |ins| ensures ins[i].index >= ins[j].index {
      assert LastFirst()(ins[i], ins[j]);
    }
  }

  lemma {:induction false} GapMember(gap: seq<string>, k: int, ins: seq<Insertion>)
    requires FillsGap(gap, k, ins) && gap != []
    ensures Insertion(k, gap[0]) in ins
  {
    assert multiset(gap)[gap[0]] > 0;
    assert Insertion(k, gap[0]) in multiset(ins);
  }

  lemma {:induction false} NoEarlierGap(gaps: seq<seq<string>>, ins: seq<Insertion>, k: int)
    requires FillsGaps(gaps, ins) && k <= |gaps| && forall y | y in ins :: y.index >= k
    ensures forall i | 0 <= i < k :: gaps[i] == []
  {
    forall i | 0 <= i < k ensures gaps[i] == [] {
      assert FillsGap(gaps[i], i, ins);
      if gaps[i] != [] {
        GapMember(gaps[i], i, ins);
        assert false;
      }
    }
  }

  /** The order the insertions come in does not matter. */
  lemma {:induction false} SortedIsWoven(text: seq<string>, insertions: seq<Insertion>)
    ensures IsWoven(text, insertions, Injected(text, Sort(insertions, LastFirst())))
  {
    var ins := Sort(insertions, LastFirst());
    LastFirstIsOrder();
    SortCorrect(insertions, LastFirst());
    InjectedIsWoven(text, ins);
    var gaps :| |gaps| == |text| + 1 && FillsGaps(gaps, ins) && Injected(text, ins) == Woven(text, gaps);
    forall k | 0 <= k < |gaps| ensures FillsGap(gaps[k], k, insertions) {
      assert FillsGap(gaps[k], k, ins);
    }
    assert FillsGaps(gaps, insertions);
  }

  // ----- the rewrite -----

  method InsertMarkers(text: seq<string>, insertions: seq<Insertion>) returns (lines: seq<string>)
    ensures lines == Injected(text, Sort(insertions, LastFirst()))
    ensures IsWoven(text, insertions, lines)
  {
    SortedIsWoven(text, insertions);
    var sorted := Sort(insertions, LastFirst());
    lines := text;
    for i := 0 to |sorted|
      invariant lines == Injected(text, sorted[..i])
    {
      assert sorted[..i + 1][..i] == sorted[..i];
      if 0 <= sorted[i].index <= |lines| {
        lines := lines[..sorted[i].index] + [sorted[i].marker] + lines[sorted[i].index..];
      }
    }
    assert sorted[..|sorted|] == sorted;
  }

  lemma {:induction false} SortedDescends(insertions: seq<Insertion>)
    ensures Descending(Sort(insertions, LastFirst()))
    ensures forall x :: x in Sort(insertions, LastFirst()) <==> x in insertions
  {
    LastFirstIsOrder();
    SortCorrect(insertions, LastFirst());
    var s := Sort(insertions, LastFirst());
    forall i, j | 0 <= i < j < |s| ensures s[i].index >= s[j].index {
      assert LastFirst()(s[i], s[j]);
    }
  }

  /** A place to be traced: the line where it starts (from 1), and how its language is commented. */
  datatype Boundary = Code(startLine: int, language: CodeLanguage) | Heading(startLine: int)

  /** Markers go right above code, and right below a markdown heading. */
  function Place(b: Boundary): int {
    if b.Heading? then b.startLine else b.startLine - 1
  }

  /** The marker proposed for a boundary: none, one kept in a separate file, or one for the text. */
  datatype Suggestion = NoMarker | Sidecar(marker: string) | InText(marker: string)

  const EDGE_WINDOW_LINES := 5

  /** The gate's rule for headings: a marker right above, or in the window below. */
  ghost predicate HeadingTakes(lines: seq<string>, start: int, i: int) {
    && 0 <= i < |lines|
    && (i == start - 2 || start <= i < start + EDGE_WINDOW_LINES)
    && HasMarkerWord(lines[i])
  }

  method HeadingAttached(lines: seq<string>, start: int) returns (r: bool)
    ensures r <==> exists i :: HeadingTakes(lines, start, i)
  {
    if 0 <= start - 2 < |lines| && HasMarkerWord(lines[start - 2]) {
      assert HeadingTakes(lines, start, start - 2);
      return true;
    }
    var i := start;
    while i < |lines| && i < start + EDGE_WINDOW_LINES
      invariant start <= i
      invariant forall k | HeadingTakes(lines, start, k) :: k >= i
    {
      if 0 <= i && HasMarkerWord(lines[i]) {
        assert HeadingTakes(lines, start, i);
        return true;
      }
      i := i + 1;
    }
    return false;
  }

  /** The gate finds the boundary traced when it starts on the given line of the text. */
  ghost predicate Traced(b: Boundary, lines: seq<string>, start: int) {
    match b
    case Code(_, language) => 1 <= start <= |lines| && exists hit :: GateTakes(language, lines, start, hit)
    case Heading(_) => exists i :: HeadingTakes(lines, start, i)
  }

  ghost predicate InText(b: Boundary, text: seq<string>) {
    1 <= b.startLine <= |text|
  }

  lemma {:induction false} InsertedIsTraced(text: seq<string>, ins: seq<Insertion>, b: Boundary, marker: string)
    requires Descending(ins) && InText(b, text) && Insertion(Place(b), marker) in ins
    requires forall x | x in ins :: HasMarkerWord(x.marker)
    ensures Traced(b, Injected(text, ins), Shifted(ins, |text|, b.startLine - 1) + 1)
  {
    var k := b.startLine - 1;
    var start := Shifted(ins, |text|, k) + 1;
    var j :| 0 <= j < |ins| && ins[j] == Insertion(Place(b), marker);
    LinesShift(text, ins, k);
    if b.Code? {
      MarkersAreAbove(text, ins, k, j);
      assert GateTakes(b.language, Injected(text, ins), start, start - 1);
    } else {
      MarkersAreBelow(text, ins, k, j);
      assert HeadingTakes(Injected(text, ins), start, start);
    }
  }

  /** Every boundary's own marker, right above the line where code starts and right below the line
      where a heading stands. */
  ghost predicate IsPlanned(boundaries: seq<Boundary>, suggestions: seq<Suggestion>, plan: seq<Insertion>) {
    |plan| == |boundaries| <= |suggestions| && forall i | 0 <= i < |boundaries| :: IsForBoundary(plan[i], boundaries[i], suggestions[i])
  }

  ghost predicate IsForBoundary(x: Insertion, b: Boundary, s: Suggestion) {
    && s.InText?
    && x.marker == s.marker
    && (b.Code? ==> x.index + 1 == b.startLine)
    && (b.Heading? ==> x.index == b.startLine)
  }

  /** The insertions for all boundaries; None when some boundary has no marker for the text. */
  method Plan(boundaries: seq<Boundary>, suggestions: seq<Suggestion>) returns (r: Option<seq<Insertion>>)
    requires |suggestions| == |boundaries|
    ensures r.Some? <==> forall i | 0 <= i < |boundaries| :: suggestions[i].InText?
    ensures r.Some? ==> |r.value| == |boundaries|
    ensures r.Some? ==> forall i | 0 <= i < |boundaries| :: r.value[i] == Insertion(Place(boundaries[i]), suggestions[i].marker)
    ensures r.Some? ==> IsPlanned(boundaries, suggestions, r.value)
  {
    var insertions: seq<Insertion> := [];
    for i := 0 to |boundaries|
      invariant |insertions| == i
      invariant forall j | 0 <= j < i :: suggestions[j].InText? && insertions[j] == Insertion(Place(boundaries[j]), suggestions[j].marker)
    {
      if !suggestions[i].InText? {
        return None;
      }
      insertions := insertions + [Insertion(Place(boundaries[i]), suggestions[i].marker)];
    }
    return Some(insertions);
  }

  /** Every original line is there in order at its shifted place, taking the inserted lines out
      gives the original text, and the gate finds every boundary traced at its shifted line. */
  ghost predicate FaithfulRewrite(text: seq<string>, ins: seq<Insertion>, boundaries: seq<Boundary>, lines: seq<string>) {
    && Descending(ins)
    && (forall k | 0 <= k < |text| :: Arrives(text, ins, k, lines))
    && Erasable(text, lines)
    && EachTraced(text, ins, boundaries, lines)
  }

  ghost predicate Erasable(text: seq<string>, lines: seq<string>) {
    exists tagged: seq<Line> :: Texts(tagged) == lines && Only(tagged, false) == text
  }

  ghost predicate EachTraced(text: seq<string>, ins: seq<Insertion>, boundaries: seq<Boundary>, lines: seq<string>) {
    forall b | b in boundaries && InText(b, text) :: Traced(b, lines, Shifted(ins, |text|, b.startLine - 1) + 1)
  }

  ghost predicate Arrives(text: seq<string>, ins: seq<Insertion>, k: nat, lines: seq<string>)
    requires k < |text|
  {
    Shifted(ins, |text|, k) < |lines| && lines[Shifted(ins, |text|, k)] == text[k]
  }

  /** The request to write: whether it replaces a passage, and whether it has the whole content. */
  datatype Payload = Payload(replacesPassage: bool, hasContent: bool)

  /** The proposed text with a marker for every untraced boundary. It is refused exactly when there is
      no proposed text, a passage is replaced, not exactly one requirement is active, some boundary has
      no marker that can stand in the text, or the content is not given. `plan` are the insertions
      boundary by boundary, `ins` the same in the order they are made. */
  method DeterministicRewrite(payload: Payload, requirements: seq<string>, proposed: Option<seq<string>>, boundaries: seq<Boundary>, suggestions: seq<Suggestion>)
      returns (r: Option<seq<string>>, ghost ins: seq<Insertion>, ghost plan: seq<Insertion>)
    requires |suggestions| == |boundaries|
    requires forall s | s in suggestions && s.InText? :: HasMarkerWord(s.marker)
    ensures r.Some? <==>
      && proposed.Some? && !payload.replacesPassage && |requirements| == 1
      && (forall i | 0 <= i < |boundaries| :: suggestions[i].InText?) && payload.hasContent
    ensures r.Some? ==> |ins| == |boundaries| && FaithfulRewrite(proposed.value, ins, boundaries, r.value)
    ensures r.Some? ==> IsPlanned(boundaries, suggestions, plan) && IsWoven(proposed.value, plan, r.value)
  {
    ins, plan := [], [];
    if proposed.None? || payload.replacesPassage || |requirements| != 1 {
      return None, ins, plan;
    }
    var text := proposed.value;
    var planned := Plan(boundaries, suggestions);
    if planned.None? {
      return None, ins, plan;
    }
    plan := planned.value;
    ins := Sort(plan, LastFirst());
    forall x | x in plan ensures HasMarkerWord(x.marker) {
      var i :| 0 <= i < |boundaries| && plan[i] == x;
      assert suggestions[i] in suggestions;
    }
    RewriteIsFaithful(text, boundaries, plan);
    var lines := InsertMarkers(text, planned.value);
    if !payload.hasContent {
      return None, ins, plan;
    }
    r := Some(lines);
  }

  lemma {:induction false} RewriteIsFaithful(text: seq<string>, boundaries: seq<Boundary>, insertions: seq<Insertion>)
    requires |insertions| == |boundaries| && forall i | 0 <= i < |boundaries| :: insertions[i].index == Place(boundaries[i])
    requires forall x | x in insertions :: HasMarkerWord(x.marker)
    ensures var ins := Sort(insertions, LastFirst()); FaithfulRewrite(text, ins, boundaries, Injected(text, ins))
  {
    var ins := Sort(insertions, LastFirst());
    SortedDescends(insertions);
    AllArrive(text, ins);
    InjectedIsErasable(text, ins);
    AllTraced(text, ins, boundaries, insertions);
  }

  lemma {:induction false} InjectedIsErasable(text: seq<string>, ins: seq<Insertion>)
    ensures Erasable(text, Injected(text, ins))
  {
    ErasingRestores(text, ins);
  }

  lemma {:induction false} AllTraced(text: seq<string>, ins: seq<Insertion>, boundaries: seq<Boundary>, insertions: seq<Insertion>)
    requires |insertions| == |boundaries| && forall i | 0 <= i < |boundaries| :: insertions[i].index == Place(boundaries[i])
    requires Descending(ins) && forall x :: x in ins <==> x in insertions
    requires forall x | x in ins :: HasMarkerWord(x.marker)
    ensures EachTraced(text, ins, boundaries, Injected(text, ins))
  {
    forall b | b in boundaries && InText(b, text) ensures Traced(b, Injected(text, ins), Shifted(ins, |text|, b.startLine - 1) + 1) {
      var i :| 0 <= i < |boundaries| && boundaries[i] == b;
      assert insertions[i] in ins;
      assert insertions[i] == Insertion(Place(b), insertions[i].marker);
      InsertedIsTraced(text, ins, b, insertions[i].marker);
    }
  }

  lemma {:induction false} AllArrive(text: seq<string>, ins: seq<Insertion>)
    requires Descending(ins)
    ensures forall k | 0 <= k < |text| :: Arrives(text, ins, k, Injected(text, ins))
  {
    forall k | 0 <= k < |text| ensures Arrives(text, ins, k, Injected(text, ins)) {
      LinesShift(text, ins, k);
    }
  }
}
