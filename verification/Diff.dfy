/** Changed line ranges of a unified diff, and the symbols they touch. */
module Diff {
  import opened Models
  import opened Ordering
  import opened TextLines
  import opened Decimals
  import opened Trees

  /** Lines from start to end, both included. */
  datatype Range = Range(start: int, end: int)

  predicate RangeLe(a: Range, b: Range) {
    a.start < b.start || (a.start == b.start && a.end <= b.end)
  }

  function ByStart(): (Range, Range) -> bool {
    (a: Range, b: Range) => RangeLe(a, b)
  }

  function Larger(a: int, b: int): int {
    if a > b then a else b
  }

  // ----- coalescing -----

  /** Ranges in order, each merged into the one before when they overlap or touch. */
  function MergeSorted(ordered: seq<Range>): seq<Range> {
    if ordered == [] then []
    else MergeInto(MergeSorted(ordered[..|ordered| - 1]), ordered[|ordered| - 1])
  }

  function MergeInto(out: seq<Range>, r: Range): seq<Range> {
    if out == [] then [r]
    else
      var prev := out[|out| - 1];
      if r.start <= prev.end + 1 then out[..|out| - 1] + [Range(prev.start, Larger(prev.end, r.end))] else out + [r]
  }

  function Coalesced(ranges: seq<Range>): seq<Range> {
    MergeSorted(Sort(ranges, ByStart()))
  }

  method Coalesce(ranges: seq<Range>) returns (out: seq<Range>)
    ensures out == Coalesced(ranges)
  {
    var ordered := Sort(ranges, ByStart());
    if ranges == [] {
      return [];
    }
    out := [ordered[0]];
    assert ordered[..1][..0] == [];
    assert MergeSorted([]) == [];
    for i := 1 to |ordered|
      invariant out == MergeSorted(ordered[..i]) && out != []
    {
      assert ordered[..i + 1][..i] == ordered[..i];
      var prev := out[|out| - 1];
      if ordered[i].start <= prev.end + 1 {
        out := out[|out| - 1 := Range(prev.start, Larger(prev.end, ordered[i].end))];
      } else {
        out := out + [ordered[i]];
      }
    }
    assert ordered[..|ordered|] == ordered;
  }

  predicate InRange(r: Range, line: int) {
    r.start <= line <= r.end
  }

  predicate Covers(ranges: seq<Range>, line: int) {
    exists r | r in ranges :: InRange(r, line)
  }

  predicate NonEmptyRanges(ranges: seq<Range>) {
    forall r | r in ranges :: r.start <= r.end
  }

  /** At least one uncovered line between any two ranges, in order. */
  predicate Gapped(ranges: seq<Range>) {
    forall i, j | 0 <= i < j < |ranges| :: ranges[i].end + 1 < ranges[j].start
  }

  lemma {:induction false} CoversConcat(a: seq<Range>, b: seq<Range>, line: int)
    ensures Covers(a + b, line) <==> Covers(a, line) || Covers(b, line)
  {
    if r :| r in a && InRange(r, line) { assert r in a + b; }
    if r :| r in b && InRange(r, line) { assert r in a + b; }
  }

  lemma {:induction false} CoversOne(r: Range, line: int)
    ensures Covers([r], line) <==> InRange(r, line)
  {
    assert r in [r];
  }

  lemma {:induction false} ByStartIsOrder()
    ensures TotalPreorder(ByStart())
  {}

  /** Merging a range that starts no earlier covers exactly one range more. */
  lemma {:induction false} MergeCovers(out: seq<Range>, r: Range, line: int)
    requires out != [] ==> out[|out| - 1].start <= r.start
    ensures Covers(MergeInto(out, r), line) <==> Covers(out, line) || InRange(r, line)
  {
    if out == [] {
      CoversOne(r, line);
    } else {
      var init, prev := out[..|out| - 1], out[|out| - 1];
      assert out == init + [prev];
      var grown := Range(prev.start, Larger(prev.end, r.end));
      CoversConcat(init, [prev], line);
      CoversConcat(init, [grown], line);
      CoversConcat(out, [r], line);
      CoversOne(prev, line);
      CoversOne(grown, line);
      CoversOne(r, line);
    }
  }

  /** The last merged range starts no later than any range still to come. */
  lemma {:induction false} LastStarts(ordered: seq<Range>, s: int)
    requires forall r | r in ordered :: r.start <= s
    ensures forall r | r in MergeSorted(ordered) :: r.start <= s
  {
    if ordered != [] {
      var k := |ordered| - 1;
      assert ordered[k] in ordered;
      assert forall r | r in ordered[..k] :: r in ordered;
      LastStarts(ordered[..k], s);
      var out := MergeSorted(ordered[..k]);
      if out != [] {
        assert out[|out| - 1] in out;
        forall r | r in MergeInto(out, ordered[k]) ensures r.start <= s {
          assert r in out[..|out| - 1] ==> r in out;
        }
      }
    }
  }

  lemma {:induction false} MergedStartsBefore(ordered: seq<Range>)
    requires SortedBy(ordered, ByStart()) && ordered != []
    ensures var out, r := MergeSorted(ordered[..|ordered| - 1]), ordered[|ordered| - 1];
            out != [] ==> out[|out| - 1].start <= r.start
  {
    var k := |ordered| - 1;
    forall x | x in ordered[..k] ensures x.start <= ordered[k].start {
      var i :| 0 <= i < k && ordered[i] == x;
      assert ByStart()(ordered[i], ordered[k]);
    }
    LastStarts(ordered[..k], ordered[k].start);
    var out := MergeSorted(ordered[..k]);
    if out != [] { assert out[|out| - 1] in out; }
  }

  lemma {:induction false} SortedInit(ordered: seq<Range>)
    requires SortedBy(ordered, ByStart()) && ordered != []
    ensures SortedBy(ordered[..|ordered| - 1], ByStart())
    ensures NonEmptyRanges(ordered) ==> NonEmptyRanges(ordered[..|ordered| - 1]) && ordered[|ordered| - 1].start <= ordered[|ordered| - 1].end
  {
    var k := |ordered| - 1;
    assert ordered[k] in ordered;
    forall x | x in ordered[..k] ensures x in ordered {}
    forall i, j | 0 <= i < j < k ensures ByStart()(ordered[..k][i], ordered[..k][j]) {
      assert ByStart()(ordered[i], ordered[j]);
    }
  }

  lemma {:induction false} MergeSortedCovers(ordered: seq<Range>, line: int)
    requires SortedBy(ordered, ByStart())
    ensures Covers(MergeSorted(ordered), line) <==> Covers(ordered, line)
  {
    if ordered != [] {
      var k := |ordered| - 1;
      var init, r := ordered[..k], ordered[k];
      SortedInit(ordered);
      MergeSortedCovers(init, line);
      MergedStartsBefore(ordered);
      var out := MergeSorted(init);
      MergeCovers(out, r, line);
      assert ordered == init + [r];
      CoversConcat(init, [r], line);
      CoversOne(r, line);
    }
  }

  /** Coalescing covers exactly the lines of its input, whatever the ranges. */
  lemma {:induction false} CoalesceCoversExactly(ranges: seq<Range>, line: int)
    ensures Covers(Coalesced(ranges), line) <==> Covers(ranges, line)
  {
    ByStartIsOrder();
    var s := Sort(ranges, ByStart());
    SortCorrect(ranges, ByStart());
    MergeSortedCovers(s, line);
    assert Covers(s, line) <==> Covers(ranges, line);
  }

  lemma {:induction false} MergeGaps(out: seq<Range>, r: Range)
    requires Gapped(out) && NonEmptyRanges(out) && r.start <= r.end
    requires out != [] ==> out[|out| - 1].start <= r.start
    ensures Gapped(MergeInto(out, r)) && NonEmptyRanges(MergeInto(out, r))
  {
    if out != [] {
      var k := |out| - 1;
      assert out[k] in out;
      var merged := MergeInto(out, r);
      forall i | 0 <= i < k ensures out[i].end + 1 < out[k].start && out[i].end <= out[k].end {
        assert out[i].end + 1 < out[k].start;
      }
      forall x | x in merged ensures x.start <= x.end {
        assert x in out[..k] ==> x in out;
      }
    }
  }

  lemma {:induction false} MergeSortedGaps(ordered: seq<Range>)
    requires SortedBy(ordered, ByStart()) && NonEmptyRanges(ordered)
    ensures Gapped(MergeSorted(ordered)) && NonEmptyRanges(MergeSorted(ordered))
  {
    if ordered != [] {
      var k := |ordered| - 1;
      var init, r := ordered[..k], ordered[k];
      SortedInit(ordered);
      MergeSortedGaps(init);
      MergedStartsBefore(ordered);
      var out := MergeSorted(init);
      MergeGaps(out, r);
    }
  }

  /** From ranges that are not empty, coalescing makes ranges with a gap between any two. */
  lemma {:induction false} CoalesceGaps(ranges: seq<Range>)
    requires NonEmptyRanges(ranges)
    ensures Gapped(Coalesced(ranges)) && NonEmptyRanges(Coalesced(ranges))
  {
    ByStartIsOrder();
    SortCorrect(ranges, ByStart());
    MergeSortedGaps(Sort(ranges, ByStart()));
  }

  // ----- the coalesced form is the only one -----

  lemma {:induction false} FirstIsLeast(a: seq<Range>, line: int)
    requires Gapped(a) && NonEmptyRanges(a) && a != []
    ensures Covers(a, line) ==> line >= a[0].start
    ensures a[0].start <= line <= a[0].end ==> Covers(a, line)
    ensures line == a[0].end + 1 ==> !Covers(a, line)
  {
    assert a[0] in a;
    forall r | r in a ensures r == a[0] || r.start > a[0].end + 1 {
      var i :| 0 <= i < |a| && a[i] == r;
      if i > 0 { assert a[0].end + 1 < a[i].start; }
    }
  }

  lemma {:induction false} TailGapped(a: seq<Range>)
    requires Gapped(a) && NonEmptyRanges(a) && a != []
    ensures Gapped(a[1..]) && NonEmptyRanges(a[1..])
  {
    forall r | r in a[1..] ensures r.start <= r.end { assert r in a; }
    forall i, j | 0 <= i < j < |a[1..]| ensures a[1..][i].end + 1 < a[1..][j].start {
      assert a[i + 1].end + 1 < a[j + 1].start;
    }
  }

  lemma {:induction false} TailCovers(a: seq<Range>, line: int)
    requires Gapped(a) && NonEmptyRanges(a) && a != []
    ensures Gapped(a[1..]) && NonEmptyRanges(a[1..])
    ensures Covers(a[1..], line) <==> Covers(a, line) && line > a[0].end
  {
    TailGapped(a);
    assert a == [a[0]] + a[1..];
    CoversConcat([a[0]], a[1..], line);
    CoversOne(a[0], line);
    if a[1..] != [] {
      assert a[0].end + 1 < a[1].start;
      FirstIsLeast(a[1..], line);
    }
  }

  lemma {:induction false} SomethingCovered(a: seq<Range>)
    requires NonEmptyRanges(a)
    ensures a != [] ==> Covers(a, a[0].start)
  {
    if a != [] { assert a[0] in a; }
  }

  /** Two gapped lists of ranges that cover the same lines are the same list: no list with a gap
      between any two ranges is shorter. */
  lemma {:induction false} SameFirst(a: seq<Range>, b: seq<Range>)
    requires Gapped(a) && NonEmptyRanges(a) && Gapped(b) && NonEmptyRanges(b) && a != [] && b != []
    requires forall line :: Covers(a, line) <==> Covers(b, line)
    ensures a[0] == b[0]
  {
    assert a[0] in a && b[0] in b;
    FirstIsLeast(a, b[0].start);
    FirstIsLeast(b, b[0].start);
    FirstIsLeast(a, a[0].start);
    FirstIsLeast(b, a[0].start);
    FirstIsLeast(a, a[0].end + 1);
    FirstIsLeast(b, a[0].end + 1);
    FirstIsLeast(a, b[0].end + 1);
    FirstIsLeast(b, b[0].end + 1);
  }

  lemma {:induction false} GappedIsUnique(a: seq<Range>, b: seq<Range>)
    requires Gapped(a) && NonEmptyRanges(a) && Gapped(b) && NonEmptyRanges(b)
    requires forall line :: Covers(a, line) <==> Covers(b, line)
    ensures a == b
  {
    SomethingCovered(a);
    SomethingCovered(b);
    if a != [] && b != [] {
      SameFirst(a, b);
      forall line ensures Covers(a[1..], line) <==> Covers(b[1..], line) {
        TailCovers(a, line);
        TailCovers(b, line);
      }
      TailCovers(a, 0);
      TailCovers(b, 0);
      GappedIsUnique(a[1..], b[1..]);
      assert a == [a[0]] + a[1..] && b == [b[0]] + b[1..];
    }
  }

  /** Coalescing is canonical: two lists of ranges have the same result exactly when they cover the
      same lines. */
  lemma {:induction false} CoalesceIsCanonical(a: seq<Range>, b: seq<Range>)
    requires NonEmptyRanges(a) && NonEmptyRanges(b)
    ensures Coalesced(a) == Coalesced(b) <==> forall line :: Covers(a, line) <==> Covers(b, line)
  {
    forall line ensures (Covers(Coalesced(a), line) <==> Covers(a, line)) && (Covers(Coalesced(b), line) <==> Covers(b, line)) {
      CoalesceCoversExactly(a, line);
      CoalesceCoversExactly(b, line);
    }
    CoalesceGaps(a);
    CoalesceGaps(b);
    if forall line :: Covers(a, line) <==> Covers(b, line) {
      GappedIsUnique(Coalesced(a), Coalesced(b));
    }
  }

  // ----- symbols in ranges -----

  predicate Touches(s: SymbolRef, ranges: seq<Range>) {
    exists r | r in ranges :: s.startLine <= r.end && r.start <= s.endLine
  }

  function MapRangesToSymbols(symbols: seq<SymbolRef>, ranges: seq<Range>): seq<SymbolRef> {
    if symbols == [] then []
    else (if Touches(symbols[0], ranges) then [symbols[0]] else []) + MapRangesToSymbols(symbols[1..], ranges)
  }

  /** A symbol touches ranges that are not empty exactly when one of its lines is covered. */
  lemma {:induction false} TouchesIsCovered(s: SymbolRef, ranges: seq<Range>)
    requires s.startLine <= s.endLine && NonEmptyRanges(ranges)
    ensures Touches(s, ranges) <==> exists line: int | s.startLine <= line <= s.endLine :: Covers(ranges, line)
  {
    if r :| r in ranges && s.startLine <= r.end && r.start <= s.endLine {
      var line := Larger(s.startLine, r.start);
      assert InRange(r, line);
      assert Covers(ranges, line);
    }
  }

  /** Coalescing does not change which symbols are selected. */
  lemma {:induction false} CoalescingKeepsSelection(symbols: seq<SymbolRef>, ranges: seq<Range>)
    requires NonEmptyRanges(ranges) && forall s | s in symbols :: s.startLine <= s.endLine
    ensures MapRangesToSymbols(symbols, Coalesced(ranges)) == MapRangesToSymbols(symbols, ranges)
  {
    if symbols != [] {
      var s := symbols[0];
      assert s in symbols;
      assert forall x | x in symbols[1..] :: x in symbols;
      CoalesceGaps(ranges);
      TouchesIsCovered(s, ranges);
      TouchesIsCovered(s, Coalesced(ranges));
      forall line ensures Covers(Coalesced(ranges), line) <==> Covers(ranges, line) { CoalesceCoversExactly(ranges, line); }
      CoalescingKeepsSelection(symbols[1..], ranges);
    }
  }

  // ----- reading a diff -----

  predicate IsDigit(c: char) { '0' <= c <= '9' }

  /** The digits at the start of the text. */
  function Digits(s: string): (r: string)
    ensures r <= s
  {
    if s != "" && IsDigit(s[0]) then [s[0]] + Digits(s[1..]) else ""
  }

  function ToNumber(s: string): nat
    requires forall c | c in s :: IsDigit(c)
  {
    if s == "" then 0
    else
      assert s[|s| - 1] in s && IsDigit(s[|s| - 1]);
      ToNumber(s[..|s| - 1]) * 10 + (s[|s| - 1] as int - '0' as int) as nat
  }

  lemma {:induction false} DigitsAreDigits(s: string)
    ensures forall c | c in Digits(s) :: IsDigit(c)
  {
    if s != "" && IsDigit(s[0]) {
      DigitsAreDigits(s[1..]);
    }
  }

  /** A number and the text behind it. */
  datatype Scan = NoNumber | Number(value: nat, rest: string)

  function ScanNumber(s: string): Scan {
    var d := Digits(s);
    DigitsAreDigits(s);
    if d == "" then NoNumber else Number(ToNumber(d), s[|d|..])
  }

  /** A start and an optional count behind a comma. */
  datatype Span = NoSpan | SpanAt(start: nat, count: Option<nat>, rest: string)

  function ScanSpan(s: string): Span {
    var a := ScanNumber(s);
    if a.NoNumber? then NoSpan
    else if a.rest != "" && a.rest[0] == ',' && ScanNumber(a.rest[1..]).Number? then
      var b := ScanNumber(a.rest[1..]);
      SpanAt(a.value, Some(b.value), b.rest)
    else SpanAt(a.value, None, a.rest)
  }

  /** The new side, behind the old one: its first line and its count, one when left out. */
  function NewSide(s: string): Option<(nat, nat)> {
    if !(" +" <= s) then None
    else
      var after := ScanSpan(s[2..]);
      if after.NoSpan? || !(" @@" <= after.rest) then None
      else Some((after.start, if after.count.Some? then after.count.value else 1))
  }

  /** What a hunk header says of the new file. */
  function ParseHunk(line: string): Option<(nat, nat)> {
    if !("@@ -" <= line) then None
    else
      var before := ScanSpan(line[4..]);
      if before.NoSpan? then None else NewSide(before.rest)
  }

  datatype Event = Header(path: Option<string>) | Hunk(ranges: seq<Range>) | Other

  /** The lines a hunk header speaks of. */
  function SpanOf(start: nat, count: nat): seq<Range> {
    if start == 0 || count == 0 then [] else [Range(start, start + count - 1)]
  }

  /** What one line of the diff says. A header names the new file, or none. */
  function EventOf(line: string): Event {
    if "+++ " <= line then
      var name := line[4..];
      Header(if name == "/dev/null" then None else Some(if "a/" <= name || "b/" <= name then name[2..] else name))
    else if "@@" <= line && ParseHunk(line).Some? then
      var (start, count) := ParseHunk(line).value;
      Hunk(SpanOf(start, count))
    else Other
  }

  function Events(lines: seq<string>): (es: seq<Event>)
    ensures |es| == |lines|
  {
    seq(|lines|, i requires 0 <= i < |lines| => EventOf(lines[i]))
  }

  /** The file that what is read next belongs to. */
  function CurrentFile(es: seq<Event>): Option<string> {
    if es == [] then None
    else
      var e := es[|es| - 1];
      if e.Header? then e.path else CurrentFile(es[..|es| - 1])
  }

  predicate Named(es: seq<Event>, path: string) {
    Header(Some(path)) in es
  }

  /** Ranges of the hunks that stand under a header of the path, in order. */
  function HunksOf(es: seq<Event>, path: string): seq<Range> {
    if es == [] then []
    else
      var k := |es| - 1;
      HunksOf(es[..k], path) + if es[k].Hunk? && CurrentFile(es[..k]) == Some(path) then es[k].ranges else []
  }

  /** The row of the file holds what the events say of it. */
  predicate RowSoFar(es: seq<Event>, ranges: map<string, seq<Range>>, path: string) {
    (path in ranges <==> Named(es, path)) && (path in ranges ==> ranges[path] == HunksOf(es, path))
  }

  /** After some events: the files named so far, and their ranges. */
  ghost predicate ReadSoFar(es: seq<Event>, current: Option<string>, ranges: map<string, seq<Range>>) {
    && current == CurrentFile(es)
    && (current.Some? ==> current.value in ranges)
    && forall p :: RowSoFar(es, ranges, p)
  }

  lemma {:induction false} NamedStep(es: seq<Event>, e: Event, path: string)
    ensures Named(es + [e], path) <==> Named(es, path) || e == Header(Some(path))
  {}

  lemma {:induction false} HunksStep(es: seq<Event>, e: Event, path: string)
    ensures CurrentFile(es + [e]) == if e.Header? then e.path else CurrentFile(es)
    ensures HunksOf(es + [e], path) == HunksOf(es, path) + if e.Hunk? && CurrentFile(es) == Some(path) then e.ranges else []
  {
    assert (es + [e])[..|es|] == es;
  }

  /** No hunk stands under a header that is not there. */
  lemma {:induction false} UnnamedHasNone(es: seq<Event>, path: string)
    requires !Named(es, path)
    ensures HunksOf(es, path) == [] && CurrentFile(es) != Some(path)
  {
    if es != [] {
      var k := |es| - 1;
      assert es == es[..k] + [es[k]];
      NamedStep(es[..k], es[k], path);
      UnnamedHasNone(es[..k], path);
    }
  }

  function WithFile(ranges: map<string, seq<Range>>, path: Option<string>): map<string, seq<Range>> {
    if path.Some? && path.value !in ranges then ranges[path.value := []] else ranges
  }

  function WithHunk(ranges: map<string, seq<Range>>, current: Option<string>, rs: seq<Range>): map<string, seq<Range>>
    requires current.Some? ==> current.value in ranges
  {
    if current.Some? then ranges[current.value := ranges[current.value] + rs] else ranges
  }

  lemma {:induction false} HeaderRow(es: seq<Event>, path: Option<string>, ranges: map<string, seq<Range>>, p: string)
    requires RowSoFar(es, ranges, p)
    ensures RowSoFar(es + [Header(path)], WithFile(ranges, path), p)
  {
    NamedStep(es, Header(path), p);
    HunksStep(es, Header(path), p);
    if !Named(es, p) { UnnamedHasNone(es, p); }
  }

  lemma {:induction false} HunkRow(es: seq<Event>, rs: seq<Range>, ranges: map<string, seq<Range>>, p: string)
    requires RowSoFar(es, ranges, p) && (CurrentFile(es).Some? ==> CurrentFile(es).value in ranges)
    ensures RowSoFar(es + [Hunk(rs)], WithHunk(ranges, CurrentFile(es), rs), p)
  {
    NamedStep(es, Hunk(rs), p);
    HunksStep(es, Hunk(rs), p);
  }

  lemma {:induction false} OtherRow(es: seq<Event>, ranges: map<string, seq<Range>>, p: string)
    requires RowSoFar(es, ranges, p)
    ensures RowSoFar(es + [Other], ranges, p)
  {
    NamedStep(es, Other, p);
    HunksStep(es, Other, p);
  }

  lemma {:induction false} AfterHeader(es: seq<Event>, path: Option<string>, current: Option<string>, ranges: map<string, seq<Range>>)
    requires ReadSoFar(es, current, ranges)
    ensures ReadSoFar(es + [Header(path)], path, WithFile(ranges, path))
  {
    HunksStep(es, Header(path), "");
    forall p ensures RowSoFar(es + [Header(path)], WithFile(ranges, path), p) { HeaderRow(es, path, ranges, p); }
  }

  lemma {:induction false} AfterHunk(es: seq<Event>, rs: seq<Range>, current: Option<string>, ranges: map<string, seq<Range>>)
    requires ReadSoFar(es, current, ranges)
    ensures ReadSoFar(es + [Hunk(rs)], current, WithHunk(ranges, current, rs))
  {
    HunksStep(es, Hunk(rs), "");
    forall p ensures RowSoFar(es + [Hunk(rs)], WithHunk(ranges, current, rs), p) { HunkRow(es, rs, ranges, p); }
  }

  lemma {:induction false} AfterOther(es: seq<Event>, current: Option<string>, ranges: map<string, seq<Range>>)
    requires ReadSoFar(es, current, ranges)
    ensures ReadSoFar(es + [Other], current, ranges)
  {
    HunksStep(es, Other, "");
    forall p ensures RowSoFar(es + [Other], ranges, p) { OtherRow(es, ranges, p); }
  }

  /** One line of the diff. */
  method ReadEvent(e: Event, current: Option<string>, ranges: map<string, seq<Range>>, ghost es: seq<Event>)
      returns (current': Option<string>, ranges': map<string, seq<Range>>)
    requires ReadSoFar(es, current, ranges)
    ensures ReadSoFar(es + [e], current', ranges')
  {
    current', ranges' := current, ranges;
    match e {
      case Header(path) =>
        AfterHeader(es, path, current, ranges);
        current' := path;
        if path.Some? && path.value !in ranges {
          ranges' := ranges[path.value := []];
        }
      case Hunk(rs) =>
        AfterHunk(es, rs, current, ranges);
        if current.Some? {
          ranges' := ranges[current.value := ranges[current.value] + rs];
        }
      case Other =>
        AfterOther(es, current, ranges);
    }
  }

  method ReadEvents(es: seq<Event>) returns (current: Option<string>, ranges: map<string, seq<Range>>)
    ensures ReadSoFar(es, current, ranges)
  {
    current, ranges := None, map[];
    assert es[..0] == [];
    for i := 0 to |es|
      invariant ReadSoFar(es[..i], current, ranges)
    {
      current, ranges := ReadEvent(es[i], current, ranges, es[..i]);
      assert es[..i + 1] == es[..i] + [es[i]];
    }
    assert es[..|es|] == es;
  }

  /** What the lines of a diff say. */
  function Read(diff: string): seq<Event> {
    Events(Lines(diff))
  }

  /** Changed ranges of each file named in the diff, coalesced; files without hunks have none. */
  method ParseUnifiedDiffRanges(diff: string) returns (r: map<string, seq<Range>>)
    ensures forall p :: p in r <==> Named(Read(diff), p)
    ensures forall p | p in r :: r[p] == Coalesced(HunksOf(Read(diff), p))
  {
    ghost var es := Read(diff);
    var current, ranges := ReadEvents(Read(diff));
    forall p ensures (p in ranges <==> Named(es, p)) && (p in ranges ==> ranges[p] == HunksOf(es, p)) {
      assert RowSoFar(es, ranges, p);
    }
    r := map p | p in ranges :: Coalesced(ranges[p]);
  }

  predicate HasSide(path: string) {
    "a/" <= path || "b/" <= path
  }

  function Unsided(path: string): string {
    if HasSide(path) then path[2..] else path
  }

  /** The changed lines of a file: what the diff says of the path without a leading `a/` or `b/`. */
  function ChangedRanges(diff: Option<string>, path: string): seq<Range> {
    if diff.Some? && Named(Read(diff.value), Unsided(path)) then Coalesced(HunksOf(Read(diff.value), Unsided(path))) else []
  }

  /** None stands for a git that fails. */
  method ChangedLineRanges(diff: Option<string>, path: string) returns (r: seq<Range>)
    ensures r == ChangedRanges(diff, path)
  {
    if diff.None? {
      return [];
    }
    var parsed := ParseUnifiedDiffRanges(diff.value);
    var norm := if "a/" <= path || "b/" <= path then path[2..] else path;
    return if norm in parsed then parsed[norm] else [];
  }

  lemma {:induction false} EventIsNonEmpty(line: string)
    ensures EventOf(line).Hunk? ==> NonEmptyRanges(EventOf(line).ranges)
  {}

  /** Ranges read from a diff are never empty. */
  lemma {:induction false} HunkRangesAreNonEmpty(lines: seq<string>, path: string)
    ensures NonEmptyRanges(HunksOf(Events(lines), path))
  {
    forall i | 0 <= i < |lines| && Events(lines)[i].Hunk? ensures NonEmptyRanges(Events(lines)[i].ranges) {
      EventIsNonEmpty(lines[i]);
    }
    HunksAreNonEmpty(Events(lines), path);
  }

  /** Straight from a diff: the symbols selected by the changed ranges of a file are those with a line
      in one of its hunks. */
  lemma {:induction false} SelectionFromDiff(diff: string, path: string, symbols: seq<SymbolRef>, s: SymbolRef)
    requires forall x | x in symbols :: x.startLine <= x.endLine
    ensures s in MapRangesToSymbols(symbols, Coalesced(HunksOf(Read(diff), path))) <==>
      s in symbols && exists line: int | s.startLine <= line <= s.endLine :: Covers(HunksOf(Read(diff), path), line)
  {
    var ranges := HunksOf(Read(diff), path);
    HunkRangesAreNonEmpty(Lines(diff), path);
    CoalescingKeepsSelection(symbols, ranges);
    SelectedTouch(symbols, ranges, s);
    if s in symbols { TouchesIsCovered(s, ranges); }
  }

  lemma {:induction false} SelectedTouch(symbols: seq<SymbolRef>, ranges: seq<Range>, s: SymbolRef)
    ensures s in MapRangesToSymbols(symbols, ranges) <==> s in symbols && Touches(s, ranges)
  {
    if symbols != [] {
      SelectedTouch(symbols[1..], ranges, s);
      assert symbols == [symbols[0]] + symbols[1..];
    }
  }

  lemma {:induction false} HunksAreNonEmpty(es: seq<Event>, path: string)
    requires forall i | 0 <= i < |es| && es[i].Hunk? :: NonEmptyRanges(es[i].ranges)
    ensures NonEmptyRanges(HunksOf(es, path))
  {
    if es != [] {
      HunksAreNonEmpty(es[..|es| - 1], path);
    }
  }

  predicate AllDigits(s: string) {
    s != "" && forall c | c in s :: '0' <= c <= '9'
  }

  /** One side of a hunk header as git writes it. */
  function SpanText(start: string, count: Option<string>): string {
    start + if count.Some? then "," + count.value else ""
  }

  lemma {:induction false} DigitsThen(d: string, rest: string)
    requires (forall c | c in d :: IsDigit(c)) && (rest == "" || !IsDigit(rest[0]))
    ensures Digits(d + rest) == d
  {
    if d == "" {
      assert d + rest == rest;
    } else {
      assert d[0] in d;
      assert (d + rest)[1..] == d[1..] + rest;
      assert forall c | c in d[1..] :: c in d;
      DigitsThen(d[1..], rest);
    }
  }

  lemma {:induction false} NumberThen(d: string, rest: string)
    requires AllDigits(d) && (rest == "" || !IsDigit(rest[0]))
    ensures ScanNumber(d + rest) == Number(ToNumber(d), rest)
  {
    DigitsThen(d, rest);
    assert (d + rest)[|d|..] == rest;
  }

  lemma {:induction false} SpanThen(start: string, count: Option<string>, rest: string)
    requires AllDigits(start) && (count.Some? ==> AllDigits(count.value))
    requires rest != "" && rest[0] == ' '
    ensures ScanSpan(SpanText(start, count) + rest)
      == SpanAt(ToNumber(start), if count.Some? then Some(ToNumber(count.value)) else None, rest)
  {
    if count.Some? {
      var tail := "," + (count.value + rest);
      assert SpanText(start, count) + rest == start + tail;
      NumberThen(start, tail);
      assert tail[1..] == count.value + rest;
      NumberThen(count.value, rest);
    } else {
      assert SpanText(start, count) == start;
      NumberThen(start, rest);
    }
  }

  lemma {:induction false} NewSideIsRead(c: string, d: Option<string>, tail: string)
    requires AllDigits(c) && (d.Some? ==> AllDigits(d.value))
    ensures NewSide(" +" + (SpanText(c, d) + (" @@" + tail))) == Some((ToNumber(c), if d.Some? then ToNumber(d.value) else 1))
  {
    var end := " @@" + tail;
    var s := " +" + (SpanText(c, d) + end);
    assert s[2..] == SpanText(c, d) + end;
    SpanThen(c, d, end);
  }

  /** A hunk header is read as what it was written for, whatever text follows it. */
  lemma {:induction false} HunkHeaderIsRead(a: string, b: Option<string>, c: string, d: Option<string>, tail: string)
    requires AllDigits(a) && (b.Some? ==> AllDigits(b.value)) && AllDigits(c) && (d.Some? ==> AllDigits(d.value))
    ensures ParseHunk("@@ -" + (SpanText(a, b) + (" +" + (SpanText(c, d) + (" @@" + tail)))))
      == Some((ToNumber(c), if d.Some? then ToNumber(d.value) else 1))
  {
    NewSideIsRead(c, d, tail);
    OldSideIsRead(a, b, " +" + (SpanText(c, d) + (" @@" + tail)));
  }

  lemma {:induction false} OldSideIsRead(a: string, b: Option<string>, rest: string)
    requires AllDigits(a) && (b.Some? ==> AllDigits(b.value)) && rest != "" && rest[0] == ' '
    ensures ParseHunk("@@ -" + (SpanText(a, b) + rest)) == NewSide(rest)
  {
    var line := "@@ -" + (SpanText(a, b) + rest);
    assert line[4..] == SpanText(a, b) + rest;
    SpanThen(a, b, rest);
  }

  // ----- every hunk header -----

  /** The line starts with a hunk header with these numbers in it. */
  predicate IsHunkHeader(line: string, a: string, b: Option<string>, c: string, d: Option<string>, tail: string) {
    && AllDigits(a) && (b.Some? ==> AllDigits(b.value)) && AllDigits(c) && (d.Some? ==> AllDigits(d.value))
    && line == "@@ -" + (SpanText(a, b) + (" +" + (SpanText(c, d) + (" @@" + tail))))
  }

  lemma {:induction false} DigitsLead(s: string)
    ensures Digits(s) <= s && s == Digits(s) + s[|Digits(s)|..]
    ensures Digits(s) != "" ==> AllDigits(Digits(s))
  {
    if s != "" && IsDigit(s[0]) {
      DigitsLead(s[1..]);
      assert s == [s[0]] + s[1..];
      DigitsAreDigits(s);
    }
  }

  lemma {:induction false} NumberShape(s: string) returns (d: string)
    requires ScanNumber(s).Number?
    ensures AllDigits(d) && s == d + ScanNumber(s).rest && ScanNumber(s).value == ToNumber(d)
  {
    d := Digits(s);
    DigitsLead(s);
  }

  lemma {:induction false} SpanShape(s: string) returns (start: string, count: Option<string>)
    requires ScanSpan(s).SpanAt?
    ensures var r := ScanSpan(s);
      && AllDigits(start) && (count.Some? ==> AllDigits(count.value)) && s == SpanText(start, count) + r.rest
      && r.start == ToNumber(start) && r.count == if count.Some? then Some(ToNumber(count.value)) else None
  {
    var r := ScanSpan(s);
    start := NumberShape(s);
    var rest := ScanNumber(s).rest;
    if r.count.Some? {
      var n := NumberShape(rest[1..]);
      count := Some(n);
      JoinedSpan(start, n, rest, r.rest);
    } else {
      count := None;
      assert SpanText(start, None) == start;
    }
  }

  lemma {:induction false} JoinedSpan(start: string, n: string, rest: string, behind: string)
    requires rest != "" && rest[0] == ',' && rest[1..] == n + behind
    ensures start + rest == SpanText(start, Some(n)) + behind
  {
    assert rest == "," + rest[1..];
    assert start + ("," + (n + behind)) == (start + ("," + n)) + behind;
  }

  lemma {:induction false} CutOff(head: string, s: string)
    requires head <= s
    ensures s == head + s[|head|..]
  {}

  lemma {:induction false} NewSideShape(s: string) returns (c: string, d: Option<string>, tail: string)
    requires NewSide(s).Some?
    ensures AllDigits(c) && (d.Some? ==> AllDigits(d.value)) && s == " +" + (SpanText(c, d) + (" @@" + tail))
    ensures NewSide(s) == Some((ToNumber(c), if d.Some? then ToNumber(d.value) else 1))
  {
    CutOff(" +", s);
    c, d := SpanShape(s[2..]);
    var rest := ScanSpan(s[2..]).rest;
    CutOff(" @@", rest);
    tail := rest[3..];
  }

  /** What is read as a hunk header is one as git writes it, and the new side is read from its numbers. */
  lemma {:induction false} HunkHeaderShape(line: string) returns (a: string, b: Option<string>, c: string, d: Option<string>, tail: string)
    requires ParseHunk(line).Some?
    ensures IsHunkHeader(line, a, b, c, d, tail)
    ensures ParseHunk(line) == Some((ToNumber(c), if d.Some? then ToNumber(d.value) else 1))
  {
    CutOff("@@ -", line);
    a, b := SpanShape(line[4..]);
    c, d, tail := NewSideShape(ScanSpan(line[4..]).rest);
  }

  /** A line is read as a hunk header exactly when it starts with one, whatever it ends with. */
  lemma {:induction false} HunkHeaderExactly(line: string, start: nat, count: nat)
    ensures ParseHunk(line) == Some((start, count)) <==>
      exists a, b, c, d, tail :: IsHunkHeader(line, a, b, c, d, tail) && start == ToNumber(c) && count == if d.Some? then ToNumber(d.value) else 1
  {
    if ParseHunk(line) == Some((start, count)) {
      var a, b, c, d, tail := HunkHeaderShape(line);
    }
    if a, b, c, d, tail :| IsHunkHeader(line, a, b, c, d, tail) && start == ToNumber(c) && count == if d.Some? then ToNumber(d.value) else 1 {
      HunkHeaderIsRead(a, b, c, d, tail);
    }
  }

  /** Digits are read as the number they are. */
  lemma {:induction false} DecimalIsRead(n: nat)
    ensures ToNumber(Decimal(n)) == n
  {
    var s := Decimal(n);
    if n < 10 {
      assert s[..0] == "";
    } else {
      DecimalIsRead(n / 10);
      assert s[..|s| - 1] == Decimal(n / 10);
    }
  }

  /** A hunk speaks of the lines from its start on, as many as it counts, and of none when it starts at
      line 0. */
  lemma {:induction false} HunkCovers(start: nat, count: nat, n: int)
    ensures Covers(SpanOf(start, count), n) <==> start > 0 && start <= n < start + count
  {
    if start > 0 && start <= n < start + count {
      assert SpanOf(start, count)[0] in SpanOf(start, count);
    }
  }

  /** A file header names what is behind it, without a leading side, unless that is no file. */
  lemma {:induction false} HeaderExactly(name: string)
    ensures EventOf("+++ " + name) == Header(
      if name == "/dev/null" then None
      else if |name| >= 2 && name[0] in "ab" && name[1] == '/' then Some(name[2..]) else Some(name))
  {
    var line := "+++ " + name;
    assert line[4..] == name && "+++ " <= line;
    assert "a/" <= name <==> |name| >= 2 && name[0] == 'a' && name[1] == '/';
    assert "b/" <= name <==> |name| >= 2 && name[0] == 'b' && name[1] == '/';
  }
}
