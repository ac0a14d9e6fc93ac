/** Which symbol a marker belongs to: the indexer's rule, and the edit gate's copy of it. */
module Attachment {
  import opened Models
  import opened Ordering
  import opened Grammar
  import opened Trees

  const GAP_MAX := 3

  // ----- lines that may stand between a marker and its symbol -----

  predicate IsCommentOrDecorator(line: string) {
    "@" <= line || "#" <= line || "//" <= line || "/*" <= line || "*" <= line
  }

  /** The indexer: blank, or a comment or decorator of any supported language. */
  predicate IndexerPasses(line: string) {
    var stripped := Strip(line);
    stripped == "" || IsCommentOrDecorator(stripped)
  }

  datatype CodeLanguage = Python | Yaml | Toml | Go | Rust | Java | TypeScript | JavaScript | OtherLanguage

  /** The comment prefixes of one language, as the gate knows them. */
  predicate StartsComment(language: CodeLanguage, line: string) {
    match language
    case Python => "#" <= line || "@" <= line
    case Yaml => "#" <= line
    case Toml => "#" <= line
    case OtherLanguage => "#" <= line
    case _ => "//" <= line || "/*" <= line || "*" <= line
  }

  predicate GatePasses(language: CodeLanguage, line: string) {
    var stripped := Strip(line);
    stripped == "" || StartsComment(language, stripped)
  }

  // ----- the indexer's rule -----

  /** The symbol on line `start` may take the marker on line `hit` (lines count from 1). */
  ghost predicate GapOk(hit: nat, start: int, lines: seq<string>) {
    start - hit - 1 <= GAP_MAX && IndexerClear(lines, hit, start - 1)
  }

  /** Lines `from` up to `to` (counted from 0) exist and may all stand between. */
  ghost predicate IndexerClear(lines: seq<string>, from: nat, to: int) {
    (from < to ==> to <= |lines|) && forall i | from <= i < to && i < |lines| :: IndexerPasses(lines[i])
  }

  method CheckGap(hit: nat, start: int, lines: seq<string>) returns (ok: bool)
    ensures ok == GapOk(hit, start, lines)
  {
    if start - hit - 1 > GAP_MAX {
      return false;
    }
    var ln := hit + 1;
    while ln < start
      invariant hit + 1 <= ln
      invariant ln == hit + 1 || ln - 1 <= |lines|
      invariant forall i | hit <= i < ln - 1 && i < |lines| :: IndexerPasses(lines[i])
    {
      var i := ln - 1;
      if i >= |lines| || !IndexerPasses(lines[i]) {
        LineFails(lines, hit, start - 1, i);
        return false;
      }
      ln := ln + 1;
    }
    return true;
  }

  lemma {:induction false} LineFails(lines: seq<string>, from: nat, to: int, i: nat)
    requires from <= i < to && (i >= |lines| || !IndexerPasses(lines[i]))
    ensures !IndexerClear(lines, from, to)
  {}

  ghost predicate Eligible(s: SymbolRef, hit: nat, lines: seq<string>) {
    s.startLine > hit && GapOk(hit, s.startLine, lines)
  }

  datatype Attached = Attached(line: int, symbol: Option<SymbolRef>, ambiguity: bool)

  predicate Before(a: SymbolRef, b: SymbolRef) {
    a.startLine < b.startLine || (a.startLine == b.startLine && StringLe(a.qualifiedName, b.qualifiedName))
  }

  function ByPlace(): (SymbolRef, SymbolRef) -> bool {
    (a: SymbolRef, b: SymbolRef) => Before(a, b)
  }

  lemma {:induction false} PlaceOrder()
    ensures TotalPreorder(ByPlace())
  {
    forall a: SymbolRef, b: SymbolRef ensures Before(a, b) || Before(b, a) { StringLeTotal(a.qualifiedName, b.qualifiedName); }
    forall a: SymbolRef, b: SymbolRef, c: SymbolRef | Before(a, b) && Before(b, c) ensures Before(a, c) {
      if StringLe(a.qualifiedName, b.qualifiedName) && StringLe(b.qualifiedName, c.qualifiedName) {
        StringLeTransitive(a.qualifiedName, b.qualifiedName, c.qualifiedName);
      }
    }
  }

  /** Positions of the symbols that may take the marker. */
  ghost function EligibleAt(symbols: seq<SymbolRef>, hit: nat, lines: seq<string>): set<nat> {
    set i: nat | i < |symbols| && Eligible(symbols[i], hit, lines)
  }

  /** The symbol may take the marker, and none that may comes before it. */
  ghost predicate TakesFirst(s: SymbolRef, symbols: seq<SymbolRef>, hit: nat, lines: seq<string>) {
    && s in symbols && Eligible(s, hit, lines)
    && forall i | i in EligibleAt(symbols, hit, lines) :: Before(s, symbols[i])
  }

  /** The marker goes to the earliest symbol that may take it, and to none if there is none; it is
      ambiguous when several may. */
  ghost predicate IsAttachment(a: Attached, symbols: seq<SymbolRef>, hit: nat, lines: seq<string>) {
    var at := EligibleAt(symbols, hit, lines);
    && a.line == hit
    && (a.symbol.None? <==> at == {})
    && (a.symbol.Some? ==> TakesFirst(a.symbol.value, symbols, hit, lines))
    && (a.ambiguity <==> |at| > 1)
  }

  method EligibleSymbols(symbols: seq<SymbolRef>, hit: nat, lines: seq<string>) returns (r: seq<SymbolRef>)
    ensures |r| == |EligibleAt(symbols, hit, lines)|
    ensures forall s :: s in r <==> s in symbols && Eligible(s, hit, lines)
  {
    r := [];
    assert EligibleAt(symbols[..0], hit, lines) == {};
    for i := 0 to |symbols|
      invariant |r| == |EligibleAt(symbols[..i], hit, lines)|
      invariant forall s :: s in r <==> s in symbols[..i] && Eligible(s, hit, lines)
    {
      var ok := symbols[i].startLine > hit;
      if ok {
        ok := CheckGap(hit, symbols[i].startLine, lines);
      }
      EligibleStep(symbols, i, hit, lines);
      assert symbols[..i + 1] == symbols[..i] + [symbols[i]];
      if ok {
        r := r + [symbols[i]];
      }
    }
    assert symbols[..|symbols|] == symbols;
  }

  lemma {:induction false} EligibleStep(symbols: seq<SymbolRef>, i: nat, hit: nat, lines: seq<string>)
    requires i < |symbols|
    ensures |EligibleAt(symbols[..i + 1], hit, lines)| == |EligibleAt(symbols[..i], hit, lines)| + if Eligible(symbols[i], hit, lines) then 1 else 0
  {
    var before, after := EligibleAt(symbols[..i], hit, lines), EligibleAt(symbols[..i + 1], hit, lines);
    if Eligible(symbols[i], hit, lines) {
      assert after == before + {i};
    } else {
      assert after == before;
    }
  }

  method AttachMarker(symbols: seq<SymbolRef>, hit: nat, lines: seq<string>) returns (a: Attached)
    ensures IsAttachment(a, symbols, hit, lines)
  {
    var eligible := EligibleSymbols(symbols, hit, lines);
    ghost var at := EligibleAt(symbols, hit, lines);
    if eligible == [] {
      return Attached(hit, None, false);
    }
    var sorted := Sort(eligible, ByPlace());
    PlaceOrder();
    SortCorrect(eligible, ByPlace());
    var first := sorted[0];
    forall i | i in at ensures Before(first, symbols[i]) {
      assert symbols[i] in sorted;
      var j :| 0 <= j < |sorted| && sorted[j] == symbols[i];
      FirstIsBefore(sorted, j);
    }
    assert first in sorted;
    a := Attached(hit, Some(first), |eligible| > 1);
  }

  lemma {:induction false} FirstIsBefore(sorted: seq<SymbolRef>, j: nat)
    requires SortedBy(sorted, ByPlace()) && j < |sorted|
    ensures Before(sorted[0], sorted[j])
  {
    if j > 0 {
      assert ByPlace()(sorted[0], sorted[j]);
    } else {
      StringLeTotal(sorted[0].qualifiedName, sorted[0].qualifiedName);
    }
  }

  /** Every marker, in the order of the hits. */
  method AttachMarkers(symbols: seq<SymbolRef>, hits: seq<nat>, lines: seq<string>) returns (r: seq<Attached>)
    ensures |r| == |hits|
    ensures forall i | 0 <= i < |hits| :: IsAttachment(r[i], symbols, hits[i], lines)
  {
    r := [];
    for i := 0 to |hits|
      invariant |r| == i
      invariant forall j | 0 <= j < i :: IsAttachment(r[j], symbols, hits[j], lines)
    {
      var a := AttachMarker(symbols, hits[i], lines);
      r := r + [a];
    }
  }

  // ----- the gate's rule -----

  /** The marker word occurs on the line. */
  predicate HasMarkerWord(line: string) {
    PREFIX <= line || (line != "" && HasMarkerWord(line[1..]))
  }

  /** Lines `from` up to `to` (counted from 0) may all stand between. */
  ghost predicate GateClear(language: CodeLanguage, lines: seq<string>, from: int, to: int)
    requires 0 <= from && to <= |lines|
  {
    forall i | from <= i < to :: GatePasses(language, lines[i])
  }

  /** The gate takes the marker on line `hit` for the boundary on line `start` (lines count
      from 1). */
  ghost predicate GateTakes(language: CodeLanguage, lines: seq<string>, start: int, hit: int)
    requires 1 <= start <= |lines|
  {
    && 1 <= hit && start - GAP_MAX <= hit <= start
    && HasMarkerWord(lines[hit - 1])
    && GateClear(language, lines, hit, start - 1)
  }

  method CheckClear(language: CodeLanguage, lines: seq<string>, from: int, to: int) returns (ok: bool)
    requires 0 <= from && to <= |lines|
    ensures ok == GateClear(language, lines, from, to)
  {
    var i := from;
    while i < to
      invariant from <= i
      invariant forall k | from <= k < i && k < to :: GatePasses(language, lines[k])
    {
      var stripped := Strip(lines[i]);
      if stripped != "" && !StartsComment(language, stripped) {
        return false;
      }
      i := i + 1;
    }
    return true;
  }

  /** The gate's scan over the lines just above a boundary, and the boundary's own line. */
  method MarkerAttached(language: CodeLanguage, lines: seq<string>, start: int) returns (r: bool)
    requires 1 <= start <= |lines|
    ensures r <==> exists hit :: GateTakes(language, lines, start, hit)
  {
    var first := if start - 1 - GAP_MAX > 0 then start - 1 - GAP_MAX else 0;
    for i := first to start
      invariant forall hit :: GateTakes(language, lines, start, hit) ==> hit > i
    {
      if HasMarkerWord(lines[i]) {
        var ok := CheckClear(language, lines, i + 1, start - 1);
        if ok {
          assert GateTakes(language, lines, start, i + 1);
          return true;
        }
      }
    }
    return false;
  }

  // ----- the two rules compared -----

  lemma {:induction false} GatePassesLess(language: CodeLanguage, line: string)
    requires GatePasses(language, line)
    ensures IndexerPasses(line)
  {}

  /** Where the gate takes a marker above a boundary, the indexer's rule holds too. */
  lemma {:induction false} GateRefinesIndexer(language: CodeLanguage, lines: seq<string>, start: int, hit: nat)
    requires 1 <= start <= |lines| && GateTakes(language, lines, start, hit) && hit < start
    ensures GapOk(hit, start, lines)
  {
    forall i | hit <= i < start - 1 ensures IndexerPasses(lines[i]) {
      GatePassesLess(language, lines[i]);
    }
  }

  /** So the indexer attaches that marker: to the symbol that starts there, or to one between the
      marker and it. */
  lemma {:induction false} GateTakenIsAttached(language: CodeLanguage, lines: seq<string>, symbols: seq<SymbolRef>, s: SymbolRef, hit: nat, a: Attached)
    requires s in symbols && 1 <= s.startLine <= |lines|
    requires GateTakes(language, lines, s.startLine, hit) && hit < s.startLine
    requires IsAttachment(a, symbols, hit, lines)
    ensures a.symbol.Some? && hit < a.symbol.value.startLine && Before(a.symbol.value, s)
  {
    GateRefinesIndexer(language, lines, s.startLine, hit);
    var i: nat :| i < |symbols| && symbols[i] == s;
    assert i in EligibleAt(symbols, hit, lines);
  }

  /** The gate's rule for a marker above a boundary, in terms of the indexer's: at most two lines
      in between, not three, and each of them passes in the boundary's own language. */
  lemma {:induction false} GateIsIndexerExactly(language: CodeLanguage, lines: seq<string>, start: int, hit: nat)
    requires 1 <= hit < start <= |lines| && HasMarkerWord(lines[hit - 1])
    ensures GateTakes(language, lines, start, hit) <==>
      GapOk(hit, start, lines) && start - hit - 1 < GAP_MAX && GateClear(language, lines, hit, start - 1)
  {
    if GateTakes(language, lines, start, hit) {
      GateRefinesIndexer(language, lines, start, hit);
    }
  }

  /** Where both rules class the lines in between alike, the gate misses a marker that the indexer
      attaches exactly when three lines stand in between. */
  lemma {:induction false} GateMissesOnlyThreeLines(language: CodeLanguage, lines: seq<string>, start: int, hit: nat)
    requires 1 <= hit < start <= |lines| && HasMarkerWord(lines[hit - 1]) && GapOk(hit, start, lines)
    requires forall i | hit <= i < start - 1 :: IndexerPasses(lines[i]) ==> GatePasses(language, lines[i])
    ensures !GateTakes(language, lines, start, hit) <==> start - hit - 1 == GAP_MAX
  {
    GateIsIndexerExactly(language, lines, start, hit);
  }

  /** On the boundary's own line the gate takes a marker, and the indexer never attaches it to a
      symbol that starts there. */
  lemma {:induction false} OwnLineDiffers(language: CodeLanguage, lines: seq<string>, s: SymbolRef)
    requires 1 <= s.startLine <= |lines| && HasMarkerWord(lines[s.startLine - 1])
    ensures GateTakes(language, lines, s.startLine, s.startLine) && !Eligible(s, s.startLine, lines)
  {}

  // ----- what may stand between, told from the line itself -----

  /** What comes first on the line, but for whitespace, is one of the marks. */
  ghost predicate Leads(line: string, marks: set<string>) {
    exists i, m :: LeadsAt(line, marks, i, m)
  }

  ghost predicate LeadsAt(line: string, marks: set<string>, i: int, m: string) {
    0 <= i <= |line| && m in marks && AllSpace(line[..i]) && m <= line[i..]
  }

  predicate IsMark(m: string) {
    m != "" && forall c | c in m :: !IsSpace(c)
  }

  lemma {:induction false} SpaceOutside(line: string, a: string, t: string, b: string)
    requires line == a + t + b && AllSpace(a) && AllSpace(b)
    ensures forall j | 0 <= j < |line| && (j < |a| || |a| + |t| <= j) :: IsSpace(line[j])
  {
    forall j | 0 <= j < |line| && (j < |a| || |a| + |t| <= j) ensures IsSpace(line[j]) {
      if j < |a| {
        assert line[j] == a[j];
      } else {
        assert line[j] == b[j - |a| - |t|];
      }
    }
  }

  lemma {:induction false} SpaceBefore(line: string, i: nat)
    requires i <= |line| && AllSpace(line[..i])
    ensures forall j | 0 <= j < i :: IsSpace(line[j])
  {
    forall j | 0 <= j < i ensures IsSpace(line[j]) {
      assert line[j] == line[..i][j];
    }
  }

  lemma {:induction false} LeadingMark(line: string, a: string, t: string, b: string, i: nat, m: string)
    requires line == a + t + b && AllSpace(a) && AllSpace(b) && (t != "" ==> !IsSpace(t[0])) && IsMark(m)
    requires i <= |line| && AllSpace(line[..i]) && m <= line[i..]
    ensures m <= t
  {
    SpaceOutside(line, a, t, b);
    SpaceBefore(line, i);
    assert line[i] == m[0] && line[i + (|m| - 1)] == m[|m| - 1];
    assert t != "" && line[|a|] == t[0];
    assert i == |a| && |m| <= |t|;
    assert line[i..] == t + b;
  }

  lemma {:induction false} LeadsExactly(line: string, marks: set<string>)
    requires forall m | m in marks :: IsMark(m)
    ensures (exists m | m in marks :: m <= Strip(line)) <==> Leads(line, marks)
    ensures Strip(line) == "" <==> AllSpace(line)
  {
    var a, b := StripParts(line);
    var t := Strip(line);
    if m :| m in marks && m <= t {
      assert line[..|a|] == a && line[|a|..] == t + b;
      assert LeadsAt(line, marks, |a|, m);
    }
    if Leads(line, marks) {
      var i, m :| LeadsAt(line, marks, i, m);
      LeadingMark(line, a, t, b, i, m);
    }
    assert t == "" ==> line == a + b;
    assert t != "" ==> t[0] in line;
  }

  /** The comment and decorator marks of one language. */
  function MarksOf(language: CodeLanguage): set<string> {
    match language
    case Python => {"#", "@"}
    case Yaml => {"#"}
    case Toml => {"#"}
    case OtherLanguage => {"#"}
    case Go => {"//", "/*", "*"}
    case Rust => {"//", "/*", "*"}
    case Java => {"//", "/*", "*"}
    case TypeScript => {"//", "/*", "*"}
    case JavaScript => {"//", "/*", "*"}
  }

  /** For the indexer a line may stand between when it is blank or starts with a comment or decorator mark
      of any language; for the gate, with one of the boundary's own. */
  lemma {:induction false} PassesExactly(language: CodeLanguage, line: string)
    ensures IndexerPasses(line) <==> AllSpace(line) || Leads(line, {"@", "#", "//", "/*", "*"})
    ensures GatePasses(language, line) <==> AllSpace(line) || Leads(line, MarksOf(language))
  {
    var any := {"@", "#", "//", "/*", "*"};
    LeadsExactly(line, any);
    LeadsExactly(line, MarksOf(language));
    var t := Strip(line);
    assert IsCommentOrDecorator(t) <==> exists m | m in any :: m <= t by {
      assert "@" in any && "#" in any && "//" in any && "/*" in any && "*" in any;
    }
    StartsExactly(language, t);
  }

  lemma {:induction false} StartsExactly(language: CodeLanguage, t: string)
    ensures StartsComment(language, t) <==> exists m | m in MarksOf(language) :: m <= t
  {
    var marks := MarksOf(language);
    if StartsComment(language, t) {
      if "#" <= t && "#" in marks {
      } else if "@" <= t && "@" in marks {
      } else if "//" <= t && "//" in marks {
      } else if "/*" <= t && "/*" in marks {
      } else {
        assert "*" <= t && "*" in marks;
      }
    }
  }

  /** Blank, or with a mark of some language first. */
  ghost predicate MayStandBetween(line: string) {
    AllSpace(line) || Leads(line, {"@", "#", "//", "/*", "*"})
  }

  /** A symbol may take a marker exactly when it starts one to four lines below, and the lines in between are
      there and each of them blank or a comment or decorator. */
  lemma {:induction false} EligibleExactly(s: SymbolRef, hit: nat, lines: seq<string>)
    ensures Eligible(s, hit, lines) <==>
      && 1 <= s.startLine - hit <= 4 && (s.startLine - hit == 1 || s.startLine - 1 <= |lines|)
      && forall i | hit <= i < s.startLine - 1 && i < |lines| :: MayStandBetween(lines[i])
  {
    forall i | 0 <= i < |lines| ensures IndexerPasses(lines[i]) <==> MayStandBetween(lines[i]) {
      PassesExactly(Python, lines[i]);
    }
  }

  predicate WordAt(line: string, k: int) {
    0 <= k <= |line| && "trace:v1" <= line[k..]
  }

  ghost predicate HasWord(line: string) {
    exists k :: WordAt(line, k)
  }

  /** The gate takes a marker exactly on the boundary's line or up to three above it, when each line in
      between is blank or starts with a mark of the boundary's language. */
  lemma {:induction false} GateTakesExactly(language: CodeLanguage, lines: seq<string>, start: int, hit: int)
    requires 1 <= start <= |lines|
    ensures GateTakes(language, lines, start, hit) <==>
      && 1 <= hit && 0 <= start - hit <= 3
      && HasWord(lines[hit - 1])
      && forall i | hit <= i < start - 1 :: AllSpace(lines[i]) || Leads(lines[i], MarksOf(language))
  {
    forall i | 0 <= i < |lines| ensures GatePasses(language, lines[i]) <==> AllSpace(lines[i]) || Leads(lines[i], MarksOf(language)) {
      PassesExactly(language, lines[i]);
    }
    if 1 <= hit && 0 <= start - hit <= 3 {
      WordOccurs(lines[hit - 1]);
    }
  }

  lemma {:induction false} WordOccurs(line: string)
    ensures HasMarkerWord(line) <==> HasWord(line)
  {
    assert line[0..] == line;
    if PREFIX <= line {
      assert WordAt(line, 0);
    } else if line != "" {
      WordOccurs(line[1..]);
      if k :| WordAt(line[1..], k) {
        assert line[k + 1..] == line[1..][k..];
        assert WordAt(line, k + 1);
      }
      if k :| WordAt(line, k) {
        assert line[1..][k - 1..] == line[k..];
        assert WordAt(line[1..], k - 1);
      }
    }
  }
}
