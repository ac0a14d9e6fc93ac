/** Markdown structure: code lines, fences, and the sections under artifact headings. */
module Markdown {
  import opened Models
  import opened Grammar

  // ----- fences -----

  /** Spaces at the start of the line. */
  function Spaces(line: string): (n: nat)
    ensures n <= |line|
  {
    if line != "" && line[0] == ' ' then 1 + Spaces(line[1..]) else 0
  }

  /** Length of the run of c at the start. */
  function Run(s: string, c: char): (n: nat)
    ensures n <= |s|
  {
    if s != "" && s[0] == c then 1 + Run(s[1..], c) else 0
  }

  datatype Fence = Fence(mark: char, length: nat)

  /** A fence at the start of the line, at most three spaces in: three or more of one mark. */
  function FenceAt(line: string): Option<Fence> {
    var n := Spaces(line);
    var s := line[n..];
    if n > 3 || s == "" || (s[0] != '`' && s[0] != '~') || Run(s, s[0]) < 3 then None
    else Some(Fence(s[0], Run(s, s[0])))
  }

  /** The text behind the fence. */
  function BehindFence(line: string): string
    requires FenceAt(line).Some?
  {
    line[Spaces(line) + FenceAt(line).value.length..]
  }

  /** The line closes the open fence: the same mark, at least the opening length, nothing after. */
  predicate Closes(line: string, open: Fence) {
    var f := FenceAt(line);
    f.Some? && f.value.mark == open.mark && f.value.length >= open.length && Strip(BehindFence(line)) == ""
  }

  // ----- code lines -----

  function Blanks(line: string): (n: nat)
    ensures n <= |line|
  {
    if line != "" && IsBlank(line[0]) then 1 + Blanks(line[1..]) else 0
  }

  function Columns(indent: string): nat {
    if indent == "" then 0 else (if indent[0] == '\t' then 4 else 1) + Columns(indent[1..])
  }

  predicate Indented(line: string) {
    Columns(line[..Blanks(line)]) >= 4
  }

  /** What the scan remembers: the open fence, whether the last line that is not blank was indented,
      whether the last line was blank. */
  datatype Scan = Scan(fence: Option<Fence>, prevIndented: Option<bool>, prevBlank: bool)

  const START := Scan(None, None, true)

  /** One line of the scan, where the line would open the given fence, or close the open one. */
  function NextBy(s: Scan, line: string, opening: Option<Fence>, closing: bool): Scan {
    if s.fence.Some? then Scan(if closing then None else s.fence, Some(false), false)
    else if opening.Some? then Scan(opening, Some(false), false)
    else if Strip(line) == "" then s.(prevBlank := true)
    else s.(prevIndented := Some(Indented(line)), prevBlank := false)
  }

  predicate CodeBy(s: Scan, line: string, opening: Option<Fence>) {
    || s.fence.Some?
    || opening.Some?
    || (Strip(line) != "" && Indented(line) && (s.prevIndented != Some(false) || s.prevBlank))
  }

  function Next(s: Scan, line: string): Scan {
    NextBy(s, line, FenceAt(line), s.fence.Some? && Closes(line, s.fence.value))
  }

  predicate CodeLine(s: Scan, line: string) {
    CodeBy(s, line, FenceAt(line))
  }

  /** What the scan remembers before line i. */
  function After(lines: seq<string>, i: nat): Scan
    requires i <= |lines|
  {
    if i == 0 then START else Next(After(lines, i - 1), lines[i - 1])
  }

  /** Line i is code. */
  predicate IsCode(lines: seq<string>, i: nat)
    requires i < |lines|
  {
    CodeLine(After(lines, i), lines[i])
  }

  /** The flag of every line. */
  function CodeFlags(lines: seq<string>): (r: seq<bool>)
    ensures |r| == |lines|
  {
    seq(|lines|, i requires 0 <= i < |lines| => IsCode(lines, i))
  }

  /** One line of the flag loop: whether the line is code, and what the scan remembers. */
  method FlagLine(lines: seq<string>, i: nat, scan: Scan) returns (code: bool, next: Scan)
    requires i < |lines| && scan == After(lines, i)
    ensures code == CodeFlags(lines)[i] && next == After(lines, i + 1)
  {
    var line := lines[i];
    var fence := FenceAt(line);
    code := false;
    if scan.fence.Some? {
      code := true;
      next := Scan(if Closes(line, scan.fence.value) then None else scan.fence, Some(false), false);
    } else if fence.Some? {
      code := true;
      next := Scan(fence, Some(false), false);
    } else if Strip(line) == "" {
      next := scan.(prevBlank := true);
    } else {
      var indented := Indented(line);
      if indented && (scan.prevIndented.None? || scan.prevIndented.value || scan.prevBlank) {
        code := true;
      }
      next := scan.(prevIndented := Some(indented), prevBlank := false);
    }
  }

  /** One flag for each line, set where the line is code. */
  method CodeLineFlags(lines: seq<string>) returns (flags: seq<bool>)
    ensures flags == CodeFlags(lines)
  {
    flags := seq(|lines|, _ => false);
    var scan := START;
    ghost var codes := CodeFlags(lines);
    for i := 0 to |lines|
      invariant scan == After(lines, i)
      invariant |flags| == |lines| && forall j | 0 <= j < i :: flags[j] == codes[j]
    {
      var code, next := FlagLine(lines, i, scan);
      flags, scan := flags[i := code], next;
    }
  }

  // ----- fenced blocks -----

  /** The open fence after one more line. */
  function NextFence(open: Option<Fence>, line: string): Option<Fence> {
    if open.Some? then (if Closes(line, open.value) then None else open) else FenceAt(line)
  }

  /** The fence open at line i. */
  function FenceBefore(lines: seq<string>, i: nat): Option<Fence>
    requires i <= |lines|
  {
    if i == 0 then None else NextFence(FenceBefore(lines, i - 1), lines[i - 1])
  }

  lemma {:induction false} AfterFence(lines: seq<string>, i: nat)
    requires i <= |lines|
    ensures After(lines, i).fence == FenceBefore(lines, i)
  {
    if i > 0 {
      AfterFence(lines, i - 1);
    }
  }

  /** Every line from an opening fence to its closing one is code. */
  lemma {:induction false} FencedLinesAreCode(lines: seq<string>, i: nat)
    requires i < |lines| && (FenceBefore(lines, i).Some? || FenceAt(lines[i]).Some?)
    ensures IsCode(lines, i)
  {
    AfterFence(lines, i);
  }

  /** Line j opens a fence that no line before i closes. */
  ghost predicate OpenFrom(lines: seq<string>, j: nat, i: nat)
    requires j < i <= |lines|
  {
    && FenceBefore(lines, j).None? && FenceAt(lines[j]).Some?
    && forall k | j < k < i :: !Closes(lines[k], FenceAt(lines[j]).value)
  }

  lemma {:induction false} StaysOpen(lines: seq<string>, j: nat, i: nat)
    requires j < i <= |lines| && OpenFrom(lines, j, i)
    ensures FenceBefore(lines, i) == FenceAt(lines[j])
    decreases i
  {
    if j + 1 < i {
      StaysOpen(lines, j, i - 1);
    }
  }

  /** A fence closes only on the same mark, at least the opening length, and nothing after it. */
  lemma {:induction false} FenceCloses(lines: seq<string>, j: nat, i: nat)
    requires j < i < |lines| && OpenFrom(lines, j, i)
    ensures FenceBefore(lines, i + 1) == if Closes(lines[i], FenceAt(lines[j]).value) then None else FenceAt(lines[j])
  {
    StaysOpen(lines, j, i);
  }

  lemma {:induction false} OneMoreOpen(lines: seq<string>, j: nat, i: nat)
    requires j < i < |lines| && OpenFrom(lines, j, i) && !Closes(lines[i], FenceAt(lines[j]).value)
    ensures OpenFrom(lines, j, i + 1)
  {}

  lemma {:induction false} OpenerOf(lines: seq<string>, i: nat) returns (j: nat)
    requires i <= |lines| && FenceBefore(lines, i).Some?
    ensures j < i && OpenFrom(lines, j, i) && FenceBefore(lines, i) == FenceAt(lines[j])
  {
    j := i - 1;
    if FenceBefore(lines, j).Some? {
      j := OpenerOf(lines, j);
      OneMoreOpen(lines, j, i - 1);
    }
  }

  /** A fence is open at line i exactly when some line before opened it and no line since then has
      closed it. */
  lemma {:induction false} FenceIsOpenExactly(lines: seq<string>, i: nat)
    requires i <= |lines|
    ensures FenceBefore(lines, i).Some? <==> exists j: nat :: j < i && OpenFrom(lines, j, i)
  {
    if FenceBefore(lines, i).Some? {
      var j := OpenerOf(lines, i);
      assert OpenFrom(lines, j, i);
    }
    if j: nat :| j < i && OpenFrom(lines, j, i) {
      StaysOpen(lines, j, i);
    }
  }

  // ----- the fences of CommonMark -----

  /** Section 4.5 of CommonMark: the info string of a backtick fence has no backtick. */
  predicate OpensInCommonMark(line: string) {
    FenceAt(line).Some? && (FenceAt(line).value.mark == '`' ==> forall c | c in BehindFence(line) :: c != '`')
  }

  function OpeningInCommonMark(line: string): Option<Fence> {
    if OpensInCommonMark(line) then FenceAt(line) else None
  }

  /** And a closing fence may be followed by spaces and tabs only. */
  predicate ClosesInCommonMark(line: string, open: Fence) {
    var f := FenceAt(line);
    && f.Some? && f.value.mark == open.mark && f.value.length >= open.length
    && forall c | c in BehindFence(line) :: IsBlank(c)
  }

  /** The same scan, with the fences that CommonMark opens and closes. */
  function AfterInCommonMark(lines: seq<string>, i: nat): Scan
    requires i <= |lines|
  {
    if i == 0 then START
    else
      var s, line := AfterInCommonMark(lines, i - 1), lines[i - 1];
      NextBy(s, line, OpeningInCommonMark(line), s.fence.Some? && ClosesInCommonMark(line, s.fence.value))
  }

  /** The fence open before line i. */
  function FenceInCommonMark(lines: seq<string>, i: nat): Option<Fence>
    requires i <= |lines|
  {
    AfterInCommonMark(lines, i).fence
  }

  predicate IsCodeInCommonMark(lines: seq<string>, i: nat)
    requires i < |lines|
  {
    CodeBy(AfterInCommonMark(lines, i), lines[i], OpeningInCommonMark(lines[i]))
  }

  /** A backtick fence with another backtick behind. */
  predicate TwiceTicked(line: string) {
    var f := FenceAt(line);
    f.Some? && f.value.mark == '`' && '`' in BehindFence(line)
  }

  /** The line closes the fence, and what is behind it is whitespace, but not all spaces and tabs. */
  predicate WideBlankCloses(line: string, open: Fence) {
    Closes(line, open) && exists c | c in BehindFence(line) :: !IsBlank(c)
  }

  /** No fence is open before line i, and it is a backtick fence with another backtick behind; or
      line i closes the open fence, with whitespace behind that is not all spaces and tabs. */
  predicate Departs(lines: seq<string>, i: nat)
    requires i < |lines|
  {
    match FenceBefore(lines, i)
    case None => TwiceTicked(lines[i])
    case Some(open) => WideBlankCloses(lines[i], open)
  }

  lemma {:induction false} RstripAll(s: string)
    ensures (forall c | c in s :: IsSpace(c)) <==> Rstrip(s) == ""
    ensures Rstrip(s) != "" ==> !IsSpace(Rstrip(s)[|Rstrip(s)| - 1])
  {
    if s != "" {
      var n := |s| - 1;
      assert s == s[..n] + [s[n]];
      if IsSpace(s[n]) { RstripAll(s[..n]); }
    }
  }

  lemma {:induction false} LstripKeepsEnd(s: string)
    requires s != "" && !IsSpace(s[|s| - 1])
    ensures Lstrip(s) != ""
  {
    if |s| > 1 && IsSpace(s[0]) { LstripKeepsEnd(s[1..]); }
  }

  /** Spaces and tabs are whitespace, so what closes a fence in CommonMark closes it here. */
  lemma {:induction false} ClosesMore(line: string, open: Fence)
    ensures ClosesInCommonMark(line, open) <==> Closes(line, open) && !WideBlankCloses(line, open)
  {
    if FenceAt(line).Some? {
      var rest := BehindFence(line);
      RstripAll(rest);
      if Rstrip(rest) != "" { LstripKeepsEnd(Rstrip(rest)); }
    }
  }

  lemma {:induction false} ScansStepTogether(lines: seq<string>, i: nat)
    requires i < |lines| && After(lines, i) == AfterInCommonMark(lines, i) && !Departs(lines, i)
    ensures After(lines, i + 1) == AfterInCommonMark(lines, i + 1)
  {
    AfterFence(lines, i);
    var open := FenceBefore(lines, i);
    if open.Some? { ClosesMore(lines[i], open.value); }
  }

  /** As long as no line departs, the scans agree. */
  lemma {:induction false} ScansAgree(lines: seq<string>, i: nat)
    requires i <= |lines| && forall k | 0 <= k < i :: !Departs(lines, k)
    ensures After(lines, i) == AfterInCommonMark(lines, i)
  {
    if i > 0 {
      ScansAgree(lines, i - 1);
      assert !Departs(lines, i - 1);
      ScansStepTogether(lines, i - 1);
    }
  }

  lemma {:induction false} FirstDeparture(lines: seq<string>, i: nat) returns (k: nat)
    requires i < |lines| && Departs(lines, i)
    ensures k <= i && Departs(lines, k) && forall j | 0 <= j < k :: !Departs(lines, j)
  {
    k := i;
    if j: nat :| j < i && Departs(lines, j) {
      k := FirstDeparture(lines, j);
    }
  }

  /** Behind the first departure just one of the scans has a fence open. */
  lemma {:induction false} DepartureParts(lines: seq<string>, k: nat)
    requires k < |lines| && Departs(lines, k) && forall j | 0 <= j < k :: !Departs(lines, j)
    ensures FenceBefore(lines, k + 1).Some? <==> FenceInCommonMark(lines, k + 1).None?
  {
    ScansAgree(lines, k);
    AfterFence(lines, k);
    var open := FenceBefore(lines, k);
    if open.Some? { ClosesMore(lines[k], open.value); }
  }

  /** The fences are those of CommonMark before every line exactly when no line with no fence open
      is a backtick fence with a backtick behind, and no line closes a fence with other whitespace
      behind than spaces and tabs. */
  lemma {:induction false} FencesAgreeExactly(lines: seq<string>)
    ensures (forall i | 0 <= i <= |lines| :: FenceBefore(lines, i) == FenceInCommonMark(lines, i))
      <==> forall i | 0 <= i < |lines| :: !Departs(lines, i)
  {
    if i: nat :| i < |lines| && Departs(lines, i) {
      var k := FirstDeparture(lines, i);
      DepartureParts(lines, k);
      assert FenceBefore(lines, k + 1) != FenceInCommonMark(lines, k + 1);
    } else {
      forall i | 0 <= i <= |lines| ensures FenceBefore(lines, i) == FenceInCommonMark(lines, i) {
        ScansAgree(lines, i);
        AfterFence(lines, i);
      }
    }
  }

  /** The flags of line i differ: neither scan has a fence open and only one opens one, or just one has
      a fence open and the line opens none for the other. */
  predicate FlagsPart(lines: seq<string>, i: nat)
    requires i < |lines|
  {
    match (FenceBefore(lines, i), FenceInCommonMark(lines, i))
    case (None, None) => TwiceTicked(lines[i])
    case (None, Some(_)) => FenceAt(lines[i]).None?
    case (Some(_), None) => !OpensInCommonMark(lines[i])
    case (Some(_), Some(_)) => false
  }

  /** What the scan remembers inside a fence and right behind it. */
  predicate InFences(s: Scan) {
    s.prevIndented == Some(false) && !s.prevBlank
  }

  /** A fence is at most three columns in. */
  lemma {:induction false} FewColumns(line: string, n: nat)
    requires n == Spaces(line) && n < |line| && !IsBlank(line[n])
    ensures Blanks(line) == n && Columns(line[..n]) == n
  {
    if n > 0 {
      FewColumns(line[1..], n - 1);
      assert line[..n][1..] == line[1..][..n - 1];
    }
  }

  lemma {:induction false} FencesAreNotIndented(line: string)
    requires FenceAt(line).Some?
    ensures !Indented(line)
  {
    var n := Spaces(line);
    assert line[n..][0] == line[n];
    FewColumns(line, n);
  }

  /** As long as the flags agree, the scans agree but for the open fence, and where that differs they
      are both inside fences or right behind them. */
  predicate Alike(s: Scan, t: Scan) {
    s == t || (InFences(s) && InFences(t))
  }

  lemma {:induction false} FlagsAgreeHere(lines: seq<string>, i: nat)
    requires i < |lines| && Alike(After(lines, i), AfterInCommonMark(lines, i))
    ensures (IsCode(lines, i) <==> IsCodeInCommonMark(lines, i)) <==> !FlagsPart(lines, i)
  {
    AfterFence(lines, i);
    if FenceAt(lines[i]).Some? { FencesAreNotIndented(lines[i]); }
  }

  lemma {:induction false} ScansStayAlike(lines: seq<string>, i: nat)
    requires i < |lines| && Alike(After(lines, i), AfterInCommonMark(lines, i)) && !FlagsPart(lines, i)
    ensures Alike(After(lines, i + 1), AfterInCommonMark(lines, i + 1))
  {
    AfterFence(lines, i);
  }

  lemma {:induction false} ScansAlike(lines: seq<string>, i: nat)
    requires i <= |lines| && forall k | 0 <= k < i :: !FlagsPart(lines, k)
    ensures Alike(After(lines, i), AfterInCommonMark(lines, i))
  {
    if i > 0 {
      ScansAlike(lines, i - 1);
      ScansStayAlike(lines, i - 1);
    }
  }

  lemma {:induction false} FirstParting(lines: seq<string>, i: nat) returns (k: nat)
    requires i < |lines| && FlagsPart(lines, i)
    ensures k <= i && FlagsPart(lines, k) && forall j | 0 <= j < k :: !FlagsPart(lines, j)
  {
    k := i;
    if j: nat :| j < i && FlagsPart(lines, j) {
      k := FirstParting(lines, j);
    }
  }

  /** The flagged lines are those that are code with the fences of CommonMark, exactly when no line
      with no fence open is a backtick fence with a backtick behind, and every line where just one of
      the scans has a fence open opens one for the other. */
  lemma {:induction false} CodeAgreesExactly(lines: seq<string>)
    ensures (forall i | 0 <= i < |lines| :: IsCode(lines, i) <==> IsCodeInCommonMark(lines, i))
      <==> forall i | 0 <= i < |lines| :: !FlagsPart(lines, i)
  {
    if i: nat :| i < |lines| && FlagsPart(lines, i) {
      var k := FirstParting(lines, i);
      ScansAlike(lines, k);
      FlagsAgreeHere(lines, k);
    } else {
      forall i | 0 <= i < |lines| ensures IsCode(lines, i) <==> IsCodeInCommonMark(lines, i) {
        ScansAlike(lines, i);
        FlagsAgreeHere(lines, i);
      }
    }
  }

  /** So without a departure all flags are right. */
  lemma {:induction false} CodeAgreesWithoutDeparture(lines: seq<string>)
    requires forall i | 0 <= i < |lines| :: !Departs(lines, i)
    ensures forall i | 0 <= i < |lines| :: IsCode(lines, i) <==> IsCodeInCommonMark(lines, i)
  {
    FencesAgreeExactly(lines);
    forall i | 0 <= i < |lines| ensures !FlagsPart(lines, i) {
      assert FenceBefore(lines, i) == FenceInCommonMark(lines, i) && !Departs(lines, i);
    }
    CodeAgreesExactly(lines);
  }

  /** Inline code in three backticks opens a fence. */
  lemma {:induction false} InlineCodeOpensFence()
    ensures FenceAt("```x```") == Some(Fence('`', 3)) && Departs(["```x```"], 0)
  {
    var line := "```x```";
    assert Spaces(line) == 0;
    assert line[0..] == line;
    assert line[3] == 'x';
    assert Run(line, '`') == 3;
    assert BehindFence(line) == "x```";
    assert "x```"[1] == '`' && '`' in "x```";
  }

  lemma {:induction false} TicksThen(rest: string)
    requires rest == "" || rest[0] != '`'
    ensures FenceAt("```" + rest) == Some(Fence('`', 3)) && BehindFence("```" + rest) == rest
  {
    var line := "```" + rest;
    assert Spaces(line) == 0 && line[0..] == line;
    assert line[1..] == "``" + rest && line[2..] == "`" + rest && line[3..] == rest;
    assert Run(rest, '`') == 0 && Run(line[2..], '`') == 1 && Run(line[1..], '`') == 2 && Run(line, '`') == 3;
  }

  lemma {:induction false} NoBreakSpaceIsWide()
    ensures FenceAt("```") == Some(Fence('`', 3)) && OpensInCommonMark("```")
    ensures WideBlankCloses("```\U{A0}", Fence('`', 3))
  {
    TicksThen("");
    TicksThen("\U{A0}");
    assert "```" + "" == "```" && "```" + "\U{A0}" == "```\U{A0}";
    assert "\U{A0}"[0] in "\U{A0}" && !IsBlank('\U{A0}') && IsSpace('\U{A0}');
    assert Rstrip("\U{A0}") == "" by { assert "\U{A0}"[..0] == ""; }
  }

  lemma {:induction false} FirstLineOpens(lines: seq<string>)
    requires |lines| > 0 && FenceAt(lines[0]).Some? && OpensInCommonMark(lines[0])
    ensures FenceBefore(lines, 1) == FenceAt(lines[0]) && After(lines, 1) == AfterInCommonMark(lines, 1)
  {
    assert FenceBefore(lines, 0) == None;
    AfterFence(lines, 0);
    AfterFence(lines, 1);
  }

  /** Such a line behind an opening fence: here the fence is closed, in CommonMark it stays open, and the
      next line is code there only, unless it opens a fence itself. */
  lemma {:induction false} WideBlankParts(lines: seq<string>)
    requires |lines| > 2 && FenceAt(lines[0]).Some? && OpensInCommonMark(lines[0])
    requires WideBlankCloses(lines[1], FenceAt(lines[0]).value) && FenceAt(lines[2]).None?
    ensures Departs(lines, 1) && FenceBefore(lines, 2) == None && FenceInCommonMark(lines, 2) == FenceAt(lines[0])
    ensures !IsCode(lines, 2) && IsCodeInCommonMark(lines, 2)
  {
    FirstLineOpens(lines);
    ClosesMore(lines[1], FenceAt(lines[0]).value);
    AfterFence(lines, 1);
    AfterFence(lines, 2);
  }

  /** A closing fence with a no-break space behind is such a line. */
  lemma {:induction false} NoBreakSpaceCloses(next: string)
    requires FenceAt(next).None?
    ensures var lines := ["```", "```\U{A0}", next];
      && Departs(lines, 1) && FenceBefore(lines, 2) == None && FenceInCommonMark(lines, 2) == Some(Fence('`', 3))
      && !IsCode(lines, 2) && IsCodeInCommonMark(lines, 2)
  {
    NoBreakSpaceIsWide();
    WideBlankParts(["```", "```\U{A0}", next]);
  }

  lemma {:induction false} FirstLineKeepsFlags(lines: seq<string>)
    requires |lines| > 0 && FenceAt(lines[0]).Some? && OpensInCommonMark(lines[0])
    ensures !FlagsPart(lines, 0)
  {
    assert FenceBefore(lines, 0) == None && FenceInCommonMark(lines, 0) == None;
  }

  lemma {:induction false} SecondLineKeepsFlags(lines: seq<string>)
    requires |lines| > 1 && FenceAt(lines[0]).Some? && OpensInCommonMark(lines[0])
    requires WideBlankCloses(lines[1], FenceAt(lines[0]).value)
    ensures Departs(lines, 1) && !FlagsPart(lines, 1)
  {
    FirstLineOpens(lines);
    AfterFence(lines, 1);
  }

  /** A departure need not show in the flags: behind the last line there is nothing to flag. */
  lemma {:induction false} LastLineHidesDeparture(lines: seq<string>)
    requires |lines| == 2 && FenceAt(lines[0]).Some? && OpensInCommonMark(lines[0])
    requires WideBlankCloses(lines[1], FenceAt(lines[0]).value)
    ensures Departs(lines, 1) && forall i | 0 <= i < |lines| :: IsCode(lines, i) <==> IsCodeInCommonMark(lines, i)
  {
    FirstLineKeepsFlags(lines);
    SecondLineKeepsFlags(lines);
    forall i | 0 <= i < |lines| ensures !FlagsPart(lines, i) {
      assert i == 0 || i == 1;
    }
    CodeAgreesExactly(lines);
  }

  // ----- headings and sections -----

  datatype Heading = Heading(level: nat, content: string)

  /** An ATX heading: at most three spaces, one to six `#`, blanks, and the content. */
  function HeadingAt(line: string): Option<Heading> {
    var n := Spaces(line);
    var s := line[n..];
    var level := Run(s, '#');
    if n > 3 || level < 1 || level > 6 || level == |s| || !IsBlank(s[level]) then None
    else Some(Heading(level, DropWhile(s[level..], IsBlank)))
  }

  predicate EndsSection(line: string, level: nat) {
    HeadingAt(line).Some? && HeadingAt(line).value.level <= level
  }

  function FirstWord(s: string): string {
    if s == "" || IsSpace(s[0]) then "" else [s[0]] + FirstWord(s[1..])
  }

  /** Type inference from ids. */
  type Infer = string -> Option<string>

  /** The artifact id a heading carries, if it carries one. */
  function ArtifactId(infer: Infer, line: string): Option<string> {
    var h := HeadingAt(line);
    if h.None? then None
    else
      var content := Strip(h.value.content);
      var token := FirstWord(content);
      if content == "" || token == "" || !AllIdChars(token) || infer(token).None? then None else Some(token)
  }

  /** Lines with their code flags. */
  datatype Flagged = Flagged(lines: seq<string>, code: seq<bool>)

  type Document = d: Flagged | |d.code| == |d.lines| witness Flagged([], [])

  function DocumentOf(lines: seq<string>): Document {
    Flagged(lines, CodeFlags(lines))
  }

  /** Line k ends the section that starts with a heading of the level. */
  predicate StopsAt(doc: Document, k: nat, level: nat)
    requires k < |doc.lines|
  {
    !doc.code[k] && EndsSection(doc.lines[k], level)
  }

  /** Where the section of the heading on line i ends. */
  function SectionEnd(doc: Document, i: nat, level: nat): (end: nat)
    requires i < |doc.lines|
    ensures i < end <= |doc.lines|
    decreases |doc.lines| - i
  {
    if i + 1 == |doc.lines| || StopsAt(doc, i + 1, level) then i + 1 else SectionEnd(doc, i + 1, level)
  }

  /** A section ends at a line that stops it, or at the end of the text. */
  lemma {:induction false} SectionEndStops(doc: Document, i: nat, level: nat)
    requires i < |doc.lines| && SectionEnd(doc, i, level) < |doc.lines|
    ensures StopsAt(doc, SectionEnd(doc, i, level), level)
    decreases |doc.lines| - i
  {
    if !StopsAt(doc, i + 1, level) {
      SectionEndStops(doc, i + 1, level);
    }
  }

  /** No line before stops it. */
  lemma {:induction false} NothingStopsBefore(doc: Document, i: nat, level: nat, k: nat)
    requires i < |doc.lines| && i < k < SectionEnd(doc, i, level)
    ensures !StopsAt(doc, k, level)
    decreases |doc.lines| - i
  {
    if k > i + 1 {
      NothingStopsBefore(doc, i + 1, level, k);
    }
  }

  /** An artifact heading on a line, and the end of its body. */
  datatype Block = Block(id: string, nodeType: string, level: nat, line: nat, end: nat)

  predicate IsArtifactHeading(infer: Infer, doc: Document, i: nat)
    requires i < |doc.lines|
  {
    !doc.code[i] && ArtifactId(infer, doc.lines[i]).Some?
  }

  function BlockAt(infer: Infer, doc: Document, i: nat): Block
    requires i < |doc.lines| && IsArtifactHeading(infer, doc, i)
  {
    var h := HeadingAt(doc.lines[i]).value;
    var id := ArtifactId(infer, doc.lines[i]).value;
    Block(id, infer(id).value, h.level, i, SectionEnd(doc, i, h.level))
  }

  /** The block that line i starts, if it starts one. */
  function StartedAt(infer: Infer, doc: Document, i: nat): seq<Block>
    requires i < |doc.lines|
  {
    if IsArtifactHeading(infer, doc, i) then [BlockAt(infer, doc, i)] else []
  }

  /** The blocks each line starts. */
  function Started(infer: Infer, doc: Document): (r: seq<seq<Block>>)
    ensures |r| == |doc.lines|
  {
    seq(|doc.lines|, i requires 0 <= i < |doc.lines| => StartedAt(infer, doc, i))
  }

  function Flatten(parts: seq<seq<Block>>, i: nat): seq<Block>
    requires i <= |parts|
  {
    if i == 0 then [] else Flatten(parts, i - 1) + parts[i - 1]
  }

  /** The blocks of a document, in line order. */
  function BlocksOf(infer: Infer, doc: Document): seq<Block> {
    Flatten(Started(infer, doc), |doc.lines|)
  }

  method FindEnd(doc: Document, i: nat, level: nat) returns (end: nat)
    requires i < |doc.lines|
    ensures end == SectionEnd(doc, i, level)
  {
    end := i + 1;
    while end < |doc.lines| && (doc.code[end] || !EndsSection(doc.lines[end], level))
      invariant i < end <= |doc.lines|
      invariant SectionEnd(doc, i, level) == SectionEnd(doc, end - 1, level)
      decreases |doc.lines| - end
    {
      end := end + 1;
    }
  }

  method HeadingBlock(infer: Infer, doc: Document, i: nat) returns (started: seq<Block>)
    requires i < |doc.lines|
    ensures started == Started(infer, doc)[i]
  {
    started := [];
    if !doc.code[i] {
      var id := ArtifactId(infer, doc.lines[i]);
      if id.Some? {
        var level := HeadingAt(doc.lines[i]).value.level;
        var end := FindEnd(doc, i, level);
        var nodeType := infer(id.value);
        started := [Block(id.value, nodeType.value, level, i, end)];
      }
    }
  }

  /** The heading blocks of a text. */
  method ExtractHeadings(infer: Infer, lines: seq<string>) returns (blocks: seq<Block>)
    ensures blocks == BlocksOf(infer, DocumentOf(lines))
  {
    var flags := CodeLineFlags(lines);
    var doc := Flagged(lines, flags);
    ghost var parts := Started(infer, doc);
    blocks := [];
    for i := 0 to |lines|
      invariant blocks == Flatten(parts, i)
    {
      var started := HeadingBlock(infer, doc, i);
      blocks := blocks + started;
    }
  }

  /** The block of some artifact heading. */
  predicate IsBlock(infer: Infer, doc: Document, b: Block) {
    b.line < |doc.lines| && IsArtifactHeading(infer, doc, b.line) && b == BlockAt(infer, doc, b.line)
  }

  lemma {:induction false} StartedIsBlock(infer: Infer, doc: Document, i: nat, b: Block)
    requires i < |doc.lines| && b in StartedAt(infer, doc, i)
    ensures b.line == i && IsBlock(infer, doc, b)
  {}

  lemma {:induction false} InConcat(x: seq<Block>, y: seq<Block>, b: Block)
    ensures b in x + y <==> b in x || b in y
  {}

  lemma {:induction false} FlattenMembers(parts: seq<seq<Block>>, i: nat, b: Block)
    requires i <= |parts|
    ensures b in Flatten(parts, i) <==> exists k | 0 <= k < i :: b in parts[k]
  {
    if i > 0 {
      FlattenMembers(parts, i - 1, b);
      InConcat(Flatten(parts, i - 1), parts[i - 1], b);
    }
  }

  lemma {:induction false} BlocksAreHeadings(infer: Infer, doc: Document, b: Block)
    requires b in BlocksOf(infer, doc)
    ensures IsBlock(infer, doc, b)
  {
    var parts := Started(infer, doc);
    FlattenMembers(parts, |parts|, b);
    var k :| 0 <= k < |parts| && b in parts[k];
    StartedIsBlock(infer, doc, k, b);
  }

  /** The lines of the block are the section of the heading on its first line. */
  predicate IsSection(doc: Document, b: Block) {
    && b.line < |doc.lines| && !doc.code[b.line]
    && EndsSection(doc.lines[b.line], b.level) && HeadingAt(doc.lines[b.line]).value.level == b.level
    && b.end == SectionEnd(doc, b.line, b.level)
  }

  lemma {:induction false} BlockIsSection(infer: Infer, doc: Document, b: Block)
    requires IsBlock(infer, doc, b)
    ensures IsSection(doc, b)
  {}

  lemma {:induction false} SameLineSameBlock(infer: Infer, doc: Document, a: Block, b: Block)
    requires IsBlock(infer, doc, a) && IsBlock(infer, doc, b)
    ensures a.line == b.line ==> a == b
  {}

  /** Every artifact heading outside code has its block. */
  lemma {:induction false} HeadingsAreBlocks(infer: Infer, doc: Document, k: nat)
    requires k < |doc.lines| && IsArtifactHeading(infer, doc, k)
    ensures BlockAt(infer, doc, k) in BlocksOf(infer, doc)
  {
    var parts, b := Started(infer, doc), BlockAt(infer, doc, k);
    FlattenMembers(parts, |parts|, b);
    assert b in parts[k];
  }

  /** When the second of two sections starts inside the first, its heading is deeper and it ends
      inside the first too. */
  lemma {:induction false} SectionsNest(doc: Document, a: Block, b: Block)
    requires IsSection(doc, a) && IsSection(doc, b) && a.line < b.line < a.end
    ensures b.level > a.level && b.end <= a.end
  {
    NothingStopsBefore(doc, a.line, a.level, b.line);
    if a.end < b.end {
      SectionEndStops(doc, a.line, a.level);
      NothingStopsBefore(doc, b.line, b.level, a.end);
    }
  }

  lemma {:induction false} SectionsNestOrAreDisjoint(doc: Document, a: Block, b: Block)
    requires IsSection(doc, a) && IsSection(doc, b) && a.line != b.line
    ensures || a.end <= b.line || b.end <= a.line
            || (a.line < b.line && b.end <= a.end && a.level < b.level)
            || (b.line < a.line && a.end <= b.end && b.level < a.level)
  {
    if a.line < b.line < a.end {
      SectionsNest(doc, a, b);
    } else if b.line < a.line < b.end {
      SectionsNest(doc, b, a);
    }
  }

  /** The bodies of any two blocks of a document are disjoint or one is inside the other, and the
      inner one has the deeper heading; no body ends at a heading inside code. */
  lemma {:induction false} BodiesNestOrAreDisjoint(infer: Infer, doc: Document, a: Block, b: Block)
    requires a in BlocksOf(infer, doc) && b in BlocksOf(infer, doc) && a != b
    ensures || a.end <= b.line || b.end <= a.line
            || (a.line < b.line && b.end <= a.end && a.level < b.level)
            || (b.line < a.line && a.end <= b.end && b.level < a.level)
    ensures a.end <= |doc.lines| && (a.end < |doc.lines| ==> StopsAt(doc, a.end, a.level))
  {
    BlocksAreHeadings(infer, doc, a);
    BlocksAreHeadings(infer, doc, b);
    SameLineSameBlock(infer, doc, a, b);
    BlockIsSection(infer, doc, a);
    BlockIsSection(infer, doc, b);
    SectionsNestOrAreDisjoint(doc, a, b);
    if a.end < |doc.lines| {
      SectionEndStops(doc, a.line, a.level);
    }
  }
}
