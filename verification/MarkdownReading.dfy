/** What the markdown scan reads off a text, said over its characters and lines. */
module MarkdownReading {
  import opened Models
  import opened Grammar
  import opened Markdown

  /** s[from..to] is all c, and c does not go on behind it. */
  ghost predicate IsRun(s: string, c: char, from: nat, to: nat) {
    from <= to <= |s| && (forall i | from <= i < to :: s[i] == c) && (to < |s| ==> s[to] != c)
  }

  lemma {:induction false} RunExactly(s: string, c: char, n: nat)
    ensures Run(s, c) == n <==> IsRun(s, c, 0, n)
  {
    if s != "" && s[0] == c {
      if n > 0 {
        RunExactly(s[1..], c, n - 1);
        RunShift(s, c, n);
      }
    }
  }

  lemma {:induction false} RunShift(s: string, c: char, n: nat)
    requires s != "" && s[0] == c && n > 0
    ensures IsRun(s, c, 0, n) <==> IsRun(s[1..], c, 0, n - 1)
  {
    if IsRun(s[1..], c, 0, n - 1) {
      forall i | 0 <= i < n ensures s[i] == c {
        assert i > 0 ==> s[i] == s[1..][i - 1];
      }
      assert n < |s| ==> s[n] == s[1..][n - 1];
    }
    if IsRun(s, c, 0, n) {
      forall i | 0 <= i < n - 1 ensures s[1..][i] == c {
        assert s[1..][i] == s[i + 1];
      }
    }
  }

  lemma {:induction false} SpacesIsRun(s: string)
    ensures Spaces(s) == Run(s, ' ')
  {
    if s != "" && s[0] == ' ' { SpacesIsRun(s[1..]); }
  }

  lemma {:induction false} RunBehind(s: string, c: char, from: nat, n: nat)
    requires from <= |s|
    ensures Run(s[from..], c) == n <==> IsRun(s, c, from, from + n)
  {
    RunExactly(s[from..], c, n);
    if IsRun(s, c, from, from + n) {
      assert forall i | 0 <= i < n :: s[from..][i] == s[from + i];
    }
    if IsRun(s[from..], c, 0, n) {
      forall i | from <= i < from + n ensures s[i] == c {
        assert s[i] == s[from..][i - from];
      }
    }
  }

  /** The line has a fence of the mark and the length at the position, at most three spaces in. */
  ghost predicate IsFence(line: string, mark: char, length: nat, from: nat) {
    && (mark == '`' || mark == '~')
    && from <= 3 && IsRun(line, ' ', 0, from)
    && length >= 3 && IsRun(line, mark, from, from + length)
  }

  /** Where the fence of a line lies. */
  lemma {:induction false} FenceLies(line: string)
    requires FenceAt(line).Some?
    ensures var f := FenceAt(line).value;
            IsFence(line, f.mark, f.length, Spaces(line)) && BehindFence(line) == line[Spaces(line) + f.length..]
  {
    var n := Spaces(line);
    SpacesIsRun(line);
    RunExactly(line, ' ', n);
    RunBehind(line, line[n], n, Run(line[n..], line[n]));
  }

  lemma {:induction false} FenceIsThere(line: string, mark: char, length: nat, from: nat)
    requires IsFence(line, mark, length, from)
    ensures FenceAt(line) == Some(Fence(mark, length)) && Spaces(line) == from
  {
    assert line[from] == mark;
    SpacesIsRun(line);
    RunExactly(line, ' ', from);
    RunBehind(line, mark, from, length);
    assert line[from..][0] == mark;
  }

  /** The fence of a line. */
  lemma {:induction false} FenceExactly(line: string, mark: char, length: nat)
    ensures FenceAt(line) == Some(Fence(mark, length)) <==> exists from: nat :: IsFence(line, mark, length, from)
  {
    if FenceAt(line).Some? { FenceLies(line); }
    if from: nat :| IsFence(line, mark, length, from) { FenceIsThere(line, mark, length, from); }
  }

  /** The line has a fence of the mark, at least as long, and only whitespace behind it. */
  ghost predicate IsClosing(line: string, open: Fence, length: nat, from: nat) {
    IsFence(line, open.mark, length, from) && length >= open.length && AllSpace(line[from + length..])
  }

  /** Such a line closes the open fence, and no other does. */
  lemma {:induction false} ClosesExactly(line: string, open: Fence)
    ensures Markdown.Closes(line, open) <==> exists length: nat, from: nat :: IsClosing(line, open, length, from)
  {
    if Markdown.Closes(line, open) {
      FenceLies(line);
      StripEmptyExactly(BehindFence(line));
      assert IsClosing(line, open, FenceAt(line).value.length, Spaces(line));
    }
    if length: nat, from: nat :| IsClosing(line, open, length, from) {
      FenceIsThere(line, open.mark, length, from);
      StripEmptyExactly(BehindFence(line));
    }
  }

  lemma {:induction false} StripEmptyExactly(s: string)
    ensures Strip(s) == "" <==> AllSpace(s)
  {
    var a, b := StripParts(s);
    if Strip(s) == "" {
      assert s == a + b;
    } else {
      assert s[|a|] == Strip(s)[0];
    }
  }

  // ----- indented lines -----

  lemma {:induction false} BlanksLead(line: string)
    ensures forall i | 0 <= i < Blanks(line) :: IsBlank(line[i])
    ensures Blanks(line) < |line| ==> !IsBlank(line[Blanks(line)])
  {
    if line != "" && IsBlank(line[0]) { BlanksLead(line[1..]); }
  }

  lemma {:induction false} BlanksReach(line: string, n: nat)
    requires n <= |line| && forall i | 0 <= i < n :: IsBlank(line[i])
    ensures n <= Blanks(line)
  {
    if n > 0 { BlanksReach(line[1..], n - 1); }
  }

  lemma {:induction false} ColumnsReach(indent: string)
    ensures Columns(indent) >= |indent|
    ensures '\t' in indent ==> Columns(indent) >= 4
    ensures '\t' !in indent ==> Columns(indent) == |indent|
  {
    if indent != "" { ColumnsReach(indent[1..]); }
  }

  /** A line is indented when its leading blanks are four or more, or one of them is a tab. */
  lemma {:induction false} IndentedExactly(line: string)
    ensures Indented(line) <==>
      exists n: nat :: n <= |line| && (forall i | 0 <= i < n :: line[i] == ' ' || line[i] == '\t') && (n >= 4 || '\t' in line[..n])
  {
    var k := Blanks(line);
    BlanksLead(line);
    ColumnsReach(line[..k]);
    if n: nat :| n <= |line| && (forall i | 0 <= i < n :: line[i] == ' ' || line[i] == '\t') && (n >= 4 || '\t' in line[..n]) {
      BlanksReach(line, n);
      assert line[..n] == line[..k][..n];
    }
    if Indented(line) {
      assert forall i | 0 <= i < k :: line[i] == ' ' || line[i] == '\t';
    }
  }

  // ----- code lines -----

  /** Line i opens a fence, or a fence is open there. */
  ghost predicate InFence(lines: seq<string>, i: nat)
    requires i < |lines|
  {
    FenceAt(lines[i]).Some? || exists j: nat :: j < i && OpenFrom(lines, j, i)
  }

  /** Line i is not just whitespace, or a fence has it. */
  ghost predicate HasText(lines: seq<string>, i: nat)
    requires i < |lines|
  {
    !AllSpace(lines[i]) || InFence(lines, i)
  }

  /** A line is code when it belongs to a fence, or is indented, not just whitespace, and does not go
      on from a line of prose or from a fence. */
  lemma {:induction false} CodeExactly(lines: seq<string>, i: nat)
    requires i < |lines|
    ensures CodeFlags(lines)[i] <==>
      || InFence(lines, i)
      || (!AllSpace(lines[i]) && Indented(lines[i])
          && (i == 0 || !HasText(lines, i - 1) || (!InFence(lines, i - 1) && Indented(lines[i - 1]))))
  {
    FenceIsOpenExactly(lines, i);
    AfterFence(lines, i);
    StripEmptyExactly(lines[i]);
    if i > 0 {
      FenceIsOpenExactly(lines, i - 1);
      AfterFence(lines, i - 1);
      StripEmptyExactly(lines[i - 1]);
    }
  }

  // ----- headings -----

  /** The line is a heading: at most three spaces, `#` up to a blank, blanks, and the content. */
  ghost predicate HeadingLies(line: string, level: nat, from: nat, at: nat) {
    && from <= 3 && IsRun(line, ' ', 0, from)
    && 1 <= level <= 6 && IsRun(line, '#', from, from + level)
    && from + level < at <= |line|
    && (forall i | from + level <= i < at :: line[i] == ' ' || line[i] == '\t')
    && (at < |line| ==> line[at] != ' ' && line[at] != '\t')
  }

  ghost predicate IsHeading(line: string, level: nat, content: string) {
    exists from: nat, at: nat :: HeadingLies(line, level, from, at) && content == line[at..]
  }

  /** Dropping blanks from position i on stops at the position where they end. */
  lemma {:induction false} BlanksEnd(line: string, i: nat, at: nat)
    requires i <= at <= |line|
    requires (forall k | i <= k < at :: IsBlank(line[k])) && (at < |line| ==> !IsBlank(line[at]))
    ensures DropWhile(line[i..], IsBlank) == line[at..]
    decreases at - i
  {
    if i < at {
      assert line[i..][1..] == line[i + 1..] && line[i..][0] == line[i];
      BlanksEnd(line, i + 1, at);
    } else if at < |line| {
      assert line[at..][0] == line[at];
    }
  }

  lemma {:induction false} BlanksUpTo(line: string, i: nat) returns (at: nat)
    requires i <= |line|
    ensures i <= at <= |line| && (forall k | i <= k < at :: IsBlank(line[k])) && (at < |line| ==> !IsBlank(line[at]))
    decreases |line| - i
  {
    at := i;
    if i < |line| && IsBlank(line[i]) { at := BlanksUpTo(line, i + 1); }
  }

  lemma {:induction false} LevelExactly(line: string, from: nat, level: nat)
    requires IsRun(line, ' ', 0, from)
    ensures Spaces(line) == from && (Run(line[from..], '#') == level <==> IsRun(line, '#', from, from + level))
  {
    SpacesIsRun(line);
    RunExactly(line, ' ', from);
    RunBehind(line, '#', from, level);
  }

  lemma {:induction false} Dropped(line: string, from: nat, level: nat)
    requires from + level < |line|
    ensures line[from..][level..] == line[from + level..] && line[from..][level] == line[from + level]
  {}

  lemma {:induction false} HeadingIsRead(line: string)
    requires HeadingAt(line).Some?
    ensures IsHeading(line, HeadingAt(line).value.level, HeadingAt(line).value.content)
  {
    var n := Spaces(line);
    var level := Run(line[n..], '#');
    SpacesIsRun(line);
    RunExactly(line, ' ', n);
    LevelExactly(line, n, level);
    Dropped(line, n, level);
    var at := BlanksUpTo(line, n + level);
    BlanksEnd(line, n + level, at);
    assert HeadingLies(line, level, n, at);
  }

  lemma {:induction false} LiesIsHeading(line: string, level: nat, from: nat, at: nat)
    requires HeadingLies(line, level, from, at)
    ensures HeadingAt(line) == Some(Markdown.Heading(level, line[at..]))
  {
    LevelExactly(line, from, level);
    Dropped(line, from, level);
    BlanksEnd(line, from + level, at);
  }

  lemma {:induction false} ReadIsHeading(line: string, level: nat, content: string)
    requires IsHeading(line, level, content)
    ensures HeadingAt(line) == Some(Markdown.Heading(level, content))
  {
    var from: nat, at: nat :| HeadingLies(line, level, from, at) && content == line[at..];
    LiesIsHeading(line, level, from, at);
  }

  /** The heading of a line. */
  lemma {:induction false} HeadingExactly(line: string, level: nat, content: string)
    ensures HeadingAt(line) == Some(Markdown.Heading(level, content)) <==> IsHeading(line, level, content)
  {
    if IsHeading(line, level, content) { ReadIsHeading(line, level, content); }
    if HeadingAt(line) == Some(Markdown.Heading(level, content)) { HeadingIsRead(line); }
  }

  /** The first word of the content is the id: it has id characters only, and a type. */
  ghost predicate Carries(infer: Infer, content: string, id: string) {
    && id != "" && infer(id).Some?
    && (forall c | c in id :: IsLetter(c) || IsDigit(c) || c == '.' || c == '_' || c == ':' || c == '/' || c == '-')
    && exists before: string, behind: string ::
         content == before + id + behind && AllSpace(before) && (behind != "" ==> IsSpace(behind[0]))
  }

  lemma {:induction false} FirstWordParts(s: string) returns (behind: string)
    ensures s == FirstWord(s) + behind && (behind != "" ==> IsSpace(behind[0]))
    ensures forall c | c in FirstWord(s) :: !IsSpace(c)
  {
    if s == "" || IsSpace(s[0]) {
      behind := s;
    } else {
      behind := FirstWordParts(s[1..]);
    }
  }

  lemma {:induction false} IdCharsHaveNoSpace(id: string)
    requires AllIdChars(id)
    ensures forall c | c in id :: !IsSpace(c)
  {}

  /** The first word of the text is what stands between whitespace. */
  lemma {:induction false} FirstWordIs(before: string, id: string, behind: string)
    requires AllSpace(before) && (behind != "" ==> IsSpace(behind[0])) && id != "" && forall c | c in id :: !IsSpace(c)
    ensures FirstWord(Lstrip(before + id + behind)) == id
  {
    var s := before + id + behind;
    if before == "" {
      assert s[0] == id[0];
      WordEnds(id, behind);
      assert s == id + behind;
    } else {
      assert s[0] == before[0] && s[1..] == before[1..] + id + behind;
      FirstWordIs(before[1..], id, behind);
    }
  }

  lemma {:induction false} WordEnds(id: string, behind: string)
    requires (behind != "" ==> IsSpace(behind[0])) && forall c | c in id :: !IsSpace(c)
    ensures FirstWord(id + behind) == id
  {
    if id == "" {
      assert id + behind == behind;
    } else {
      assert (id + behind)[1..] == id[1..] + behind;
      WordEnds(id[1..], behind);
    }
  }

  /** What is stripped behind the id is whitespace too. */
  lemma {:induction false} StrippedBehind(before: string, id: string, behind: string) returns (rest: string)
    requires AllSpace(before) && (behind != "" ==> IsSpace(behind[0])) && id != "" && forall c | c in id :: !IsSpace(c)
    ensures Rstrip(before + id + behind) == before + id + rest && (rest != "" ==> IsSpace(rest[0]))
  {
    var s := before + id + behind;
    if behind != "" && IsSpace(behind[|behind| - 1]) {
      var less := behind[..|behind| - 1];
      assert s[..|s| - 1] == before + id + less && s[|s| - 1] == behind[|behind| - 1];
      rest := StrippedBehind(before, id, less);
    } else {
      rest := behind;
      if behind == "" { assert s[|s| - 1] == id[|id| - 1]; } else { assert s[|s| - 1] == behind[|behind| - 1]; }
    }
  }

  /** The artifact id of a heading. */
  lemma {:induction false} ArtifactIdExactly(infer: Infer, line: string, id: string)
    ensures ArtifactId(infer, line) == Some(id) <==>
      exists level: nat, content: string :: IsHeading(line, level, content) && Carries(infer, content, id)
  {
    if HeadingAt(line).Some? {
      HeadingIsRead(line);
      ContentCarries(infer, line, HeadingAt(line).value.content, id);
    }
    if level: nat, content: string :| IsHeading(line, level, content) && Carries(infer, content, id) {
      ReadIsHeading(line, level, content);
    }
  }

  lemma {:induction false} ContentCarries(infer: Infer, line: string, content: string, id: string)
    requires HeadingAt(line).Some? && HeadingAt(line).value.content == content
    ensures ArtifactId(infer, line) == Some(id) <==> Carries(infer, content, id)
  {
    if ArtifactId(infer, line) == Some(id) { IdIsCarried(infer, line, content, id); }
    if Carries(infer, content, id) {
      WordOfContent(infer, content, id);
      assert ArtifactId(infer, line) == Some(id);
    }
  }

  lemma {:induction false} IdIsCarried(infer: Infer, line: string, content: string, id: string)
    requires HeadingAt(line).Some? && HeadingAt(line).value.content == content && ArtifactId(infer, line) == Some(id)
    ensures Carries(infer, content, id)
  {
    var a, b := StripParts(content);
    var behind := FirstWordParts(Strip(content));
    var rest := behind + b;
    assert content == a + id + rest;
    assert rest != "" ==> IsSpace(rest[0]) by {
      if behind == "" && b != "" { assert rest[0] == b[0] && b[0] in b; }
    }
    assert forall c | c in id :: IsIdChar(c);
  }

  lemma {:induction false} WordOfContent(infer: Infer, content: string, id: string)
    requires Carries(infer, content, id)
    ensures Strip(content) != "" && FirstWord(Strip(content)) == id && AllIdChars(id)
  {
    var before: string, behind: string :| content == before + id + behind && AllSpace(before) && (behind != "" ==> IsSpace(behind[0]));
    assert AllIdChars(id) by { forall c | c in id ensures IsIdChar(c) {} }
    IdCharsHaveNoSpace(id);
    var rest := StrippedBehind(before, id, behind);
    FirstWordIs(before, id, rest);
  }

  // ----- sections -----

  /** Line k is a heading outside code, of that level or a higher one. */
  ghost predicate IsStop(doc: Document, k: nat, level: nat) {
    k < |doc.lines| && !doc.code[k] && exists upper: nat, content: string :: upper <= level && IsHeading(doc.lines[k], upper, content)
  }

  lemma {:induction false} StopsExactly(doc: Document, k: nat, level: nat)
    requires k < |doc.lines|
    ensures StopsAt(doc, k, level) <==> IsStop(doc, k, level)
  {
    if HeadingAt(doc.lines[k]).Some? { HeadingIsRead(doc.lines[k]); }
    if upper: nat, content: string :| upper <= level && IsHeading(doc.lines[k], upper, content) {
      ReadIsHeading(doc.lines[k], upper, content);
    }
  }

  /** The section runs to the first such line behind its own, or to the end of the text. */
  ghost predicate RunsTo(doc: Document, i: nat, level: nat, end: nat) {
    && i < end <= |doc.lines|
    && (end < |doc.lines| ==> IsStop(doc, end, level))
    && forall k | i < k < end :: !IsStop(doc, k, level)
  }

  lemma {:induction false} SectionExactly(doc: Document, i: nat, level: nat, end: nat)
    requires i < |doc.lines|
    ensures SectionEnd(doc, i, level) == end <==> RunsTo(doc, i, level, end)
  {
    var e := SectionEnd(doc, i, level);
    if e < |doc.lines| {
      SectionEndStops(doc, i, level);
      StopsExactly(doc, e, level);
    }
    forall k | i < k < e ensures !IsStop(doc, k, level) {
      NothingStopsBefore(doc, i, level, k);
      StopsExactly(doc, k, level);
    }
  }

  /** The block belongs to a heading outside code that carries its id. */
  ghost predicate IsArtifact(infer: Infer, doc: Document, b: Block) {
    && b.line < |doc.lines| && !doc.code[b.line]
    && infer(b.id) == Some(b.nodeType)
    && (exists content: string :: IsHeading(doc.lines[b.line], b.level, content) && Carries(infer, content, b.id))
    && RunsTo(doc, b.line, b.level, b.end)
  }

  /** The blocks of a document are those of its artifact headings, in line order. */
  lemma {:induction false} BlocksExactly(infer: Infer, doc: Document, b: Block)
    ensures b in BlocksOf(infer, doc) <==> IsArtifact(infer, doc, b)
  {
    if b in BlocksOf(infer, doc) {
      BlocksAreHeadings(infer, doc, b);
      BlockIsArtifact(infer, doc, b);
    }
    if IsArtifact(infer, doc, b) {
      ArtifactIsBlock(infer, doc, b);
      HeadingsAreBlocks(infer, doc, b.line);
    }
  }

  lemma {:induction false} BlockIsArtifact(infer: Infer, doc: Document, b: Block)
    requires IsBlock(infer, doc, b)
    ensures IsArtifact(infer, doc, b)
  {
    var line := doc.lines[b.line];
    HeadingIsRead(line);
    ContentCarries(infer, line, HeadingAt(line).value.content, b.id);
    SectionExactly(doc, b.line, b.level, b.end);
  }

  lemma {:induction false} ArtifactIsBlock(infer: Infer, doc: Document, b: Block)
    requires IsArtifact(infer, doc, b)
    ensures IsBlock(infer, doc, b)
  {
    var line := doc.lines[b.line];
    var content: string :| IsHeading(line, b.level, content) && Carries(infer, content, b.id);
    ReadIsHeading(line, b.level, content);
    ContentCarries(infer, line, content, b.id);
    SectionExactly(doc, b.line, b.level, b.end);
  }

  ghost predicate InLineOrder(bs: seq<Block>) {
    forall i, j | 0 <= i < j < |bs| :: bs[i].line < bs[j].line
  }

  lemma {:induction false} AddedInOrder(bs: seq<Block>, more: seq<Block>, n: nat)
    requires InLineOrder(bs) && (forall b | b in bs :: b.line < n) && |more| <= 1 && forall b | b in more :: b.line == n
    ensures InLineOrder(bs + more) && forall b | b in bs + more :: b.line < n + 1
  {
    var all := bs + more;
    forall i, j | 0 <= i < j < |all| ensures all[i].line < all[j].line {
      assert all[i] == bs[i];
      assert j < |bs| || all[j] in more;
    }
  }

  /** Each part has at most one block, of its own line. */
  ghost predicate LineByLine(parts: seq<seq<Block>>) {
    forall i | 0 <= i < |parts| :: |parts[i]| <= 1 && forall b | b in parts[i] :: b.line == i
  }

  lemma {:induction false} FlattenInOrder(parts: seq<seq<Block>>, n: nat)
    requires n <= |parts| && LineByLine(parts)
    ensures (forall b | b in Flatten(parts, n) :: b.line < n) && InLineOrder(Flatten(parts, n))
  {
    if n > 0 {
      FlattenInOrder(parts, n - 1);
      AddedInOrder(Flatten(parts, n - 1), parts[n - 1], n - 1);
    }
  }

  /** They are in line order. */
  lemma {:induction false} BlocksInOrder(infer: Infer, doc: Document)
    ensures InLineOrder(BlocksOf(infer, doc))
  {
    var parts := Started(infer, doc);
    assert LineByLine(parts) by {
      forall i | 0 <= i < |parts| ensures |parts[i]| <= 1 && forall b: Block | b in parts[i] :: b.line == i {
        assert parts[i] == StartedAt(infer, doc, i);
      }
    }
    FlattenInOrder(parts, |doc.lines|);
  }
}
