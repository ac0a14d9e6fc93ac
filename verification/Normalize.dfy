/** The normal form of a text block, which semantic fingerprints are taken of. */
module Normalize {
  import opened Grammar

  // ----- line endings -----

  /** `\r\n` becomes `\n`. */
  function ReplaceCrLf(s: string): string
    decreases |s|
  {
    if s == "" then ""
    else if |s| > 1 && s[0] == '\r' && s[1] == '\n' then "\n" + ReplaceCrLf(s[2..])
    else [s[0]] + ReplaceCrLf(s[1..])
  }

  /** `\r` becomes `\n`. */
  function ReplaceCr(s: string): (r: string)
    ensures |r| == |s|
  {
    if s == "" then "" else [if s[0] == '\r' then '\n' else s[0]] + ReplaceCr(s[1..])
  }

  function ToLf(s: string): string {
    ReplaceCr(ReplaceCrLf(s))
  }

  function Split(s: string): (r: seq<string>)
    ensures r != []
  {
    if s == "" then [""]
    else
      var rest := Split(s[1..]);
      if s[0] == '\n' then [""] + rest else [[s[0]] + rest[0]] + rest[1..]
  }

  function Join(lines: seq<string>): string {
    if lines == [] then "" else if |lines| == 1 then lines[0] else lines[0] + ("\n" + Join(lines[1..]))
  }

  function RstripAll(lines: seq<string>): (r: seq<string>)
    ensures |r| == |lines|
    ensures forall i | 0 <= i < |r| :: r[i] == Rstrip(lines[i])
  {
    if lines == [] then [] else [Rstrip(lines[0])] + RstripAll(lines[1..])
  }

  function DropLeading(lines: seq<string>): seq<string> {
    if lines != [] && lines[0] == "" then DropLeading(lines[1..]) else lines
  }

  function DropTrailing(lines: seq<string>): seq<string> {
    if lines != [] && lines[|lines| - 1] == "" then DropTrailing(lines[..|lines| - 1]) else lines
  }

  /** What counts of a text: its lines without trailing whitespace, without outer blank lines. */
  function Content(text: string): seq<string> {
    DropTrailing(DropLeading(RstripAll(Split(ToLf(text)))))
  }

  function Normalized(text: string): string {
    Join(Content(text))
  }

  /** The normalizer's loops over the lines. */
  method NormalizeBlock(text: string) returns (r: string)
    ensures r == Normalized(text)
  {
    var lines := RstripAll(Split(ToLf(text)));
    ghost var all := lines;
    while lines != [] && lines[0] == ""
      invariant DropLeading(lines) == DropLeading(all)
      decreases |lines|
    {
      lines := lines[1..];
    }
    while lines != [] && lines[|lines| - 1] == ""
      invariant DropTrailing(lines) == DropTrailing(DropLeading(all))
      decreases |lines|
    {
      lines := lines[..|lines| - 1];
    }
    r := Join(lines);
  }

  // ----- the normal form is normal -----

  predicate NoBreaks(s: string) {
    forall c | c in s :: c != '\r' && c != '\n'
  }

  /** Lines as normalizing leaves them. */
  ghost predicate IsContent(lines: seq<string>) {
    && (forall l | l in lines :: NoBreaks(l) && Rstrip(l) == l)
    && (lines != [] ==> lines[0] != "" && lines[|lines| - 1] != "")
  }

  lemma {:induction false} CrLfTail(s: string)
    ensures forall c | c in ReplaceCr(s) :: c != '\r'
  {
    if s != "" {
      CrLfTail(s[1..]);
    }
  }

  lemma {:induction false} SplitLines(s: string)
    requires forall c | c in s :: c != '\r'
    ensures forall l | l in Split(s) :: NoBreaks(l)
  {
    if s != "" {
      assert s[0] in s;
      assert forall c | c in s[1..] :: c in s;
      SplitLines(s[1..]);
      var rest := Split(s[1..]);
      assert rest[0] in rest;
      assert forall l | l in rest[1..] :: l in rest;
    }
  }

  lemma {:induction false} BreaksOfPrefix(s: string, k: nat)
    requires k <= |s|
    ensures NoBreaks(s) ==> NoBreaks(s[..k])
  {
    forall c | c in s[..k] ensures c in s {}
  }

  lemma {:induction false} RstripKeeps(s: string)
    ensures Rstrip(Rstrip(s)) == Rstrip(s)
    ensures NoBreaks(s) ==> NoBreaks(Rstrip(s))
  {
    if s != "" && IsSpace(s[|s| - 1]) {
      RstripKeeps(s[..|s| - 1]);
      BreaksOfPrefix(s, |s| - 1);
    }
  }

  lemma {:induction false} LeadingGone(lines: seq<string>)
    ensures forall l | l in DropLeading(lines) :: l in lines
    ensures DropLeading(lines) != [] ==> DropLeading(lines)[0] != ""
  {
    if lines != [] && lines[0] == "" {
      LeadingGone(lines[1..]);
    }
  }

  lemma {:induction false} TrailingGone(lines: seq<string>)
    ensures DropTrailing(lines) <= lines
    ensures DropTrailing(lines) != [] ==> DropTrailing(lines)[|DropTrailing(lines)| - 1] != ""
  {
    if lines != [] && lines[|lines| - 1] == "" {
      TrailingGone(lines[..|lines| - 1]);
    }
  }

  lemma {:induction false} ContentIsContent(text: string)
    ensures IsContent(Content(text))
  {
    var split := Split(ToLf(text));
    var stripped := RstripAll(split);
    CrLfTail(ReplaceCrLf(text));
    SplitLines(ToLf(text));
    forall l | l in stripped ensures NoBreaks(l) && Rstrip(l) == l {
      var i :| 0 <= i < |stripped| && stripped[i] == l;
      assert split[i] in split;
      RstripKeeps(split[i]);
    }
    LeadingGone(stripped);
    var led := DropLeading(stripped);
    TrailingGone(led);
    var r := DropTrailing(led);
    forall l | l in r ensures l in stripped {
      var i :| 0 <= i < |r| && r[i] == l;
      assert led[i] == l;
    }
    if r != [] { assert r[0] == led[0]; }
  }

  lemma {:induction false} NoCrUnchanged(s: string)
    requires forall c | c in s :: c != '\r'
    ensures ReplaceCrLf(s) == s && ReplaceCr(s) == s
  {
    if s != "" {
      assert s[0] in s;
      assert forall c | c in s[1..] :: c in s;
      NoCrUnchanged(s[1..]);
    }
  }

  lemma {:induction false} SplitHead(l: string, rest: string)
    requires NoBreaks(l)
    ensures Split(l + ("\n" + rest)) == [l] + Split(rest)
  {
    if l == "" {
      assert ("\n" + rest)[1..] == rest;
      assert "" + ("\n" + rest) == "\n" + rest;
    } else {
      assert l[0] in l;
      assert (l + ("\n" + rest))[1..] == l[1..] + ("\n" + rest);
      assert forall c | c in l[1..] :: c in l;
      SplitHead(l[1..], rest);
      assert [l[0]] + l[1..] == l;
    }
  }

  lemma {:induction false} SplitWhole(l: string)
    requires NoBreaks(l)
    ensures Split(l) == [l]
  {
    if l != "" {
      assert l[0] in l;
      assert forall c | c in l[1..] :: c in l;
      SplitWhole(l[1..]);
      assert [l[0]] + l[1..] == l;
    }
  }

  /** Splitting undoes joining. */
  lemma {:induction false} SplitUndoesJoin(lines: seq<string>)
    requires lines != [] && forall l | l in lines :: NoBreaks(l)
    ensures Split(Join(lines)) == lines
  {
    assert lines[0] in lines;
    if |lines| == 1 {
      SplitWhole(lines[0]);
    } else {
      assert forall l | l in lines[1..] :: l in lines;
      SplitUndoesJoin(lines[1..]);
      SplitHead(lines[0], Join(lines[1..]));
    }
  }

  lemma {:induction false} JoinHasNoCr(lines: seq<string>)
    requires forall l | l in lines :: NoBreaks(l)
    ensures forall c | c in Join(lines) :: c != '\r'
  {
    if lines != [] {
      assert lines[0] in lines;
      assert forall l | l in lines[1..] :: l in lines;
      JoinHasNoCr(lines[1..]);
    }
  }

  /** Content read back from its normal form is the content. */
  lemma {:induction false} ContentOfJoin(lines: seq<string>)
    requires IsContent(lines)
    ensures Content(Join(lines)) == lines
  {
    JoinHasNoCr(lines);
    NoCrUnchanged(Join(lines));
    if lines == [] {
      assert Split("") == [""] && RstripAll([""]) == [""];
      assert [""][1..] == [];
    } else {
      SplitUndoesJoin(lines);
      StrippedUnchanged(lines);
    }
  }

  lemma {:induction false} StrippedUnchanged(lines: seq<string>)
    requires forall l | l in lines :: Rstrip(l) == l
    ensures RstripAll(lines) == lines
  {
    forall i | 0 <= i < |lines| ensures RstripAll(lines)[i] == lines[i] {
      assert lines[i] in lines;
    }
  }

  /** Normalizing a normal form changes nothing. */
  lemma {:induction false} NormalizeIsIdempotent(text: string)
    ensures Normalized(Normalized(text)) == Normalized(text)
  {
    ContentIsContent(text);
    ContentOfJoin(Content(text));
  }

  /** Normal forms are equal exactly when the contents are: nothing but line endings, trailing
      whitespace and outer blank lines is lost. */
  lemma {:induction false} NormalFormIsCanonical(a: string, b: string)
    ensures Normalized(a) == Normalized(b) <==> Content(a) == Content(b)
  {
    ContentIsContent(a);
    ContentIsContent(b);
    ContentOfJoin(Content(a));
    ContentOfJoin(Content(b));
  }

  // ----- changes that normalizing undoes -----

  lemma {:induction false} LeadingBlanks(blank: seq<string>, lines: seq<string>)
    requires forall l | l in blank :: l == ""
    ensures DropLeading(blank + lines) == DropLeading(lines)
  {
    if blank == [] {
      assert blank + lines == lines;
    } else {
      assert blank[0] in blank;
      assert (blank + lines)[1..] == blank[1..] + lines;
      assert forall l | l in blank[1..] :: l in blank;
      LeadingBlanks(blank[1..], lines);
    }
  }

  lemma {:induction false} TrailingBlanks(lines: seq<string>, blank: seq<string>)
    requires forall l | l in blank :: l == ""
    ensures DropTrailing(lines + blank) == DropTrailing(lines)
  {
    if blank == [] {
      assert lines + blank == lines;
    } else {
      var k := |blank| - 1;
      assert blank[k] in blank;
      assert (lines + blank)[..|lines + blank| - 1] == lines + blank[..k];
      assert forall l | l in blank[..k] :: l in blank;
      TrailingBlanks(lines, blank[..k]);
    }
  }

  lemma {:induction false} DropLeadingConcat(lines: seq<string>, blank: seq<string>)
    requires exists l | l in lines :: l != ""
    ensures DropLeading(lines + blank) == DropLeading(lines) + blank
  {
    if lines[0] == "" {
      assert (lines + blank)[1..] == lines[1..] + blank;
      var l :| l in lines && l != "";
      assert l in lines[1..];
      DropLeadingConcat(lines[1..], blank);
    }
  }

  lemma {:induction false} AllBlank(lines: seq<string>)
    requires forall l | l in lines :: l == ""
    ensures DropLeading(lines) == []
  {
    if lines != [] {
      assert lines[0] in lines;
      assert forall l | l in lines[1..] :: l in lines;
      AllBlank(lines[1..]);
    }
  }

  function Trim(lines: seq<string>): seq<string> {
    DropTrailing(DropLeading(lines))
  }

  lemma {:induction false} LeadingParts(lines: seq<string>) returns (k: nat)
    ensures k <= |lines| && DropLeading(lines) == lines[k..] && (k < |lines| ==> lines[k] != "")
    ensures forall i | 0 <= i < k :: lines[i] == ""
  {
    k := 0;
    if lines != [] && lines[0] == "" {
      var less := LeadingParts(lines[1..]);
      k := less + 1;
      assert forall i | 0 < i < k :: lines[i] == lines[1..][i - 1];
    }
  }

  lemma {:induction false} TrailingParts(lines: seq<string>) returns (k: nat)
    ensures k <= |lines| && DropTrailing(lines) == lines[..k] && (k > 0 ==> lines[k - 1] != "")
    ensures forall i | k <= i < |lines| :: lines[i] == ""
  {
    k := |lines|;
    if lines != [] && lines[|lines| - 1] == "" {
      k := TrailingParts(lines[..|lines| - 1]);
    }
  }

  lemma {:induction false} TrimParts(lines: seq<string>) returns (j: nat, k: nat)
    ensures j <= k <= |lines| && Trim(lines) == lines[j..k] && (j < k ==> lines[j] != "" && lines[k - 1] != "")
    ensures forall i | 0 <= i < j || k <= i < |lines| :: lines[i] == ""
  {
    j := LeadingParts(lines);
    var rest := lines[j..];
    var n := TrailingParts(rest);
    k := j + n;
    assert forall i | k <= i < |lines| :: lines[i] == rest[i - j];
  }

  /** What counts of a text is its lines, each without the whitespace at its end, without the blank ones
      before the first and behind the last that is not. */
  lemma {:induction false} ContentParts(text: string) returns (j: nat, k: nat)
    ensures var lines := RstripAll(Split(ToLf(text)));
            && j <= k <= |lines| && Content(text) == lines[j..k]
            && (j < k ==> lines[j] != "" && lines[k - 1] != "")
            && forall i | 0 <= i < j || k <= i < |lines| :: lines[i] == ""
  {
    j, k := TrimParts(RstripAll(Split(ToLf(text))));
  }

  /** Blank lines before and after do not count. */
  lemma {:induction false} OuterBlanksVanish(before: seq<string>, lines: seq<string>, after: seq<string>)
    requires forall l | l in before + after :: l == ""
    ensures Trim(before + lines + after) == Trim(lines)
  {
    assert forall l | l in before :: l in before + after;
    assert forall l | l in after :: l in before + after;
    assert before + lines + after == before + (lines + after);
    LeadingBlanks(before, lines + after);
    if exists l | l in lines :: l != "" {
      DropLeadingConcat(lines, after);
      TrailingBlanks(DropLeading(lines), after);
    } else {
      AllBlank(lines);
      AllBlank(lines + after);
    }
  }

  datatype Ending = Lf | CrLf | Cr

  function Text(e: Ending): string {
    match e case Lf => "\n" case CrLf => "\r\n" case Cr => "\r"
  }

  /** Lines written with a choice of ending after each but the last. */
  function Written(lines: seq<string>, ends: seq<Ending>): string
    requires |lines| == |ends| + 1
  {
    if |ends| == 0 then lines[0] else lines[0] + (Text(ends[0]) + Written(lines[1..], ends[1..]))
  }

  /** A lone `\r` runs into the `\n` of an empty next line. */
  predicate RunsTogether(lines: seq<string>, ends: seq<Ending>, i: nat)
    requires |lines| == |ends| + 1 && i + 1 < |ends|
  {
    ends[i].Cr? && lines[i + 1] == "" && ends[i + 1].Lf?
  }

  predicate Distinguishable(lines: seq<string>, ends: seq<Ending>)
    requires |lines| == |ends| + 1
  {
    forall i | 0 <= i < |ends| - 1 :: !RunsTogether(lines, ends, i)
  }

  lemma {:induction false} LfHead(l: string, rest: string)
    requires NoBreaks(l)
    ensures ToLf(l + rest) == l + ToLf(rest)
  {
    if l == "" {
      assert l + rest == rest;
    } else {
      assert l[0] in l;
      assert (l + rest)[1..] == l[1..] + rest;
      assert forall c | c in l[1..] :: c in l;
      LfHead(l[1..], rest);
      assert [l[0]] + (l[1..] + ToLf(rest)) == l + ToLf(rest);
    }
  }

  lemma {:induction false} LfEnding(e: Ending, rest: string)
    requires e.Cr? ==> rest == "" || rest[0] != '\n'
    ensures ToLf(Text(e) + rest) == "\n" + ToLf(rest)
  {
    var s := Text(e) + rest;
    if e.CrLf? {
      assert s[2..] == rest;
      assert ReplaceCrLf(s) == "\n" + ReplaceCrLf(rest);
      assert ("\n" + ReplaceCrLf(rest))[1..] == ReplaceCrLf(rest);
    } else {
      assert s[1..] == rest;
      assert ReplaceCrLf(s) == Text(e) + ReplaceCrLf(rest);
      assert (Text(e) + ReplaceCrLf(rest))[1..] == ReplaceCrLf(rest);
    }
  }

  lemma {:induction false} WrittenStart(lines: seq<string>, ends: seq<Ending>)
    requires |lines| == |ends| + 1 && forall l | l in lines :: NoBreaks(l)
    ensures var s := Written(lines, ends); s != "" && s[0] == '\n' <==> |ends| > 0 && lines[0] == "" && ends[0].Lf?
  {
    assert lines[0] in lines;
    if lines[0] != "" { assert lines[0][0] in lines[0]; }
  }

  /** The lines as they are read back: where a lone `\r` runs into the `\n` of an empty line, that
      line is gone. */
  function Read(lines: seq<string>, ends: seq<Ending>): seq<string>
    requires |lines| == |ends| + 1
    decreases |ends|
  {
    if |ends| == 0 then lines
    else if |ends| > 1 && RunsTogether(lines, ends, 0) then [lines[0]] + Read(lines[2..], ends[2..])
    else [lines[0]] + Read(lines[1..], ends[1..])
  }

  lemma {:induction false} WrittenTogether(lines: seq<string>, ends: seq<Ending>)
    requires |lines| == |ends| + 1 && |ends| > 1 && RunsTogether(lines, ends, 0)
    ensures Written(lines, ends) == lines[0] + (Text(CrLf) + Written(lines[2..], ends[2..]))
  {
    assert lines[1..][1..] == lines[2..] && ends[1..][1..] == ends[2..];
    var rest := Written(lines[2..], ends[2..]);
    assert Written(lines[1..], ends[1..]) == "" + ("\n" + rest);
    assert "\r" + ("" + ("\n" + rest)) == "\r\n" + rest;
  }

  lemma {:induction false} SplitFirst(l: string, e: Ending, rest: string)
    requires NoBreaks(l) && (e.Cr? ==> rest == "" || rest[0] != '\n')
    ensures Split(ToLf(l + (Text(e) + rest))) == [l] + Split(ToLf(rest))
  {
    LfHead(l, Text(e) + rest);
    LfEnding(e, rest);
    SplitHead(l, ToLf(rest));
  }

  /** Whatever the lines and their endings, this is what is read back. */
  lemma {:induction false} EndingsAreRead(lines: seq<string>, ends: seq<Ending>)
    requires |lines| == |ends| + 1 && forall l | l in lines :: NoBreaks(l)
    ensures Split(ToLf(Written(lines, ends))) == Read(lines, ends)
    decreases |ends|
  {
    assert lines[0] in lines;
    if |ends| == 0 {
      LfHead(lines[0], "");
      assert lines[0] + "" == lines[0] && ToLf("") == "";
      SplitWhole(lines[0]);
    } else if |ends| > 1 && RunsTogether(lines, ends, 0) {
      assert forall l | l in lines[2..] :: l in lines;
      EndingsAreRead(lines[2..], ends[2..]);
      WrittenTogether(lines, ends);
      SplitFirst(lines[0], CrLf, Written(lines[2..], ends[2..]));
    } else {
      assert forall l | l in lines[1..] :: l in lines;
      EndingsAreRead(lines[1..], ends[1..]);
      WrittenStart(lines[1..], ends[1..]);
      SplitFirst(lines[0], ends[0], Written(lines[1..], ends[1..]));
    }
  }

  lemma {:induction false} RunsInTail(lines: seq<string>, ends: seq<Ending>)
    requires |lines| == |ends| + 1 && |ends| > 0 && (|ends| == 1 || !RunsTogether(lines, ends, 0))
    ensures Distinguishable(lines, ends) <==> Distinguishable(lines[1..], ends[1..])
  {
    if Distinguishable(lines, ends) {
      forall i | 0 <= i < |ends[1..]| - 1 ensures !RunsTogether(lines[1..], ends[1..], i) {
        assert !RunsTogether(lines, ends, i + 1);
      }
    }
    if Distinguishable(lines[1..], ends[1..]) {
      forall i | 0 <= i < |ends| - 1 ensures !RunsTogether(lines, ends, i) {
        assert i > 0 ==> !RunsTogether(lines[1..], ends[1..], i - 1);
      }
    }
  }

  /** A line is lost unless none run together. */
  lemma {:induction false} ReadLength(lines: seq<string>, ends: seq<Ending>)
    requires |lines| == |ends| + 1
    ensures |Read(lines, ends)| <= |lines|
    ensures if Distinguishable(lines, ends) then Read(lines, ends) == lines else |Read(lines, ends)| < |lines|
    decreases |ends|
  {
    if |ends| > 1 && RunsTogether(lines, ends, 0) {
      ReadLength(lines[2..], ends[2..]);
    } else if |ends| > 0 {
      RunsInTail(lines, ends);
      ReadLength(lines[1..], ends[1..]);
    }
  }

  /** The lines are read back exactly when no lone `\r` runs into the `\n` of an empty line. */
  lemma {:induction false} EndingsVanishExactly(lines: seq<string>, ends: seq<Ending>)
    requires |lines| == |ends| + 1 && forall l | l in lines :: NoBreaks(l)
    ensures Split(ToLf(Written(lines, ends))) == lines <==> Distinguishable(lines, ends)
  {
    EndingsAreRead(lines, ends);
    ReadLength(lines, ends);
  }

  /** Texts written with any endings have the same normal form exactly when the lines read back
      agree up to trailing whitespace and outer blank lines. */
  lemma {:induction false} CosmeticChangesVanish(a: seq<string>, aEnds: seq<Ending>, b: seq<string>, bEnds: seq<Ending>)
    requires |a| == |aEnds| + 1 && |b| == |bEnds| + 1
    requires (forall l | l in a :: NoBreaks(l)) && (forall l | l in b :: NoBreaks(l))
    ensures Normalized(Written(a, aEnds)) == Normalized(Written(b, bEnds))
      <==> Trim(RstripAll(Read(a, aEnds))) == Trim(RstripAll(Read(b, bEnds)))
  {
    EndingsAreRead(a, aEnds);
    EndingsAreRead(b, bEnds);
    NormalFormIsCanonical(Written(a, aEnds), Written(b, bEnds));
  }
}
