/** A whole diff as git writes it, and exactly when it is read as what it is written for. */
module DiffText {
  import opened Models
  import opened TextLines
  import opened Diff

  // ----- paths -----

  /** A character that git does not write as it is: control characters, quotes and backslashes, and
      with core.quotePath set all beyond ASCII. */
  predicate NeedsQuote(c: char, quotePath: bool) {
    c < ' ' || c == '"' || c == '\\' || c == '\U{7F}' || (quotePath && c > '\U{7F}')
  }

  function Octal(b: nat): string {
    ['\\', ('0' as int + b / 64 % 8) as char, ('0' as int + b / 8 % 8) as char, ('0' as int + b % 8) as char]
  }

  /** The bytes of a character in UTF-8. */
  function Utf8(c: char): seq<nat> {
    var n := c as int;
    if n < 0x80 then [n]
    else if n < 0x800 then [0xC0 + n / 0x40, 0x80 + n % 0x40]
    else if n < 0x1_0000 then [0xE0 + n / 0x1000, 0x80 + n / 0x40 % 0x40, 0x80 + n % 0x40]
    else [0xF0 + n / 0x4_0000, 0x80 + n / 0x1000 % 0x40, 0x80 + n / 0x40 % 0x40, 0x80 + n % 0x40]
  }

  function Octals(bytes: seq<nat>): string {
    if bytes == [] then "" else Octal(bytes[0]) + Octals(bytes[1..])
  }

  /** One character of a quoted path. */
  function Quoted(c: char, quotePath: bool): string {
    if !NeedsQuote(c, quotePath) then [c]
    else
      match c
      case '\U{07}' => "\\a" case '\U{08}' => "\\b" case '\t' => "\\t" case '\n' => "\\n"
      case '\U{0B}' => "\\v" case '\U{0C}' => "\\f" case '\r' => "\\r" case '"' => "\\\"" case '\\' => "\\\\"
      case _ => Octals(Utf8(c))
  }

  function QuotedAll(path: string, quotePath: bool): string {
    if path == "" then "" else Quoted(path[0], quotePath) + QuotedAll(path[1..], quotePath)
  }

  predicate AnyQuote(path: string, quotePath: bool) {
    exists c | c in path :: NeedsQuote(c, quotePath)
  }

  /** The new side of a file: quoted as a whole when any character needs it. */
  function Label(path: string, quotePath: bool): string {
    if AnyQuote(path, quotePath) then "\"" + ("b/" + (QuotedAll(path, quotePath) + "\"")) else "b/" + path
  }

  /** What is written behind `+++ `: a tab ends a label with a blank in it. */
  function NameText(path: string, quotePath: bool): string {
    var name := Label(path, quotePath);
    if ' ' in name then name + "\t" else name
  }

  /** A path that is written as it is: nothing to quote, no blank, no line break. */
  predicate IsPlainPath(path: string, quotePath: bool) {
    forall c | c in path :: !NeedsQuote(c, quotePath) && c != ' ' && !IsBreak(c)
  }

  // ----- lines -----

  /** The lines of a diff: the header of a new file or of a deleted one, a hunk header, a line of a
      hunk behind its mark, and any other line. */
  datatype DiffLine =
    | NewFile(path: string)
    | DeletedFile
    | HunkStart(a: string, b: Option<string>, c: string, d: Option<string>, tail: string)
    | Body(mark: char, text: string)
    | Meta(line: string)

  predicate WellWritten(l: DiffLine) {
    match l
    case HunkStart(a, b, c, d, _) =>
      AllDigits(a) && (b.Some? ==> AllDigits(b.value)) && AllDigits(c) && (d.Some? ==> AllDigits(d.value))
    case Body(mark, _) => mark == ' ' || mark == '+' || mark == '-' || mark == '\\'
    case Meta(line) => !("+++ " <= line) && !("@@" <= line)
    case _ => true
  }

  function HunkText(a: string, b: Option<string>, c: string, d: Option<string>): string {
    "@@ -" + (SpanText(a, b) + (" +" + (SpanText(c, d) + " @@")))
  }

  function LineText(l: DiffLine, quotePath: bool): string {
    match l
    case NewFile(path) => "+++ " + NameText(path, quotePath)
    case DeletedFile => "+++ " + "/dev/null"
    case HunkStart(a, b, c, d, tail) => HunkText(a, b, c, d) + tail
    case Body(mark, text) => [mark] + text
    case Meta(line) => line
  }

  /** The diff, a line feed behind each of its lines. */
  function Written(ls: seq<DiffLine>, quotePath: bool): string {
    if ls == [] then "" else (LineText(ls[0], quotePath) + "\n") + Written(ls[1..], quotePath)
  }

  /** What the line is written for. */
  function Meant(l: DiffLine): seq<Event>
    requires WellWritten(l)
  {
    match l
    case NewFile(path) => [Header(Some(path))]
    case DeletedFile => [Header(None)]
    case HunkStart(_, _, c, d, _) => [Hunk(SpanOf(ToNumber(c), if d.Some? then ToNumber(d.value) else 1))]
    case _ => []
  }

  function AllMeant(ls: seq<DiffLine>): seq<Event>
    requires forall l | l in ls :: WellWritten(l)
  {
    if ls == [] then []
    else
      assert ls[0] in ls && forall l | l in ls[1..] :: l in ls;
      Meant(ls[0]) + AllMeant(ls[1..])
  }

  /** The headers and hunks among the events. */
  function Told(es: seq<Event>): seq<Event> {
    if es == [] then [] else (if es[0].Other? then [] else [es[0]]) + Told(es[1..])
  }

  /** The headers and hunks that are read out of a text. */
  function ToldBy(text: string): seq<Event> {
    Told(Read(text))
  }

  /** The lines of the text behind its first. */
  function Further(text: string): seq<string> {
    var ls := Lines(text + "\n");
    if ls == [] then [] else ls[1..]
  }

  /** Behind a line break inside the text something stands that reads as a header or a hunk. */
  predicate Hides(text: string) {
    exists i | 0 <= i < |Further(text)| :: !EventOf(Further(text)[i]).Other?
  }

  /** The line is not read as what it is written for: a path that is not written as it is, an added line
      that starts with `++ `, or a header or hunk hidden behind a line break. */
  predicate Misread(l: DiffLine, quotePath: bool) {
    match l
    case NewFile(path) => !IsPlainPath(path, quotePath)
    case DeletedFile => false
    case HunkStart(_, _, _, _, tail) => Hides(tail)
    case Body(mark, text) => (mark == '+' && "++ " <= text) || Hides(text)
    case Meta(line) => Hides(line)
  }

  // ----- events that count -----

  lemma {:induction false} ToldConcat(a: seq<Event>, b: seq<Event>)
    ensures Told(a + b) == Told(a) + Told(b)
  {
    if a == [] {
      assert a + b == b;
    } else {
      assert (a + b)[1..] == a[1..] + b;
      ToldConcat(a[1..], b);
    }
  }

  lemma {:induction false} NothingTold(es: seq<Event>)
    ensures Told(es) == [] <==> forall i | 0 <= i < |es| :: es[i].Other?
  {
    if es != [] {
      NothingTold(es[1..]);
      if forall i | 0 <= i < |es[1..]| :: es[1..][i].Other? {
        forall i | 1 <= i < |es| ensures es[i].Other? { assert es[1..][i - 1].Other?; }
      }
    }
  }

  lemma {:induction false} EventsConcat(a: seq<string>, b: seq<string>)
    ensures Events(a + b) == Events(a) + Events(b)
  {}

  /** Only headers and hunks count. */
  lemma {:induction false} OnlyToldCounts(es: seq<Event>, path: string)
    ensures HunksOf(Told(es), path) == HunksOf(es, path) && CurrentFile(Told(es)) == CurrentFile(es)
    ensures Named(Told(es), path) <==> Named(es, path)
  {
    if es != [] {
      var k := |es| - 1;
      assert es == es[..k] + [es[k]];
      OnlyToldCounts(es[..k], path);
      ToldConcat(es[..k], [es[k]]);
      assert [es[k]][1..] == [];
      HunksStep(es[..k], es[k], path);
      NamedStep(es[..k], es[k], path);
      if es[k].Other? {
        assert Told(es) == Told(es[..k]);
      } else {
        assert Told(es) == Told(es[..k]) + [es[k]];
        HunksStep(Told(es[..k]), es[k], path);
        NamedStep(Told(es[..k]), es[k], path);
      }
    }
  }

  // ----- one line -----

  lemma {:induction false} BreakBehind(s: string)
    ensures HasBreak(s + "\n") && FirstLine(s + "\n") == FirstLine(s)
  {
    assert (s + "\n")[|s|] == '\n' && '\n' in s + "\n";
    FirstLineOfConcat(s, "\n");
    BreakIsFirst(s);
    assert FirstLine("\n") == "" && s[..|s|] == s;
  }

  lemma {:induction false} FirstThenFurther(s: string)
    ensures Lines(s + "\n") == [FirstLine(s)] + Further(s)
  {
    BreakBehind(s);
    LinesInFront("", s + "\n");
    assert "" + (s + "\n") == s + "\n" && "" + FirstLine(s) == FirstLine(s);
  }

  lemma {:induction false} FurtherBehind(a: string, text: string)
    requires !HasBreak(a)
    ensures Further(a + text) == Further(text)
  {
    BreakBehind(text);
    LinesInFront(a, text + "\n");
    assert (a + text) + "\n" == a + (text + "\n");
  }

  lemma {:induction false} NothingFurther(s: string)
    requires !HasBreak(s)
    ensures Further(s) == [] && !Hides(s)
  {
    FurtherBehind(s, "");
    assert s + "" == s && "" + "\n" == "\n";
    BreakBehind("");
    assert Lines("\n") == [""] by { assert "\n"[1..] == ""; assert "\n"[..0] == ""; }
  }

  lemma {:induction false} HidesBehind(a: string, text: string)
    requires !HasBreak(a)
    ensures Hides(a + text) <==> Hides(text)
  {
    FurtherBehind(a, text);
  }

  /** What a line tells: the event of its first part, and whatever is hidden behind. */
  lemma {:induction false} LineTells(s: string)
    ensures ToldBy(s + "\n") == Told([EventOf(FirstLine(s))]) + Told(Events(Further(s)))
  {
    FirstThenFurther(s);
    EventsConcat([FirstLine(s)], Further(s));
    ToldConcat(Events([FirstLine(s)]), Events(Further(s)));
    assert Events([FirstLine(s)]) == [EventOf(FirstLine(s))];
  }

  lemma {:induction false} HiddenIsTold(s: string)
    ensures Told(Events(Further(s))) == [] <==> !Hides(s)
  {
    var ls := Further(s);
    NothingTold(Events(ls));
    forall i | 0 <= i < |ls| ensures Events(ls)[i] == EventOf(ls[i]) {}
    if i: nat :| i < |ls| && !EventOf(ls[i]).Other? {
      assert !Events(ls)[i].Other?;
    }
  }

  lemma {:induction false} ToldOne(e: Event)
    ensures Told([e]) == if e.Other? then [] else [e]
  {
    assert [e][1..] == [];
  }

  // ----- body lines and others -----

  lemma {:induction false} PrefixOfFirst(p: string, s: string)
    requires !HasBreak(p)
    ensures p <= FirstLine(s) <==> p <= s
  {
    if p <= s {
      FirstLineOfConcat(p, s[|p|..]);
      assert s == p + s[|p|..];
    }
    if p <= FirstLine(s) {
      assert s[..|p|] == FirstLine(s)[..|p|];
    }
  }

  lemma {:induction false} MarksAreUnbroken(mark: char)
    requires mark == ' ' || mark == '+' || mark == '-' || mark == '\\'
    ensures !HasBreak([mark])
  {}

  lemma {:induction false} WordsAreUnbroken()
    ensures !HasBreak("+++ ") && !HasBreak("++ ") && !HasBreak("@@") && !HasBreak("b/") && !HasBreak("\"") && !HasBreak("/dev/null")
  {}

  lemma {:induction false} PlusesAhead(text: string)
    ensures "+++ " <= "+" + text <==> "++ " <= text
  {
    assert ("+" + text)[1..] == text;
    assert "+++ "[1..] == "++ ";
    if "++ " <= text {
      assert text[..3] == "++ ";
      assert ("+" + text)[..4] == "+" + text[..3];
    }
    if "+++ " <= "+" + text {
      assert ("+" + text)[..4] == "+++ ";
      assert text[..3] == ("+" + text)[..4][1..];
    }
  }

  lemma {:induction false} MarkedIsOther(mark: char, text: string)
    requires mark == ' ' || mark == '+' || mark == '-' || mark == '\\'
    ensures EventOf([mark] + text).Other? <==> !(mark == '+' && "++ " <= text)
  {
    assert ([mark] + text)[0] == mark;
    if mark == '+' { PlusesAhead(text); }
  }

  lemma {:induction false} BodyIsReadExactly(mark: char, text: string)
    requires mark == ' ' || mark == '+' || mark == '-' || mark == '\\'
    ensures ToldBy(([mark] + text) + "\n") == [] <==> !(mark == '+' && "++ " <= text) && !Hides(text)
  {
    var s := [mark] + text;
    LineTells(s);
    HiddenIsTold(s);
    MarksAreUnbroken(mark);
    HidesBehind([mark], text);
    FirstLineOfConcat([mark], text);
    WordsAreUnbroken();
    PrefixOfFirst("++ ", text);
    MarkedIsOther(mark, FirstLine(text));
    ToldOne(EventOf(FirstLine(s)));
  }

  lemma {:induction false} MetaIsReadExactly(line: string)
    requires !("+++ " <= line) && !("@@" <= line)
    ensures ToldBy(line + "\n") == [] <==> !Hides(line)
  {
    LineTells(line);
    HiddenIsTold(line);
    WordsAreUnbroken();
    PrefixOfFirst("+++ ", line);
    PrefixOfFirst("@@", line);
    ToldOne(EventOf(FirstLine(line)));
  }

  // ----- hunk headers -----

  lemma {:induction false} DigitsAreUnbroken(s: string)
    requires forall c | c in s :: IsDigit(c)
    ensures !HasBreak(s)
  {}

  lemma {:induction false} SpanIsUnbroken(start: string, count: Option<string>)
    requires AllDigits(start) && (count.Some? ==> AllDigits(count.value))
    ensures !HasBreak(SpanText(start, count))
  {
    DigitsAreUnbroken(start);
    if count.Some? {
      DigitsAreUnbroken(count.value);
      BreaksOfConcat(",", count.value);
      BreaksOfConcat(start, "," + count.value);
    } else {
      assert SpanText(start, count) == start;
    }
  }

  lemma {:induction false} HunkIsUnbroken(a: string, b: Option<string>, c: string, d: Option<string>)
    requires AllDigits(a) && (b.Some? ==> AllDigits(b.value)) && AllDigits(c) && (d.Some? ==> AllDigits(d.value))
    ensures !HasBreak(HunkText(a, b, c, d))
  {
    SpanIsUnbroken(a, b);
    SpanIsUnbroken(c, d);
    BreaksOfConcat(SpanText(c, d), " @@");
    BreaksOfConcat(" +", SpanText(c, d) + " @@");
    BreaksOfConcat(SpanText(a, b), " +" + (SpanText(c, d) + " @@"));
    BreaksOfConcat("@@ -", SpanText(a, b) + (" +" + (SpanText(c, d) + " @@")));
  }

  lemma {:induction false} HunkEvent(line: string, start: nat, count: nat)
    requires "@@" <= line && ParseHunk(line) == Some((start, count))
    ensures EventOf(line) == Hunk(SpanOf(start, count))
  {
    assert line[0] == '@';
  }

  lemma {:induction false} HunkTail(a: string, b: Option<string>, c: string, d: Option<string>, tail: string)
    ensures HunkText(a, b, c, d) + tail == "@@ -" + (SpanText(a, b) + (" +" + (SpanText(c, d) + (" @@" + tail))))
    ensures "@@" <= HunkText(a, b, c, d) + tail
  {
    var x, y := SpanText(a, b), SpanText(c, d);
    assert ("@@ -" + (x + (" +" + (y + " @@")))) + tail == "@@ -" + (x + (" +" + (y + (" @@" + tail))));
  }

  lemma {:induction false} HunkIsReadExactly(a: string, b: Option<string>, c: string, d: Option<string>, tail: string)
    requires AllDigits(a) && (b.Some? ==> AllDigits(b.value)) && AllDigits(c) && (d.Some? ==> AllDigits(d.value))
    ensures var told := ToldBy((HunkText(a, b, c, d) + tail) + "\n");
      var meant := Hunk(SpanOf(ToNumber(c), if d.Some? then ToNumber(d.value) else 1));
      told != [] && (told == [meant] <==> !Hides(tail))
  {
    var head := HunkText(a, b, c, d);
    LineTells(head + tail);
    HiddenIsTold(head + tail);
    HunkIsUnbroken(a, b, c, d);
    HidesBehind(head, tail);
    FirstLineOfConcat(head, tail);
    HunkTail(a, b, c, d, FirstLine(tail));
    HunkHeaderIsRead(a, b, c, d, FirstLine(tail));
    HunkEvent(head + FirstLine(tail), ToNumber(c), if d.Some? then ToNumber(d.value) else 1);
    ToldOne(EventOf(FirstLine(head + tail)));
  }

  // ----- file headers -----

  lemma {:induction false} HeaderEvent(name: string)
    ensures EventOf("+++ " + name) == Header(if name == "/dev/null" then None else Some(Unsided(name)))
  {
    assert ("+++ " + name)[4..] == name;
  }

  /** A header tells the name up to its first break, and whatever is hidden behind. */
  lemma {:induction false} HeaderTells(name: string)
    requires FirstLine(name) != "/dev/null"
    ensures ToldBy(("+++ " + name) + "\n") == [Header(Some(Unsided(FirstLine(name))))] + Told(Events(Further(name)))
  {
    WordsAreUnbroken();
    LineTells("+++ " + name);
    FurtherBehind("+++ ", name);
    FirstLineOfConcat("+++ ", name);
    HeaderEvent(FirstLine(name));
    ToldOne(EventOf("+++ " + FirstLine(name)));
  }

  lemma {:induction false} OctalsAreUnbroken(bytes: seq<nat>)
    ensures !HasBreak(Octals(bytes)) && |Octals(bytes)| >= |bytes|
  {
    if bytes != [] {
      OctalsAreUnbroken(bytes[1..]);
      OctalIsUnbroken(bytes[0]);
      BreaksOfConcat(Octal(bytes[0]), Octals(bytes[1..]));
    }
  }

  lemma {:induction false} OctalIsUnbroken(b: nat)
    ensures !HasBreak(Octal(b))
  {}

  /** Quoting writes at least one character for each, and no break of its own. */
  lemma {:induction false} QuotedOne(c: char, quotePath: bool)
    ensures Quoted(c, quotePath) != ""
    ensures HasBreak(Quoted(c, quotePath)) ==> IsBreak(c)
  {
    if NeedsQuote(c, quotePath) { OctalsAreUnbroken(Utf8(c)); } else { assert Quoted(c, quotePath) == [c]; }
  }

  lemma {:induction false} QuotedKeeps(path: string, quotePath: bool)
    ensures |QuotedAll(path, quotePath)| >= |path|
    ensures HasBreak(QuotedAll(path, quotePath)) ==> HasBreak(path)
  {
    if path != "" {
      QuotedKeeps(path[1..], quotePath);
      QuotedOne(path[0], quotePath);
      BreaksOfConcat(Quoted(path[0], quotePath), QuotedAll(path[1..], quotePath));
      BreaksOfConcat([path[0]], path[1..]);
      assert path == [path[0]] + path[1..];
      assert path[0] in [path[0]];
    }
  }

  lemma {:induction false} LabelBreaks(path: string, quotePath: bool)
    ensures HasBreak(Label(path, quotePath)) ==> HasBreak(path)
  {
    WordsAreUnbroken();
    QuotedKeeps(path, quotePath);
    var q := QuotedAll(path, quotePath);
    BreaksOfConcat(q, "\"");
    BreaksOfConcat("b/", q + "\"");
    BreaksOfConcat("\"", "b/" + (q + "\""));
    BreaksOfConcat("b/", path);
  }

  /** A break in what is written for the path is one of the path, and not of a side in front of it. */
  lemma {:induction false} NameBreaks(path: string, quotePath: bool)
    requires HasBreak(NameText(path, quotePath))
    ensures HasBreak(path) && HasBreak(Unsided(path))
  {
    LabelBreaks(path, quotePath);
    BreaksOfConcat(Label(path, quotePath), "\t");
    assert !HasBreak("\t");
    if HasSide(path) {
      assert path == path[..2] + path[2..];
      BreaksOfConcat(path[..2], path[2..]);
      SideIsUnbroken(path);
    }
  }

  lemma {:induction false} SideIsUnbroken(path: string)
    requires HasSide(path)
    ensures !HasBreak(path[..2])
  {
    assert path[..2] == "a/" || path[..2] == "b/";
  }

  lemma {:induction false} PlainIsWritten(path: string, quotePath: bool)
    requires IsPlainPath(path, quotePath)
    ensures NameText(path, quotePath) == "b/" + path && !HasBreak("b/" + path)
  {
    WordsAreUnbroken();
    BreaksOfConcat("b/", path);
    assert !AnyQuote(path, quotePath);
    forall c | c in "b/" + path ensures c != ' ' { assert c in "b/" || c in path; }
  }

  /** A path that is not plain, written without a break, is read as something longer. */
  lemma {:induction false} OtherName(path: string, quotePath: bool)
    requires !IsPlainPath(path, quotePath) && !HasBreak(NameText(path, quotePath))
    ensures var name := NameText(path, quotePath); name != "/dev/null" && |Unsided(name)| > |path|
  {
    if AnyQuote(path, quotePath) {
      QuotedKeeps(path, quotePath);
      assert NameText(path, quotePath)[0] == '"';
    } else {
      UnquotedName(path, quotePath);
    }
  }

  lemma {:induction false} UnquotedName(path: string, quotePath: bool)
    requires !IsPlainPath(path, quotePath) && !AnyQuote(path, quotePath) && !HasBreak(NameText(path, quotePath))
    ensures NameText(path, quotePath) == ("b/" + path) + "\t" && Unsided(NameText(path, quotePath)) == path + "\t"
  {
    BreaksOfConcat("b/" + path, "\t");
    BreaksOfConcat("b/", path);
    var c :| c in path && (NeedsQuote(c, quotePath) || c == ' ' || IsBreak(c));
    assert c == ' ' && c in "b/" + path;
    assert (("b/" + path) + "\t")[2..] == path + "\t" && (("b/" + path) + "\t")[..2] == "b/";
  }

  lemma {:induction false} UnsidedUnbroken(name: string)
    requires !HasBreak(name)
    ensures !HasBreak(Unsided(name))
  {
    if HasSide(name) {
      assert name == name[..2] + name[2..];
      BreaksOfConcat(name[..2], name[2..]);
    }
  }

  /** Cut at a break, a name is not read as the null device. */
  lemma {:induction false} NotTheDevice(path: string, quotePath: bool)
    ensures FirstLine(NameText(path, quotePath)) != "/dev/null"
  {
    var name := NameText(path, quotePath);
    assert name[0] == '"' || name[0] == 'b';
    if BreakAt(name) > 0 { assert FirstLine(name)[0] == name[0]; }
  }

  lemma {:induction false} WholeLine(s: string)
    requires !HasBreak(s)
    ensures FirstLine(s) == s && Told(Events(Further(s))) == []
  {
    BreakIsFirst(s);
    NothingFurther(s);
  }

  lemma {:induction false} PlainNameIsRead(path: string, quotePath: bool)
    requires IsPlainPath(path, quotePath)
    ensures var name := NameText(path, quotePath);
      Unsided(FirstLine(name)) == path && Told(Events(Further(name))) == []
  {
    PlainIsWritten(path, quotePath);
    WholeLine("b/" + path);
    assert ("b/" + path)[2..] == path && ("b/" + path)[..2] == "b/";
  }

  /** Any other is read as something else, and not as the path without a side in front of it either. */
  lemma {:induction false} OtherNameIsRead(path: string, quotePath: bool)
    requires !IsPlainPath(path, quotePath)
    ensures var q := Unsided(FirstLine(NameText(path, quotePath))); q != path && q != Unsided(path)
  {
    var name := NameText(path, quotePath);
    if HasBreak(name) {
      NameBreaks(path, quotePath);
      BreakIsFirst(name);
      UnsidedUnbroken(FirstLine(name));
    } else {
      WholeLine(name);
      OtherName(path, quotePath);
    }
  }

  /** A header is read as the path exactly when that is plain. */
  lemma {:induction false} HeaderIsReadExactly(path: string, quotePath: bool)
    ensures var told := ToldBy(("+++ " + NameText(path, quotePath)) + "\n");
      told != [] && (told == [Header(Some(path))] <==> IsPlainPath(path, quotePath))
  {
    NotTheDevice(path, quotePath);
    if IsPlainPath(path, quotePath) {
      PlainNameIsRead(path, quotePath);
    } else {
      OtherNameIsRead(path, quotePath);
    }
    NameTells(NameText(path, quotePath), path, IsPlainPath(path, quotePath));
  }

  lemma {:induction false} NameTells(name: string, path: string, plain: bool)
    requires FirstLine(name) != "/dev/null"
    requires if plain then Unsided(FirstLine(name)) == path && Told(Events(Further(name))) == [] else Unsided(FirstLine(name)) != path
    ensures var told := ToldBy(("+++ " + name) + "\n"); told != [] && (told == [Header(Some(path))] <==> plain)
  {
    HeaderTells(name);
    var h, rest := Header(Some(Unsided(FirstLine(name)))), Told(Events(Further(name)));
    assert ([h] + rest)[0] == h;
    assert plain ==> [h] + rest == [h];
  }

  lemma {:induction false} DeviceIsRead(name: string)
    requires name == "/dev/null"
    ensures ToldBy(("+++ " + name) + "\n") == [Header(None)]
  {
    WordsAreUnbroken();
    BreaksOfConcat("+++ ", name);
    WholeLine("+++ " + name);
    LineTells("+++ " + name);
    HeaderEvent(name);
    ToldOne(Header(None));
  }

  // ----- a whole diff -----

  /** A line is read as what it is written for, unless it is misread; and never as less. */
  lemma {:induction false} LineIsReadExactly(l: DiffLine, quotePath: bool)
    requires WellWritten(l)
    ensures |ToldBy(LineText(l, quotePath) + "\n")| >= |Meant(l)|
    ensures ToldBy(LineText(l, quotePath) + "\n") == Meant(l) <==> !Misread(l, quotePath)
  {
    match l {
      case NewFile(path) => HeaderIsReadExactly(path, quotePath);
      case DeletedFile => DeviceIsRead("/dev/null");
      case HunkStart(a, b, c, d, tail) => HunkIsReadExactly(a, b, c, d, tail);
      case Body(mark, text) => BodyIsReadExactly(mark, text);
      case Meta(line) => MetaIsReadExactly(line);
    }
  }

  /** What the lines tell, one after the other. */
  function AllTold(ls: seq<DiffLine>, quotePath: bool): seq<Event> {
    if ls == [] then [] else ToldBy(LineText(ls[0], quotePath) + "\n") + AllTold(ls[1..], quotePath)
  }

  lemma {:induction false} ToldByConcat(a: string, b: string)
    requires a != "" && a[|a| - 1] == '\n'
    ensures ToldBy(a + b) == ToldBy(a) + ToldBy(b)
  {
    LinesOfConcat(a, b);
    EventsConcat(Lines(a), Lines(b));
    ToldConcat(Read(a), Read(b));
  }

  lemma {:induction false} WrittenTells(ls: seq<DiffLine>, quotePath: bool)
    ensures ToldBy(Written(ls, quotePath)) == AllTold(ls, quotePath)
  {
    if ls == [] {
      assert Lines("") == [] && Events([]) == [];
    } else {
      WrittenTells(ls[1..], quotePath);
      ToldByConcat(LineText(ls[0], quotePath) + "\n", Written(ls[1..], quotePath));
    }
  }

  lemma {:induction false} TellsNoLess(ls: seq<DiffLine>, quotePath: bool)
    requires forall l | l in ls :: WellWritten(l)
    ensures |AllTold(ls, quotePath)| >= |AllMeant(ls)|
  {
    if ls != [] {
      assert ls[0] in ls && forall l | l in ls[1..] :: l in ls;
      LineIsReadExactly(ls[0], quotePath);
      TellsNoLess(ls[1..], quotePath);
    }
  }

  lemma {:induction false} SameParts(a: seq<Event>, b: seq<Event>, x: seq<Event>, y: seq<Event>)
    requires |a| >= |x| && |b| >= |y|
    ensures a + b == x + y <==> a == x && b == y
  {
    if a + b == x + y {
      assert |a| == |x|;
      assert a == (a + b)[..|a|] && x == (x + y)[..|x|];
      assert b == (a + b)[|a|..] && y == (x + y)[|x|..];
    }
  }

  lemma {:induction false} NoneMisread(ls: seq<DiffLine>, quotePath: bool)
    requires ls != []
    ensures (forall l | l in ls :: !Misread(l, quotePath)) <==> !Misread(ls[0], quotePath) && forall l | l in ls[1..] :: !Misread(l, quotePath)
  {
    assert ls == [ls[0]] + ls[1..];
    assert ls[0] in ls && forall l | l in ls[1..] :: l in ls;
  }

  lemma {:induction false} AllReadExactly(ls: seq<DiffLine>, quotePath: bool)
    requires forall l | l in ls :: WellWritten(l)
    ensures AllTold(ls, quotePath) == AllMeant(ls) <==> forall l | l in ls :: !Misread(l, quotePath)
  {
    if ls != [] {
      assert ls[0] in ls && forall l | l in ls[1..] :: l in ls;
      LineIsReadExactly(ls[0], quotePath);
      TellsNoLess(ls[1..], quotePath);
      AllReadExactly(ls[1..], quotePath);
      SameParts(ToldBy(LineText(ls[0], quotePath) + "\n"), AllTold(ls[1..], quotePath), Meant(ls[0]), AllMeant(ls[1..]));
      NoneMisread(ls, quotePath);
    }
  }

  /** The headers and hunks read out of a diff as git writes it are the ones it is written for, exactly
      when every path is written as it is, no added line starts with `++ `, and no line break inside a
      line hides what reads as a header or a hunk. */
  lemma {:induction false} DiffIsReadExactly(ls: seq<DiffLine>, quotePath: bool)
    requires forall l | l in ls :: WellWritten(l)
    ensures ToldBy(Written(ls, quotePath)) == AllMeant(ls) <==> forall l | l in ls :: !Misread(l, quotePath)
  {
    WrittenTells(ls, quotePath);
    AllReadExactly(ls, quotePath);
  }

  /** So then the ranges of every file are those of its hunks. */
  lemma {:induction false} RangesAreRead(ls: seq<DiffLine>, quotePath: bool, path: string)
    requires forall l | l in ls :: WellWritten(l) && !Misread(l, quotePath)
    ensures HunksOf(Read(Written(ls, quotePath)), path) == HunksOf(AllMeant(ls), path)
    ensures Named(Read(Written(ls, quotePath)), path) <==> Named(AllMeant(ls), path)
  {
    DiffIsReadExactly(ls, quotePath);
    OnlyToldCounts(Read(Written(ls, quotePath)), path);
  }

  // ----- the ranges of one file -----

  lemma {:induction false} MeantConcat(a: seq<DiffLine>, b: seq<DiffLine>)
    requires forall l | l in a + b :: WellWritten(l)
    ensures (forall l | l in a :: WellWritten(l)) && (forall l | l in b :: WellWritten(l))
    ensures AllMeant(a + b) == AllMeant(a) + AllMeant(b)
  {
    forall l | l in a || l in b ensures WellWritten(l) { assert l in a + b; }
    if a == [] {
      assert a + b == b;
    } else {
      assert (a + b)[0] == a[0] && (a + b)[1..] == a[1..] + b;
      MeantConcat(a[1..], b);
    }
  }

  lemma {:induction false} ToldOfConcat(a: seq<DiffLine>, b: seq<DiffLine>, quotePath: bool)
    ensures AllTold(a + b, quotePath) == AllTold(a, quotePath) + AllTold(b, quotePath)
  {
    if a == [] {
      assert a + b == b;
    } else {
      assert (a + b)[0] == a[0] && (a + b)[1..] == a[1..] + b;
      ToldOfConcat(a[1..], b, quotePath);
    }
  }

  /** Lines that name no file. */
  predicate Nameless(ls: seq<DiffLine>) {
    forall l | l in ls :: WellWritten(l) && !l.NewFile?
  }

  lemma {:induction false} NamelessMeans(ls: seq<DiffLine>, path: string)
    requires Nameless(ls)
    ensures !Named(AllMeant(ls), path)
  {
    if ls != [] {
      assert ls[0] in ls && forall l | l in ls[1..] :: l in ls;
      NamelessMeans(ls[1..], path);
    }
  }

  /** The diff of one file: lines in front of its header, the header, and hunks behind it. */
  function FileDiff(before: seq<DiffLine>, path: string, after: seq<DiffLine>): seq<DiffLine> {
    before + ([NewFile(path)] + after)
  }

  lemma {:induction false} FileDiffIsWell(before: seq<DiffLine>, path: string, after: seq<DiffLine>)
    requires Nameless(before) && Nameless(after)
    ensures forall l | l in FileDiff(before, path, after) :: WellWritten(l)
    ensures AllMeant(FileDiff(before, path, after)) == AllMeant(before) + ([Header(Some(path))] + AllMeant(after))
  {
    var ls := [NewFile(path)] + after;
    assert ls[1..] == after;
    MeantConcat(before, ls);
  }

  lemma {:induction false} NamedInConcat(a: seq<Event>, b: seq<Event>, path: string)
    ensures Named(a + b, path) <==> Named(a, path) || Named(b, path)
  {}

  /** Such a diff is meant for one file alone. */
  lemma {:induction false} OneFileIsMeant(before: seq<DiffLine>, path: string, after: seq<DiffLine>, q: string)
    requires Nameless(before) && Nameless(after)
    ensures forall l | l in FileDiff(before, path, after) :: WellWritten(l)
    ensures Named(AllMeant(FileDiff(before, path, after)), q) <==> q == path
  {
    FileDiffIsWell(before, path, after);
    NamelessMeans(before, q);
    NamelessMeans(after, q);
    NamedInConcat(AllMeant(before), [Header(Some(path))] + AllMeant(after), q);
    NamedInConcat([Header(Some(path))], AllMeant(after), q);
  }

  /** No name with a break in it is read. */
  lemma {:induction false} NamesAreUnbroken(diff: string, q: string)
    requires Named(Read(diff), q)
    ensures !HasBreak(q)
  {
    var ls := Lines(diff);
    var i :| 0 <= i < |ls| && Events(ls)[i] == Header(Some(q));
    LinesHaveNoBreak(diff);
    assert ls[i] in ls;
    var name := ls[i][4..];
    assert ls[i] == ls[i][..4] + name;
    BreaksOfConcat(ls[i][..4], name);
    UnsidedUnbroken(name);
  }

  /** What a diff of one file names when its path is not plain but written without a break. */
  lemma {:induction false} OnlyTheOtherName(before: seq<DiffLine>, path: string, after: seq<DiffLine>, quotePath: bool, q: string)
    requires Nameless(before) && Nameless(after) && (forall l | l in before + after :: !Misread(l, quotePath))
    requires !HasBreak(NameText(path, quotePath))
    ensures Named(Read(Written(FileDiff(before, path, after), quotePath)), q) ==> q == Unsided(NameText(path, quotePath))
  {
    var ls, name := FileDiff(before, path, after), NameText(path, quotePath);
    forall l | l in before || l in after ensures !Misread(l, quotePath) { assert l in before + after; }
    AllReadExactly(before, quotePath);
    AllReadExactly(after, quotePath);
    NamelessMeans(before, q);
    NamelessMeans(after, q);
    WrittenTells(ls, quotePath);
    ToldOfConcat(before, [NewFile(path)] + after, quotePath);
    assert ([NewFile(path)] + after)[1..] == after;
    NotTheDevice(path, quotePath);
    HeaderTells(name);
    WholeLine(name);
    var header := [Header(Some(Unsided(name)))];
    NamedInConcat(AllTold(before, quotePath), header + AllTold(after, quotePath), q);
    NamedInConcat(header, AllTold(after, quotePath), q);
    OnlyToldCounts(Read(Written(ls, quotePath)), q);
  }

  /** A path that is not plain is not found under its own name. */
  lemma {:induction false} OtherPathIsLost(before: seq<DiffLine>, path: string, after: seq<DiffLine>, quotePath: bool)
    requires Nameless(before) && Nameless(after) && (forall l | l in before + after :: !Misread(l, quotePath))
    requires !IsPlainPath(path, quotePath)
    ensures !Named(Read(Written(FileDiff(before, path, after), quotePath)), Unsided(path))
  {
    var diff := Written(FileDiff(before, path, after), quotePath);
    if HasBreak(NameText(path, quotePath)) {
      NameBreaks(path, quotePath);
      if Named(Read(diff), Unsided(path)) { NamesAreUnbroken(diff, Unsided(path)); }
    } else {
      OnlyTheOtherName(before, path, after, quotePath, Unsided(path));
      OtherName(path, quotePath);
    }
  }

  lemma {:induction false} PlainFileIsRead(before: seq<DiffLine>, path: string, after: seq<DiffLine>, quotePath: bool, q: string)
    requires Nameless(before) && Nameless(after) && (forall l | l in before + after :: !Misread(l, quotePath))
    requires IsPlainPath(path, quotePath)
    ensures forall l | l in FileDiff(before, path, after) :: WellWritten(l)
    ensures var diff, meant := Written(FileDiff(before, path, after), quotePath), AllMeant(FileDiff(before, path, after));
      (Named(Read(diff), q) <==> q == path) && HunksOf(Read(diff), q) == HunksOf(meant, q)
  {
    var ls := FileDiff(before, path, after);
    OneFileIsMeant(before, path, after, q);
    forall l | l in ls ensures !Misread(l, quotePath) { assert l in before + after || l == NewFile(path); }
    RangesAreRead(ls, quotePath, q);
  }

  /** The changed lines of a file are found in its diff, unless there are none, exactly when its path is
      plain and does not start with `a/` or `b/`. */
  lemma {:induction false} ChangedRangesExactly(before: seq<DiffLine>, path: string, after: seq<DiffLine>, quotePath: bool)
    requires Nameless(before) && Nameless(after) && (forall l | l in before + after :: !Misread(l, quotePath))
    ensures forall l | l in FileDiff(before, path, after) :: WellWritten(l)
    ensures var meant := Coalesced(HunksOf(AllMeant(FileDiff(before, path, after)), path));
      (ChangedRanges(Some(Written(FileDiff(before, path, after), quotePath)), path) == meant) <==>
      (meant == [] || (IsPlainPath(path, quotePath) && !HasSide(path)))
  {
    FileDiffIsWell(before, path, after);
    if IsPlainPath(path, quotePath) {
      PlainFileIsRead(before, path, after, quotePath, Unsided(path));
    } else {
      OtherPathIsLost(before, path, after, quotePath);
    }
  }

  // ----- instances -----

  /** Behind an added line that starts with `++ `, the hunks of a file are counted for another. */
  lemma {:induction false} AddedLineTakesHunks(path: string, name: string, hunk: Event)
    requires hunk.Hunk? && name != path && name != "/dev/null" && !HasSide(name)
    ensures var es := [Header(Some(path)), EventOf(LineText(Body('+', "++ " + name), true)), hunk];
      HunksOf(es, path) == [] && HunksOf(es, name) == hunk.ranges
  {
    assert "+" + ("++ " + name) == "+++ " + name;
    HeaderEvent(name);
    FirstTwo(Header(Some(path)), Header(Some(name)), path);
    FirstTwo(Header(Some(path)), Header(Some(name)), name);
    var two := [Header(Some(path)), Header(Some(name))];
    HunksStep(two, hunk, path);
    HunksStep(two, hunk, name);
    assert [Header(Some(path)), Header(Some(name)), hunk] == two + [hunk];
  }

  lemma {:induction false} FirstTwo(a: Event, b: Event, p: string)
    requires a.Header? && b.Header?
    ensures CurrentFile([a, b]) == b.path && HunksOf([a, b], p) == []
  {
    assert [a, b] == [a] + [b] && [a] == [] + [a];
    HunksStep([], a, p);
    HunksStep([a], b, p);
  }

  /** A form feed in a removed line hides a file header. */
  lemma {:induction false} FormFeedHidesHeader(a: string, name: string)
    requires !HasBreak(a) && !HasBreak(name)
    ensures Misread(Body('-', a + ("\U{0C}" + ("+++ " + name))), true)
  {
    var behind := "+++ " + name;
    WordsAreUnbroken();
    BreaksOfConcat("+++ ", name);
    FurtherBehind(a, "\U{0C}" + behind);
    var s := ("\U{0C}" + behind) + "\n";
    assert BreakAt(s) == 0 && BehindBreak(s) == 1 && s[1..] == behind + "\n";
    FirstThenFurther(behind);
    assert Lines(s) == [s[..0]] + Lines(s[1..]);
    assert Further("\U{0C}" + behind)[0] == FirstLine(behind);
    WholeLine(behind);
    HeaderEvent(name);
  }

  /** A path with a blank is read with the tab that git writes behind it. */
  lemma {:induction false} BlankPathIsRead(path: string, quotePath: bool)
    requires ' ' in path && !HasBreak(path) && !AnyQuote(path, quotePath)
    ensures ToldBy(LineText(NewFile(path), quotePath) + "\n") == [Header(Some(path + "\t"))]
  {
    WordsAreUnbroken();
    BreaksOfConcat("b/", path);
    BreaksOfConcat("b/" + path, "\t");
    assert !HasBreak("\t") && ' ' in "b/" + path;
    assert !IsPlainPath(path, quotePath);
    UnquotedName(path, quotePath);
    NotTheDevice(path, quotePath);
    HeaderTells(NameText(path, quotePath));
    WholeLine(NameText(path, quotePath));
  }
}
