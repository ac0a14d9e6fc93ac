/** Include and exclude globs: the regex they are translated to, and what that regex means. */
module Glob {

  // ----- the translation -----

  /** The pieces of the regex: an optional run of directories, any text, any text without a slash,
      one character that is not a slash, a literal, a bracket class. */
  datatype Atom = Dirs | Anything | InSegment | OneInSegment | Literal(c: char) | Class(inner: string)

  /** Position of the first `]` from the second character on; the length when there is none. */
  function FindClose(p: string, from: nat): (j: nat)
    requires from <= |p|
    ensures from <= j <= |p| && (j < |p| ==> p[j] == ']')
    decreases |p| - from
  {
    if from == |p| || p[from] == ']' then from else FindClose(p, from + 1)
  }

  function ClassOf(inner: string): Atom {
    Class(if inner != "" && inner[0] == '!' then "^" + inner[1..] else inner)
  }

  /** The first atom of a non-empty pattern, and how much of the pattern it takes. */
  function FirstAtom(p: string): (r: (Atom, nat))
    requires p != ""
    ensures 0 < r.1 <= |p|
  {
    if p[0] == '*' then
      if |p| > 1 && p[1] == '*' then (if |p| > 2 && p[2] == '/' then (Dirs, 3) else (Anything, 2))
      else (InSegment, 1)
    else if p[0] == '?' then (OneInSegment, 1)
    else if p[0] == '[' then
      var j := FindClose(p, 1);
      if j == |p| || j == 1 then (Literal('['), 1) else (ClassOf(p[1..j]), j + 1)
    else (Literal(p[0]), 1)
  }

  function Atoms(p: string): seq<Atom>
    decreases |p|
  {
    if p == "" then [] else [FirstAtom(p).0] + Atoms(p[FirstAtom(p).1..])
  }

  lemma {:induction false} FindCloseAt(p: string, i: nat, from: nat)
    requires i <= from <= |p|
    ensures FindClose(p, from) == i + FindClose(p[i..], from - i)
    decreases |p| - from
  {
    if from < |p| && p[from] != ']' {
      assert p[i..][from - i] == p[from];
      FindCloseAt(p, i, from + 1);
    }
  }

  /** The atom at position i of the pattern, and where the next one starts. */
  predicate AtomAt(p: string, i: nat, a: Atom, next: nat) {
    i < next <= |p| && a == FirstAtom(p[i..]).0 && next - i == FirstAtom(p[i..]).1
  }

  lemma {:induction false} AtomsUnfold(q: string, a: Atom, n: nat)
    requires q != "" && a == FirstAtom(q).0 && n == FirstAtom(q).1
    ensures n <= |q| && Atoms(q) == [a] + Atoms(q[n..])
  {}

  lemma {:induction false} DropTwice(p: string, i: nat, j: nat)
    requires i <= j <= |p|
    ensures p[i..][j - i..] == p[j..]
  {}

  lemma {:induction false} AtomsFrom(p: string, i: nat, a: Atom, next: nat)
    requires AtomAt(p, i, a, next)
    ensures Atoms(p[i..]) == [a] + Atoms(p[next..])
  {
    AtomsUnfold(p[i..], a, next - i);
    DropTwice(p, i, next);
  }

  lemma {:induction false} Reassociate(parts: seq<Atom>, a: Atom, rest: seq<Atom>)
    ensures parts + ([a] + rest) == (parts + [a]) + rest
  {}

  lemma {:induction false} TakeAtom(p: string, i: nat, parts: seq<Atom>, a: Atom, next: nat)
    requires AtomAt(p, i, a, next)
    ensures parts + Atoms(p[i..]) == (parts + [a]) + Atoms(p[next..])
  {
    AtomsFrom(p, i, a, next);
    Reassociate(parts, a, Atoms(p[next..]));
  }

  lemma {:induction false} AtomHere(p: string, i: nat)
    requires i < |p|
    ensures p[i..][0] == p[i] && |p[i..]| == |p| - i
    ensures i + 1 < |p| ==> p[i..][1] == p[i + 1]
    ensures i + 2 < |p| ==> p[i..][2] == p[i + 2]
  {}

  /** What stands at position i: an atom, and where the next one starts. */
  method NextAtom(pattern: string, i: nat) returns (a: Atom, next: nat)
    requires i < |pattern|
    ensures AtomAt(pattern, i, a, next)
  {
    var c, n := pattern[i], |pattern|;
    AtomHere(pattern, i);
    if c == '*' {
      if i + 1 < n && pattern[i + 1] == '*' {
        if i + 2 < n && pattern[i + 2] == '/' {
          return Dirs, i + 3;
        }
        return Anything, i + 2;
      }
      return InSegment, i + 1;
    } else if c == '?' {
      return OneInSegment, i + 1;
    } else if c == '[' {
      FindCloseAt(pattern, i, i + 1);
      var j := FindClose(pattern, i + 1);
      if j == n || j == i + 1 {
        return Literal(c), i + 1;
      }
      assert pattern[i..][1..j - i] == pattern[i + 1..j];
      return ClassOf(pattern[i + 1..j]), j + 1;
    }
    return Literal(c), i + 1;
  }

  /** The atoms of the first i characters have been put out. */
  ghost predicate TranslatedTo(pattern: string, i: nat, parts: seq<Atom>) {
    i <= |pattern| && parts + Atoms(pattern[i..]) == Atoms(pattern)
  }

  lemma {:induction false} TranslateStep(pattern: string, i: nat, parts: seq<Atom>, a: Atom, next: nat)
    requires TranslatedTo(pattern, i, parts) && AtomAt(pattern, i, a, next)
    ensures TranslatedTo(pattern, next, parts + [a]) && i < next
  {
    TakeAtom(pattern, i, parts, a, next);
  }

  lemma {:induction false} TranslateEnds(pattern: string, parts: seq<Atom>)
    ensures TranslatedTo(pattern, 0, [])
    ensures TranslatedTo(pattern, |pattern|, parts) ==> parts == Atoms(pattern)
  {
    assert pattern[0..] == pattern && [] + Atoms(pattern) == Atoms(pattern);
    assert pattern[|pattern|..] == "" && parts + [] == parts;
  }

  /** The translator's loop over the pattern. */
  method GlobRegex(pattern: string) returns (parts: seq<Atom>)
    ensures parts == Atoms(pattern)
  {
    parts := [];
    var i := 0;
    TranslateEnds(pattern, []);
    while i < |pattern|
      invariant TranslatedTo(pattern, i, parts)
      decreases |pattern| - i
    {
      var a, next := NextAtom(pattern, i);
      TranslateStep(pattern, i, parts, a, next);
      parts := parts + [a];
      i := next;
    }
    TranslateEnds(pattern, parts);
  }

  /** A bracket with something in it, up to its first closing one, is a class; a leading exclamation mark
      becomes the negation of regular expressions. */
  lemma {:induction false} BracketIsClass(inner: string, rest: string)
    requires inner != "" && ']' !in inner
    ensures Atoms("[" + (inner + ("]" + rest))) ==
      [Class(if inner[0] == '!' then "^" + inner[1..] else inner)] + Atoms(rest)
  {
    var p := "[" + (inner + ("]" + rest));
    var n := |inner|;
    forall i | 1 <= i <= n ensures p[i] == inner[i - 1] && p[i] != ']' {
      assert inner[i - 1] in inner;
    }
    assert p[n + 1] == ']';
    FirstCloseAt(p, 1, n + 1);
    assert p[1..n + 1] == inner && p[n + 2..] == rest;
  }

  lemma {:induction false} FirstCloseAt(p: string, from: nat, j: nat)
    requires from <= j <= |p| && (j < |p| ==> p[j] == ']') && forall i | from <= i < j :: p[i] != ']'
    ensures FindClose(p, from) == j
    decreases |p| - from
  {
    if from < j {
      FirstCloseAt(p, from + 1, j);
    }
  }

  /** A bracket that is never closed, or closed at once, stands for itself. */
  lemma {:induction false} BracketIsLiteral(rest: string)
    requires ']' !in rest || rest[0] == ']'
    ensures Atoms("[" + rest) == [Literal('[')] + Atoms(rest)
  {
    var p := "[" + rest;
    assert p[1..] == rest;
    if ']' !in rest {
      forall i | 1 <= i < |p| ensures p[i] != ']' { assert p[i] == rest[i - 1] && rest[i - 1] in rest; }
      FirstCloseAt(p, 1, |p|);
    } else {
      FirstCloseAt(p, 1, 1);
    }
  }

  // ----- what the regex matches -----

  /** What a bracket class matches; its text goes to the regex engine as it is. */
  type Classes = (string, char) -> bool

  predicate NoNewline(s: string) {
    forall c | c in s :: c != '\n'
  }

  predicate NoSlash(s: string) {
    forall c | c in s :: c != '/'
  }

  /** The anchored regex of the atoms matches the text, by trying the ways to match from left to
      right. A dot does not match a newline, and the final `$` also matches before one last
      newline. */
  predicate Matches(classes: Classes, atoms: seq<Atom>, s: string)
    decreases |atoms|, |s|
  {
    if atoms == [] then s == "" || s == "\n"
    else
      var rest := atoms[1..];
      match atoms[0]
      case Dirs => Matches(classes, rest, s) || MatchesPastSlash(classes, rest, s)
      case Anything => Matches(classes, rest, s) || (s != "" && s[0] != '\n' && Matches(classes, atoms, s[1..]))
      case InSegment => Matches(classes, rest, s) || (s != "" && s[0] != '/' && Matches(classes, atoms, s[1..]))
      case OneInSegment => s != "" && s[0] != '/' && Matches(classes, rest, s[1..])
      case Literal(c) => s != "" && s[0] == c && Matches(classes, rest, s[1..])
      case Class(inner) => s != "" && classes(inner, s[0]) && Matches(classes, rest, s[1..])
  }

  /** Any text up to and including some slash, and then the rest. */
  predicate MatchesPastSlash(classes: Classes, rest: seq<Atom>, s: string)
    decreases |rest|, |s|
  {
    s != "" && ((s[0] == '/' && Matches(classes, rest, s[1..])) || (s[0] != '\n' && MatchesPastSlash(classes, rest, s[1..])))
  }

  function ToPosix(path: string): (r: string)
    ensures |r| == |path| && forall i | 0 <= i < |path| :: r[i] == if path[i] == '\\' then '/' else path[i]
  {
    if path == "" then "" else [if path[0] == '\\' then '/' else path[0]] + ToPosix(path[1..])
  }

  /** Some pattern matches the path. */
  method GlobMatch(classes: Classes, relPath: string, patterns: seq<string>) returns (r: bool)
    ensures r <==> exists p | p in patterns :: Matches(classes, Atoms(p), ToPosix(relPath))
  {
    var path := ToPosix(relPath);
    for i := 0 to |patterns|
      invariant forall j | 0 <= j < i :: !Matches(classes, Atoms(patterns[j]), path)
    {
      var atoms := GlobRegex(patterns[i]);
      if Matches(classes, atoms, path) {
        assert patterns[i] in patterns;
        return true;
      }
    }
    return false;
  }

  // ----- segment by segment -----

  function FirstSlash(s: string): (k: nat)
    ensures k <= |s| && NoSlash(s[..k]) && (k < |s| ==> s[k] == '/')
  {
    if s == "" || s[0] == '/' then 0
    else
      var k := 1 + FirstSlash(s[1..]);
      assert s[..k] == [s[0]] + s[1..][..k - 1];
      k
  }

  /** The segments between the slashes. */
  function Segments(s: string): (r: seq<string>)
    ensures r != []
    decreases |s|
  {
    var k := FirstSlash(s);
    if k == |s| then [s] else [s[..k]] + Segments(s[k + 1..])
  }

  function JoinSlash(parts: seq<string>): string {
    if parts == [] then "" else if |parts| == 1 then parts[0] else parts[0] + ("/" + JoinSlash(parts[1..]))
  }

  /** Wildcards within one segment: `*` for any text, `?` for one character. */
  predicate SegmentMatches(p: string, s: string)
    decreases |p|, |s|
  {
    if p == "" then s == ""
    else if p[0] == '*' then SegmentMatches(p[1..], s) || (s != "" && SegmentMatches(p, s[1..]))
    else s != "" && (p[0] == '?' || p[0] == s[0]) && SegmentMatches(p[1..], s[1..])
  }

  /** `**` stands for any number of segments, also none before others, and at least one at the
      end; other segments match one segment each. */
  predicate PathMatches(ps: seq<string>, ss: seq<string>)
    decreases |ps|, |ss|
  {
    if ps == [] then ss == []
    else if ps[0] == "**" then
      if |ps| == 1 then ss != []
      else PathMatches(ps[1..], ss) || (ss != [] && PathMatches(ps, ss[1..]))
    else ss != [] && SegmentMatches(ps[0], ss[0]) && PathMatches(ps[1..], ss[1..])
  }

  predicate DoubleStarAt(p: string, i: nat)
    requires i + 1 < |p|
  {
    p[i] == '*' && p[i + 1] == '*'
  }

  /** No slash, no bracket, no two stars in a row. */
  predicate PlainSegment(p: string) {
    && (forall c | c in p :: c != '/' && c != '[')
    && (forall i | 0 <= i < |p| - 1 :: !DoubleStarAt(p, i))
  }

  predicate SegmentPattern(ps: seq<string>) {
    ps != [] && forall p | p in ps :: p == "**" || PlainSegment(p)
  }

  /** The atoms of a plain segment: one for each character. */
  function SegmentAtoms(p: string): seq<Atom> {
    if p == "" then []
    else [if p[0] == '*' then InSegment else if p[0] == '?' then OneInSegment else Literal(p[0])] + SegmentAtoms(p[1..])
  }

  function PatternAtoms(ps: seq<string>): seq<Atom> {
    if ps == [] then []
    else if ps[0] == "**" then (if |ps| == 1 then [Anything] else [Dirs] + PatternAtoms(ps[1..]))
    else if |ps| == 1 then SegmentAtoms(ps[0])
    else SegmentAtoms(ps[0]) + ([Literal('/')] + PatternAtoms(ps[1..]))
  }

  lemma {:induction false} PlainTail(p: string)
    requires PlainSegment(p) && p != ""
    ensures PlainSegment(p[1..])
  {
    var t := p[1..];
    forall i | 0 <= i < |t| - 1 ensures !DoubleStarAt(t, i) {
      assert !DoubleStarAt(p, i + 1);
    }
    forall c | c in t ensures c != '/' && c != '[' {
      assert c in p;
    }
  }

  lemma {:induction false} AtomsOfSegment(p: string, rest: string)
    requires PlainSegment(p) && (rest == "" || rest[0] == '/')
    ensures Atoms(p + rest) == SegmentAtoms(p) + Atoms(rest)
    decreases |p|
  {
    if p == "" {
      assert p + rest == rest;
    } else {
      var s := p + rest;
      assert p[0] in p;
      assert |p| > 1 ==> !DoubleStarAt(p, 0);
      assert |p| > 1 ==> s[1] == p[1];
      assert FirstAtom(s).1 == 1;
      assert s[1..] == p[1..] + rest;
      PlainTail(p);
      AtomsOfSegment(p[1..], rest);
    }
  }

  lemma {:induction false} AtomsOfSlash(rest: string)
    ensures Atoms("/" + rest) == [Literal('/')] + Atoms(rest)
  {
    assert ("/" + rest)[1..] == rest;
  }

  lemma {:induction false} AtomsOfStars(rest: string)
    ensures Atoms("**" + ("/" + rest)) == [Dirs] + Atoms(rest)
    ensures Atoms("**") == [Anything]
  {
    var s := "**" + ("/" + rest);
    assert s[3..] == rest && FirstAtom(s) == (Dirs, 3);
    assert FirstAtom("**") == (Anything, 2) && "**"[2..] == "";
    assert Atoms("") == [];
  }

  lemma {:induction false} AtomsOfPattern(ps: seq<string>)
    requires SegmentPattern(ps)
    ensures Atoms(JoinSlash(ps)) == PatternAtoms(ps)
  {
    assert ps[0] in ps;
    if |ps| == 1 {
      if ps[0] == "**" {
        AtomsOfStars("");
      } else {
        AtomsOfSegment(ps[0], "");
        assert ps[0] + "" == ps[0] && SegmentAtoms(ps[0]) + [] == SegmentAtoms(ps[0]);
      }
    } else {
      assert forall p | p in ps[1..] :: p in ps;
      AtomsOfPattern(ps[1..]);
      var rest := JoinSlash(ps[1..]);
      if ps[0] == "**" {
        AtomsOfStars(rest);
      } else {
        AtomsOfSegment(ps[0], "/" + rest);
        AtomsOfSlash(rest);
      }
    }
  }

  // ----- the translation preserves meaning -----

  lemma {:induction false} MatchOne(classes: Classes, a: Atom, rest: seq<Atom>, s: string)
    ensures Matches(classes, [a] + rest, s) <==> match a
      case Dirs => Matches(classes, rest, s) || MatchesPastSlash(classes, rest, s)
      case Anything => Matches(classes, rest, s) || (s != "" && s[0] != '\n' && Matches(classes, [a] + rest, s[1..]))
      case InSegment => Matches(classes, rest, s) || (s != "" && s[0] != '/' && Matches(classes, [a] + rest, s[1..]))
      case OneInSegment => s != "" && s[0] != '/' && Matches(classes, rest, s[1..])
      case Literal(c) => s != "" && s[0] == c && Matches(classes, rest, s[1..])
      case Class(inner) => s != "" && classes(inner, s[0]) && Matches(classes, rest, s[1..])
  {
    assert ([a] + rest)[1..] == rest;
  }

  /** The atoms of a plain segment and then the rest, character by character of the segment. */
  predicate SegmentThen(classes: Classes, p: string, rest: seq<Atom>, s: string)
    decreases |p|, |s|
  {
    if p == "" then Matches(classes, rest, s)
    else if p[0] == '*' then SegmentThen(classes, p[1..], rest, s) || (s != "" && s[0] != '/' && SegmentThen(classes, p, rest, s[1..]))
    else s != "" && s[0] != '/' && (p[0] == '?' || p[0] == s[0]) && SegmentThen(classes, p[1..], rest, s[1..])
  }

  lemma {:induction false} SegmentThenRest(classes: Classes, p: string, rest: seq<Atom>, s: string)
    requires PlainSegment(p)
    ensures Matches(classes, SegmentAtoms(p) + rest, s) <==> SegmentThen(classes, p, rest, s)
    decreases |p|, |s|
  {
    if p == "" {
      assert [] + rest == rest;
    } else {
      var a, tail := SegmentAtoms(p)[0], SegmentAtoms(p[1..]) + rest;
      assert SegmentAtoms(p) + rest == [a] + tail;
      assert p[0] in p;
      PlainTail(p);
      MatchOne(classes, a, tail, s);
      if p[0] == '*' {
        SegmentThenRest(classes, p[1..], rest, s);
        if s != "" { SegmentThenRest(classes, p, rest, s[1..]); }
      } else if s != "" {
        SegmentThenRest(classes, p[1..], rest, s[1..]);
      }
    }
  }

  /** At the end of the pattern a segment takes the whole text, which then has no slash. */
  lemma {:induction false} SegmentThenEnd(classes: Classes, p: string, s: string)
    requires NoNewline(s)
    ensures SegmentThen(classes, p, [], s) <==> FirstSlash(s) == |s| && SegmentMatches(p, s)
    decreases |p|, |s|
  {
    if s != "" {
      NoNewlineTail(s, 1);
      assert s[0] in s;
    }
    if p == "" {
    } else if p[0] == '*' {
      SegmentThenEnd(classes, p[1..], s);
      if s != "" { SegmentThenEnd(classes, p, s[1..]); }
    } else if s != "" {
      SegmentThenEnd(classes, p[1..], s[1..]);
    }
  }

  /** Before a slash a segment takes the text up to the first slash. */
  lemma {:induction false} SegmentThenSlash(classes: Classes, p: string, rest: seq<Atom>, s: string)
    ensures SegmentThen(classes, p, [Literal('/')] + rest, s) <==>
      FirstSlash(s) < |s| && SegmentMatches(p, s[..FirstSlash(s)]) && Matches(classes, rest, s[FirstSlash(s) + 1..])
    decreases |p|, |s|
  {
    var f := FirstSlash(s);
    MatchOne(classes, Literal('/'), rest, s);
    if s != "" && s[0] != '/' {
      assert f == 1 + FirstSlash(s[1..]);
      assert s[..f][1..] == s[1..][..f - 1] && s[..f][0] == s[0];
      if f < |s| { assert s[f + 1..] == s[1..][f..]; }
    }
    if p == "" {
    } else if p[0] == '*' {
      SegmentThenSlash(classes, p[1..], rest, s);
      if s != "" && s[0] != '/' { SegmentThenSlash(classes, p, rest, s[1..]); }
    } else if s != "" && s[0] != '/' {
      SegmentThenSlash(classes, p[1..], rest, s[1..]);
    }
  }

  // ----- segments of the text -----

  lemma {:induction false} SlashFreeIsOne(s: string)
    ensures NoSlash(s) <==> FirstSlash(s) == |s|
    ensures NoSlash(s) ==> Segments(s) == [s]
  {
    var k := FirstSlash(s);
    if k < |s| {
      assert s[k] in s;
    } else {
      assert s[..k] == s;
    }
  }

  lemma {:induction false} NoSegmentsNoMatch(ps: seq<string>)
    requires ps != []
    ensures !PathMatches(ps, [])
  {
    if ps[0] == "**" && |ps| > 1 {
      NoSegmentsNoMatch(ps[1..]);
    }
  }

  lemma {:induction false} PastSlashStep(classes: Classes, rest: seq<Atom>, s: string)
    requires NoNewline(s)
    ensures var f := FirstSlash(s);
            MatchesPastSlash(classes, rest, s) <==>
              f < |s| && (Matches(classes, rest, s[f + 1..]) || MatchesPastSlash(classes, rest, s[f + 1..]))
  {
    if s != "" {
      assert s[0] in s;
      if s[0] != '/' {
        NoNewlineTail(s, 1);
        PastSlashStep(classes, rest, s[1..]);
        var f := FirstSlash(s);
        if f < |s| { assert s[f + 1..] == s[1..][f..]; }
      }
    }
  }

  /** Directories before the rest: none, or the first one and then any others. */
  lemma {:induction false} DirsStep(classes: Classes, rest: seq<Atom>, s: string)
    requires NoNewline(s)
    ensures Matches(classes, [Dirs] + rest, s) <==>
      Matches(classes, rest, s) || (FirstSlash(s) < |s| && Matches(classes, [Dirs] + rest, s[FirstSlash(s) + 1..]))
  {
    MatchOne(classes, Dirs, rest, s);
    PastSlashStep(classes, rest, s);
    if FirstSlash(s) < |s| {
      MatchOne(classes, Dirs, rest, s[FirstSlash(s) + 1..]);
    }
  }

  lemma {:induction false} AnythingMatches(classes: Classes, s: string)
    requires NoNewline(s)
    ensures Matches(classes, [Anything], s)
  {
    if s != "" {
      assert s[0] in s;
      NoNewlineTail(s, 1);
      AnythingMatches(classes, s[1..]);
    }
  }

  lemma {:induction false} NoNewlineTail(s: string, k: nat)
    requires NoNewline(s) && k <= |s|
    ensures NoNewline(s[k..])
  {
    forall c | c in s[k..] ensures c in s {}
  }

  /** The regex of a pattern of plain and double-star segments matches a path without newlines
      exactly when the pattern matches it segment by segment. */
  lemma {:induction false} TranslationPreservesMeaning(classes: Classes, ps: seq<string>, s: string)
    requires SegmentPattern(ps) && NoNewline(s)
    ensures Matches(classes, Atoms(JoinSlash(ps)), s) <==> PathMatches(ps, Segments(s))
  {
    AtomsOfPattern(ps);
    PatternMatches(classes, ps, s);
  }

  lemma {:induction false} PatternMatches(classes: Classes, ps: seq<string>, s: string)
    requires SegmentPattern(ps) && NoNewline(s)
    ensures Matches(classes, PatternAtoms(ps), s) <==> PathMatches(ps, Segments(s))
    decreases |ps|, |s|
  {
    assert ps[0] in ps;
    if ps[0] == "**" && |ps| == 1 {
      AnythingMatches(classes, s);
    } else if ps[0] == "**" {
      StarsMatch(classes, ps, s);
    } else if |ps| == 1 {
      LastSegmentMatches(classes, ps, s);
    } else {
      assert forall p | p in ps[1..] :: p in ps;
      InnerSegmentMatches(classes, ps, s);
    }
  }

  lemma {:induction false} StarsPath(ps: seq<string>, ss: seq<string>)
    requires |ps| > 1 && ps[0] == "**"
    ensures PathMatches(ps, ss) <==> PathMatches(ps[1..], ss) || (ss != [] && PathMatches(ps, ss[1..]))
  {}

  lemma {:induction false} StarsAtoms(classes: Classes, ps: seq<string>, s: string)
    requires SegmentPattern(ps) && NoNewline(s) && |ps| > 1 && ps[0] == "**"
    ensures SegmentPattern(ps[1..])
    ensures Matches(classes, PatternAtoms(ps), s) <==>
      Matches(classes, PatternAtoms(ps[1..]), s) || (FirstSlash(s) < |s| && Matches(classes, PatternAtoms(ps), s[FirstSlash(s) + 1..]))
  {
    assert forall p | p in ps[1..] :: p in ps;
    assert PatternAtoms(ps) == [Dirs] + PatternAtoms(ps[1..]);
    DirsStep(classes, PatternAtoms(ps[1..]), s);
  }

  lemma {:induction false} BehindFirstSlash(s: string)
    ensures Segments(s) != []
    ensures Segments(s)[1..] == if FirstSlash(s) < |s| then Segments(s[FirstSlash(s) + 1..]) else []
  {
    if FirstSlash(s) == |s| { SlashFreeIsOne(s); }
  }

  lemma {:induction false} StarsMatch(classes: Classes, ps: seq<string>, s: string)
    requires SegmentPattern(ps) && NoNewline(s) && ps[0] == "**" && |ps| > 1
    ensures Matches(classes, PatternAtoms(ps), s) <==> PathMatches(ps, Segments(s))
    decreases |ps|, |s|, 0
  {
    assert forall p | p in ps[1..] :: p in ps;
    PatternMatches(classes, ps[1..], s);
    if FirstSlash(s) < |s| {
      NoNewlineTail(s, FirstSlash(s) + 1);
      StarsMatch(classes, ps, s[FirstSlash(s) + 1..]);
    }
    StarsStep(classes, ps, s);
  }

  /** The regex of the segments matches as the segments do. */
  predicate Agree(classes: Classes, ps: seq<string>, s: string)
    requires SegmentPattern(ps)
  {
    Matches(classes, PatternAtoms(ps), s) <==> PathMatches(ps, Segments(s))
  }

  lemma {:induction false} StarsStep(classes: Classes, ps: seq<string>, s: string)
    requires SegmentPattern(ps) && SegmentPattern(ps[1..]) && NoNewline(s) && |ps| > 1 && ps[0] == "**"
    requires Agree(classes, ps[1..], s) && (FirstSlash(s) < |s| ==> Agree(classes, ps, s[FirstSlash(s) + 1..]))
    ensures Agree(classes, ps, s)
  {
    StarsAtoms(classes, ps, s);
    StarsPath(ps, Segments(s));
    BehindFirstSlash(s);
    NoSegmentsNoMatch(ps);
  }

  lemma {:induction false} LastSegmentMatches(classes: Classes, ps: seq<string>, s: string)
    requires SegmentPattern(ps) && NoNewline(s) && |ps| == 1 && ps[0] != "**" && PlainSegment(ps[0])
    ensures Matches(classes, SegmentAtoms(ps[0]), s) <==> PathMatches(ps, Segments(s))
  {
    SegmentThenRest(classes, ps[0], [], s);
    assert SegmentAtoms(ps[0]) + [] == SegmentAtoms(ps[0]);
    SegmentThenEnd(classes, ps[0], s);
    assert ps[1..] == [];
  }

  lemma {:induction false} InnerSegmentMatches(classes: Classes, ps: seq<string>, s: string)
    requires SegmentPattern(ps) && SegmentPattern(ps[1..]) && NoNewline(s) && |ps| > 1 && ps[0] != "**"
    ensures Matches(classes, PatternAtoms(ps), s) <==> PathMatches(ps, Segments(s))
    decreases |ps|, |s|, 0
  {
    var rest := PatternAtoms(ps[1..]);
    assert ps[0] in ps;
    SegmentThenRest(classes, ps[0], [Literal('/')] + rest, s);
    SegmentThenSlash(classes, ps[0], rest, s);
    var f := FirstSlash(s);
    if f < |s| {
      NoNewlineTail(s, f + 1);
      PatternMatches(classes, ps[1..], s[f + 1..]);
      assert Segments(s)[1..] == Segments(s[f + 1..]) && Segments(s)[0] == s[..f];
    } else {
      assert Segments(s)[1..] == [];
      NoSegmentsNoMatch(ps[1..]);
    }
  }

  /** Without double stars a path matches only with as many segments as the pattern has: `*` and
      `?` never cross a slash. */
  lemma {:induction false} PlainKeepsDepth(ps: seq<string>, ss: seq<string>)
    requires (forall p | p in ps :: p != "**") && PathMatches(ps, ss)
    ensures |ss| == |ps|
  {
    if ps != [] {
      assert ps[0] in ps;
      assert forall p | p in ps[1..] :: p in ps;
      PlainKeepsDepth(ps[1..], ss[1..]);
    }
  }

  /** A leading `**` with a slash matches any number of leading directories, including none. */
  lemma {:induction false} LeadingStars(ps: seq<string>, ss: seq<string>)
    requires ps != []
    ensures PathMatches(["**"] + ps, ss) <==> exists k | 0 <= k <= |ss| :: PathMatches(ps, ss[k..])
    decreases |ss|
  {
    var all := ["**"] + ps;
    assert all[1..] == ps && ss[0..] == ss;
    if ss != [] {
      LeadingStars(ps, ss[1..]);
      if k :| 0 <= k <= |ss| && PathMatches(ps, ss[k..]) {
        if k > 0 { assert ss[1..][k - 1..] == ss[k..]; }
      }
      if k :| 0 <= k <= |ss[1..]| && PathMatches(ps, ss[1..][k..]) {
        assert ss[k + 1..] == ss[1..][k..];
      }
    }
  }

  // ----- every pattern without brackets -----

  /** A prefix of the text that a wildcard may stand for. */
  predicate Spans(a: Atom, s: string, k: nat)
    requires k <= |s|
  {
    match a
    case Dirs => k == 0 || s[k - 1] == '/'
    case Anything => true
    case InSegment => NoSlash(s[..k])
    case OneInSegment => k == 1 && s[0] != '/'
    case Literal(c) => k == 1 && s[0] == c
    case Class(_) => false
  }

  /** The meaning of a pattern without brackets: each of its pieces stands for a stretch of the
      text, `**` and a slash for whole directories or nothing, `**` for anything, `*` for anything
      without a slash, `?` for one character that is no slash, any other character for itself. */
  ghost predicate GlobMeans(p: string, s: string)
    decreases |p|
  {
    if p == "" then s == ""
    else
      var (a, n) := FirstAtom(p);
      exists k: nat | k <= |s| :: Spans(a, s, k) && GlobMeans(p[n..], s[k..])
  }

  lemma {:induction false} AnythingSpans(classes: Classes, rest: seq<Atom>, s: string)
    requires NoNewline(s)
    ensures Matches(classes, [Anything] + rest, s) <==> exists k: nat | k <= |s| :: Spans(Anything, s, k) && Matches(classes, rest, s[k..])
  {
    MatchOne(classes, Anything, rest, s);
    assert s[0..] == s && Spans(Anything, s, 0);
    if s != "" {
      assert s[0] in s;
      NoNewlineTail(s, 1);
      AnythingSpans(classes, rest, s[1..]);
      if k: nat :| k <= |s| && Spans(Anything, s, k) && Matches(classes, rest, s[k..]) {
        if k > 0 { assert s[1..][k - 1..] == s[k..] && Spans(Anything, s[1..], k - 1); }
      }
      if k: nat :| k <= |s[1..]| && Spans(Anything, s[1..], k) && Matches(classes, rest, s[1..][k..]) {
        assert s[1..][k..] == s[k + 1..] && Spans(Anything, s, k + 1);
      }
    }
  }

  lemma {:induction false} SlashFreeCons(s: string, k: nat)
    requires s != "" && k <= |s[1..]| && s[0] != '/' && NoSlash(s[1..][..k])
    ensures NoSlash(s[..k + 1])
  {
    var t := s[1..][..k];
    assert s[..k + 1] == [s[0]] + t;
    forall c | c in [s[0]] + t ensures c != '/' {
      assert c == s[0] || c in t;
    }
  }

  lemma {:induction false} SlashFreeTail(s: string, k: nat)
    requires 0 < k <= |s| && NoSlash(s[..k])
    ensures NoSlash(s[1..][..k - 1])
  {
    assert s[1..][..k - 1] == s[..k][1..];
    forall c | c in s[..k][1..] ensures c in s[..k] {}
  }

  lemma {:induction false} InSegmentSpans(classes: Classes, rest: seq<Atom>, s: string)
    ensures Matches(classes, [InSegment] + rest, s) <==> exists k: nat | k <= |s| :: Spans(InSegment, s, k) && Matches(classes, rest, s[k..])
  {
    MatchOne(classes, InSegment, rest, s);
    assert s[0..] == s && Spans(InSegment, s, 0);
    if s != "" {
      InSegmentSpans(classes, rest, s[1..]);
      if k: nat :| k <= |s| && Spans(InSegment, s, k) && Matches(classes, rest, s[k..]) {
        if k > 0 {
          assert s[..k][0] in s[..k] && s[1..][k - 1..] == s[k..];
          SlashFreeTail(s, k);
          assert Spans(InSegment, s[1..], k - 1);
        }
      }
      if k: nat :| s[0] != '/' && k <= |s[1..]| && Spans(InSegment, s[1..], k) && Matches(classes, rest, s[1..][k..]) {
        assert s[1..][k..] == s[k + 1..];
        SlashFreeCons(s, k);
        assert Spans(InSegment, s, k + 1);
      }
    }
  }

  lemma {:induction false} PastSlashSpans(classes: Classes, rest: seq<Atom>, s: string)
    requires NoNewline(s)
    ensures MatchesPastSlash(classes, rest, s) <==> exists k: nat | k <= |s| :: k > 0 && Spans(Dirs, s, k) && Matches(classes, rest, s[k..])
  {
    if s != "" {
      assert s[0] in s;
      NoNewlineTail(s, 1);
      PastSlashSpans(classes, rest, s[1..]);
      if k: nat :| k <= |s| && k > 0 && Spans(Dirs, s, k) && Matches(classes, rest, s[k..]) {
        if k > 1 { assert s[1..][k - 1..] == s[k..] && Spans(Dirs, s[1..], k - 1); }
      }
      if k: nat :| k <= |s[1..]| && k > 0 && Spans(Dirs, s[1..], k) && Matches(classes, rest, s[1..][k..]) {
        assert s[1..][k..] == s[k + 1..] && Spans(Dirs, s, k + 1);
      }
      if s[0] == '/' { assert Spans(Dirs, s, 1); }
    }
  }

  lemma {:induction false} DirsSpans(classes: Classes, rest: seq<Atom>, s: string)
    requires NoNewline(s)
    ensures Matches(classes, [Dirs] + rest, s) <==> exists k: nat | k <= |s| :: Spans(Dirs, s, k) && Matches(classes, rest, s[k..])
  {
    MatchOne(classes, Dirs, rest, s);
    PastSlashSpans(classes, rest, s);
    assert s[0..] == s && Spans(Dirs, s, 0);
  }

  lemma {:induction false} OneSpans(classes: Classes, a: Atom, rest: seq<Atom>, s: string)
    requires a.OneInSegment? || a.Literal?
    ensures Matches(classes, [a] + rest, s) <==> exists k: nat | k <= |s| :: Spans(a, s, k) && Matches(classes, rest, s[k..])
  {
    MatchOne(classes, a, rest, s);
    if s != "" {
      assert Spans(a, s, 1) <==> if a.OneInSegment? then s[0] != '/' else s[0] == a.c;
    }
  }

  lemma {:induction false} AtomSpans(classes: Classes, a: Atom, rest: seq<Atom>, s: string)
    requires !a.Class? && NoNewline(s)
    ensures Matches(classes, [a] + rest, s) <==> exists k: nat | k <= |s| :: Spans(a, s, k) && Matches(classes, rest, s[k..])
  {
    match a {
      case Dirs => DirsSpans(classes, rest, s);
      case Anything => AnythingSpans(classes, rest, s);
      case InSegment => InSegmentSpans(classes, rest, s);
      case OneInSegment => OneSpans(classes, a, rest, s);
      case Literal(_) => OneSpans(classes, a, rest, s);
    }
  }

  /** The translation preserves meaning on every pattern without brackets and every path without
      newlines. */
  lemma {:induction false} RegexMeansGlob(classes: Classes, p: string, s: string)
    requires (forall c | c in p :: c != '[') && NoNewline(s)
    ensures Matches(classes, Atoms(p), s) <==> GlobMeans(p, s)
    decreases |p|
  {
    if p == "" {
      assert '\n' in "\n";
    } else {
      var (a, n) := FirstAtom(p);
      assert p[0] in p;
      assert forall c | c in p[n..] :: c in p;
      AtomSpans(classes, a, Atoms(p[n..]), s);
      forall k: nat | k <= |s| ensures Matches(classes, Atoms(p[n..]), s[k..]) <==> GlobMeans(p[n..], s[k..]) {
        NoNewlineTail(s, k);
        RegexMeansGlob(classes, p[n..], s[k..]);
      }
    }
  }
}
