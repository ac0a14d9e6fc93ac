/** Minting trace ids: slugs, numbered suffixes, and the type an id is read back as. */
module IdGeneration {
  import opened Models
  import opened Grammar
  import opened Ids
  import opened Decimals

  // ----- slugs -----

  predicate IsSlugChar(c: char) { 'a' <= c <= 'z' || IsDigit(c) }

  /** Every run of other characters becomes one dash. */
  function Collapse(s: string, inRun: bool): string {
    if s == [] then []
    else if IsSlugChar(s[0]) then [s[0]] + Collapse(s[1..], false)
    else (if inRun then [] else "-") + Collapse(s[1..], true)
  }

  function TrimLeft(s: string): string {
    if s != [] && s[0] == '-' then TrimLeft(s[1..]) else s
  }

  function TrimRight(s: string): string {
    if s != [] && s[|s| - 1] == '-' then TrimRight(s[..|s| - 1]) else s
  }

  /** The slug of a name whose letters are already in lower case. */
  function Slug(lowered: string): string {
    var slug := TrimRight(TrimLeft(Collapse(lowered, false)));
    if slug == "" then "artifact" else slug
  }

  /** The characters of the name that a slug keeps. */
  function Kept(s: string): string {
    if s == [] then [] else (if IsSlugChar(s[0]) then [s[0]] else []) + Kept(s[1..])
  }

  predicate SlugText(s: string) {
    forall i | 0 <= i < |s| :: IsSlugChar(s[i]) || s[i] == '-'
  }

  predicate NoDoubleDash(s: string) {
    forall i | 0 <= i < |s| - 1 :: !(s[i] == '-' && s[i + 1] == '-')
  }

  /** Words of letters and digits with single dashes between them. */
  predicate IsSlug(s: string) {
    s != [] && SlugText(s) && NoDoubleDash(s) && s[0] != '-' && s[|s| - 1] != '-'
  }

  lemma {:induction false} CollapseHead(s: string, inRun: bool)
    ensures var r := Collapse(s, inRun); SlugText(r) && (inRun && r != [] ==> r[0] != '-')
  {
    if s != [] {
      CollapseHead(s[1..], !IsSlugChar(s[0]));
    }
  }

  lemma {:induction false} DashFirst(rest: string)
    requires NoDoubleDash(rest) && (rest != [] ==> rest[0] != '-')
    ensures NoDoubleDash(['-'] + rest)
  {}

  lemma {:induction false} LetterFirst(c: char, rest: string)
    requires NoDoubleDash(rest) && c != '-'
    ensures NoDoubleDash([c] + rest)
  {}

  lemma {:induction false} CollapseDashes(s: string, inRun: bool)
    ensures NoDoubleDash(Collapse(s, inRun))
  {
    if s != [] {
      CollapseDashes(s[1..], !IsSlugChar(s[0]));
      var rest := Collapse(s[1..], !IsSlugChar(s[0]));
      if IsSlugChar(s[0]) {
        LetterFirst(s[0], rest);
      } else if inRun {
        assert [] + rest == rest;
      } else {
        CollapseHead(s[1..], true);
        DashFirst(rest);
      }
    }
  }

  lemma {:induction false} KeptCons(c: char, rest: string)
    ensures Kept([c] + rest) == (if IsSlugChar(c) then [c] else []) + Kept(rest)
  {
    assert ([c] + rest)[1..] == rest;
  }

  lemma {:induction false} CollapseKeeps(s: string, inRun: bool)
    ensures Kept(Collapse(s, inRun)) == Kept(s)
  {
    if s != [] {
      CollapseKeeps(s[1..], !IsSlugChar(s[0]));
      var rest := Collapse(s[1..], !IsSlugChar(s[0]));
      if IsSlugChar(s[0]) {
        KeptCons(s[0], rest);
      } else if inRun {
        assert [] + rest == rest && [] + Kept(rest) == Kept(rest);
      } else {
        KeptCons('-', rest);
      }
    }
  }

  lemma {:induction false} TrimLeftShape(s: string)
    requires SlugText(s) && NoDoubleDash(s)
    ensures var r := TrimLeft(s);
            SlugText(r) && NoDoubleDash(r) && Kept(r) == Kept(s) && (r != [] ==> r[0] != '-')
  {
    if s != [] && s[0] == '-' {
      TrimLeftShape(s[1..]);
    }
  }

  lemma {:induction false} KeptConcat(a: string, b: string)
    ensures Kept(a + b) == Kept(a) + Kept(b)
  {
    if a == [] {
      assert a + b == b;
    } else {
      assert a + b == [a[0]] + (a[1..] + b);
      KeptCons(a[0], a[1..] + b);
      KeptConcat(a[1..], b);
    }
  }

  lemma {:induction false} TrimRightShape(s: string)
    requires SlugText(s) && NoDoubleDash(s) && (s != [] ==> s[0] != '-')
    ensures var r := TrimRight(s);
            SlugText(r) && NoDoubleDash(r) && Kept(r) == Kept(s) && (r != [] ==> r[0] != '-' && r[|r| - 1] != '-')
  {
    if s != [] && s[|s| - 1] == '-' {
      var init := s[..|s| - 1];
      assert s == init + ['-'];
      KeptConcat(init, ['-']);
      KeptCons('-', []);
      assert ['-'] + [] == ['-'];
      TrimRightShape(init);
    }
  }

  /** A slug is made of words joined by single dashes, and keeps exactly the letters and digits
      of the name, in order; a name without any gives the stock word. */
  lemma {:induction false} SlugKeepsLetters(name: string)
    ensures IsSlug(Slug(name))
    ensures Slug(name) == "artifact" || Kept(Slug(name)) == Kept(name)
    ensures Kept(name) == "" ==> Slug(name) == "artifact"
  {
    CollapseHead(name, false);
    CollapseDashes(name, false);
    CollapseKeeps(name, false);
    TrimLeftShape(Collapse(name, false));
    var r := TrimLeft(Collapse(name, false));
    TrimRightShape(r);
    if TrimRight(r) != "" {
      assert IsSlugChar(TrimRight(r)[0]);
    }
  }

  // ----- slugs as words -----

  /** The words of a name: its runs of lower-case letters and digits. */
  function WordsOf(s: string): seq<string>
    decreases |s|
  {
    if s == "" then []
    else if IsWord(s[0]) then [FirstRun(s)] + WordsOf(BehindRun(s))
    else WordsOf(s[1..])
  }

  predicate IsWord(c: char) {
    'a' <= c <= 'z' || '0' <= c <= '9'
  }

  function FirstRun(s: string): string {
    if s != "" && IsWord(s[0]) then [s[0]] + FirstRun(s[1..]) else ""
  }

  function BehindRun(s: string): (r: string)
    ensures |r| <= |s| && (s != "" && IsWord(s[0]) ==> |r| < |s|)
  {
    if s != "" && IsWord(s[0]) then BehindRun(s[1..]) else s
  }

  function JoinWords(ws: seq<string>): string {
    if ws == [] then "" else if |ws| == 1 then ws[0] else ws[0] + ("-" + JoinWords(ws[1..]))
  }

  predicate IsDashOrNone(s: string) {
    s == "" || s == "-"
  }

  /** The text is the words joined by dashes, with a dash or none before and behind. */
  predicate Around(r: string, lead: string, ws: seq<string>, trail: string) {
    && IsDashOrNone(lead) && IsDashOrNone(trail)
    && if ws == [] then r == lead && trail == "" else r == lead + (JoinWords(ws) + trail)
  }

  lemma {:induction false} WordsOfRun(s: string)
    requires s != "" && IsWord(s[0])
    ensures WordsOf(s) == [[s[0]] + FirstRun(s[1..])] + WordsOf(BehindRun(s[1..]))
  {}

  /** A letter before words that start at once joins the first of them, and else is a word of its own. */
  lemma {:induction false} LetterJoins(s: string)
    requires s != "" && IsWord(s[0])
    ensures var ws := WordsOf(s[1..]);
      WordsOf(s) == if |s| > 1 && IsWord(s[1]) then [[s[0]] + ws[0]] + ws[1..] else [[s[0]]] + ws
  {
    WordsOfRun(s);
    if |s| > 1 && IsWord(s[1]) {
      WordsOfRun(s[1..]);
    } else {
      assert FirstRun(s[1..]) == "" && BehindRun(s[1..]) == s[1..];
      assert [s[0]] + "" == [s[0]];
    }
  }

  lemma {:induction false} CollapseIsWords(s: string, inRun: bool) returns (lead: string, trail: string)
    ensures Around(Collapse(s, inRun), lead, WordsOf(s), trail)
    ensures lead == if !inRun && s != "" && !IsWord(s[0]) then "-" else ""
  {
    lead, trail := "", "";
    if s != "" {
      var lead', trail' := CollapseIsWords(s[1..], !IsWord(s[0]));
      trail := trail';
      if IsWord(s[0]) {
        trail := LetterAround(s, lead', trail');
      } else {
        lead := if inRun then "" else "-";
        assert lead' == "";
        var j := JoinWords(WordsOf(s)) + trail;
        assert lead + ("" + j) == lead + j && lead + "" == lead;
        assert !IsSlugChar(s[0]) && (if inRun then [] else "-") == lead;
      }
    }
  }

  lemma {:induction false} LetterAround(s: string, lead: string, trail: string) returns (trail': string)
    requires s != "" && IsWord(s[0]) && Around(Collapse(s[1..], false), lead, WordsOf(s[1..]), trail)
    requires lead == if |s| > 1 && !IsWord(s[1]) then "-" else ""
    ensures Around(Collapse(s, false), "", WordsOf(s), trail')
  {
    LetterJoins(s);
    var c, ws := [s[0]], WordsOf(s[1..]);
    var rest := Collapse(s[1..], false);
    assert Collapse(s, false) == c + rest;
    if |s| > 1 && IsWord(s[1]) {
      trail' := trail;
      LongerWord(c, rest, ws, trail);
    } else {
      trail' := if ws == [] then lead else trail;
      assert ws != [] ==> |s| > 1;
      WordBefore(c, rest, lead, ws, trail);
    }
  }

  lemma {:induction false} LongerWord(c: string, rest: string, ws: seq<string>, trail: string)
    requires ws != [] && Around(rest, "", ws, trail)
    ensures Around(c + rest, "", [c + ws[0]] + ws[1..], trail)
  {
    JoinLonger(c, ws);
    MovesIn(c, "", JoinWords(ws), trail);
  }

  lemma {:induction false} WordBefore(c: string, rest: string, lead: string, ws: seq<string>, trail: string)
    requires Around(rest, lead, ws, trail) && (ws != [] ==> lead == "-")
    ensures Around(c + rest, "", [c] + ws, if ws == [] then lead else trail)
  {
    assert ([c] + ws)[1..] == ws;
    if ws != [] { MovesIn(c, "-", JoinWords(ws), trail); }
  }

  lemma {:induction false} MovesIn(c: string, lead: string, words: string, trail: string)
    ensures c + (lead + (words + trail)) == "" + ((c + (lead + words)) + trail)
  {}

  lemma {:induction false} JoinLonger(c: string, ws: seq<string>)
    requires ws != []
    ensures JoinWords([c + ws[0]] + ws[1..]) == c + JoinWords(ws)
  {
    assert ([c + ws[0]] + ws[1..])[1..] == ws[1..];
    if |ws| > 1 {
      assert (c + ws[0]) + ("-" + JoinWords(ws[1..])) == c + (ws[0] + ("-" + JoinWords(ws[1..])));
    }
  }

  lemma {:induction false} RunsAreWords(s: string)
    ensures forall w | w in WordsOf(s) :: w != "" && forall c | c in w :: IsWord(c)
    decreases |s|
  {
    if s != "" {
      if IsWord(s[0]) {
        RunIsWord(s);
        RunsAreWords(BehindRun(s));
      } else {
        RunsAreWords(s[1..]);
      }
    }
  }

  lemma {:induction false} RunIsWord(s: string)
    ensures forall c | c in FirstRun(s) :: IsWord(c)
  {
    if s != "" && IsWord(s[0]) {
      RunIsWord(s[1..]);
    }
  }

  lemma {:induction false} JoinEnds(ws: seq<string>)
    requires ws != [] && forall w | w in ws :: w != "" && forall c | c in w :: IsWord(c)
    ensures var j := JoinWords(ws); j != "" && j[0] != '-' && j[|j| - 1] != '-'
  {
    assert ws[0] in ws && ws[0][0] in ws[0] && ws[0][|ws[0]| - 1] in ws[0];
    if |ws| > 1 {
      assert forall w | w in ws[1..] :: w in ws;
      JoinEnds(ws[1..]);
    }
  }

  lemma {:induction false} TrimsAround(r: string, lead: string, j: string, trail: string)
    requires IsDashOrNone(lead) && IsDashOrNone(trail) && r == lead + (j + trail)
    requires j != "" && j[0] != '-' && j[|j| - 1] != '-'
    ensures TrimRight(TrimLeft(r)) == j
  {
    var t := j + trail;
    assert lead == "-" ==> r[1..] == t;
    assert lead == "" ==> r == t;
    assert t[0] != '-';
    assert TrimLeft(t) == t;
    assert trail == "-" ==> t[..|t| - 1] == j;
    assert trail == "" ==> t == j;
    assert TrimRight(j) == j;
  }

  /** A slug is the words of the name joined by single dashes, or the stock word when it has none. */
  lemma {:induction false} SlugIsWords(name: string)
    ensures Slug(name) == if WordsOf(name) == [] then "artifact" else JoinWords(WordsOf(name))
  {
    var lead, trail := CollapseIsWords(name, false);
    var r, ws := Collapse(name, false), WordsOf(name);
    if ws == [] {
      assert TrimLeft(r) == "";
    } else {
      RunsAreWords(name);
      JoinEnds(ws);
      TrimsAround(r, lead, JoinWords(ws), trail);
    }
  }

  lemma {:induction false} CollapseFixes(s: string)
    requires SlugText(s) && NoDoubleDash(s)
    ensures Collapse(s, false) == s
    ensures s != [] && s[0] != '-' ==> Collapse(s, true) == s
  {
    if s != [] {
      assert s == [s[0]] + s[1..];
      assert |s| > 1 && s[0] == '-' ==> s[1] != '-';
      CollapseFixes(s[1..]);
    }
  }

  /** Slugging a slug changes nothing. */
  lemma {:induction false} SlugIsIdempotent(name: string)
    ensures Slug(Slug(name)) == Slug(name)
  {
    SlugKeepsLetters(name);
    CollapseFixes(Slug(name));
  }

  // ----- numbered candidates -----

  /** The k-th name tried: the base itself, then the base with `-2`, `-3` and so on. */
  function Candidate(base: string, k: nat): string {
    if k < 2 then base else base + "-" + Decimal(k)
  }

  lemma {:induction false} CandidatesDiffer(base: string, i: nat, j: nat)
    requires 1 <= i < j
    ensures Candidate(base, i) != Candidate(base, j)
  {
    if i < 2 {
      assert |Candidate(base, j)| > |base|;
    } else if Candidate(base, i) == Candidate(base, j) {
      assert Candidate(base, i)[|base| + 1..] == Decimal(i);
      assert Candidate(base, j)[|base| + 1..] == Decimal(j);
      DecimalInjective(i, j);
    }
  }

  /** The id is the first candidate that is not taken. */
  ghost predicate IsFirstFree(base: string, taken: set<string>, id: string) {
    && id !in taken
    && exists k: nat :: IsCandidate(base, taken, id, k)
  }

  ghost predicate IsCandidate(base: string, taken: set<string>, id: string, k: nat) {
    k >= 1 && id == Candidate(base, k) && forall j: nat | 1 <= j < k :: Candidate(base, j) in taken
  }

  /** The first k names tried. */
  ghost function Tried(base: string, k: nat): set<string> {
    if k == 0 then {} else Tried(base, k - 1) + {Candidate(base, k)}
  }

  lemma {:induction false} TriedMember(base: string, k: nat, id: string)
    ensures id in Tried(base, k) <==> exists j: nat :: 1 <= j <= k && id == Candidate(base, j)
  {
    if k > 0 {
      TriedMember(base, k - 1, id);
    }
  }

  lemma {:induction false} TriedSize(base: string, k: nat)
    ensures |Tried(base, k)| == k
  {
    if k > 0 {
      TriedSize(base, k - 1);
      TriedMember(base, k - 1, Candidate(base, k));
      forall j: nat | 1 <= j < k ensures Candidate(base, j) != Candidate(base, k) {
        CandidatesDiffer(base, j, k);
      }
    }
  }

  lemma {:induction false} SubsetSize(a: set<string>, b: set<string>)
    requires a <= b
    ensures |a| <= |b|
  {
    if a != {} {
      var x :| x in a;
      SubsetSize(a - {x}, b - {x});
    }
  }

  /** Pigeonhole: only as many names can be taken as there are taken names. */
  lemma {:induction false} TriedWithin(base: string, k: nat, taken: set<string>)
    requires Tried(base, k) <= taken
    ensures k <= |taken|
  {
    TriedSize(base, k);
    SubsetSize(Tried(base, k), taken);
  }

  /** Counts up until a name is free. The names tried are pairwise different and all taken, so
      the loop makes at most one step more than there are taken names. */
  method FirstFreeId(base: string, taken: set<string>) returns (candidate: string)
    ensures IsFirstFree(base, taken, candidate)
  {
    candidate := base;
    var n := 2;
    while candidate in taken
      invariant n >= 2 && IsCandidate(base, taken, candidate, n - 1)
      invariant Tried(base, n - 2) <= taken
      decreases |taken| + 2 - n
    {
      TriedWithin(base, n - 1, taken);
      candidate := base + "-" + Decimal(n);
      n := n + 1;
    }
  }

  /** Only one id is the first free one, so minting depends on nothing but the taken names. */
  lemma {:induction false} FirstFreeIsUnique(base: string, taken: set<string>, a: string, b: string)
    requires IsFirstFree(base, taken, a) && IsFirstFree(base, taken, b)
    ensures a == b
  {
    var i: nat :| IsCandidate(base, taken, a, i);
    var j: nat :| IsCandidate(base, taken, b, j);
  }

  /** The first free id, by name: the base, or with the base taken the first free one of the base with a
      dash and a number, from two on. */
  lemma {:induction false} FirstFreeExactly(base: string, taken: set<string>, id: string)
    ensures IsFirstFree(base, taken, id) <==> id !in taken && (id == base || (base in taken && exists n :: IsNumbered(base, taken, id, n)))
  {
    if IsFirstFree(base, taken, id) && id != base {
      var k: nat :| IsCandidate(base, taken, id, k);
      assert Candidate(base, 1) in taken;
      forall m | 2 <= m < k ensures base + "-" + Decimal(m) in taken { assert Candidate(base, m) in taken; }
      assert IsNumbered(base, taken, id, k);
    }
    if id == base {
      assert IsCandidate(base, taken, id, 1);
    }
    if n :| IsNumbered(base, taken, id, n) && base in taken {
      forall j: nat | 1 <= j < n ensures Candidate(base, j) in taken {
        if j >= 2 { assert base + "-" + Decimal(j) in taken; }
      }
      assert IsCandidate(base, taken, id, n);
    }
  }

  ghost predicate IsNumbered(base: string, taken: set<string>, id: string, n: int) {
    n >= 2 && id == base + "-" + Decimal(n) && forall m | 2 <= m < n :: base + "-" + Decimal(m) in taken
  }

  // ----- type prefixes -----

  /** Ids are minted in these namespaces; the others are only read. */
  predicate Minting(ns: Namespace) {
    match ns
    case DEC => false case Prd => false case GOAL => false
    case EV => false case EVIDENCE => false case CI => false
    case _ => true
  }

  /** One entry for each type that has a prefix of its own. */
  const PREFIX_TABLE: seq<Namespace> := [
    REQ, NFR, ADR, WORK, TASK, Q, SPEC, RFC, PLAN, PSTEP, FIND, LEARN, ANTI, CONV, CONSTRAINT,
    FACT, VALUE, Impl, Test, Doc, Runbook, Ops, Prompt, Config, Data, Goal, PRD]

  ghost predicate IsPrefixTable(table: seq<Namespace>) {
    forall ns :: ns in table <==> Minting(ns)
  }

  lemma {:induction false} PrefixTableIsComplete(table: seq<Namespace>)
    requires table == PREFIX_TABLE
    ensures IsPrefixTable(table)
  {}

  function Lookup(table: seq<Namespace>, nodeType: string): Option<Namespace> {
    if table == [] then None
    else if NodeType(table[0]) == nodeType then Some(table[0])
    else Lookup(table[1..], nodeType)
  }

  /** The prefix of a type; a type without an entry gets its own name and a dot. */
  function TypePrefix(table: seq<Namespace>, nodeType: string): string {
    var ns := Lookup(table, nodeType);
    if ns.Some? then Prefix(ns.value) else nodeType + "."
  }

  predicate HasPrefix(table: seq<Namespace>, nodeType: string) {
    Lookup(table, nodeType).Some?
  }

  lemma {:induction false} LookupTellsType(table: seq<Namespace>, nodeType: string)
    ensures Lookup(table, nodeType).Some? ==> NodeType(Lookup(table, nodeType).value) == nodeType
    ensures forall ns | ns in table && NodeType(ns) == nodeType :: Lookup(table, nodeType).Some?
  {
    if table != [] {
      LookupTellsType(table[1..], nodeType);
    }
  }

  /** What the namespaces that are only read stand for: a type minted elsewhere, or one of two
      types without a prefix. */
  lemma {:induction false} ReadOnlyNamespace(ns: Namespace)
    requires !Minting(ns)
    ensures NodeType(ns) == NodeType(ADR) || NodeType(ns) == NodeType(PRD) || NodeType(ns) == NodeType(Goal)
            || NodeType(ns) == "evidence" || NodeType(ns) == "ci_run"
  {}

  lemma {:induction false} PrefixBegins(ns: Namespace)
    ensures Prefix(ns)[0] != 'e' && (Prefix(ns)[0] == 'c' ==> Prefix(ns)[1] != 'i')
  {}

  /** No namespace starts like the two types that have a namespace but no prefix. */
  lemma {:induction false} NoEvidenceDot(ns: Namespace)
    ensures !(Prefix(ns) <= "evidence.") && !("evidence." <= Prefix(ns))
  {
    PrefixBegins(ns);
    StartApart(Prefix(ns), "evidence.");
  }

  lemma {:induction false} NoCiRunDot(ns: Namespace)
    ensures !(Prefix(ns) <= "ci_run.") && !("ci_run." <= Prefix(ns))
  {
    PrefixBegins(ns);
    StartApart(Prefix(ns), "ci_run.");
  }

  lemma {:induction false} StartApart(p: string, q: string)
    requires |p| >= 2 && |q| >= 2 && (p[0] != q[0] || p[1] != q[1])
    ensures !(p <= q) && !(q <= p)
  {}

  lemma {:induction false} PrefixesCompare(p: string, q: string, s: string)
    requires p <= s && q <= s
    ensures p <= q || q <= p
  {}

  lemma {:induction false} MatchSource(rules: seq<Namespace>, s: string) returns (ns: Namespace)
    requires FirstMatch(rules, s).Some?
    ensures Prefix(ns) <= s && FirstMatch(rules, s) == Some(NodeType(ns))
  {
    if Prefix(rules[0]) <= s {
      ns := rules[0];
    } else {
      ns := MatchSource(rules[1..], s);
    }
  }

  lemma {:induction false} UnreadableType(nodeType: string, rest: string)
    requires nodeType == "evidence" || nodeType == "ci_run"
    ensures InferredType(nodeType + "." + rest) == None
  {
    var s := nodeType + "." + rest;
    if InferredType(s).Some? {
      var ns := MatchSource(PATTERN_RULES, s);
      assert nodeType + "." <= s;
      PrefixesCompare(Prefix(ns), nodeType + ".", s);
      NoEvidenceDot(ns);
      NoCiRunDot(ns);
    }
  }

  lemma {:induction false} PrefixedIsTyped(table: seq<Namespace>, nodeType: string, rest: string)
    requires HasPrefix(table, nodeType)
    ensures InferredType(TypePrefix(table, nodeType) + rest) == Some(nodeType)
  {
    LookupTellsType(table, nodeType);
    InferredByNamespace(Lookup(table, nodeType).value, TypePrefix(table, nodeType) + rest);
  }

  /** An id behind the prefix of a type is read back as that type exactly for the types in the
      prefix table. The others get their own name and a dot, which no rule reads as the type. */
  lemma {:induction false} TypedExactly(table: seq<Namespace>, nodeType: string, rest: string)
    requires IsPrefixTable(table)
    ensures InferredType(TypePrefix(table, nodeType) + rest) == Some(nodeType) <==> HasPrefix(table, nodeType)
  {
    if HasPrefix(table, nodeType) {
      PrefixedIsTyped(table, nodeType, rest);
    } else if InferredType(nodeType + "." + rest) == Some(nodeType) {
      var ns := MatchSource(PATTERN_RULES, nodeType + "." + rest);
      Unlisted(table, ns, nodeType);
      UnreadableType(nodeType, rest);
    }
  }

  lemma {:induction false} Unlisted(table: seq<Namespace>, ns: Namespace, nodeType: string)
    requires IsPrefixTable(table) && !HasPrefix(table, nodeType) && NodeType(ns) == nodeType
    ensures nodeType == "evidence" || nodeType == "ci_run"
  {
    LookupTellsType(table, nodeType);
    assert ADR in table && PRD in table && Goal in table;
    ReadOnlyNamespace(ns);
  }

  // ----- minting -----

  function Base(table: seq<Namespace>, nodeType: string, lowered: string): string {
    TypePrefix(table, nodeType) + Slug(lowered)
  }

  /** A schema-compliant id for the type, free among the taken ones. */
  method GenerateId(table: seq<Namespace>, nodeType: string, lowered: string, taken: set<string>) returns (id: string)
    ensures IsFirstFree(Base(table, nodeType, lowered), taken, id)
  {
    var base := Base(table, nodeType, lowered);
    if taken == {} {
      assert IsCandidate(base, taken, base, 1);
      return base;
    }
    id := FirstFreeId(base, taken);
  }

  lemma {:induction false} EarlyPrefixChars(ns: Namespace)
    requires Prefix(ns)[0] < 'G'
    ensures AllIdChars(Prefix(ns))
  {}

  lemma {:induction false} MiddlePrefixChars(ns: Namespace)
    requires 'G' <= Prefix(ns)[0] < 'a'
    ensures AllIdChars(Prefix(ns))
  {}

  lemma {:induction false} LatePrefixChars(ns: Namespace)
    requires 'a' <= Prefix(ns)[0]
    ensures AllIdChars(Prefix(ns))
  {}

  lemma {:induction false} PrefixChars(ns: Namespace)
    ensures AllIdChars(Prefix(ns))
  {
    PrefixIsNotLowerN(ns);
    if Prefix(ns)[0] < 'G' {
      EarlyPrefixChars(ns);
    } else if Prefix(ns)[0] < 'a' {
      MiddlePrefixChars(ns);
    } else {
      LatePrefixChars(ns);
    }
  }

  /** Whatever suffix is needed, the id is read back as the type it was minted for, exactly for
      the types in the prefix table. */
  lemma {:induction false} GeneratedIsTypedExactly(table: seq<Namespace>, nodeType: string, lowered: string, taken: set<string>, id: string)
    requires IsPrefixTable(table)
    requires IsFirstFree(Base(table, nodeType, lowered), taken, id)
    ensures InferredType(id) == Some(nodeType) <==> HasPrefix(table, nodeType)
  {
    var k: nat :| IsCandidate(Base(table, nodeType, lowered), taken, id, k);
    var rest := Candidate(Slug(lowered), k);
    CandidateOfSlug(TypePrefix(table, nodeType), Slug(lowered), k);
    TypedExactly(table, nodeType, rest);
  }

  lemma {:induction false} CandidateOfSlug(prefix: string, slug: string, k: nat)
    ensures Candidate(prefix + slug, k) == prefix + Candidate(slug, k)
  {
    assert (prefix + slug) + "-" + Decimal(k) == prefix + (slug + "-" + Decimal(k));
  }

  lemma {:induction false} CandidateChars(slug: string, k: nat)
    requires IsSlug(slug)
    ensures AllIdChars(Candidate(slug, k)) && Candidate(slug, k) != [] && IsKeptEnd(Candidate(slug, k))
  {
    var d := Decimal(k);
    assert IsDigit(d[|d| - 1]) by { assert d[|d| - 1] in d; }
    forall c | c in slug ensures IsIdChar(c) {}
  }

  predicate IsKeptEnd(s: string) {
    s != [] && s[|s| - 1] != '\n'
  }

  /** A generated id is valid exactly when the characters of its type are: every type in the
      prefix table, and any other type that is itself made of id characters. */
  lemma {:induction false} GeneratedIsValidExactly(table: seq<Namespace>, nodeType: string, lowered: string, taken: set<string>, id: string)
    requires IsFirstFree(Base(table, nodeType, lowered), taken, id)
    ensures IsValidId(id) <==> HasPrefix(table, nodeType) || AllIdChars(nodeType)
  {
    var k: nat :| IsCandidate(Base(table, nodeType, lowered), taken, id, k);
    var rest := Candidate(Slug(lowered), k);
    CandidateOfSlug(TypePrefix(table, nodeType), Slug(lowered), k);
    SlugKeepsLetters(lowered);
    CandidateChars(Slug(lowered), k);
    PrefixValidity(TypePrefix(table, nodeType), rest);
    if HasPrefix(table, nodeType) {
      PrefixChars(Lookup(table, nodeType).value);
    } else {
      DottedChars(nodeType);
    }
  }

  lemma {:induction false} DottedChars(t: string)
    ensures AllIdChars(t + ".") <==> AllIdChars(t)
  {
    if AllIdChars(t + ".") {
      forall c | c in t ensures IsIdChar(c) { assert c in t + "."; }
    }
  }

  lemma {:induction false} PrefixValidity(p: string, rest: string)
    requires AllIdChars(rest) && IsKeptEnd(rest)
    ensures IsValidId(p + rest) <==> AllIdChars(p)
  {
    if IsValidId(p + rest) {
      forall c | c in p ensures IsIdChar(c) { assert c in p + rest; }
    }
  }

  /** The id for a new artifact: an unknown type is refused; a name that already is a valid id with the
      type's prefix is taken as it is, or refused when it exists. */
  method NewId(known: set<string>, table: seq<Namespace>, nodeType: string, name: string, lowered: string, taken: set<string>) returns (r: Option<string>)
    requires IsPrefixTable(table)
    ensures r.Some? ==> r.value !in taken
    ensures r.None? <==> nodeType !in known || (IsValidId(name) && TypePrefix(table, nodeType) <= name && name in taken)
    ensures r.Some? ==>
      if IsValidId(name) && TypePrefix(table, nodeType) <= name then r.value == name
      else IsFirstFree(Base(table, nodeType, lowered), taken, r.value)
    ensures r.Some? ==> (InferredType(r.value) == Some(nodeType) <==> HasPrefix(table, nodeType))
    ensures r.Some? && !HasPrefix(table, nodeType) && !AllIdChars(nodeType) ==> !IsValidId(r.value)
    ensures r.Some? && (HasPrefix(table, nodeType) || AllIdChars(nodeType)) ==> IsValidId(r.value)
  {
    if nodeType !in known {
      return None;
    }
    var prefix := TypePrefix(table, nodeType);
    if IsValidId(name) && prefix <= name {
      if name in taken {
        return None;
      }
      TypedExactly(table, nodeType, name[|prefix|..]);
      assert name == prefix + name[|prefix|..];
      return Some(name);
    }
    var id := GenerateId(table, nodeType, lowered, taken);
    GeneratedIsTypedExactly(table, nodeType, lowered, taken, id);
    GeneratedIsValidExactly(table, nodeType, lowered, taken, id);
    return Some(id);
  }

  /** Each id is the first free one given the store and the ids minted before it. */
  ghost predicate MintedInTurn(bases: seq<string>, stored: set<string>, ids: seq<string>) {
    |ids| <= |bases| && forall i | 0 <= i < |ids| :: IsFirstFree(bases[i], stored + SetOf(ids[..i]), ids[i])
  }

  lemma {:induction false} MintedStep(bases: seq<string>, stored: set<string>, ids: seq<string>, id: string)
    requires MintedInTurn(bases, stored, ids) && |ids| < |bases|
    requires IsFirstFree(bases[|ids|], stored + SetOf(ids), id)
    ensures MintedInTurn(bases, stored, ids + [id]) && SetOf(ids + [id]) == SetOf(ids) + {id}
  {
    var all := ids + [id];
    forall i | 0 <= i < |all| ensures IsFirstFree(bases[i], stored + SetOf(all[..i]), all[i]) {
      assert i < |ids| ==> all[..i] == ids[..i];
      assert all[..|ids|] == ids;
    }
  }

  /** Ids minted in turn are free in the store and pairwise different, even where bases repeat. */
  lemma {:induction false} MintedAreDistinct(bases: seq<string>, stored: set<string>, ids: seq<string>)
    requires MintedInTurn(bases, stored, ids)
    ensures forall i | 0 <= i < |ids| :: ids[i] !in stored
    ensures forall i, j | 0 <= i < j < |ids| :: ids[i] != ids[j]
  {
    forall i, j | 0 <= i < j < |ids| ensures ids[i] != ids[j] {
      assert ids[..j][i] == ids[i];
      assert ids[i] in SetOf(ids[..j]);
      assert IsFirstFree(bases[j], stored + SetOf(ids[..j]), ids[j]);
    }
    forall i | 0 <= i < |ids| ensures ids[i] !in stored {
      assert IsFirstFree(bases[i], stored + SetOf(ids[..i]), ids[i]);
    }
  }

  /** Ids minted one after the other in one transaction, each with its own base. */
  method MintAll(bases: seq<string>, stored: set<string>) returns (ids: seq<string>)
    ensures |ids| == |bases| && MintedInTurn(bases, stored, ids)
    ensures forall i | 0 <= i < |ids| :: ids[i] !in stored
    ensures forall i, j | 0 <= i < j < |ids| :: ids[i] != ids[j]
  {
    ids := [];
    var minted: set<string> := {};
    for i := 0 to |bases|
      invariant |ids| == i && minted == SetOf(ids) && MintedInTurn(bases, stored, ids)
    {
      var id := FirstFreeId(bases[i], stored + minted);
      MintedStep(bases, stored, ids, id);
      ids := ids + [id];
      minted := minted + {id};
    }
    MintedAreDistinct(bases, stored, ids);
  }
}
