/** Markers on whole lines: finding the payload, and when rendering survives it. */
module MarkerLine {
  import opened Models
  import opened Grammar
  import opened Quoting
  import opened Marker
  import opened MarkerRoundTrip

  // ----- payload extraction -----

  /** The marker word, followed by whitespace or the end. */
  predicate AtMarker(s: string) {
    PREFIX <= s && (|s| == |PREFIX| || IsSpace(s[|PREFIX|]))
  }

  /** Position of the first marker word. */
  function MarkerStart(s: string): (r: Option<nat>)
    ensures r.Some? ==> r.value < |s| && AtMarker(s[r.value..])
  {
    if s == [] then None
    else if AtMarker(s) then (assert s[0..] == s; Some(0))
    else
      var r := MarkerStart(s[1..]);
      if r.Some? then (assert s[1..][r.value..] == s[r.value + 1..]; Some(r.value + 1)) else None
  }

  /** The text before the first occurrence of a separator. */
  function CutAt(s: string, sep: string): string {
    if s == [] || sep <= s then [] else [s[0]] + CutAt(s[1..], sep)
  }

  predicate OpensComment(before: string) {
    || "<!--" <= before || "/*" <= before || "//" <= before || "#" <= before
    || "--" <= before || "%" <= before || ";" <= before || "*" <= before
  }

  lemma {:induction false} CutKeeps(s: string, sep: string, n: nat)
    requires n <= |s| && sep != [] && forall i | 0 <= i < n :: s[i] != sep[0]
    ensures s[..n] <= CutAt(s, sep)
  {
    if n > 0 {
      CutKeeps(s[1..], sep, n - 1);
      assert s[..n] == [s[0]] + s[1..][..n - 1];
    }
  }

  lemma {:induction false} RstripKeeps(s: string, n: nat)
    requires 0 < n <= |s| && !IsSpace(s[n - 1])
    ensures s[..n] <= Rstrip(s)
  {
    if IsSpace(s[|s| - 1]) {
      RstripKeeps(s[..|s| - 1], n);
      assert s[..|s| - 1][..n] == s[..n];
    }
  }

  lemma {:induction false} ClosersSpareTheWord(s: string)
    requires PREFIX <= s
    ensures PREFIX <= Rstrip(CutAt(CutAt(s, "-->"), "*/"))
  {
    var n := |PREFIX|;
    assert s[..n] == PREFIX;
    forall i | 0 <= i < n ensures s[i] != '-' && s[i] != '*' { assert s[i] == PREFIX[i]; }
    CutKeeps(s, "-->", n);
    var t := CutAt(s, "-->");
    assert t[..n] == PREFIX;
    forall i | 0 <= i < n ensures t[i] != '*' { assert t[i] == PREFIX[i]; }
    CutKeeps(t, "*/", n);
    var u := CutAt(t, "*/");
    assert u[..n] == PREFIX;
    assert u[n - 1] == PREFIX[n - 1];
    RstripKeeps(u, n);
  }

  /** The payload of a line that carries a marker in a plausible comment context. */
  function ExtractPayload(line: string): (r: Option<string>)
    ensures r.Some? ==> PREFIX <= r.value
  {
    var stripped := Strip(line);
    var at := MarkerStart(stripped);
    if at.None? then None
    else if at.value == 0 then (assert stripped[0..] == stripped; Some(stripped))
    else if !OpensComment(stripped[..at.value]) then None
    else
      ClosersSpareTheWord(stripped[at.value..]);
      Some(Rstrip(CutAt(CutAt(stripped[at.value..], "-->"), "*/")))
  }

  /** Parses a single line; None when it is not a marker line. */
  function ParsedLine(o: Vocabulary, mode: UnknownKeys, line: string): Option<ParseResult> {
    var payload := ExtractPayload(line);
    if payload.None? then None else Some(Meaning(o, mode, FieldsOf(payload.value)))
  }

  method ParseMarkerLine(o: Vocabulary, mode: UnknownKeys, line: string) returns (r: Option<ParseResult>)
    ensures r == ParsedLine(o, mode, line)
  {
    var payload := ExtractPayload(line);
    if payload.None? {
      return None;
    }
    var result := ParsePayload(o, mode, payload.value);
    return Some(result);
  }

  // ----- stripping -----

  predicate Trimmed(s: string) {
    s != [] && !IsSpace(s[0]) && !IsSpace(s[|s| - 1])
  }

  lemma {:induction false} StripTrimmed(s: string)
    requires Trimmed(s)
    ensures Strip(s) == s
  {}

  /** The rendering of a canonical marker starts with the marker word. */
  lemma {:induction false} RenderShape(o: Vocabulary, order: seq<Slot>, m: ParsedMarker)
    requires ValidVocabulary(o) && Writable(o, m) && order == SLOT_ORDER
    ensures |Render(o, m)| > |PREFIX| && AtMarker(Render(o, m)) && !IsSpace(Render(o, m)[0])
  {
    RenderIsFields(o, order, m);
    var r := Render(o, m);
    assert r[|PREFIX|] == ' ';
    assert r[0] == PREFIX[0];
  }

  predicate EndsInNewline(s: string) {
    s != [] && s[|s| - 1] == '\n'
  }

  lemma {:induction false} UnquotedEnd(v: string)
    requires v != [] && AllUnquoted(v)
    ensures !IsSpace(v[|v| - 1])
  {
    assert v[|v| - 1] in v;
  }

  /** A rendered value ends in whitespace only when it is unquoted text with a final newline. */
  lemma {:induction false} ValueEnd(v: string)
    ensures QuoteValue(v) != []
    ensures var q := QuoteValue(v); IsSpace(q[|q| - 1]) <==> EndsInNewline(q)
    ensures EndsInNewline(QuoteValue(v)) ==> QuoteValue(v) == v && |v| >= 2 && AllUnquoted(v[..|v| - 1])
  {
    if v != "" && UnquotedOk(v) && AllUnquoted(v) {
      UnquotedEnd(v);
    }
  }

  lemma {:induction false} JoinEnd(fs: seq<Pair>)
    requires fs != []
    ensures JoinFields(fs) != []
    ensures var j, q := JoinFields(fs), QuoteValue(fs[|fs| - 1].value); q != [] && j[|j| - 1] == q[|q| - 1]
    decreases |fs|
  {
    ValueEnd(fs[|fs| - 1].value);
    if |fs| > 1 {
      JoinEnd(fs[1..]);
    }
  }

  /** The last field of a rendering. */
  lemma {:induction false} RenderEnd(o: Vocabulary, order: seq<Slot>, m: ParsedMarker) returns (last: Pair)
    requires ValidVocabulary(o) && Writable(o, m) && order == SLOT_ORDER
    ensures var fs := Fields(o, order, m); fs != [] && last == fs[|fs| - 1]
    ensures var r, q := Render(o, m), QuoteValue(last.value); r != [] && q != [] && r[|r| - 1] == q[|q| - 1]
    ensures EndsInNewline(Render(o, m)) <==> EndsInNewline(QuoteValue(last.value))
  {
    RenderIsFields(o, order, m);
    var fs := Fields(o, order, m);
    JoinEnd(fs);
    last := fs[|fs| - 1];
    EndOfTail(PREFIX, JoinFields(fs));
  }

  lemma {:induction false} EndOfTail(head: string, j: string)
    requires j != []
    ensures var tail := head + (" " + j); tail != [] && tail[|tail| - 1] == j[|j| - 1]
  {}

  /** A rendering is trimmed unless it ends in a newline. */
  lemma {:induction false} RenderTrimmed(o: Vocabulary, order: seq<Slot>, m: ParsedMarker)
    requires ValidVocabulary(o) && Writable(o, m) && order == SLOT_ORDER
    ensures Trimmed(Render(o, m)) <==> !EndsInNewline(Render(o, m))
  {
    RenderShape(o, order, m);
    var last := RenderEnd(o, order, m);
    ValueEnd(last.value);
  }

  /** A canonical marker rendered on a line of its own parses back without an error, unless the
      rendering ends in a newline. */
  lemma {:induction false} LineRoundTrip(o: Vocabulary, mode: UnknownKeys, m: ParsedMarker)
    requires ValidVocabulary(o) && Writable(o, m) && !EndsInNewline(Render(o, m))
    ensures var r := ParsedLine(o, mode, Render(o, m));
            r.Some? && r.value.marker == Typed(o, m) && r.value.migrated == map[] && NoErrors(r.value.diags)
  {
    RenderShape(o, SLOT_ORDER, m);
    RenderTrimmed(o, SLOT_ORDER, m);
    StripTrimmed(Render(o, m));
    PayloadRoundTrip(o, mode, m);
  }

  /** The fields with the final newline of the last value cut off. */
  function Shortened(fs: seq<Pair>): seq<Pair>
    requires fs != [] && fs[|fs| - 1].value != []
  {
    var f := fs[|fs| - 1];
    fs[..|fs| - 1] + [Pair(f.key, f.value[..|f.value| - 1])]
  }

  lemma {:induction false} ShortenedTail(fs: seq<Pair>)
    requires |fs| > 1 && fs[|fs| - 1].value != []
    ensures Shortened(fs)[0] == fs[0] && Shortened(fs)[1..] == Shortened(fs[1..])
  {}

  lemma {:induction false} MoveNewline(head: string, tail: string)
    ensures head + (tail + "\n") == (head + tail) + "\n"
    ensures head + (" " + (tail + "\n")) == (head + (" " + tail)) + "\n"
  {}

  lemma {:induction false} JoinShortened(fs: seq<Pair>)
    requires fs != [] && EndsInNewline(QuoteValue(fs[|fs| - 1].value))
    ensures fs[|fs| - 1].value != []
    ensures JoinFields(fs) == JoinFields(Shortened(fs)) + "\n"
    decreases |fs|
  {
    var f := fs[|fs| - 1];
    ValueEnd(f.value);
    if |fs| == 1 {
      var w := f.value[..|f.value| - 1];
      assert f.value == w + "\n";
      assert QuoteValue(w) == w;
      assert Shortened(fs) == [Pair(f.key, w)];
      MoveNewline(f.key + "=", w);
    } else {
      JoinShortened(fs[1..]);
      ShortenedTail(fs);
      MoveNewline(FieldText(fs[0].key, fs[0].value), JoinFields(Shortened(fs[1..])));
    }
  }

  lemma {:induction false} ListsHaveNoNewline(key: string, ts: seq<string>)
    requires CleanTargets(ts)
    ensures !EndsInNewline(QuoteValue(JoinCommas(ts)))
  {
    JoinedIsUnquoted(ts);
    ListToken(key, ts);
    UnquotedEnd(JoinCommas(ts));
  }

  /** What ends a rendering in a newline is a scalar other than id and type. */
  lemma {:induction false} LastIsScalar(o: Vocabulary, order: seq<Slot>, m: ParsedMarker) returns (s: Slot)
    requires ValidVocabulary(o) && Writable(o, m) && order == SLOT_ORDER
    requires var fs := Fields(o, order, m); fs != [] && EndsInNewline(QuoteValue(fs[|fs| - 1].value))
    ensures var fs := Fields(o, order, m);
            s in m.slots && fs[|fs| - 1] == Pair(o.slotName(s), m.slots[s]) && s != Id && s != Type
  {
    var a, b, c := SlotFields(o, order, m.slots), ExpectsFields(m.expects), EdgeFields(o.edgeOrder, m.edges);
    var fs := Fields(o, order, m);
    var last := fs[|fs| - 1];
    if c != [] {
      var e := LastEdgeField(o.edgeOrder, m.edges);
      ListsHaveNoNewline(e, m.edges[e]);
    }
    if b != [] {
      ListsHaveNoNewline("expects", m.expects.value);
    }
    assert c == [] && b == [];
    assert fs == a;
    s := LastSlotField(o, order, m.slots);
    IdAndTypeEnds(o, m);
    ValueEnd(last.value);
  }

  lemma {:induction false} IdAndTypeEnds(o: Vocabulary, m: ParsedMarker)
    requires ValidVocabulary(o) && Writable(o, m)
    ensures !EndsInNewline(m.slots[Id]) && (Type in m.slots ==> !EndsInNewline(m.slots[Type]))
  {
    CleanIsUnquoted(m.slots[Id]);
    UnquotedEnd(m.slots[Id]);
    if Type in m.slots { UnquotedEnd(m.slots[Type]); }
  }

  lemma {:induction false} LastEdgeField(order: seq<string>, edges: map<string, seq<string>>) returns (e: string)
    requires EdgeFields(order, edges) != []
    ensures e in edges && edges[e] != []
    ensures var fs := EdgeFields(order, edges); fs[|fs| - 1] == Pair(e, JoinCommas(edges[e]))
  {
    var k := |order| - 1;
    if order[k] in edges && edges[order[k]] != [] {
      e := order[k];
    } else {
      assert EdgeFields(order, edges) == EdgeFields(order[..k], edges);
      e := LastEdgeField(order[..k], edges);
    }
  }

  lemma {:induction false} LastSlotField(o: Vocabulary, order: seq<Slot>, slots: map<Slot, string>) returns (s: Slot)
    requires SlotFields(o, order, slots) != []
    ensures s in slots
    ensures var fs := SlotFields(o, order, slots); fs[|fs| - 1] == Pair(o.slotName(s), slots[s])
  {
    var k := |order| - 1;
    if order[k] in slots {
      s := order[k];
    } else {
      assert SlotFields(o, order, slots) == SlotFields(o, order[..k], slots);
      s := LastSlotField(o, order[..k], slots);
    }
  }

  /** Stripping a rendering that ends in a newline takes the newline off its last value. */
  lemma {:induction false} StripShortens(o: Vocabulary, order: seq<Slot>, m: ParsedMarker, fs: seq<Pair>)
    requires ValidVocabulary(o) && Writable(o, m) && order == SLOT_ORDER && fs == Fields(o, order, m)
    requires fs != [] && EndsInNewline(QuoteValue(fs[|fs| - 1].value))
    ensures fs[|fs| - 1].value != []
    ensures Strip(Render(o, m)) == PREFIX + (" " + JoinFields(Shortened(fs)))
  {
    RenderIsFields(o, order, m);
    ShortenedPayload(fs);
  }

  lemma {:induction false} ShortenedPayload(fs: seq<Pair>)
    requires fs != [] && EndsInNewline(QuoteValue(fs[|fs| - 1].value))
    ensures fs[|fs| - 1].value != []
    ensures Strip(PREFIX + (" " + JoinFields(fs))) == PREFIX + (" " + JoinFields(Shortened(fs)))
  {
    JoinShortened(fs);
    ShortenedIsTrimmed(fs);
    var j := JoinFields(Shortened(fs));
    MoveNewline(PREFIX, j);
    TrimmedPayload(j);
    StripLineEnd(PREFIX + (" " + j));
  }

  lemma {:induction false} ShortenedIsTrimmed(fs: seq<Pair>)
    requires fs != [] && EndsInNewline(QuoteValue(fs[|fs| - 1].value)) && fs[|fs| - 1].value != []
    ensures var j := JoinFields(Shortened(fs)); j != [] && !IsSpace(j[|j| - 1])
  {
    var v := fs[|fs| - 1].value;
    ValueEnd(v);
    ShortenedValue(v);
    EndsWithValue(Shortened(fs), v[..|v| - 1]);
  }

  lemma {:induction false} EndsWithValue(fs: seq<Pair>, w: string)
    requires fs != [] && fs[|fs| - 1].value == w && QuoteValue(w) == w && w != [] && !IsSpace(w[|w| - 1])
    ensures var j := JoinFields(fs); j != [] && !IsSpace(j[|j| - 1])
  {
    JoinEnd(fs);
  }

  lemma {:induction false} ShortenedValue(v: string)
    requires |v| >= 2 && AllUnquoted(v[..|v| - 1])
    ensures var w := v[..|v| - 1]; QuoteValue(w) == w && w != [] && !IsSpace(w[|w| - 1])
  {
    UnquotedEnd(v[..|v| - 1]);
  }

  lemma {:induction false} TrimmedPayload(j: string)
    requires j != [] && !IsSpace(j[|j| - 1])
    ensures Trimmed(PREFIX + (" " + j))
  {
    var s := PREFIX + (" " + j);
    assert s[0] == PREFIX[0] && s[|s| - 1] == j[|j| - 1];
  }

  lemma {:induction false} StripLineEnd(s: string)
    requires Trimmed(s)
    ensures Strip(s + "\n") == s
  {
    var t := s + "\n";
    assert t[|t| - 1] == '\n' && t[..|t| - 1] == s;
    assert Rstrip(s) == s;
    assert Rstrip(t) == Rstrip(s);
  }

  lemma {:induction false} TokensSnoc(fs: seq<Pair>)
    requires fs != []
    ensures TokensFor(fs) == TokensFor(fs[..|fs| - 1]) + [TokenOf(fs[|fs| - 1])]
  {
    assert fs == fs[..|fs| - 1] + [fs[|fs| - 1]];
    TokensAppend(fs[..|fs| - 1], fs[|fs| - 1]);
  }

  lemma {:induction false} ShortenedTokens(fs: seq<Pair>)
    requires fs != [] && fs[|fs| - 1].value != [] && ValidPairs(fs)
    ensures var f := fs[|fs| - 1];
            TokensFor(Shortened(fs)) == TokensFor(fs[..|fs| - 1]) + [TokenOf(Pair(f.key, f.value[..|f.value| - 1]))]
    ensures ValidPairs(Shortened(fs))
  {
    var short := Shortened(fs);
    TokensSnoc(short);
    assert short[..|short| - 1] == fs[..|fs| - 1];
    assert forall f | f in fs[..|fs| - 1] :: f in fs;
    assert fs[|fs| - 1] in fs;
  }

  /** The tokens of the fields and of the shortened fields differ in the last one only. */
  lemma {:induction false} LastTokens(fs: seq<Pair>, x: seq<FieldToken>, y: seq<FieldToken>) returns (init: seq<FieldToken>)
    requires ValidPairs(fs) && fs != [] && fs[|fs| - 1].value != [] && x == TokensFor(fs) && y == TokensFor(Shortened(fs))
    ensures var f := fs[|fs| - 1]; x == init + [TokenOf(f)] && y == init + [TokenOf(Pair(f.key, f.value[..|f.value| - 1]))]
  {
    ShortenedTokens(fs);
    TokensSnoc(fs);
    init := TokensFor(fs[..|fs| - 1]);
  }

  /** Reading the shortened fields gives the last slot the shortened value. */
  lemma {:induction false} ShortenedReads(o: Vocabulary, mode: UnknownKeys, fs: seq<Pair>, x: seq<FieldToken>, y: seq<FieldToken>, m: ParsedMarker, s: Slot)
    requires ValidPairs(fs) && fs != [] && Id in m.slots && s in m.slots && s != Id && s != Type && |m.slots[s]| >= 2
    requires o.classify(o.slotName(s)) == Scalar(s) && fs[|fs| - 1] == Pair(o.slotName(s), m.slots[s])
    requires x == TokensFor(fs) && y == TokensFor(Shortened(fs)) && ReadsMarker(o, mode, x, m)
    ensures Meaning(o, mode, Tokens(y, [])).marker != Typed(o, m)
  {
    var init := LastTokens(fs, x, y);
    OtherLastPair(o, mode, x, y, init, fs[|fs| - 1], m, s);
  }

  lemma {:induction false} OtherLastPair(o: Vocabulary, mode: UnknownKeys, x: seq<FieldToken>, y: seq<FieldToken>, init: seq<FieldToken>, f: Pair, m: ParsedMarker, s: Slot)
    requires |f.value| >= 2 && x == init + [TokenOf(f)] && y == init + [TokenOf(Pair(f.key, f.value[..|f.value| - 1]))]
    requires ReadsMarker(o, mode, x, m) && o.classify(f.key) == Scalar(s)
    requires Id in m.slots && s in m.slots && s != Id && s != Type && f.value == m.slots[s]
    ensures Meaning(o, mode, Tokens(y, [])).marker != Typed(o, m)
  {
    OtherLastValue(o, mode, init, TokenOf(f), TokenOf(Pair(f.key, f.value[..|f.value| - 1])), m, s);
  }

  /** Changing the value of the last scalar token changes the marker. */
  lemma {:induction false} OtherLastValue(o: Vocabulary, mode: UnknownKeys, init: seq<FieldToken>, a: FieldToken, b: FieldToken, m: ParsedMarker, s: Slot)
    requires ReadsMarker(o, mode, init + [a], m) && o.classify(a.key) == Scalar(s)
    requires Id in m.slots && a.key == b.key && b.value != "" && s != Id && s != Type && s in m.slots && b.value != m.slots[s]
    ensures Meaning(o, mode, Tokens(init + [b], [])).marker != Typed(o, m)
  {
    SameKeysDistinct(init, a, b);
    assert Fine(o, mode, b);
    forall t | t in init + [b] ensures Fine(o, mode, t) { assert t == b || t in init + [a]; }
    AllCount(o, mode, init + [b]);
    LastToken(o, init, b);
    MeaningOfSlot(o, mode, init + [b], s);
  }

  lemma {:induction false} SameKeysDistinct(init: seq<FieldToken>, a: FieldToken, b: FieldToken)
    requires DistinctKeys(init + [a]) && a.key == b.key
    ensures DistinctKeys(init + [b])
  {
    var x, y := init + [a], init + [b];
    forall i, j | 0 <= i < j < |y| ensures y[i].key != y[j].key {
      assert x[i].key != x[j].key;
    }
  }

  /** Round trip on a whole line, exactly: the canonical marker comes back if and only if its
      rendering does not end in a newline, and then without an error. The rendering ends in a
      newline when its last value is unquoted text followed by one newline, which the quoting
      rule takes for unquoted text. */
  lemma {:induction false} LineRoundTripExactly(o: Vocabulary, mode: UnknownKeys, m: ParsedMarker)
    requires ValidVocabulary(o) && Writable(o, m)
    ensures ParsedLine(o, mode, Render(o, m)).Some?
    ensures ParsedLine(o, mode, Render(o, m)).value.marker == Typed(o, m) <==> !EndsInNewline(Render(o, m))
  {
    if !EndsInNewline(Render(o, m)) {
      LineRoundTrip(o, mode, m);
    } else {
      var order := SLOT_ORDER;
      var fs := Fields(o, order, m);
      var last := RenderEnd(o, order, m);
      StripShortens(o, order, m, fs);
      ValueEnd(last.value);
      var s := LastIsScalar(o, order, m);
      FieldsRead(o, mode, order, m);
      ShortenedTokens(fs);
      ShortenedReads(o, mode, fs, TokensFor(fs), TokensFor(Shortened(fs)), m, s);
      ShortenedLine(o, mode, Render(o, m), Shortened(fs));
    }
  }

  lemma {:induction false} ShortenedLine(o: Vocabulary, mode: UnknownKeys, line: string, fs: seq<Pair>)
    requires ValidPairs(fs) && fs != [] && Strip(line) == PREFIX + (" " + JoinFields(fs))
    ensures ParsedLine(o, mode, line) == Some(Meaning(o, mode, Tokens(TokensFor(fs), [])))
  {
    var s := Strip(line);
    assert s[|PREFIX|] == ' ';
    assert AtMarker(s);
    JoinStartsWithKey(fs);
    PayloadTail(JoinFields(fs));
    TokensInvertFields(fs);
  }

  // ----- behind a comment opener -----

  predicate Occurs(s: string, sep: string) {
    s != [] && (sep <= s || Occurs(s[1..], sep))
  }

  lemma {:induction false} CutLength(s: string, sep: string)
    ensures |CutAt(s, sep)| <= |s|
    ensures !Occurs(s, sep) ==> CutAt(s, sep) == s
    ensures Occurs(s, sep) && sep != [] ==> |CutAt(s, sep)| < |s|
  {
    if s != [] && !(sep <= s) {
      CutLength(s[1..], sep);
    }
  }

  lemma {:induction false} RstripLength(s: string)
    ensures |Rstrip(s)| <= |s|
  {
    if s != [] && IsSpace(s[|s| - 1]) {
      RstripLength(s[..|s| - 1]);
    }
  }

  /** Comment closers on the line that would cut the payload. */
  predicate HasCloser(s: string) {
    Occurs(s, "-->") || Occurs(s, "*/")
  }

  lemma {:induction false} CutsExactly(r: string)
    requires Trimmed(r)
    ensures Rstrip(CutAt(CutAt(r, "-->"), "*/")) == r <==> !HasCloser(r)
  {
    CutLength(r, "-->");
    CutLength(CutAt(r, "-->"), "*/");
    RstripLength(CutAt(CutAt(r, "-->"), "*/"));
  }

  /** No marker word starts before the first `t`. */
  lemma {:induction false} MarkerBehind(before: string, r: string)
    requires AtMarker(r) && forall c | c in before :: c != 't'
    ensures MarkerStart(before + r) == Some(|before|)
  {
    if before == [] {
      assert before + r == r;
    } else {
      assert before[0] in before;
      assert (before + r)[1..] == before[1..] + r;
      assert forall c | c in before[1..] :: c in before;
      MarkerBehind(before[1..], r);
      assert (before + r)[0] != 't' && PREFIX[0] == 't';
    }
  }

  predicate IsCommentOpener(c: string) {
    c == "<!--" || c == "/*" || c == "//" || c == "#" || c == "--" || c == "%" || c == ";" || c == "*"
  }

  lemma {:induction false} OpenerShape(c: string)
    requires IsCommentOpener(c)
    ensures c != [] && !IsSpace(c[0]) && (forall x | x in c + " " :: x != 't') && OpensComment(c + " ")
  {
    assert forall x | x in c + " " :: x in c || x == ' ';
    assert c <= c + " ";
  }

  lemma {:induction false} RstripBehind(h: string, q: string)
    requires Rstrip(q) != []
    ensures Rstrip(h + q) == h + Rstrip(q)
  {
    assert (h + q)[|h + q| - 1] == q[|q| - 1];
    if IsSpace(q[|q| - 1]) {
      assert (h + q)[..|h + q| - 1] == h + q[..|q| - 1];
      RstripBehind(h, q[..|q| - 1]);
    }
  }

  predicate IsCommentCloser(c: string) {
    c == "-->" || c == "*/"
  }

  /** What stands behind the marker on its line: nothing, or a comment closer and anything behind it. */
  function Behind(closer: Option<string>, rest: string): string {
    if closer.None? then "" else " " + (closer.value + rest)
  }

  /** What is left of the text from the marker word on. */
  function Cut(s: string): string {
    Rstrip(CutAt(CutAt(s, "-->"), "*/"))
  }

  lemma {:induction false} StrippedEnd(s: string)
    ensures Rstrip(s) != [] ==> !IsSpace(Rstrip(s)[|Rstrip(s)| - 1])
  {
    if s != [] && IsSpace(s[|s| - 1]) { StrippedEnd(s[..|s| - 1]); }
  }

  /** A separator without blanks occurs before a blank or behind it. */
  lemma {:induction false} CutAtBlank(r: string, sep: string, w: string)
    requires sep != [] && forall c | c in sep :: c != ' '
    ensures CutAt(r + (" " + w), sep) == if Occurs(r, sep) then CutAt(r, sep) else r + (" " + CutAt(w, sep))
  {
    SepAtStart(r, sep, w);
    if r == [] {
      assert r + (" " + w) == " " + w;
      CutCons(' ', w, sep);
    } else {
      Uncons(r, " " + w);
      CutCons(r[0], r[1..] + (" " + w), sep);
      CutAtBlank(r[1..], sep, w);
      CutCons(r[0], r[1..], sep);
      HeadTail(r);
      Associate([r[0]], r[1..], " " + CutAt(w, sep));
    }
  }

  lemma {:induction false} CutCons(x: char, s: string, sep: string)
    ensures CutAt([x] + s, sep) == if sep <= [x] + s then [] else [x] + CutAt(s, sep)
  {
    assert ([x] + s)[1..] == s;
  }

  lemma {:induction false} SepAtStart(r: string, sep: string, w: string)
    requires sep != [] && forall c | c in sep :: c != ' '
    ensures sep <= r + (" " + w) <==> sep <= r
  {
    var s := r + (" " + w);
    if |sep| > |r| {
      assert s[|r|] == ' ' && sep[|r|] in sep;
    } else {
      assert s[..|sep|] == r[..|sep|];
    }
  }

  /** At a closer the text is cut. */
  lemma {:induction false} CloserCuts(closer: string, rest: string)
    requires IsCommentCloser(closer)
    ensures CutAt(CutAt(closer + rest, "-->"), "*/") == []
  {
    var s := closer + rest;
    if closer == "*/" {
      assert s[..2] == "*/";
      CutKeeps(s, "-->", 2);
    }
  }

  lemma {:induction false} CutShorter(r: string, w: string)
    requires HasCloser(r)
    ensures |Cut(r + (" " + w))| < |r|
  {
    var u := CutAt(r + (" " + w), "-->");
    RstripLength(CutAt(u, "*/"));
    CutAtBlank(r, "-->", w);
    if Occurs(r, "-->") {
      CutLength(r, "-->");
      CutLength(u, "*/");
    } else {
      CutAtBlank(r, "*/", CutAt(w, "-->"));
      CutLength(r, "*/");
    }
  }

  lemma {:induction false} CutAtCloser(r: string, closer: string, rest: string)
    requires Trimmed(r) && IsCommentCloser(closer)
    ensures Cut(r + (" " + (closer + rest))) == r <==> !HasCloser(r)
  {
    var w := closer + rest;
    if HasCloser(r) {
      CutShorter(r, w);
    } else {
      CutAtBlank(r, "-->", w);
      CutAtBlank(r, "*/", CutAt(w, "-->"));
      CloserCuts(closer, rest);
      assert " " + [] == " ";
      BlankStripped(r);
    }
  }

  lemma {:induction false} BlankStripped(r: string)
    requires Trimmed(r)
    ensures Rstrip(r + " ") == r
  {
    assert (r + " ")[..|r|] == r;
  }

  /** The end of the line stripped: the rendering without its final newline, or up to the end of what is
      behind the closer. */
  lemma {:induction false} StrippedTail(r: string, closer: string, rest: string) returns (kept: string)
    requires IsCommentCloser(closer)
    ensures Rstrip(r + (" " + (closer + rest))) == r + (" " + (closer + kept))
  {
    var s := closer + rest;
    var n := |closer|;
    assert s[n - 1] == closer[n - 1];
    RstripKeeps(s, n);
    var u := Rstrip(s);
    assert u[..n] == s[..n] == closer;
    kept := u[n..];
    assert u == closer + kept;
    RstripBehind(" ", s);
    RstripBehind(r, " " + s);
  }

  /** What is cut is the rendering exactly when it holds no closer and does not end in a newline. */
  lemma {:induction false} CutsTailExactly(r: string, closer: Option<string>, rest: string)
    requires r != [] && (Trimmed(r) <==> !EndsInNewline(r)) && (closer.Some? ==> IsCommentCloser(closer.value))
    ensures Cut(Rstrip(r + Behind(closer, rest))) == r <==> !HasCloser(r) && !EndsInNewline(r)
  {
    var tail := Rstrip(r + Behind(closer, rest));
    StrippedEnd(CutAt(CutAt(tail, "-->"), "*/"));
    if Trimmed(r) {
      if closer.Some? {
        var kept := StrippedTail(r, closer.value, rest);
        CutAtCloser(r, closer.value, kept);
      } else {
        assert r + "" == r && Rstrip(r) == r;
        CutsExactly(r);
      }
    }
  }

  lemma {:induction false} RenderStarts(o: Vocabulary, order: seq<Slot>, m: ParsedMarker)
    requires ValidVocabulary(o) && Writable(o, m) && order == SLOT_ORDER
    ensures var r, n := Render(o, m), |PREFIX|;
      |r| > n + 1 && r[..n] == PREFIX && r[n] == ' ' && !IsSpace(r[n + 1])
  {
    RenderIsFields(o, order, m);
    FieldsRead(o, Reject, order, m);
    JoinStartsWithKey(Fields(o, order, m));
  }

  /** Stripping leaves the marker word and what starts behind it. */
  lemma {:induction false} WordStays(r: string, behind: string)
    requires var n := |PREFIX|; |r| > n + 1 && r[..n] == PREFIX && r[n] == ' ' && !IsSpace(r[n + 1])
    ensures AtMarker(Rstrip(r + behind))
  {
    var n, s := |PREFIX|, r + behind;
    assert s[n + 1] == r[n + 1] && s[n] == r[n] && s[..n] == r[..n];
    RstripKeeps(s, n + 2);
    var u := Rstrip(s);
    assert u[..n + 2] == s[..n + 2];
    assert u[n] == s[..n + 2][n] && u[..n] == s[..n + 2][..n];
  }

  lemma {:induction false} PayloadOfComment(c: string, tail: string)
    requires IsCommentOpener(c) && AtMarker(Rstrip(tail))
    ensures ExtractPayload((c + " ") + tail) == Some(Cut(Rstrip(tail)))
  {
    var before, u := c + " ", Rstrip(tail);
    var line := before + tail;
    OpenerShape(c);
    RstripBehind(before, tail);
    assert (before + u)[0] == c[0];
    assert Strip(line) == before + u;
    MarkerBehind(before, u);
    assert (before + u)[..|before|] == before && (before + u)[|before|..] == u;
  }

  /** Behind a comment opener, with nothing behind the marker or a comment closer and any more text, the
      payload is the rendering exactly when the rendering holds no closer and does not end in a newline. */
  lemma {:induction false} CommentedPayload(o: Vocabulary, m: ParsedMarker, c: string, closer: Option<string>, rest: string)
    requires ValidVocabulary(o) && Writable(o, m) && IsCommentOpener(c) && (closer.Some? ==> IsCommentCloser(closer.value))
    ensures ExtractPayload((c + " ") + (Render(o, m) + Behind(closer, rest))) == Some(Render(o, m))
      <==> !HasCloser(Render(o, m)) && !EndsInNewline(Render(o, m))
  {
    var r := Render(o, m);
    RenderStarts(o, SLOT_ORDER, m);
    RenderTrimmed(o, SLOT_ORDER, m);
    WordStays(r, Behind(closer, rest));
    PayloadOfComment(c, r + Behind(closer, rest));
    CutsTailExactly(r, closer, rest);
  }
}
