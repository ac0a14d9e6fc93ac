/** Parsing undoes rendering for every canonical marker. */
module MarkerRoundTrip {
  import opened Models
  import opened Grammar
  import opened Quoting
  import opened Marker

  predicate CleanId(s: string) {
    s != "" && AllIdChars(s)
  }

  predicate CleanTargets(ts: seq<string>) {
    ts != [] && forall t | t in ts :: CleanId(t)
  }

  /** Valid id, a registered type or none, non-empty values, semantic edges with non-empty lists of valid
      targets. */
  ghost predicate Writable(o: Vocabulary, m: ParsedMarker) {
    && Id in m.slots && CleanId(m.slots[Id])
    && (Type in m.slots ==> m.slots[Type] in o.nodeTypes)
    && (forall s | s in m.slots :: m.slots[s] != "")
    && (m.expects.Some? ==> CleanTargets(m.expects.value))
    && (forall e | e in m.edges :: e in o.edgeOrder && o.classify(e) == EdgeTo(e) && CleanTargets(m.edges[e]))
  }

  /** The marker with the type of its id, where it has none of its own and the id has one. */
  function Typed(o: Vocabulary, m: ParsedMarker): ParsedMarker
    requires Id in m.slots
  {
    match o.infer(m.slots[Id])
    case None => m
    case Some(t) => if Type in m.slots then m else m.(slots := m.slots[Type := t])
  }

  /** Writable, with a type left out only when none can be inferred. */
  ghost predicate Canonical(o: Vocabulary, m: ParsedMarker) {
    Writable(o, m) && Typed(o, m) == m
  }

  // ----- the fields of a marker as key-value pairs -----

  function SlotFields(o: Vocabulary, order: seq<Slot>, slots: map<Slot, string>): seq<Pair> {
    if order == [] then []
    else
      var k := |order| - 1;
      SlotFields(o, order[..k], slots) + if order[k] in slots then [Pair(o.slotName(order[k]), slots[order[k]])] else []
  }

  function ExpectsFields(expects: Option<seq<string>>): seq<Pair> {
    if expects.Some? then [Pair("expects", JoinCommas(expects.value))] else []
  }

  function EdgeFields(order: seq<string>, edges: map<string, seq<string>>): seq<Pair> {
    if order == [] then []
    else
      var k := |order| - 1;
      EdgeFields(order[..k], edges) +
      if order[k] in edges && edges[order[k]] != [] then [Pair(order[k], JoinCommas(edges[order[k]]))] else []
  }

  function Fields(o: Vocabulary, order: seq<Slot>, m: ParsedMarker): seq<Pair> {
    SlotFields(o, order, m.slots) + ExpectsFields(m.expects) + EdgeFields(o.edgeOrder, m.edges)
  }

  // ----- comma lists -----

  lemma {:induction false} SplitUndoesJoin(ts: seq<string>)
    requires CleanTargets(ts)
    ensures SplitCommas(JoinCommas(ts)) == ts
    decreases |ts|
  {
    assert ts[0] in ts;
    if |ts| == 1 {
      SplitClean(ts[0], "");
      assert ts[0] + "" == ts[0];
      assert [""][1..] == [];
      assert [ts[0]] + [] == ts;
    } else {
      var rest := "," + JoinCommas(ts[1..]);
      SplitClean(ts[0], rest);
      assert rest[1..] == JoinCommas(ts[1..]);
      SplitUndoesJoin(ts[1..]);
      assert JoinCommas(ts) == ts[0] + rest;
      assert rest[0] == ',';
      var parts := SplitCommas(rest);
      assert parts == [""] + ts[1..];
      assert parts[0] == "" && parts[1..] == ts[1..];
      assert ts[0] + "" == ts[0];
      assert [ts[0]] + ts[1..] == ts;
    }
  }

  lemma {:induction false} SplitClean(a: string, rest: string)
    requires AllIdChars(a)
    ensures SplitCommas(a + rest) == [a + SplitCommas(rest)[0]] + SplitCommas(rest)[1..]
  {
    if a == "" {
      assert a + rest == rest;
      assert "" + SplitCommas(rest)[0] == SplitCommas(rest)[0];
    } else {
      assert a[0] in a;
      assert (a + rest)[1..] == a[1..] + rest;
      SplitClean(a[1..], rest);
      assert [a[0]] + (a[1..] + SplitCommas(rest)[0]) == a + SplitCommas(rest)[0];
    }
  }

  lemma {:induction false} NoneEmpty(ts: seq<string>)
    requires forall t | t in ts :: t != ""
    ensures NonEmpty(ts) == ts
  {
    if ts != [] {
      assert ts[0] in ts;
      assert forall t | t in ts[1..] :: t in ts;
      NoneEmpty(ts[1..]);
    }
  }

  lemma {:induction false} JoinedIsUnquoted(ts: seq<string>)
    requires CleanTargets(ts)
    ensures JoinCommas(ts) != "" && AllUnquoted(JoinCommas(ts))
    decreases |ts|
  {
    assert ts[0] in ts;
    forall c | c in ts[0] ensures IsUnquotedChar(c) {}
    if |ts| > 1 {
      assert forall t | t in ts[1..] :: t in ts;
      JoinedIsUnquoted(ts[1..]);
    }
  }

  lemma {:induction false} TargetsAreFine(ts: seq<string>)
    requires forall t | t in ts :: CleanId(t)
    ensures TargetDiags(ts) == []
  {
    if ts != [] {
      assert ts[0] in ts;
      assert forall t | t in ts[1..] :: t in ts;
      TargetsAreFine(ts[1..]);
    }
  }

  lemma {:induction false} ListToken(key: string, ts: seq<string>)
    requires CleanTargets(ts)
    ensures var tok := TokenOf(Pair(key, JoinCommas(ts)));
            tok.value != "" && TargetsOf(tok) == ts && TargetDiags(TargetsOf(tok)) == [] && QuoteValue(tok.value) == tok.value
  {
    JoinedIsUnquoted(ts);
    SplitUndoesJoin(ts);
    NoneEmpty(ts);
    TargetsAreFine(ts);
  }

  // ----- rendered text and field pairs agree -----

  function Texts(fs: seq<Pair>): seq<string> {
    if fs == [] then [] else var k := |fs| - 1; Texts(fs[..k]) + [FieldText(fs[k].key, fs[k].value)]
  }

  lemma {:induction false} AssociateTexts(a: seq<string>, b: seq<string>, c: seq<string>)
    ensures (a + b) + c == a + (b + c)
  {}

  lemma {:induction false} TextsConcat(a: seq<Pair>, b: seq<Pair>)
    ensures Texts(a + b) == Texts(a) + Texts(b)
  {
    if b == [] {
      assert a + b == a;
    } else {
      var init, f := b[..|b| - 1], b[|b| - 1];
      var text := FieldText(f.key, f.value);
      calc {
        Texts(a + b);
        { assert a + b == (a + init) + [f]; }
        Texts((a + init) + [f]);
        { TextsAppend(a + init, f); }
        Texts(a + init) + [text];
        { TextsConcat(a, init); }
        (Texts(a) + Texts(init)) + [text];
        { AssociateTexts(Texts(a), Texts(init), [text]); }
        Texts(a) + (Texts(init) + [text]);
      }
    }
  }

  lemma {:induction false} TextsAppend(fs: seq<Pair>, f: Pair)
    ensures Texts(fs + [f]) == Texts(fs) + [FieldText(f.key, f.value)]
  {
    assert (fs + [f])[..|fs|] == fs;
  }

  lemma {:induction false} NothingAdded(fs: seq<Pair>, parts: seq<string>)
    ensures fs + [] == fs && parts + [] == parts
  {}

  lemma {:induction false} SlotPartsAreTexts(o: Vocabulary, order: seq<Slot>, slots: map<Slot, string>)
    requires forall s | s in slots && (s == Id || s == Type) :: slots[s] != "" && AllUnquoted(slots[s])
    ensures SlotParts(o, order, slots) == Texts(SlotFields(o, order, slots))
  {
    if order != [] {
      var k := |order| - 1;
      SlotPartsAreTexts(o, order[..k], slots);
      if order[k] in slots {
        TextsAppend(SlotFields(o, order[..k], slots), Pair(o.slotName(order[k]), slots[order[k]]));
      } else {
        NothingAdded(SlotFields(o, order[..k], slots), SlotParts(o, order[..k], slots));
      }
    }
  }

  lemma {:induction false} EdgePartsAreTexts(order: seq<string>, edges: map<string, seq<string>>)
    requires forall e | e in edges :: CleanTargets(edges[e])
    ensures EdgeParts(order, edges) == Texts(EdgeFields(order, edges))
  {
    if order != [] {
      var k := |order| - 1;
      EdgePartsAreTexts(order[..k], edges);
      if order[k] in edges {
        ListToken(order[k], edges[order[k]]);
        TextsAppend(EdgeFields(order[..k], edges), Pair(order[k], JoinCommas(edges[order[k]])));
      } else {
        NothingAdded(EdgeFields(order[..k], edges), EdgeParts(order[..k], edges));
      }
    }
  }

  lemma {:induction false} JoinTexts(fs: seq<Pair>)
    ensures JoinSpaces(Texts(fs)) == JoinFields(fs) && |Texts(fs)| == |fs|
    decreases |fs|
  {
    if fs != [] {
      JoinTexts(fs[1..]);
      assert fs == [fs[0]] + fs[1..];
      TextsConcat([fs[0]], fs[1..]);
      assert [fs[0]][..0] == [];
      assert Texts([fs[0]]) == [FieldText(fs[0].key, fs[0].value)];
      assert Texts(fs)[1..] == Texts(fs[1..]);
    }
  }

  lemma {:induction false} CleanIsUnquoted(s: string)
    requires AllIdChars(s)
    ensures AllUnquoted(s)
  {}

  lemma {:induction false} ExpectsAreTexts(expects: Option<seq<string>>)
    requires expects.Some? ==> CleanTargets(expects.value)
    ensures ExpectsParts(expects) == Texts(ExpectsFields(expects))
  {
    if expects.Some? {
      ListToken("expects", expects.value);
      TextsAppend([], Pair("expects", JoinCommas(expects.value)));
      assert [] + ExpectsFields(expects) == ExpectsFields(expects);
      assert "expects" + "=" == "expects=";
    }
  }

  lemma {:induction false} PartsAreTexts(o: Vocabulary, order: seq<Slot>, m: ParsedMarker)
    requires ValidVocabulary(o) && Writable(o, m)
    ensures SlotParts(o, order, m.slots) + ExpectsParts(m.expects) + EdgeParts(o.edgeOrder, m.edges) == Texts(Fields(o, order, m))
  {
    var a, b, c := SlotFields(o, order, m.slots), ExpectsFields(m.expects), EdgeFields(o.edgeOrder, m.edges);
    CleanIsUnquoted(m.slots[Id]);
    SlotPartsAreTexts(o, order, m.slots);
    EdgePartsAreTexts(o.edgeOrder, m.edges);
    ExpectsAreTexts(m.expects);
    TextsConcat(a + b, c);
    TextsConcat(a, b);
  }

  lemma {:induction false} JoinWithHead(head: string, parts: seq<string>)
    requires parts != []
    ensures JoinSpaces([head] + parts) == head + (" " + JoinSpaces(parts))
  {
    assert ([head] + parts)[1..] == parts;
  }

  /** A marker is written as its field pairs. */
  lemma {:induction false} RenderIsFields(o: Vocabulary, order: seq<Slot>, m: ParsedMarker)
    requires ValidVocabulary(o) && Writable(o, m) && order == SLOT_ORDER
    ensures Fields(o, order, m) != []
    ensures Render(o, m) == PREFIX + (" " + JoinFields(Fields(o, order, m)))
  {
    PartsAreTexts(o, order, m);
    JoinTexts(Fields(o, order, m));
    IdIsAField(o, order, m.slots);
    JoinWithHead(PREFIX, Texts(Fields(o, order, m)));
  }

  lemma {:induction false} IdIsAField(o: Vocabulary, order: seq<Slot>, slots: map<Slot, string>)
    requires Id in slots && order != [] && order[0] == Id
    ensures SlotFields(o, order, slots) != []
    decreases |order|
  {
    var k := |order| - 1;
    if k > 0 {
      assert order[..k][0] == Id;
      IdIsAField(o, order[..k], slots);
    }
  }

  // ----- what the parser makes of the fields -----

  lemma {:induction false} TokensConcat(a: seq<Pair>, b: seq<Pair>)
    ensures TokensFor(a + b) == TokensFor(a) + TokensFor(b)
  {
    if a == [] {
      assert a + b == b;
    } else {
      assert (a + b)[1..] == a[1..] + b;
      TokensConcat(a[1..], b);
    }
  }

  lemma {:induction false} TokensAppend(fs: seq<Pair>, f: Pair)
    ensures TokensFor(fs + [f]) == TokensFor(fs) + [TokenOf(f)]
  {
    TokensConcat(fs, [f]);
    assert [f][1..] == [];
  }

  lemma {:induction false} SlotMapConcat(o: Vocabulary, a: seq<FieldToken>, b: seq<FieldToken>)
    ensures SlotMap(o, a + b) == SlotMap(o, a) + SlotMap(o, b)
  {
    if b == [] {
      assert a + b == a;
    } else {
      var k := |b| - 1;
      assert (a + b)[..|a| + k] == a + b[..k];
      SlotMapConcat(o, a, b[..k]);
    }
  }

  lemma {:induction false} EdgeMapConcat(o: Vocabulary, a: seq<FieldToken>, b: seq<FieldToken>)
    requires EdgeMap(o, a) == map[]
    ensures EdgeMap(o, a + b) == EdgeMap(o, b)
  {
    if b == [] {
      assert a + b == a;
    } else {
      var k := |b| - 1;
      assert (a + b)[..|a| + k] == a + b[..k];
      EdgeMapConcat(o, a, b[..k]);
    }
  }

  lemma {:induction false} ExpectsConcat(o: Vocabulary, a: seq<FieldToken>, b: seq<FieldToken>)
    ensures ExpectsOf(o, a + b) == if ExpectsOf(o, b).Some? then ExpectsOf(o, b) else ExpectsOf(o, a)
  {
    if b == [] {
      assert a + b == a;
    } else {
      var k := |b| - 1;
      assert (a + b)[..|a| + k] == a + b[..k];
      ExpectsConcat(o, a, b[..k]);
    }
  }

  /** A token that raises nothing and is not migrated. */
  ghost predicate Fine(o: Vocabulary, mode: UnknownKeys, tok: FieldToken) {
    tok.value != "" && ValueDiags(o, mode, tok) == [] && !o.classify(tok.key).Unknown?
  }

  ghost predicate DistinctKeys(tokens: seq<FieldToken>) {
    forall i, j | 0 <= i < j < |tokens| :: tokens[i].key != tokens[j].key
  }

  /** When keys are distinct and every token is fine, all tokens count and none complains. */
  lemma {:induction false} AllCount(o: Vocabulary, mode: UnknownKeys, tokens: seq<FieldToken>)
    requires DistinctKeys(tokens) && forall t | t in tokens :: Fine(o, mode, t)
    ensures Effective(tokens) == tokens && TokenDiags(o, mode, tokens) == [] && MigratedOf(o, mode, tokens) == map[]
  {
    if tokens != [] {
      var k := |tokens| - 1;
      var init, tok := tokens[..k], tokens[k];
      assert tokens == init + [tok] && tokens[..k + 1] == tokens;
      AllCount(o, mode, init);
      PrefixStep(o, mode, tokens, k);
      NewKey(tokens, k);
      assert Fine(o, mode, tok);
      assert Verdicts(o, mode, Keys(init), tok) == [];
    }
  }

  lemma {:induction false} NewKey(tokens: seq<FieldToken>, k: nat)
    requires DistinctKeys(tokens) && k < |tokens|
    ensures tokens[k].key !in Keys(tokens[..k])
  {}

  predicate DistinctSlots(order: seq<Slot>) {
    forall i, j | 0 <= i < j < |order| :: order[i] != order[j]
  }

  function Rank(s: Slot): nat {
    match s
    case Id => 0 case Type => 1 case Title => 2 case Policy => 3 case State => 4
    case CanonicalSource => 5 case Value => 6 case Selector => 7 case Scope => 8
    case SeverityLevel => 9 case Confidence => 10 case Strength => 11 case Evidence => 12
  }

  lemma {:induction false} SlotAtRank(order: seq<Slot>, s: Slot)
    requires order == SLOT_ORDER
    ensures |order| == 13 && order[Rank(s)] == s
  {}

  lemma {:induction false} RankAt(order: seq<Slot>, i: nat)
    requires order == SLOT_ORDER && i < 13
    ensures |order| == 13 && Rank(order[i]) == i
  {}

  lemma {:induction false} SlotOrderIsComplete(order: seq<Slot>)
    requires order == SLOT_ORDER
    ensures DistinctSlots(order) && order != [] && order[0] == Id
    ensures forall s: Slot :: s in order
  {
    forall s: Slot ensures s in order { SlotAtRank(order, s); }
    SlotAtRank(order, Id);
    forall i, j | 0 <= i < j < |order| ensures order[i] != order[j] {
      RankAt(order, i);
      RankAt(order, j);
    }
  }

  ghost predicate FineSlots(o: Vocabulary, slots: map<Slot, string>) {
    && (forall s | s in slots :: slots[s] != "")
    && (Id in slots ==> IsValidId(slots[Id]))
    && (Type in slots ==> slots[Type] in o.nodeTypes)
  }

  function Restrict(slots: map<Slot, string>, order: seq<Slot>): map<Slot, string> {
    map s | s in slots && s in order :: slots[s]
  }

  ghost predicate ScalarTokens(o: Vocabulary, mode: UnknownKeys, toks: seq<FieldToken>, order: seq<Slot>) {
    forall t | t in toks :: Fine(o, mode, t) && o.classify(t.key).Scalar? && o.classify(t.key).slot in order
  }

  /** The pairs are one fine token per listed slot and read back into the same slots. */
  ghost predicate ReadsSlots(o: Vocabulary, mode: UnknownKeys, fs: seq<Pair>, order: seq<Slot>, slots: map<Slot, string>) {
    var toks := TokensFor(fs);
    && ValidPairs(fs) && DistinctKeys(toks) && ScalarTokens(o, mode, toks, order)
    && SlotMap(o, toks) == Restrict(slots, order)
    && EdgeMap(o, toks) == map[] && ExpectsOf(o, toks) == None
  }

  lemma {:induction false} SlotFieldsRead(o: Vocabulary, mode: UnknownKeys, order: seq<Slot>, slots: map<Slot, string>)
    requires ValidVocabulary(o) && DistinctSlots(order) && FineSlots(o, slots)
    ensures ReadsSlots(o, mode, SlotFields(o, order, slots), order, slots)
  {
    if order != [] {
      var k := |order| - 1;
      var fs := SlotFields(o, order[..k], slots);
      SlotFieldsRead(o, mode, order[..k], slots);
      assert order == order[..k] + [order[k]];
      assert order[k] !in order[..k];
      if order[k] in slots {
        AppendScalar(o, mode, fs, order[..k], order[k], slots);
      } else {
        assert SlotFields(o, order, slots) == fs;
        assert Restrict(slots, order) == Restrict(slots, order[..k]);
      }
    }
  }

  lemma {:induction false} AppendScalar(o: Vocabulary, mode: UnknownKeys, fs: seq<Pair>, before: seq<Slot>, s: Slot, slots: map<Slot, string>)
    requires ValidVocabulary(o) && s in slots && s !in before && FineSlots(o, slots)
    requires ReadsSlots(o, mode, fs, before, slots)
    ensures ReadsSlots(o, mode, fs + [Pair(o.slotName(s), slots[s])], before + [s], slots)
  {
    var f := Pair(o.slotName(s), slots[s]);
    var toks, tok := TokensFor(fs), TokenOf(f);
    TokensAppend(fs, f);
    LastToken(o, toks, tok);
    assert o.classify(tok.key) == Scalar(s);
    forall t | t in toks ensures t.key != tok.key {}
    DistinctAppend(toks, tok);
    RestrictAppend(slots, before, s);
    assert Fine(o, mode, tok);
  }

  lemma {:induction false} RestrictAppend(slots: map<Slot, string>, before: seq<Slot>, s: Slot)
    requires s in slots
    ensures Restrict(slots, before + [s]) == Restrict(slots, before)[s := slots[s]]
  {}

  lemma {:induction false} DistinctAppend(toks: seq<FieldToken>, tok: FieldToken)
    requires DistinctKeys(toks) && forall t | t in toks :: t.key != tok.key
    ensures DistinctKeys(toks + [tok])
  {}

  /** What one more token adds. */
  lemma {:induction false} LastToken(o: Vocabulary, toks: seq<FieldToken>, tok: FieldToken)
    ensures var c := o.classify(tok.key);
      && SlotMap(o, toks + [tok]) == (if c.Scalar? then SlotMap(o, toks)[c.slot := tok.value] else SlotMap(o, toks))
      && EdgeMap(o, toks + [tok]) == (if c.EdgeTo? then Extend(EdgeMap(o, toks), c.name, TargetsOf(tok)) else EdgeMap(o, toks))
      && ExpectsOf(o, toks + [tok]) == (if c.Expects? then Some(TargetsOf(tok)) else ExpectsOf(o, toks))
  {
    assert (toks + [tok])[..|toks|] == toks;
  }

  // ----- edge fields -----

  ghost predicate EdgeTokens(o: Vocabulary, mode: UnknownKeys, toks: seq<FieldToken>, order: seq<string>) {
    forall t | t in toks :: Fine(o, mode, t) && o.classify(t.key).EdgeTo? && t.key in order
  }

  function RestrictEdges(edges: map<string, seq<string>>, order: seq<string>): map<string, seq<string>> {
    map e | e in edges && e in order :: edges[e]
  }

  ghost predicate FineEdges(o: Vocabulary, edges: map<string, seq<string>>) {
    forall e | e in edges :: IsKey(e) && o.classify(e) == EdgeTo(e) && CleanTargets(edges[e])
  }

  /** The pairs are one fine token per listed edge and read back into the same edges. */
  ghost predicate ReadsEdges(o: Vocabulary, mode: UnknownKeys, fs: seq<Pair>, order: seq<string>, edges: map<string, seq<string>>) {
    var toks := TokensFor(fs);
    && ValidPairs(fs) && DistinctKeys(toks) && EdgeTokens(o, mode, toks, order)
    && EdgeMap(o, toks) == RestrictEdges(edges, order)
    && SlotMap(o, toks) == map[] && ExpectsOf(o, toks) == None
  }

  lemma {:induction false} NoEdgeAdded(order: seq<string>, edges: map<string, seq<string>>)
    requires order != [] && order[|order| - 1] !in edges
    ensures var init := order[..|order| - 1];
            EdgeFields(order, edges) == EdgeFields(init, edges) && RestrictEdges(edges, order) == RestrictEdges(edges, init)
  {
    var init := order[..|order| - 1];
    assert order == init + [order[|order| - 1]];
    assert EdgeFields(init, edges) + [] == EdgeFields(init, edges);
  }

  lemma {:induction false} EdgeFieldsRead(o: Vocabulary, mode: UnknownKeys, order: seq<string>, edges: map<string, seq<string>>)
    requires DistinctNames(order) && FineEdges(o, edges)
    ensures ReadsEdges(o, mode, EdgeFields(order, edges), order, edges)
  {
    if order == [] {
      assert RestrictEdges(edges, []) == map[];
    } else {
      var k := |order| - 1;
      var fs := EdgeFields(order[..k], edges);
      EdgeFieldsRead(o, mode, order[..k], edges);
      assert order == order[..k] + [order[k]];
      assert order[k] !in order[..k];
      if order[k] in edges {
        assert EdgeFields(order, edges) == fs + [Pair(order[k], JoinCommas(edges[order[k]]))];
        AppendEdge(o, mode, fs, order[..k], order[k], edges);
      } else {
        NoEdgeAdded(order, edges);
      }
    }
  }

  lemma {:induction false} AppendEdge(o: Vocabulary, mode: UnknownKeys, fs: seq<Pair>, before: seq<string>, e: string, edges: map<string, seq<string>>)
    requires FineEdges(o, edges) && e in edges && e !in before
    requires ReadsEdges(o, mode, fs, before, edges)
    ensures ReadsEdges(o, mode, fs + [Pair(e, JoinCommas(edges[e]))], before + [e], edges)
  {
    var f := Pair(e, JoinCommas(edges[e]));
    var toks, tok := TokensFor(fs), TokenOf(f);
    TokensAppend(fs, f);
    LastToken(o, toks, tok);
    ListToken(e, edges[e]);
    assert o.classify(tok.key) == EdgeTo(e);
    forall t | t in toks ensures t.key != tok.key {}
    DistinctAppend(toks, tok);
    assert Fine(o, mode, tok);
    RestrictEdgesAppend(edges, before, e);
  }

  lemma {:induction false} RestrictEdgesAppend(edges: map<string, seq<string>>, before: seq<string>, e: string)
    requires e in edges && e !in before
    ensures RestrictEdges(edges, before + [e]) == Extend(RestrictEdges(edges, before), e, edges[e])
  {
    assert [] + edges[e] == edges[e];
  }

  // ----- all fields together -----

  ghost predicate ReadsMarker(o: Vocabulary, mode: UnknownKeys, toks: seq<FieldToken>, m: ParsedMarker) {
    && DistinctKeys(toks) && (forall t | t in toks :: Fine(o, mode, t))
    && SlotMap(o, toks) == m.slots && ExpectsOf(o, toks) == m.expects && EdgeMap(o, toks) == m.edges
  }

  lemma {:induction false} FieldsRead(o: Vocabulary, mode: UnknownKeys, order: seq<Slot>, m: ParsedMarker)
    requires ValidVocabulary(o) && Writable(o, m) && order == SLOT_ORDER
    ensures ValidPairs(Fields(o, order, m))
    ensures ReadsMarker(o, mode, TokensFor(Fields(o, order, m)), m)
  {
    SlotOrderIsComplete(order);
    var a, b, c := SlotFields(o, order, m.slots), ExpectsFields(m.expects), EdgeFields(o.edgeOrder, m.edges);
    SlotFieldsRead(o, mode, order, m.slots);
    RestrictToAll(m.slots, order);
    EdgeFieldsRead(o, mode, o.edgeOrder, m.edges);
    RestrictToAllEdges(m.edges, o.edgeOrder);
    var ta, tb, tc := TokensFor(a), TokensFor(b), TokensFor(c);
    ExpectsRead(o, mode, m.expects);
    TokensConcat(a + b, c);
    TokensConcat(a, b);
    ConcatReads(o, mode, ta, tb, tc, m);
    ValidConcat(a, b);
    ValidConcat(a + b, c);
  }

  lemma {:induction false} ValidConcat(a: seq<Pair>, b: seq<Pair>)
    requires ValidPairs(a) && ValidPairs(b)
    ensures ValidPairs(a + b)
  {}

  lemma {:induction false} RestrictToAll(slots: map<Slot, string>, order: seq<Slot>)
    requires forall s: Slot :: s in order
    ensures Restrict(slots, order) == slots
  {}

  lemma {:induction false} RestrictToAllEdges(edges: map<string, seq<string>>, order: seq<string>)
    requires forall e | e in edges :: e in order
    ensures RestrictEdges(edges, order) == edges
  {}

  ghost predicate ReadsExpects(o: Vocabulary, mode: UnknownKeys, tb: seq<FieldToken>, expects: Option<seq<string>>) {
    && |tb| <= 1 && (forall t | t in tb :: Fine(o, mode, t) && t.key == "expects")
    && SlotMap(o, tb) == map[] && EdgeMap(o, tb) == map[] && ExpectsOf(o, tb) == expects
  }

  lemma {:induction false} ExpectsTokenReads(o: Vocabulary, mode: UnknownKeys, tok: FieldToken)
    requires tok.key == "expects" && o.classify(tok.key) == Expects
    requires tok.value != "" && TargetDiags(TargetsOf(tok)) == []
    ensures ReadsExpects(o, mode, [tok], Some(TargetsOf(tok)))
  {
    assert [tok] == [] + [tok];
    LastToken(o, [], tok);
  }

  lemma {:induction false} ExpectsRead(o: Vocabulary, mode: UnknownKeys, expects: Option<seq<string>>)
    requires ValidVocabulary(o) && (expects.Some? ==> CleanTargets(expects.value))
    ensures ValidPairs(ExpectsFields(expects)) && ReadsExpects(o, mode, TokensFor(ExpectsFields(expects)), expects)
  {
    if expects.Some? {
      var f := Pair("expects", JoinCommas(expects.value));
      ListToken("expects", expects.value);
      assert TokensFor([f]) == [TokenOf(f)] by { assert [f] == [] + [f]; TokensAppend([], f); }
      ExpectsTokenReads(o, mode, TokenOf(f));
    }
  }

  lemma {:induction false} ConcatReads(o: Vocabulary, mode: UnknownKeys, ta: seq<FieldToken>, tb: seq<FieldToken>, tc: seq<FieldToken>, m: ParsedMarker)
    requires DistinctKeys(ta) && DistinctKeys(tc) && |tb| <= 1 && o.classify("expects") == Expects
    requires forall t | t in ta :: Fine(o, mode, t) && o.classify(t.key).Scalar?
    requires forall t | t in tb :: Fine(o, mode, t) && t.key == "expects"
    requires forall t | t in tc :: Fine(o, mode, t) && o.classify(t.key).EdgeTo?
    requires SlotMap(o, ta) == m.slots && ExpectsOf(o, ta) == None && EdgeMap(o, ta) == map[]
    requires SlotMap(o, tb) == map[] && ExpectsOf(o, tb) == m.expects && EdgeMap(o, tb) == map[]
    requires SlotMap(o, tc) == map[] && ExpectsOf(o, tc) == None && EdgeMap(o, tc) == m.edges
    ensures ReadsMarker(o, mode, (ta + tb) + tc, m)
  {
    SlotMapConcat(o, ta, tb);
    SlotMapConcat(o, ta + tb, tc);
    EdgeMapConcat(o, ta, tb);
    EdgeMapConcat(o, ta + tb, tc);
    ExpectsConcat(o, ta, tb);
    ExpectsConcat(o, ta + tb, tc);
    DistinctParts(ta, tb);
    DistinctParts(ta + tb, tc);
  }

  lemma {:induction false} DistinctParts(a: seq<FieldToken>, b: seq<FieldToken>)
    requires DistinctKeys(a) && DistinctKeys(b)
    requires forall s, t | s in a && t in b :: s.key != t.key
    ensures DistinctKeys(a + b)
  {}

  /** No diagnostic of severity ERROR. */
  predicate NoErrors(diags: seq<Diagnostic>) {
    forall d | d in diags :: d.severity != ERROR
  }

  /** When all tokens count, a slot other than the type means its last value. */
  lemma {:induction false} MeaningOfSlot(o: Vocabulary, mode: UnknownKeys, toks: seq<FieldToken>, s: Slot)
    requires Effective(toks) == toks && s in SlotMap(o, toks) && s != Type
    ensures var m := Meaning(o, mode, Tokens(toks, [])).marker; s in m.slots && m.slots[s] == SlotMap(o, toks)[s]
  {}

  lemma {:induction false} FinishKeeps(o: Vocabulary, m: ParsedMarker)
    requires Writable(o, m)
    ensures Finish(o, m.slots).0 == Typed(o, m).slots && NoErrors(Finish(o, m.slots).1)
  {}

  /** The field pairs of a marker mean that marker, typed. */
  lemma {:induction false} FieldsMean(o: Vocabulary, mode: UnknownKeys, toks: seq<FieldToken>, m: ParsedMarker)
    requires Writable(o, m) && ReadsMarker(o, mode, toks, m)
    ensures var r := Meaning(o, mode, Tokens(toks, []));
            r.marker == Typed(o, m) && r.migrated == map[] && NoErrors(r.diags)
  {
    AllCount(o, mode, toks);
    FinishKeeps(o, m);
    var last := Finish(o, m.slots).1;
    assert [] + [] + last == last;
  }

  lemma {:induction false} PayloadTail(s: string)
    requires s != [] && !IsSpace(s[0])
    ensures (PREFIX + (" " + s))[|PREFIX|..] == " " + s
    ensures Lstrip(" " + s) == s
  {
    SpanConcat(" ", s, IsSpace);
  }

  /** Parsing the rendering of a marker gives back the marker, typed by its id where it has no type, and
      with no error. */
  lemma {:induction false} PayloadRoundTrip(o: Vocabulary, mode: UnknownKeys, m: ParsedMarker)
    requires ValidVocabulary(o) && Writable(o, m)
    ensures |Render(o, m)| >= |PREFIX|
    ensures var r := Meaning(o, mode, FieldsOf(Render(o, m)));
            r.marker == Typed(o, m) && r.migrated == map[] && NoErrors(r.diags)
  {
    var order := SLOT_ORDER;
    var fs := Fields(o, order, m);
    RenderIsFields(o, order, m);
    FieldsRead(o, mode, order, m);
    TokensInvertFields(fs);
    JoinStartsWithKey(fs);
    PayloadTail(JoinFields(fs));
    FieldsMean(o, mode, TokensFor(fs), m);
  }
}
