/** Parsing a marker line into a typed record, and rendering it back. */
module Marker {
  import opened Models
  import opened Grammar
  import opened Quoting

  // ----- vocabulary -----

  /** Keys with a scalar value, in the order the renderer writes them. */
  datatype Slot =
    | Id | Type | Title | Policy | State | CanonicalSource | Value | Selector | Scope
    | SeverityLevel | Confidence | Strength | Evidence

  const SLOT_ORDER: seq<Slot> := [
    Id, Type, Title, Policy, State, CanonicalSource, Value, Selector, Scope,
    SeverityLevel, Confidence, Strength, Evidence]

  /** What a key means to the parser. */
  datatype KeyClass = Scalar(slot: Slot) | Expects | EdgeTo(name: string) | DerivedEdge | Unknown

  /** The words of the marker language: what each key means, how each slot is written, the
      registered node types, type inference from ids, and the edge names in rendering order. */
  datatype Vocabulary = Vocabulary(
    classify: string -> KeyClass,
    slotName: Slot -> string,
    nodeTypes: set<string>,
    infer: string -> Option<string>,
    edgeOrder: seq<string>)

  ghost predicate DistinctNames(s: seq<string>) {
    forall i, j | 0 <= i < j < |s| :: s[i] != s[j]
  }

  /** Slots and edges are written with keys that read back as themselves. */
  ghost predicate ValidVocabulary(o: Vocabulary) {
    && (forall s :: IsKey(o.slotName(s)) && o.classify(o.slotName(s)) == Scalar(s))
    && o.classify("expects") == Expects
    && DistinctNames(o.edgeOrder)
    && (forall e | e in o.edgeOrder :: IsKey(e) && (o.classify(e) == EdgeTo(e) || o.classify(e) == DerivedEdge))
    && (forall t | t in o.nodeTypes :: t != "" && AllUnquoted(t))
  }

  datatype UnknownKeys = Reject | Warn | Permissive

  // ----- the record -----

  /** A parsed marker. The scalar slots hold the trace id, node type, title and properties. */
  datatype ParsedMarker = ParsedMarker(slots: map<Slot, string>, expects: Option<seq<string>>, edges: map<string, seq<string>>)

  const BLANK := ParsedMarker(map[], None, map[])

  datatype ParseResult = ParseResult(marker: ParsedMarker, migrated: map<string, string>, diags: seq<Diagnostic>)

  // ----- edge targets -----

  function SplitCommas(s: string): (parts: seq<string>)
    ensures parts != []
  {
    if s == [] then [""]
    else
      var rest := SplitCommas(s[1..]);
      if s[0] == ',' then [""] + rest else [[s[0]] + rest[0]] + rest[1..]
  }

  function NonEmpty(parts: seq<string>): seq<string> {
    if parts == [] then [] else (if parts[0] == "" then [] else [parts[0]]) + NonEmpty(parts[1..])
  }

  function TargetsOf(tok: FieldToken): seq<string> {
    if tok.quoted then [tok.value] else NonEmpty(SplitCommas(tok.value))
  }

  function TargetDiags(targets: seq<string>): seq<Diagnostic> {
    if targets == [] then [] else (if IsValidId(targets[0]) then [] else [SYNTAX]) + TargetDiags(targets[1..])
  }

  // ----- what a token list means -----

  function Keys(tokens: seq<FieldToken>): set<string> {
    set t | t in tokens :: t.key
  }

  /** The tokens that count: the first of each key, unless its value is empty. */
  function Effective(tokens: seq<FieldToken>): seq<FieldToken> {
    if tokens == [] then []
    else
      var k := |tokens| - 1;
      var init := Effective(tokens[..k]);
      if tokens[k].key in Keys(tokens[..k]) || tokens[k].value == "" then init else init + [tokens[k]]
  }

  /** Last value given to a slot. */
  function SlotMap(o: Vocabulary, eff: seq<FieldToken>): map<Slot, string> {
    if eff == [] then map[]
    else
      var k := |eff| - 1;
      var c := o.classify(eff[k].key);
      if c.Scalar? then SlotMap(o, eff[..k])[c.slot := eff[k].value] else SlotMap(o, eff[..k])
  }

  function ExpectsOf(o: Vocabulary, eff: seq<FieldToken>): Option<seq<string>> {
    if eff == [] then None
    else
      var k := |eff| - 1;
      if o.classify(eff[k].key).Expects? then Some(TargetsOf(eff[k])) else ExpectsOf(o, eff[..k])
  }

  function Extend(m: map<string, seq<string>>, e: string, targets: seq<string>): map<string, seq<string>> {
    m[e := (if e in m then m[e] else []) + targets]
  }

  function EdgeMap(o: Vocabulary, eff: seq<FieldToken>): map<string, seq<string>> {
    if eff == [] then map[]
    else
      var k := |eff| - 1;
      var c := o.classify(eff[k].key);
      if c.EdgeTo? then Extend(EdgeMap(o, eff[..k]), c.name, TargetsOf(eff[k])) else EdgeMap(o, eff[..k])
  }

  function MigratedOf(o: Vocabulary, mode: UnknownKeys, eff: seq<FieldToken>): map<string, string> {
    if eff == [] then map[]
    else
      var k := |eff| - 1;
      if mode.Permissive? && o.classify(eff[k].key).Unknown? then MigratedOf(o, mode, eff[..k])[eff[k].key := eff[k].value]
      else MigratedOf(o, mode, eff[..k])
  }

  /** What is wrong with one token that counts. */
  function ValueDiags(o: Vocabulary, mode: UnknownKeys, tok: FieldToken): seq<Diagnostic> {
    match o.classify(tok.key)
    case Scalar(slot) =>
      if slot == Id && !IsValidId(tok.value) then [Diagnostic(TL005, ERROR)]
      else if slot == Type && tok.value !in o.nodeTypes then [Diagnostic(TL007, ERROR)]
      else []
    case Expects => TargetDiags(TargetsOf(tok))
    case EdgeTo(_) => TargetDiags(TargetsOf(tok))
    case DerivedEdge => [Diagnostic(TL040, ERROR)]
    case Unknown =>
      [Diagnostic(TL040, match mode case Permissive => INFO case Warn => WARNING case Reject => ERROR)]
  }

  /** What is wrong with the next token, given the keys seen before it. */
  function Verdicts(o: Vocabulary, mode: UnknownKeys, seen: set<string>, tok: FieldToken): seq<Diagnostic> {
    if tok.key in seen then [Diagnostic(TL006, ERROR)]
    else if tok.value == "" then [SYNTAX]
    else ValueDiags(o, mode, tok)
  }

  function TokenDiags(o: Vocabulary, mode: UnknownKeys, tokens: seq<FieldToken>): seq<Diagnostic> {
    if tokens == [] then []
    else
      var k := |tokens| - 1;
      TokenDiags(o, mode, tokens[..k]) + Verdicts(o, mode, Keys(tokens[..k]), tokens[k])
  }

  /** The checks after the last token; a missing type is inferred from the id. */
  function Finish(o: Vocabulary, slots: map<Slot, string>): (map<Slot, string>, seq<Diagnostic>) {
    if Id !in slots then (slots, [SYNTAX])
    else
      var inferred := o.infer(slots[Id]);
      if Type in slots then
        (slots, if inferred.Some? && slots[Type] != inferred.value then [Diagnostic(TL007, INFO)] else [])
      else (if inferred.Some? then slots[Type := inferred.value] else slots, [])
  }

  function Meaning(o: Vocabulary, mode: UnknownKeys, t: Tokens): ParseResult {
    var eff := Effective(t.tokens);
    var (slots, last) := Finish(o, SlotMap(o, eff));
    ParseResult(ParsedMarker(slots, ExpectsOf(o, eff), EdgeMap(o, eff)), MigratedOf(o, mode, eff),
                t.diags + TokenDiags(o, mode, t.tokens) + last)
  }

  // ----- the parser as it runs -----

  lemma {:induction false} TargetStep(targets: seq<string>, i: nat, out: seq<Diagnostic>)
    requires i < |targets|
    ensures out + TargetDiags(targets[i..]) == (if IsValidId(targets[i]) then out else out + [SYNTAX]) + TargetDiags(targets[i + 1..])
  {
    assert targets[i..][1..] == targets[i + 1..];
    var rest := TargetDiags(targets[i + 1..]);
    assert [] + rest == rest;
    assert out + ([SYNTAX] + rest) == (out + [SYNTAX]) + rest;
  }

  method ValidatedTargets(tok: FieldToken, diags: seq<Diagnostic>) returns (targets: seq<string>, out: seq<Diagnostic>)
    ensures targets == TargetsOf(tok) && out == diags + TargetDiags(targets)
  {
    targets := TargetsOf(tok);
    out := diags;
    for i := 0 to |targets|
      invariant out + TargetDiags(targets[i..]) == diags + TargetDiags(targets)
    {
      TargetStep(targets, i, out);
      if !IsValidId(targets[i]) {
        out := out + [SYNTAX];
      }
    }
  }

  lemma {:induction false} PrefixStep(o: Vocabulary, mode: UnknownKeys, tokens: seq<FieldToken>, i: nat)
    requires i < |tokens|
    ensures Keys(tokens[..i + 1]) == Keys(tokens[..i]) + {tokens[i].key}
    ensures TokenDiags(o, mode, tokens[..i + 1]) == TokenDiags(o, mode, tokens[..i]) + Verdicts(o, mode, Keys(tokens[..i]), tokens[i])
    ensures Effective(tokens[..i + 1]) ==
      if tokens[i].key in Keys(tokens[..i]) || tokens[i].value == "" then Effective(tokens[..i]) else Effective(tokens[..i]) + [tokens[i]]
  {
    assert tokens[..i + 1] == tokens[..i] + [tokens[i]];
    assert tokens[..i + 1][..i] == tokens[..i];
  }

  /** The marker and the migrated keys are what the tokens that count say. */
  predicate Says(o: Vocabulary, mode: UnknownKeys, eff: seq<FieldToken>, marker: ParsedMarker, migrated: map<string, string>) {
    && marker == ParsedMarker(SlotMap(o, eff), ExpectsOf(o, eff), EdgeMap(o, eff))
    && migrated == MigratedOf(o, mode, eff)
  }

  /** One token that counts, applied to the marker under construction. */
  method Apply(o: Vocabulary, mode: UnknownKeys, tok: FieldToken, marker: ParsedMarker, migrated: map<string, string>, diags: seq<Diagnostic>, ghost eff: seq<FieldToken>)
      returns (marker': ParsedMarker, migrated': map<string, string>, diags': seq<Diagnostic>)
    requires Says(o, mode, eff, marker, migrated)
    ensures Says(o, mode, eff + [tok], marker', migrated')
    ensures diags' == diags + ValueDiags(o, mode, tok)
  {
    assert (eff + [tok])[..|eff|] == eff;
    marker', migrated', diags' := marker, migrated, diags;
    match o.classify(tok.key) {
      case Scalar(slot) =>
        marker' := marker.(slots := marker.slots[slot := tok.value]);
        if slot == Id && !IsValidId(tok.value) {
          diags' := diags + [Diagnostic(TL005, ERROR)];
        } else if slot == Type && tok.value !in o.nodeTypes {
          diags' := diags + [Diagnostic(TL007, ERROR)];
        }
      case Expects =>
        var targets;
        targets, diags' := ValidatedTargets(tok, diags);
        marker' := marker.(expects := Some(targets));
      case EdgeTo(name) =>
        var targets;
        targets, diags' := ValidatedTargets(tok, diags);
        marker' := marker.(edges := Extend(marker.edges, name, targets));
      case DerivedEdge =>
        diags' := diags + [Diagnostic(TL040, ERROR)];
      case Unknown =>
        if mode.Permissive? {
          migrated' := migrated[tok.key := tok.value];
          diags' := diags + [Diagnostic(TL040, INFO)];
        } else {
          diags' := diags + [Diagnostic(TL040, if mode.Warn? then WARNING else ERROR)];
        }
    }
  }

  /** Applies the tokens left to right; later duplicates and empty values only leave a
      diagnostic. */
  method ApplyTokens(o: Vocabulary, mode: UnknownKeys, tokens: seq<FieldToken>, first: seq<Diagnostic>)
      returns (marker: ParsedMarker, migrated: map<string, string>, diags: seq<Diagnostic>)
    ensures Says(o, mode, Effective(tokens), marker, migrated)
    ensures diags == first + TokenDiags(o, mode, tokens)
  {
    marker, migrated, diags := BLANK, map[], first;
    var seen: set<string> := {};
    for i := 0 to |tokens|
      invariant seen == Keys(tokens[..i])
      invariant Applied(o, mode, tokens[..i], first, marker, migrated, diags)
    {
      marker, migrated, diags := ApplyNext(o, mode, tokens, i, first, seen, marker, migrated, diags);
      KeysNext(tokens, i);
      seen := seen + {tokens[i].key};
    }
    assert tokens[..|tokens|] == tokens;
  }

  predicate Applied(o: Vocabulary, mode: UnknownKeys, tokens: seq<FieldToken>, first: seq<Diagnostic>, marker: ParsedMarker, migrated: map<string, string>, diags: seq<Diagnostic>) {
    Says(o, mode, Effective(tokens), marker, migrated) && diags == first + TokenDiags(o, mode, tokens)
  }

  lemma {:induction false} KeysNext(tokens: seq<FieldToken>, i: nat)
    requires i < |tokens|
    ensures Keys(tokens[..i + 1]) == Keys(tokens[..i]) + {tokens[i].key}
  {
    assert tokens[..i + 1] == tokens[..i] + [tokens[i]];
  }

  /** The next token, given the keys seen before it. */
  method ApplyNext(o: Vocabulary, mode: UnknownKeys, tokens: seq<FieldToken>, i: nat, ghost first: seq<Diagnostic>, seen: set<string>,
      marker: ParsedMarker, migrated: map<string, string>, diags: seq<Diagnostic>)
      returns (marker': ParsedMarker, migrated': map<string, string>, diags': seq<Diagnostic>)
    requires i < |tokens| && seen == Keys(tokens[..i]) && Applied(o, mode, tokens[..i], first, marker, migrated, diags)
    ensures Applied(o, mode, tokens[..i + 1], first, marker', migrated', diags')
  {
    marker', migrated', diags' := marker, migrated, diags;
    var tok := tokens[i];
    PrefixStep(o, mode, tokens, i);
    AppendTwice(first, TokenDiags(o, mode, tokens[..i]), Verdicts(o, mode, seen, tok));
    if tok.key in seen {
      diags' := diags + [Diagnostic(TL006, ERROR)];
    } else if tok.value == "" {
      diags' := diags + [SYNTAX];
    } else {
      marker', migrated', diags' := Apply(o, mode, tok, marker, migrated, diags, Effective(tokens[..i]));
    }
  }

  lemma {:induction false} AppendTwice(a: seq<Diagnostic>, b: seq<Diagnostic>, c: seq<Diagnostic>)
    ensures a + (b + c) == (a + b) + c
  {}

  method ParsePayload(o: Vocabulary, mode: UnknownKeys, payload: string) returns (r: ParseResult)
    requires |payload| >= |PREFIX|
    ensures r == Meaning(o, mode, FieldsOf(payload))
  {
    var tokens, first := TokenizeFields(payload);
    var marker, migrated, diags := ApplyTokens(o, mode, tokens, first);
    var (slots, last) := Finish(o, marker.slots);
    r := ParseResult(marker.(slots := slots), migrated, diags + last);
  }

  // ----- the renderer -----

  function JoinCommas(ts: seq<string>): string {
    if ts == [] then "" else if |ts| == 1 then ts[0] else ts[0] + "," + JoinCommas(ts[1..])
  }

  function JoinSpaces(parts: seq<string>): string {
    if parts == [] then "" else parts[0] + if |parts| == 1 then "" else " " + JoinSpaces(parts[1..])
  }

  /** Ids and types are written raw, other scalars quoted when they need it. */
  function SlotText(o: Vocabulary, slot: Slot, v: string): string {
    o.slotName(slot) + "=" + if slot == Id || slot == Type then v else QuoteValue(v)
  }

  function SlotParts(o: Vocabulary, order: seq<Slot>, slots: map<Slot, string>): seq<string> {
    if order == [] then []
    else
      var k := |order| - 1;
      SlotParts(o, order[..k], slots) + if order[k] in slots then [SlotText(o, order[k], slots[order[k]])] else []
  }

  function ExpectsParts(expects: Option<seq<string>>): seq<string> {
    if expects.Some? then ["expects=" + JoinCommas(expects.value)] else []
  }

  function EdgeParts(order: seq<string>, edges: map<string, seq<string>>): seq<string> {
    if order == [] then []
    else
      var k := |order| - 1;
      EdgeParts(order[..k], edges) +
      if order[k] in edges && edges[order[k]] != [] then [order[k] + "=" + JoinCommas(edges[order[k]])] else []
  }

  /** Canonical one-line form. */
  function Render(o: Vocabulary, m: ParsedMarker): string {
    JoinSpaces([PREFIX] + (SlotParts(o, SLOT_ORDER, m.slots) + ExpectsParts(m.expects) + EdgeParts(o.edgeOrder, m.edges)))
  }

  method RenderMarker(o: Vocabulary, m: ParsedMarker) returns (line: string)
    ensures line == Render(o, m)
  {
    var slots := RenderSlots(o, SLOT_ORDER, m.slots);
    var parts := slots;
    if m.expects.Some? {
      parts := parts + ["expects=" + JoinCommas(m.expects.value)];
    }
    assert parts == slots + ExpectsParts(m.expects);
    var edges := RenderEdges(o.edgeOrder, m.edges);
    line := JoinSpaces([PREFIX] + (parts + edges));
  }

  method RenderSlots(o: Vocabulary, order: seq<Slot>, slots: map<Slot, string>) returns (parts: seq<string>)
    ensures parts == SlotParts(o, order, slots)
  {
    parts := [];
    for i := 0 to |order|
      invariant parts == SlotParts(o, order[..i], slots)
    {
      assert order[..i + 1][..i] == order[..i];
      if order[i] in slots {
        parts := parts + [SlotText(o, order[i], slots[order[i]])];
      }
    }
    assert order[..|order|] == order;
  }

  method RenderEdges(order: seq<string>, edges: map<string, seq<string>>) returns (parts: seq<string>)
    ensures parts == EdgeParts(order, edges)
  {
    parts := [];
    for i := 0 to |order|
      invariant parts == EdgeParts(order[..i], edges)
    {
      assert order[..i + 1][..i] == order[..i];
      if order[i] in edges && edges[order[i]] != [] {
        parts := parts + [order[i] + "=" + JoinCommas(edges[order[i]])];
      }
    }
    assert order[..|order|] == order;
  }
}
