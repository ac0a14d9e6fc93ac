/** The built-in words of the marker language: keys, edges and node types as they are registered. */
module StandardVocabulary {
  import opened Models
  import opened Grammar
  import opened Marker
  import opened MarkerRoundTrip
  import opened MarkerLine
  import Ids

  // ----- the keys, by number -----

  /** Words 0 to 6. */
  function Words0(i: nat): string {
    if i == 0 then "work" else if i == 1 then "derived_from" else if i == 2 then "addresses" else
    if i == 3 then "satisfies" else if i == 4 then "implements" else if i == 5 then "verifies" else "exercises"
  }

  /** Words 7 to 13. */
  function Words1(i: nat): string {
    if i == 0 then "documents" else if i == 1 then "deploys" else if i == 2 then "depends_on" else
    if i == 3 then "supersedes" else if i == 4 then "produces" else if i == 5 then "consumes" else "blocks"
  }

  /** Words 14 to 20. */
  function Words2(i: nat): string {
    if i == 0 then "blocked_by" else if i == 1 then "related_to" else if i == 2 then "discovered_from" else
    if i == 3 then "asks" else if i == 4 then "answers" else if i == 5 then "answered_by" else "resolves"
  }

  /** Words 21 to 27. */
  function Words3(i: nat): string {
    if i == 0 then "proposes" else if i == 1 then "decides" else if i == 2 then "parent" else
    if i == 3 then "child" else if i == 4 then "introduced_by" else if i == 5 then "applies_to" else "learned_from"
  }

  /** Words 28 to 34. */
  function Words4(i: nat): string {
    if i == 0 then "establishes" else if i == 1 then "canonicalizes" else
    if i == 2 then "depends_on_value" else if i == 3 then "documents_value" else
    if i == 4 then "mirrors_value" else if i == 5 then "derives_value" else "generated_from"
  }

  /** Words 35 to 41. */
  function Words5(i: nat): string {
    if i == 0 then "historical_reference" else if i == 1 then "explains" else
    if i == 2 then "warns_against" else if i == 3 then "recommended_for" else if i == 4 then "contains" else
    if i == 5 then "calls" else "imports"
  }

  /** Words 42 to 48. */
  function Words6(i: nat): string {
    if i == 0 then "inherits" else if i == 1 then "references_symbol" else if i == 2 then "reads" else
    if i == 3 then "writes" else if i == 4 then "changed_by" else if i == 5 then "owned_by" else "executed"
  }

  /** Words 49 to 55. */
  function Words7(i: nat): string {
    if i == 0 then "passed" else if i == 1 then "failed" else if i == 2 then "built_in" else
    if i == 3 then "deployed_in" else if i == 4 then "attested_by" else if i == 5 then "id" else "type"
  }

  /** Words 56 to 62. */
  function Words8(i: nat): string {
    if i == 0 then "title" else if i == 1 then "policy" else if i == 2 then "state" else
    if i == 3 then "canonical_source" else if i == 4 then "value" else if i == 5 then "selector" else "scope"
  }

  /** Words 63 to 69. */
  function Words9(i: nat): string {
    if i == 0 then "severity" else if i == 1 then "confidence" else if i == 2 then "strength" else
    if i == 3 then "evidence" else if i == 4 then "knowledge_strength" else if i == 5 then "plan" else "expects"
  }

  const EDGES := 54
  const SEMANTIC := 39
  const WORDS := 70

  /** The words in order: the semantic, structural and observed edges, the scalar keys, and the rest. */
  function Word(i: nat): string {
    if i < 7 then Words0(i) else if i < 14 then Words1(i - 7) else if i < 21 then Words2(i - 14) else
    if i < 28 then Words3(i - 21) else if i < 35 then Words4(i - 28) else if i < 42 then Words5(i - 35) else
    if i < 49 then Words6(i - 42) else if i < 56 then Words7(i - 49) else if i < 63 then Words8(i - 56) else
    Words9(i - 63)
  }

  function Guess4(s: string): nat
    requires |s| == 4
  {
    if s[0] == 'a' then 17 else if s[0] == 'p' then 68 else if s[0] == 't' then 55 else 0
  }

  function Guess5(s: string): nat
    requires |s| == 5
  {
    if s[0] == 'c' then (if s[1] == 'a' then 40 else 24) else if s[0] == 'r' then 44 else
    if s[0] == 's' then (if s[1] == 'c' then 62 else 58) else if s[0] == 't' then 56 else 60
  }

  function Guess6(s: string): nat
    requires |s| == 6
  {
    if s[3] == 'c' then 13 else if s[3] == 'e' then 23 else if s[3] == 'i' then 57 else
    if s[3] == 'l' then 50 else if s[3] == 's' then 49 else 45
  }

  function Guess7(s: string): nat
    requires |s| == 7
  {
    if s[3] == 'e' then 69 else if s[3] == 'i' then 22 else if s[3] == 'l' then 8 else
    if s[3] == 'o' then 41 else 18
  }

  function Guess8(s: string): nat
    requires |s| == 8
  {
    if s[0] == 'b' then 51 else if s[0] == 'c' then (if s[3] == 's' then 12 else 39) else
    if s[0] == 'e' then (if s[2] == 'e' then 48 else if s[2] == 'i' then 66 else 36) else
    if s[0] == 'i' then 42 else if s[0] == 'o' then 47 else if s[0] == 'p' then (if s[3] == 'd' then 11 else
    21) else if s[0] == 'r' then 20 else if s[0] == 's' then (if s[2] == 'l' then 61 else
    if s[2] == 'r' then 65 else 63) else 5
  }

  function Guess9(s: string): nat
    requires |s| == 9
  {
    if s[0] == 'a' then 2 else if s[0] == 'd' then 7 else if s[0] == 'e' then 6 else 3
  }

  function Guess10(s: string): nat
    requires |s| == 10
  {
    if s[0] == 'a' then 26 else if s[0] == 'b' then 14 else if s[0] == 'c' then (if s[1] == 'h' then 46 else
    64) else if s[0] == 'd' then 9 else if s[0] == 'i' then 4 else if s[0] == 'r' then 15 else 10
  }

  function Guess11(s: string): nat
    requires |s| == 11
  {
    if s[1] == 'e' then 52 else if s[1] == 'n' then 19 else if s[1] == 's' then 28 else 53
  }

  function Guess12(s: string): nat
    requires |s| == 12
  {
    if s[0] == 'd' then 1 else 27
  }

  function Guess13(s: string): nat
    requires |s| == 13
  {
    if s[0] == 'c' then 29 else if s[0] == 'd' then 33 else if s[0] == 'i' then 25 else
    if s[0] == 'm' then 32 else 37
  }

  function Guess15(s: string): nat
    requires |s| == 15
  {
    if s[1] == 'e' then 38 else if s[1] == 'i' then 16 else 31
  }

  function Guess16(s: string): nat
    requires |s| == 16
  {
    if s[0] == 'c' then 59 else 30
  }

  /** The only word a text can be, told by its length and a few characters. */
  function Guess(s: string): nat {
    if |s| == 2 then 54 else if |s| == 4 then Guess4(s) else if |s| == 5 then Guess5(s) else
    if |s| == 6 then Guess6(s) else if |s| == 7 then Guess7(s) else if |s| == 8 then Guess8(s) else
    if |s| == 9 then Guess9(s) else if |s| == 10 then Guess10(s) else if |s| == 11 then Guess11(s) else
    if |s| == 12 then Guess12(s) else if |s| == 13 then Guess13(s) else if |s| == 14 then 34 else
    if |s| == 15 then Guess15(s) else if |s| == 16 then Guess16(s) else if |s| == 17 then 43 else
    if |s| == 18 then 67 else if |s| == 20 then 35 else WORDS
  }

  lemma {:induction false} Spelled0Low(i: nat)
    requires i < 4
    ensures IsKey(Words0(i))
  {}

  lemma {:induction false} Spelled0High(i: nat)
    requires 4 <= i < 7
    ensures IsKey(Words0(i))
  {}

  lemma {:induction false} Told0(i: nat)
    requires i < 7
    ensures Guess(Words0(i)) == 0 + i
  {}

  lemma {:induction false} Known0(i: nat)
    requires i < 7
    ensures IsKey(Words0(i)) && Guess(Words0(i)) == 0 + i
  {
    Told0(i);
    if i < 4 { Spelled0Low(i); } else { Spelled0High(i); }
  }

  lemma {:induction false} Spelled1Low(i: nat)
    requires i < 4
    ensures IsKey(Words1(i))
  {}

  lemma {:induction false} Spelled1High(i: nat)
    requires 4 <= i < 7
    ensures IsKey(Words1(i))
  {}

  lemma {:induction false} Told1(i: nat)
    requires i < 7
    ensures Guess(Words1(i)) == 7 + i
  {}

  lemma {:induction false} Known1(i: nat)
    requires i < 7
    ensures IsKey(Words1(i)) && Guess(Words1(i)) == 7 + i
  {
    Told1(i);
    if i < 4 { Spelled1Low(i); } else { Spelled1High(i); }
  }

  lemma {:induction false} Spelled2Low(i: nat)
    requires i < 4
    ensures IsKey(Words2(i))
  {}

  lemma {:induction false} Spelled2High(i: nat)
    requires 4 <= i < 7
    ensures IsKey(Words2(i))
  {}

  lemma {:induction false} Told2(i: nat)
    requires i < 7
    ensures Guess(Words2(i)) == 14 + i
  {}

  lemma {:induction false} Known2(i: nat)
    requires i < 7
    ensures IsKey(Words2(i)) && Guess(Words2(i)) == 14 + i
  {
    Told2(i);
    if i < 4 { Spelled2Low(i); } else { Spelled2High(i); }
  }

  lemma {:induction false} Spelled3Low(i: nat)
    requires i < 4
    ensures IsKey(Words3(i))
  {}

  lemma {:induction false} Spelled3High(i: nat)
    requires 4 <= i < 7
    ensures IsKey(Words3(i))
  {}

  lemma {:induction false} Told3(i: nat)
    requires i < 7
    ensures Guess(Words3(i)) == 21 + i
  {}

  lemma {:induction false} Known3(i: nat)
    requires i < 7
    ensures IsKey(Words3(i)) && Guess(Words3(i)) == 21 + i
  {
    Told3(i);
    if i < 4 { Spelled3Low(i); } else { Spelled3High(i); }
  }

  lemma {:induction false} Spelled4Low(i: nat)
    requires i < 4
    ensures IsKey(Words4(i))
  {}

  lemma {:induction false} Spelled4High(i: nat)
    requires 4 <= i < 7
    ensures IsKey(Words4(i))
  {}

  lemma {:induction false} Told4(i: nat)
    requires i < 7
    ensures Guess(Words4(i)) == 28 + i
  {}

  lemma {:induction false} Known4(i: nat)
    requires i < 7
    ensures IsKey(Words4(i)) && Guess(Words4(i)) == 28 + i
  {
    Told4(i);
    if i < 4 { Spelled4Low(i); } else { Spelled4High(i); }
  }

  lemma {:induction false} Spelled5Low(i: nat)
    requires i < 4
    ensures IsKey(Words5(i))
  {}

  lemma {:induction false} Spelled5High(i: nat)
    requires 4 <= i < 7
    ensures IsKey(Words5(i))
  {}

  lemma {:induction false} Told5(i: nat)
    requires i < 7
    ensures Guess(Words5(i)) == 35 + i
  {}

  lemma {:induction false} Known5(i: nat)
    requires i < 7
    ensures IsKey(Words5(i)) && Guess(Words5(i)) == 35 + i
  {
    Told5(i);
    if i < 4 { Spelled5Low(i); } else { Spelled5High(i); }
  }

  lemma {:induction false} Spelled6Low(i: nat)
    requires i < 4
    ensures IsKey(Words6(i))
  {}

  lemma {:induction false} Spelled6High(i: nat)
    requires 4 <= i < 7
    ensures IsKey(Words6(i))
  {}

  lemma {:induction false} Told6(i: nat)
    requires i < 7
    ensures Guess(Words6(i)) == 42 + i
  {}

  lemma {:induction false} Known6(i: nat)
    requires i < 7
    ensures IsKey(Words6(i)) && Guess(Words6(i)) == 42 + i
  {
    Told6(i);
    if i < 4 { Spelled6Low(i); } else { Spelled6High(i); }
  }

  lemma {:induction false} Spelled7Low(i: nat)
    requires i < 4
    ensures IsKey(Words7(i))
  {}

  lemma {:induction false} Spelled7High(i: nat)
    requires 4 <= i < 7
    ensures IsKey(Words7(i))
  {}

  lemma {:induction false} Told7(i: nat)
    requires i < 7
    ensures Guess(Words7(i)) == 49 + i
  {}

  lemma {:induction false} Known7(i: nat)
    requires i < 7
    ensures IsKey(Words7(i)) && Guess(Words7(i)) == 49 + i
  {
    Told7(i);
    if i < 4 { Spelled7Low(i); } else { Spelled7High(i); }
  }

  lemma {:induction false} Spelled8Low(i: nat)
    requires i < 4
    ensures IsKey(Words8(i))
  {}

  lemma {:induction false} Spelled8High(i: nat)
    requires 4 <= i < 7
    ensures IsKey(Words8(i))
  {}

  lemma {:induction false} Told8(i: nat)
    requires i < 7
    ensures Guess(Words8(i)) == 56 + i
  {}

  lemma {:induction false} Known8(i: nat)
    requires i < 7
    ensures IsKey(Words8(i)) && Guess(Words8(i)) == 56 + i
  {
    Told8(i);
    if i < 4 { Spelled8Low(i); } else { Spelled8High(i); }
  }

  lemma {:induction false} Spelled9Low(i: nat)
    requires i < 4
    ensures IsKey(Words9(i))
  {}

  lemma {:induction false} Spelled9High(i: nat)
    requires 4 <= i < 7
    ensures IsKey(Words9(i))
  {}

  lemma {:induction false} Told9(i: nat)
    requires i < 7
    ensures Guess(Words9(i)) == 63 + i
  {}

  lemma {:induction false} Known9(i: nat)
    requires i < 7
    ensures IsKey(Words9(i)) && Guess(Words9(i)) == 63 + i
  {
    Told9(i);
    if i < 4 { Spelled9Low(i); } else { Spelled9High(i); }
  }

  /** Every word is a key, and is told apart from all others. */
  lemma {:induction false} WordIsKnown(i: nat)
    requires i < WORDS
    ensures IsKey(Word(i)) && Guess(Word(i)) == i
  {
    if i < 7 {
      Known0(i);
    } else if i < 14 {
      Known1(i - 7);
    } else if i < 21 {
      Known2(i - 14);
    } else if i < 28 {
      Known3(i - 21);
    } else if i < 35 {
      Known4(i - 28);
    } else if i < 42 {
      Known5(i - 35);
    } else if i < 49 {
      Known6(i - 42);
    } else if i < 56 {
      Known7(i - 49);
    } else if i < 63 {
      Known8(i - 56);
    } else {
      Known9(i - 63);
    }
  }

  function SlotNumber(s: Slot): nat {
    match s
    case Id => 54 case Type => 55 case Title => 56 case Policy => 57 case State => 58
    case CanonicalSource => 59 case Value => 60 case Selector => 61 case Scope => 62 case SeverityLevel => 63
    case Confidence => 64 case Strength => 65 case Evidence => 66
  }

  function SlotOf(n: nat): Slot {
    if n == 54 then Id else if n == 55 then Type else if n == 56 then Title else if n == 57 then Policy
    else if n == 58 then State else if n == 59 then CanonicalSource else if n == 60 then Value else if n == 61 then Selector
    else if n == 62 then Scope else if n == 63 then SeverityLevel else if n == 64 then Confidence
    else if n == 65 then Strength else Evidence
  }

  /** Node types 0 to 7. */
  function Types0(i: nat): string {
    if i == 0 then "goal" else if i == 1 then "prd" else if i == 2 then "requirement" else
    if i == 3 then "nfr" else if i == 4 then "decision" else if i == 5 then "work" else
    if i == 6 then "task" else "question"
  }

  /** Node types 8 to 15. */
  function Types1(i: nat): string {
    if i == 0 then "spec" else if i == 1 then "rfc" else if i == 2 then "plan" else
    if i == 3 then "plan_step" else if i == 4 then "implementation" else if i == 5 then "config" else
    if i == 6 then "operation" else "data"
  }

  /** Node types 16 to 23. */
  function Types2(i: nat): string {
    if i == 0 then "prompt" else if i == 1 then "test" else if i == 2 then "document" else
    if i == 3 then "runbook" else if i == 4 then "evidence" else if i == 5 then "commit" else
    if i == 6 then "pull_request" else "ci_run"
  }

  /** Node types 24 to 31. */
  function Types3(i: nat): string {
    if i == 0 then "external" else if i == 1 then "finding" else if i == 2 then "learning" else
    if i == 3 then "anti_pattern" else if i == 4 then "convention" else if i == 5 then "constraint" else
    if i == 6 then "fact" else "value"
  }

  function TypeName(i: nat): string {
    if i < 8 then Types0(i) else if i < 16 then Types1(i - 8) else if i < 24 then Types2(i - 16) else Types3(i - 24)
  }

  lemma {:induction false} Plain0(i: nat)
    ensures Types0(i) != "" && AllUnquoted(Types0(i))
  {}

  lemma {:induction false} Plain1Low(i: nat)
    requires i < 4
    ensures Types1(i) != "" && AllUnquoted(Types1(i))
  {}

  lemma {:induction false} Plain1High(i: nat)
    requires i >= 4
    ensures Types1(i) != "" && AllUnquoted(Types1(i))
  {}

  lemma {:induction false} Plain1(i: nat)
    ensures Types1(i) != "" && AllUnquoted(Types1(i))
  {
    if i < 4 { Plain1Low(i); } else { Plain1High(i); }
  }

  lemma {:induction false} Plain2Low(i: nat)
    requires i < 4
    ensures Types2(i) != "" && AllUnquoted(Types2(i))
  {}

  lemma {:induction false} Plain2High(i: nat)
    requires i >= 4
    ensures Types2(i) != "" && AllUnquoted(Types2(i))
  {}

  lemma {:induction false} Plain2(i: nat)
    ensures Types2(i) != "" && AllUnquoted(Types2(i))
  {
    if i < 4 { Plain2Low(i); } else { Plain2High(i); }
  }

  lemma {:induction false} Plain3Low(i: nat)
    requires i < 4
    ensures Types3(i) != "" && AllUnquoted(Types3(i))
  {}

  lemma {:induction false} Plain3High(i: nat)
    requires i >= 4
    ensures Types3(i) != "" && AllUnquoted(Types3(i))
  {}

  lemma {:induction false} Plain3(i: nat)
    ensures Types3(i) != "" && AllUnquoted(Types3(i))
  {
    if i < 4 { Plain3Low(i); } else { Plain3High(i); }
  }

  lemma {:induction false} TypeIsPlain(i: nat)
    ensures TypeName(i) != "" && AllUnquoted(TypeName(i))
  {
    if i < 8 {
      Plain0(i);
    } else if i < 16 {
      Plain1(i - 8);
    } else if i < 24 {
      Plain2(i - 16);
    } else {
      Plain3(i - 24);
    }
  }

  // ----- the vocabulary -----

  /** What the word means as a key: `plan` is short for an edge, and one scalar key has two names. */
  function ClassOf(n: nat): KeyClass {
    if n < SEMANTIC then EdgeTo(Word(n))
    else if n < EDGES then DerivedEdge
    else if n < 67 then Scalar(SlotOf(n))
    else if n == 67 then Scalar(Strength)
    else if n == 68 then EdgeTo("implements")
    else Expects
  }

  function Classify(key: string): KeyClass {
    var n := Guess(key);
    if n < WORDS && Word(n) == key then ClassOf(n) else Unknown
  }

  function SlotName(s: Slot): string {
    Word(SlotNumber(s))
  }

  function EdgeOrder(): seq<string> {
    seq(EDGES, (i: nat) => Word(i))
  }

  function NodeTypes(): set<string> {
    set i: nat | i < 32 :: TypeName(i)
  }

  function Standard(): Vocabulary {
    Vocabulary(Classify, SlotName, NodeTypes(), Ids.InferredType, EdgeOrder())
  }

  lemma {:induction false} WordClass(n: nat)
    requires n < WORDS
    ensures Classify(Word(n)) == ClassOf(n)
  {
    WordIsKnown(n);
  }

  lemma {:induction false} SlotNumbers(s: Slot)
    ensures EDGES <= SlotNumber(s) < 67 && SlotOf(SlotNumber(s)) == s
  {}

  /** The registered words form a valid vocabulary, so all that is proved for valid vocabularies
      holds of the marker language as it is. */
  lemma {:induction false} StandardIsValid()
    ensures ValidVocabulary(Standard())
  {
    var o := Standard();
    forall s: Slot ensures IsKey(o.slotName(s)) && o.classify(o.slotName(s)) == Scalar(s) {
      SlotNumbers(s);
      WordIsKnown(SlotNumber(s));
      WordClass(SlotNumber(s));
    }
    WordClass(69);
    assert Word(69) == "expects";
    forall e | e in o.edgeOrder ensures IsKey(e) && (o.classify(e) == EdgeTo(e) || o.classify(e) == DerivedEdge) {
      var i :| 0 <= i < EDGES && o.edgeOrder[i] == e;
      WordIsKnown(i);
      WordClass(i);
    }
    forall i, j | 0 <= i < j < |o.edgeOrder| ensures o.edgeOrder[i] != o.edgeOrder[j] {
      WordIsKnown(i);
      WordIsKnown(j);
    }
    forall t | t in o.nodeTypes ensures t != "" && AllUnquoted(t) {
      var i: nat :| i < 32 && TypeName(i) == t;
      TypeIsPlain(i);
    }
  }

  /** Every type that is inferred from an id is registered. */
  lemma {:induction false} InferredIsRegistered(ns: Ids.Namespace)
    ensures Ids.NodeType(ns) in NodeTypes()
  {
    var i := TypeNumber(ns);
    assert i < 32;
    TypeAtNumber(ns);
  }

  function TypeNumber(ns: Ids.Namespace): nat {
    match ns
    case PRD => 1 case Prd => 1 case GOAL => 0 case Goal => 0 case REQ => 2 case NFR => 3 case ADR => 4 case DEC => 4
    case WORK => 5 case TASK => 6 case Q => 7 case SPEC => 8 case RFC => 9 case PLAN => 10 case PSTEP => 11
    case Impl => 12 case Config => 13 case Ops => 14 case Data => 15 case Prompt => 16 case Test => 17 case Doc => 18
    case Runbook => 19 case EV => 20 case EVIDENCE => 20 case CI => 23 case FIND => 25 case LEARN => 26 case ANTI => 27
    case CONV => 28 case CONSTRAINT => 29 case FACT => 30 case VALUE => 31
  }

  lemma {:induction false} TypeAtNumber(ns: Ids.Namespace)
    ensures TypeNumber(ns) < 32 && TypeName(TypeNumber(ns)) == Ids.NodeType(ns)
  {}

  /** Round trip in the marker language as it is: rendered without a type, a marker comes back from its line
      with the type of the namespace its id is in, and without an error. */
  lemma {:induction false} NamespaceIsRead(ns: Ids.Namespace, mode: UnknownKeys, m: ParsedMarker)
    requires Writable(Standard(), m) && Type !in m.slots && Ids.Prefix(ns) <= m.slots[Id] && !EndsInNewline(Render(Standard(), m))
    ensures var r := ParsedLine(Standard(), mode, Render(Standard(), m));
      r.Some? && r.value.marker == m.(slots := m.slots[Type := Ids.NodeType(ns)]) && NoErrors(r.value.diags)
  {
    StandardIsValid();
    Ids.InferredByNamespace(ns, m.slots[Id]);
    LineRoundTrip(Standard(), mode, m);
  }

  /** Outside every namespace a marker without a type comes back without one. */
  lemma {:induction false} NoNamespaceNoType(mode: UnknownKeys, m: ParsedMarker)
    requires Writable(Standard(), m) && Type !in m.slots && !EndsInNewline(Render(Standard(), m))
    requires forall ns :: !(Ids.Prefix(ns) <= m.slots[Id])
    ensures var r := ParsedLine(Standard(), mode, Render(Standard(), m)); r.Some? && r.value.marker == m && NoErrors(r.value.diags)
  {
    StandardIsValid();
    Ids.NoMatch(Ids.PATTERN_RULES, m.slots[Id]);
    LineRoundTrip(Standard(), mode, m);
  }

  /** Parsing the rendering of a marker gives it back, typed and without an error; and what comes back is
      canonical, so from then on rendering and parsing change nothing. */
  lemma {:induction false} RenderParseRender(mode: UnknownKeys, m: ParsedMarker)
    requires Writable(Standard(), m)
    ensures |Render(Standard(), m)| >= |PREFIX|
    ensures var r := Meaning(Standard(), mode, FieldsOf(Render(Standard(), m)));
            && r.marker == Typed(Standard(), m) && NoErrors(r.diags) && Canonical(Standard(), r.marker)
            && (Canonical(Standard(), m) ==> Render(Standard(), r.marker) == Render(Standard(), m))
  {
    StandardIsValid();
    PayloadRoundTrip(Standard(), mode, m);
    TypedIsCanonical(m);
  }

  lemma {:induction false} TypedIsCanonical(m: ParsedMarker)
    requires Writable(Standard(), m)
    ensures Canonical(Standard(), Typed(Standard(), m))
  {
    var t := Ids.InferredType(m.slots[Id]);
    if t.Some? {
      InferredFromNamespace(m.slots[Id]);
      var ns :| Ids.NodeType(ns) == t.value;
      InferredIsRegistered(ns);
      TypeIsPlain(TypeNumber(ns));
      TypeAtNumber(ns);
    }
  }

  lemma {:induction false} InferredFromNamespace(s: string)
    requires Ids.InferredType(s).Some?
    ensures exists ns :: Ids.NodeType(ns) == Ids.InferredType(s).value
  {
    if forall ns | ns in Ids.PATTERN_RULES :: !(Ids.Prefix(ns) <= s) {
      Ids.NoMatch(Ids.PATTERN_RULES, s);
    } else {
      var ns :| ns in Ids.PATTERN_RULES && Ids.Prefix(ns) <= s;
      Ids.InferredByNamespace(ns, s);
    }
  }
}
