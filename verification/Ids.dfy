/** Trace ids: validity, type inference from the namespace, and generation. */
module Ids {
  import opened Models

  /** The id namespaces, one per inference rule. */
  datatype Namespace =
    | REQ | NFR | ADR | DEC | WORK | TASK | Q | SPEC | RFC | PLAN | PSTEP | FIND | LEARN | ANTI
    | CONV | CONSTRAINT | FACT | VALUE | Impl | Test | Ops | Doc | Runbook | Prompt | Config
    | Data | PRD | Prd | GOAL | Goal | EV | EVIDENCE | CI

  /** The order in which the rules are tried. */
  const PATTERN_RULES: seq<Namespace> := [
    REQ, NFR, ADR, DEC, WORK, TASK, Q, SPEC, RFC, PLAN, PSTEP, FIND, LEARN, ANTI,
    CONV, CONSTRAINT, FACT, VALUE, Impl, Test, Ops, Doc, Runbook, Prompt, Config,
    Data, PRD, Prd, GOAL, Goal, EV, EVIDENCE, CI]

  function Prefix(ns: Namespace): (p: string)
    ensures |p| >= 2
  {
    match ns
    case REQ => "REQ-" case NFR => "NFR-" case ADR => "ADR-" case DEC => "DEC-"
    case WORK => "WORK-" case TASK => "TASK-" case Q => "Q-" case SPEC => "SPEC-"
    case RFC => "RFC-" case PLAN => "PLAN-" case PSTEP => "PSTEP-" case FIND => "FIND-"
    case LEARN => "LEARN-" case ANTI => "ANTI-" case CONV => "CONV-"
    case CONSTRAINT => "CONSTRAINT-" case FACT => "FACT-" case VALUE => "VALUE-"
    case Impl => "impl." case Test => "test." case Ops => "ops." case Doc => "doc."
    case Runbook => "runbook." case Prompt => "prompt." case Config => "config."
    case Data => "data." case PRD => "PRD-" case Prd => "prd." case GOAL => "GOAL-"
    case Goal => "goal." case EV => "EV-" case EVIDENCE => "EVIDENCE-" case CI => "CI-"
  }

  function NodeType(ns: Namespace): string {
    match ns
    case REQ => "requirement" case NFR => "nfr" case ADR => "decision" case DEC => "decision"
    case WORK => "work" case TASK => "task" case Q => "question" case SPEC => "spec"
    case RFC => "rfc" case PLAN => "plan" case PSTEP => "plan_step" case FIND => "finding"
    case LEARN => "learning" case ANTI => "anti_pattern" case CONV => "convention"
    case CONSTRAINT => "constraint" case FACT => "fact" case VALUE => "value"
    case Impl => "implementation" case Test => "test" case Ops => "operation" case Doc => "document"
    case Runbook => "runbook" case Prompt => "prompt" case Config => "config"
    case Data => "data" case PRD => "prd" case Prd => "prd" case GOAL => "goal"
    case Goal => "goal" case EV => "evidence" case EVIDENCE => "evidence" case CI => "ci_run"
  }

  function FirstMatch(rules: seq<Namespace>, traceId: string): Option<string> {
    if rules == [] then None
    else if Prefix(rules[0]) <= traceId then Some(NodeType(rules[0]))
    else FirstMatch(rules[1..], traceId)
  }

  function InferredType(traceId: string): Option<string> {
    FirstMatch(PATTERN_RULES, traceId)
  }

  method MatchRules(rules: seq<Namespace>, traceId: string) returns (r: Option<string>)
    ensures r == FirstMatch(rules, traceId)
  {
    for i := 0 to |rules|
      invariant FirstMatch(rules, traceId) == FirstMatch(rules[i..], traceId)
    {
      if Prefix(rules[i]) <= traceId {
        return Some(NodeType(rules[i]));
      }
    }
    return None;
  }

  /** Type inference from the id namespace: the first rule whose prefix fits. */
  method InferNodeType(traceId: string) returns (r: Option<string>)
    ensures r == InferredType(traceId)
  {
    r := MatchRules(PATTERN_RULES, traceId);
  }

  lemma {:induction false} NoMatch(rules: seq<Namespace>, traceId: string)
    requires forall ns | ns in rules :: !(Prefix(ns) <= traceId)
    ensures FirstMatch(rules, traceId) == None
  {
    if rules != [] {
      assert rules[0] in rules;
      NoMatch(rules[1..], traceId);
    }
  }

  lemma {:induction false} PrefixIsNotLowerN(ns: Namespace)
    ensures Prefix(ns) != [] && Prefix(ns)[0] != 'n'
  {}

  /** No namespace starts with `n`, so a node uid never looks like an id of any type. */
  lemma {:induction false} UidHasNoType(u: Uid)
    ensures InferredType(UidText(u)) == None
  {
    forall ns | ns in PATTERN_RULES ensures !(Prefix(ns) <= UidText(u)) {
      PrefixIsNotLowerN(ns);
      assert UidText(u)[0] == 'n';
    }
    NoMatch(PATTERN_RULES, UidText(u));
  }

  // ----- the namespaces do not overlap -----

  /** The namespace told by the first characters of an id; a decision tree over the prefixes. */
  function NamespaceByHead(s: string): Namespace
    requires |s| >= 2
  {
    var a, b := s[0], s[1];
    var c := if |s| > 2 then s[2] else ' ';
    var d := if |s| > 3 then s[3] else ' ';
    if a == 'R' then (if b == 'E' then REQ else RFC)
    else if a == 'N' then NFR
    else if a == 'A' then (if b == 'D' then ADR else ANTI)
    else if a == 'D' then DEC
    else if a == 'W' then WORK
    else if a == 'T' then TASK
    else if a == 'Q' then Q
    else if a == 'S' then SPEC
    else if a == 'P' then (if b == 'L' then PLAN else if b == 'S' then PSTEP else PRD)
    else if a == 'F' then (if b == 'I' then FIND else FACT)
    else if a == 'L' then LEARN
    else if a == 'C' then (if b == 'I' then CI else if d == 'V' then CONV else CONSTRAINT)
    else if a == 'V' then VALUE
    else if a == 'G' then GOAL
    else if a == 'E' then (if c == '-' then EV else EVIDENCE)
    else if a == 'i' then Impl
    else if a == 't' then Test
    else if a == 'o' then Ops
    else if a == 'd' then (if b == 'o' then Doc else Data)
    else if a == 'r' then Runbook
    else if a == 'c' then Config
    else if a == 'g' then Goal
    else if c == 'd' then Prd else Prompt
  }

  lemma {:induction false} HeadChars(ns: Namespace, s: string)
    requires Prefix(ns) <= s
    ensures |s| >= 2 && s[0] == Prefix(ns)[0] && s[1] == Prefix(ns)[1]
    ensures |Prefix(ns)| > 2 ==> |s| > 2 && s[2] == Prefix(ns)[2]
    ensures |Prefix(ns)| > 3 ==> |s| > 3 && s[3] == Prefix(ns)[3]
  {}

  lemma {:induction false} HeadBeforeE(ns: Namespace, s: string)
    requires Prefix(ns) <= s && Prefix(ns)[0] < 'E'
    ensures |s| >= 2 && NamespaceByHead(s) == ns
  {
    HeadChars(ns, s);
  }

  lemma {:induction false} HeadFromE(ns: Namespace, s: string)
    requires Prefix(ns) <= s && 'E' <= Prefix(ns)[0] < 'L'
    ensures |s| >= 2 && NamespaceByHead(s) == ns
  {
    HeadChars(ns, s);
  }

  lemma {:induction false} HeadFromL(ns: Namespace, s: string)
    requires Prefix(ns) <= s && 'L' <= Prefix(ns)[0] < 'R'
    ensures |s| >= 2 && NamespaceByHead(s) == ns
  {
    HeadChars(ns, s);
  }

  lemma {:induction false} HeadFromR(ns: Namespace, s: string)
    requires Prefix(ns) <= s && 'R' <= Prefix(ns)[0] < 'a'
    ensures |s| >= 2 && NamespaceByHead(s) == ns
  {
    HeadChars(ns, s);
  }

  lemma {:induction false} HeadLowerBeforeG(ns: Namespace, s: string)
    requires Prefix(ns) <= s && 'a' <= Prefix(ns)[0] < 'g'
    ensures |s| >= 2 && NamespaceByHead(s) == ns
  {
    HeadChars(ns, s);
  }

  lemma {:induction false} HeadLowerFromG(ns: Namespace, s: string)
    requires Prefix(ns) <= s && 'g' <= Prefix(ns)[0]
    ensures |s| >= 2 && NamespaceByHead(s) == ns
  {
    HeadChars(ns, s);
  }

  /** The prefixes do not overlap: no id is in two namespaces. */
  lemma {:induction false} NamespacesAreDisjoint(a: Namespace, b: Namespace, s: string)
    requires Prefix(a) <= s && Prefix(b) <= s
    ensures a == b
  {
    HeadTellsNamespace(a, s);
    HeadTellsNamespace(b, s);
  }

  lemma {:induction false} HeadTellsNamespace(ns: Namespace, s: string)
    requires Prefix(ns) <= s
    ensures |s| >= 2 && NamespaceByHead(s) == ns
  {
    if Prefix(ns)[0] < 'E' {
      HeadBeforeE(ns, s);
    } else if Prefix(ns)[0] < 'L' {
      HeadFromE(ns, s);
    } else if Prefix(ns)[0] < 'R' {
      HeadFromL(ns, s);
    } else if Prefix(ns)[0] < 'a' {
      HeadFromR(ns, s);
    } else if Prefix(ns)[0] < 'g' {
      HeadLowerBeforeG(ns, s);
    } else {
      HeadLowerFromG(ns, s);
    }
  }

  lemma {:induction false} FirstMatchAgrees(rules: seq<Namespace>, ns: Namespace, s: string)
    requires Prefix(ns) <= s && ns in rules
    ensures FirstMatch(rules, s) == Some(NodeType(ns))
  {
    if Prefix(rules[0]) <= s {
      NamespacesAreDisjoint(rules[0], ns, s);
    } else {
      FirstMatchAgrees(rules[1..], ns, s);
    }
  }

  lemma {:induction false} EveryNamespaceHasARule(ns: Namespace)
    ensures ns in PATTERN_RULES
  {}

  /** The rule order does not matter: an id in a namespace has that namespace's type. */
  lemma {:induction false} InferredByNamespace(ns: Namespace, s: string)
    requires Prefix(ns) <= s
    ensures InferredType(s) == Some(NodeType(ns))
  {
    EveryNamespaceHasARule(ns);
    FirstMatchAgrees(PATTERN_RULES, ns, s);
  }
}
