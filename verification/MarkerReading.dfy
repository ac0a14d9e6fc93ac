/** What a parsed payload says, token by token, and when it says it without an error. */
module MarkerReading {
  import opened Models
  import opened Grammar
  import opened Marker
  import opened MarkerRoundTrip

  /** The token counts: it has a value, and no token before it has its key. */
  ghost predicate Counts(ts: seq<FieldToken>, i: int) {
    0 <= i < |ts| && ts[i].value != "" && forall j | 0 <= j < i :: ts[j].key != ts[i].key
  }

  lemma {:induction false} CountsBefore(ts: seq<FieldToken>, k: nat, i: int)
    requires k <= |ts| && i < k
    ensures Counts(ts[..k], i) <==> Counts(ts, i)
  {}

  lemma {:induction false} EffectiveStep(ts: seq<FieldToken>)
    requires ts != []
    ensures var k := |ts| - 1; Effective(ts) == if Counts(ts, k) then Effective(ts[..k]) + [ts[k]] else Effective(ts[..k])
  {
    var k := |ts| - 1;
    assert ts[k].key in Keys(ts[..k]) <==> exists j :: 0 <= j < k && ts[j].key == ts[k].key by {
      if j :| 0 <= j < k && ts[j].key == ts[k].key {
        assert ts[..k][j] in ts[..k];
      }
    }
  }

  // ----- scalar slots -----

  /** Token i gives the slot its value: it counts, is for the slot, and is the last such. */
  ghost predicate Gives(o: Vocabulary, ts: seq<FieldToken>, s: Slot, i: int) {
    && Counts(ts, i) && o.classify(ts[i].key) == Scalar(s)
    && forall j | i < j < |ts| && Counts(ts, j) :: o.classify(ts[j].key) != Scalar(s)
  }

  lemma {:induction false} GivesStep(o: Vocabulary, ts: seq<FieldToken>, s: Slot, i: int)
    requires ts != []
    ensures var k := |ts| - 1; var last := Counts(ts, k) && o.classify(ts[k].key) == Scalar(s);
      Gives(o, ts, s, i) <==> if last then i == k else Gives(o, ts[..k], s, i)
  {
    var k := |ts| - 1;
    var init := ts[..k];
    forall j | j < k ensures Counts(init, j) <==> Counts(ts, j) { CountsBefore(ts, k, j); }
    assert Gives(o, ts, s, i) ==> 0 <= i <= k;
    if Gives(o, init, s, i) && !(Counts(ts, k) && o.classify(ts[k].key) == Scalar(s)) {
      forall j | i < j < |ts| && Counts(ts, j) ensures o.classify(ts[j].key) != Scalar(s) {
        assert j < k ==> Counts(init, j) && o.classify(init[j].key) != Scalar(s);
      }
    }
    if Gives(o, ts, s, i) && i < k {
      forall j | i < j < |init| && Counts(init, j) ensures o.classify(init[j].key) != Scalar(s) {
        assert Counts(ts, j) && ts[j] == init[j];
      }
    }
  }

  lemma {:induction false} SlotsOfTokens(o: Vocabulary, ts: seq<FieldToken>, s: Slot)
    ensures var slots := SlotMap(o, Effective(ts));
      && (forall i | Gives(o, ts, s, i) :: s in slots && slots[s] == ts[i].value)
      && (s in slots ==> exists i :: Gives(o, ts, s, i))
  {
    if ts != [] {
      var k := |ts| - 1;
      SlotsOfTokens(o, ts[..k], s);
      EffectiveStep(ts);
      forall i ensures Gives(o, ts, s, i) <==>
        if Counts(ts, k) && o.classify(ts[k].key) == Scalar(s) then i == k else Gives(o, ts[..k], s, i) { GivesStep(o, ts, s, i); }
      if Counts(ts, k) {
        LastToken(o, Effective(ts[..k]), ts[k]);
        if o.classify(ts[k].key) == Scalar(s) {
          assert Gives(o, ts, s, k);
        }
      }
    }
  }

  /** A slot other than the type has the value of the token that gives it; the type has that of its token,
      or else the one inferred from the id. */
  lemma {:induction false} SlotSaysExactly(o: Vocabulary, mode: UnknownKeys, t: Tokens, s: Slot)
    ensures var slots := Meaning(o, mode, t).marker.slots;
      && (forall i | Gives(o, t.tokens, s, i) :: s in slots && slots[s] == t.tokens[i].value)
      && (s != Type && s in slots ==> exists i :: Gives(o, t.tokens, s, i))
      && ((forall i :: !Gives(o, t.tokens, Type, i)) ==>
            if Id in slots && o.infer(slots[Id]).Some? then Type in slots && slots[Type] == o.infer(slots[Id]).value else Type !in slots)
  {
    SlotsOfTokens(o, t.tokens, s);
    SlotsOfTokens(o, t.tokens, Type);
  }

  // ----- edges and expectations -----

  /** The value is x with a and b around it, set off by commas. */
  predicate IsPart(value: string, a: string, x: string, b: string) {
    value == a + x + b && (a == "" || a[|a| - 1] == ',') && (b == "" || b[0] == ',')
  }

  /** The value names the target: alone when quoted, else as one of its parts between commas. */
  ghost predicate Names(tok: FieldToken, x: string) {
    if tok.quoted then x == tok.value
    else
      && x != "" && ',' !in x
      && exists a, b :: IsPart(tok.value, a, x, b)
  }

  function JoinParts(parts: seq<string>): string
    requires parts != []
  {
    if |parts| == 1 then parts[0] else parts[0] + "," + JoinParts(parts[1..])
  }

  lemma {:induction false} SplitsBack(s: string)
    ensures var parts := SplitCommas(s); JoinParts(parts) == s && forall p | p in parts :: ',' !in p
  {
    if s != [] {
      SplitsBack(s[1..]);
      var rest := SplitCommas(s[1..]);
      if s[0] == ',' {
        assert ([""] + rest)[1..] == rest;
        assert s == "" + "," + s[1..];
      } else {
        var head := [s[0]] + rest[0];
        assert ([head] + rest[1..])[1..] == rest[1..];
        assert JoinParts(rest) == if |rest| == 1 then rest[0] else rest[0] + "," + JoinParts(rest[1..]);
        assert rest[0] in rest;
        assert s == [s[0]] + s[1..];
      }
    }
  }

  lemma {:induction false} PartsAt(parts: seq<string>, k: nat) returns (a: string, b: string)
    requires k < |parts|
    ensures IsPart(JoinParts(parts), a, parts[k], b)
  {
    if k == 0 {
      a, b := "", if |parts| == 1 then "" else "," + JoinParts(parts[1..]);
    } else {
      var a', b' := PartsAt(parts[1..], k - 1);
      a, b := parts[0] + "," + a', b';
      assert a != "" && a[|a| - 1] == ',';
      assert parts[0] + "," + (a' + parts[k] + b') == a + parts[k] + b;
    }
  }

  /** A part between commas is one of the parts. */
  lemma {:induction false} PartIsFound(a: string, x: string, b: string)
    requires ',' !in x && (a == "" || a[|a| - 1] == ',') && (b == "" || b[0] == ',')
    ensures x in SplitCommas(a + x + b)
    ensures a == "" ==> SplitCommas(a + x + b)[0] == x
  {
    if a == "" {
      assert a + x + b == x + b;
      HeadIsFound(x, b);
    } else {
      var s := a + x + b;
      assert s[0] == a[0] && s[1..] == a[1..] + x + b;
      if |a| == 1 {
        PartIsFound("", x, b);
        assert a[1..] == "" && s[1..] == "" + x + b;
      } else {
        PartIsFound(a[1..], x, b);
        var rest := SplitCommas(s[1..]);
        var k :| 0 <= k < |rest| && rest[k] == x;
        if s[0] == ',' {
          assert ([""] + rest)[k + 1] == x;
        } else {
          NotAtHead(a[1..], x, b);
        }
      }
    }
  }

  lemma {:induction false} HeadIsFound(x: string, b: string)
    requires ',' !in x && (b == "" || b[0] == ',')
    ensures SplitCommas(x + b)[0] == x
  {
    if x != "" {
      assert (x + b)[1..] == x[1..] + b && x[0] in x;
      HeadIsFound(x[1..], b);
      assert x == [x[0]] + x[1..];
    } else {
      assert x + b == b;
    }
  }

  /** Behind a comma, the part is found behind the first one too. */
  lemma {:induction false} NotAtHead(a: string, x: string, b: string)
    requires ',' !in x && a != "" && a[|a| - 1] == ',' && (b == "" || b[0] == ',')
    ensures x in SplitCommas(a + x + b)[1..]
  {
    var s := a + x + b;
    assert s[0] == a[0] && s[1..] == a[1..] + x + b;
    var rest := SplitCommas(s[1..]);
    if |a| == 1 {
      assert a[1..] == "" && s[1..] == "" + x + b;
      PartIsFound("", x, b);
      assert ([""] + rest)[1..] == rest && rest[0] in rest;
    } else {
      NotAtHead(a[1..], x, b);
      if s[0] == ',' {
        assert ([""] + rest)[1..] == rest;
        assert forall p | p in rest[1..] :: p in rest;
      } else {
        assert ([[s[0]] + rest[0]] + rest[1..])[1..] == rest[1..];
      }
    }
  }

  lemma {:induction false} NonEmptyMembers(parts: seq<string>, x: string)
    ensures x in NonEmpty(parts) <==> x != "" && x in parts
  {
    if parts != [] {
      NonEmptyMembers(parts[1..], x);
      assert parts == [parts[0]] + parts[1..];
    }
  }

  lemma {:induction false} TargetsExactly(tok: FieldToken, x: string)
    ensures x in TargetsOf(tok) <==> Names(tok, x)
  {
    if !tok.quoted {
      NonEmptyMembers(SplitCommas(tok.value), x);
      SplitsBack(tok.value);
      if x in TargetsOf(tok) {
        var parts := SplitCommas(tok.value);
        var k :| 0 <= k < |parts| && parts[k] == x;
        var a, b := PartsAt(parts, k);
        assert ',' !in x && IsPart(tok.value, a, x, b);
      }
      if Names(tok, x) {
        var a, b :| IsPart(tok.value, a, x, b);
        PartIsFound(a, x, b);
      }
    }
  }

  /** Some token that counts declares the edge to the target. */
  ghost predicate Declares(o: Vocabulary, ts: seq<FieldToken>, e: string, x: string) {
    exists i :: Counts(ts, i) && o.classify(ts[i].key) == EdgeTo(e) && Names(ts[i], x)
  }

  ghost predicate HasTarget(edges: map<string, seq<string>>, e: string, x: string) {
    e in edges && x in edges[e]
  }

  lemma {:induction false} DeclaresStep(o: Vocabulary, ts: seq<FieldToken>, e: string, x: string)
    requires ts != []
    ensures var k := |ts| - 1;
      Declares(o, ts, e, x) <==> Declares(o, ts[..k], e, x) || (Counts(ts, k) && o.classify(ts[k].key) == EdgeTo(e) && Names(ts[k], x))
  {
    var k := |ts| - 1;
    forall i | i < k ensures Counts(ts[..k], i) <==> Counts(ts, i) { CountsBefore(ts, k, i); }
    if Declares(o, ts, e, x) {
      var i :| Counts(ts, i) && o.classify(ts[i].key) == EdgeTo(e) && Names(ts[i], x);
      assert i < k ==> Counts(ts[..k], i) && ts[..k][i] == ts[i];
    }
    if Declares(o, ts[..k], e, x) {
      var i :| Counts(ts[..k], i) && o.classify(ts[..k][i].key) == EdgeTo(e) && Names(ts[..k][i], x);
      assert Counts(ts, i) && ts[..k][i] == ts[i];
    }
  }

  lemma {:induction false} EdgesOfTokens(o: Vocabulary, ts: seq<FieldToken>, e: string, x: string)
    ensures HasTarget(EdgeMap(o, Effective(ts)), e, x) <==> Declares(o, ts, e, x)
  {
    if ts != [] {
      var k := |ts| - 1;
      EdgesOfTokens(o, ts[..k], e, x);
      DeclaresStep(o, ts, e, x);
      EffectiveStep(ts);
      TargetsExactly(ts[k], x);
      if Counts(ts, k) {
        LastToken(o, Effective(ts[..k]), ts[k]);
      }
    }
  }

  /** The marker has an edge to a target exactly when a token that counts declares it. */
  lemma {:induction false} EdgeSaysExactly(o: Vocabulary, mode: UnknownKeys, t: Tokens, e: string, x: string)
    ensures HasTarget(Meaning(o, mode, t).marker.edges, e, x) <==> Declares(o, t.tokens, e, x)
  {
    EdgesOfTokens(o, t.tokens, e, x);
  }

  /** Token i gives the expectations: it counts, asks for them, and is the last such. */
  ghost predicate Expecting(o: Vocabulary, ts: seq<FieldToken>, i: int) {
    && Counts(ts, i) && o.classify(ts[i].key).Expects?
    && forall j | i < j < |ts| && Counts(ts, j) :: !o.classify(ts[j].key).Expects?
  }

  lemma {:induction false} ExpectingStep(o: Vocabulary, ts: seq<FieldToken>, i: int)
    requires ts != []
    ensures var k := |ts| - 1; var last := Counts(ts, k) && o.classify(ts[k].key).Expects?;
      Expecting(o, ts, i) <==> if last then i == k else Expecting(o, ts[..k], i)
  {
    var k := |ts| - 1;
    var init := ts[..k];
    forall j | j < k ensures Counts(init, j) <==> Counts(ts, j) { CountsBefore(ts, k, j); }
    assert Expecting(o, ts, i) ==> 0 <= i <= k;
    if Expecting(o, init, i) && !(Counts(ts, k) && o.classify(ts[k].key).Expects?) {
      forall j | i < j < |ts| && Counts(ts, j) ensures !o.classify(ts[j].key).Expects? {
        assert j < k ==> Counts(init, j) && !o.classify(init[j].key).Expects?;
      }
    }
    if Expecting(o, ts, i) && i < k {
      forall j | i < j < |init| && Counts(init, j) ensures !o.classify(init[j].key).Expects? {
        assert Counts(ts, j) && ts[j] == init[j];
      }
    }
  }

  lemma {:induction false} ExpectsOfTokens(o: Vocabulary, ts: seq<FieldToken>)
    ensures var e := ExpectsOf(o, Effective(ts));
      && (forall i | Expecting(o, ts, i) :: e == Some(TargetsOf(ts[i])))
      && (e.Some? ==> exists i :: Expecting(o, ts, i))
  {
    if ts != [] {
      var k := |ts| - 1;
      ExpectsOfTokens(o, ts[..k]);
      EffectiveStep(ts);
      forall i ensures Expecting(o, ts, i) <==>
        if Counts(ts, k) && o.classify(ts[k].key).Expects? then i == k else Expecting(o, ts[..k], i) { ExpectingStep(o, ts, i); }
      if Counts(ts, k) {
        LastToken(o, Effective(ts[..k]), ts[k]);
        if o.classify(ts[k].key).Expects? {
          assert Expecting(o, ts, k);
        }
      }
    }
  }

  /** The marker expects something exactly when a token that counts asks for it, and then the targets that
      the last such names. */
  lemma {:induction false} ExpectsSaysExactly(o: Vocabulary, mode: UnknownKeys, t: Tokens, x: string)
    ensures var e := Meaning(o, mode, t).marker.expects;
      && (e.Some? <==> exists i :: Expecting(o, t.tokens, i))
      && (forall i | Expecting(o, t.tokens, i) :: e.Some? && (x in e.value <==> Names(t.tokens[i], x)))
  {
    ExpectsOfTokens(o, t.tokens);
    forall i | Expecting(o, t.tokens, i) ensures x in TargetsOf(t.tokens[i]) <==> Names(t.tokens[i], x) {
      TargetsExactly(t.tokens[i], x);
    }
  }

  // ----- diagnostics -----

  /** What is wrong with token i: its key came before, it has no value, or its value is not what its key
      asks for. */
  ghost predicate IsWrong(o: Vocabulary, mode: UnknownKeys, ts: seq<FieldToken>, i: int, d: Diagnostic) {
    && 0 <= i < |ts|
    && if exists j | 0 <= j < i :: ts[j].key == ts[i].key then d == Diagnostic(TL006, ERROR)
       else if ts[i].value == "" then d == Diagnostic(TL004, ERROR)
       else IsWrongValue(o, mode, ts[i], d)
  }

  ghost predicate IsWrongValue(o: Vocabulary, mode: UnknownKeys, tok: FieldToken, d: Diagnostic) {
    match o.classify(tok.key)
    case Scalar(s) =>
      || (s == Id && !IsValidId(tok.value) && d == Diagnostic(TL005, ERROR))
      || (s == Type && tok.value !in o.nodeTypes && d == Diagnostic(TL007, ERROR))
    case Expects => d == Diagnostic(TL004, ERROR) && exists x :: Names(tok, x) && !IsValidId(x)
    case EdgeTo(_) => d == Diagnostic(TL004, ERROR) && exists x :: Names(tok, x) && !IsValidId(x)
    case DerivedEdge => d == Diagnostic(TL040, ERROR)
    case Unknown => d == Diagnostic(TL040, if mode.Permissive? then INFO else if mode.Warn? then WARNING else ERROR)
  }

  lemma {:induction false} TargetIsWrong(targets: seq<string>, d: Diagnostic)
    ensures d in TargetDiags(targets) <==> d == SYNTAX && exists x :: x in targets && !IsValidId(x)
  {
    if targets != [] {
      TargetIsWrong(targets[1..], d);
      assert targets == [targets[0]] + targets[1..];
      assert d in TargetDiags(targets) <==> (!IsValidId(targets[0]) && d == SYNTAX) || d in TargetDiags(targets[1..]);
    }
  }

  lemma {:induction false} ValueIsWrong(o: Vocabulary, mode: UnknownKeys, tok: FieldToken, d: Diagnostic)
    ensures d in ValueDiags(o, mode, tok) <==> IsWrongValue(o, mode, tok, d)
  {
    TargetIsWrong(TargetsOf(tok), d);
    forall x ensures x in TargetsOf(tok) <==> Names(tok, x) { TargetsExactly(tok, x); }
  }

  lemma {:induction false} LastIsWrong(o: Vocabulary, mode: UnknownKeys, ts: seq<FieldToken>, d: Diagnostic)
    requires ts != []
    ensures var k := |ts| - 1; d in Verdicts(o, mode, Keys(ts[..k]), ts[k]) <==> IsWrong(o, mode, ts, k, d)
  {
    var k := |ts| - 1;
    ValueIsWrong(o, mode, ts[k], d);
    if j :| 0 <= j < k && ts[j].key == ts[k].key {
      assert ts[..k][j] in ts[..k];
    }
  }

  lemma {:induction false} WrongBefore(o: Vocabulary, mode: UnknownKeys, ts: seq<FieldToken>, k: nat, i: int, d: Diagnostic)
    requires k <= |ts| && i < k
    ensures IsWrong(o, mode, ts[..k], i, d) <==> IsWrong(o, mode, ts, i, d)
  {
    if 0 <= i {
      assert forall j | 0 <= j <= i :: ts[..k][j] == ts[j];
    }
  }

  lemma {:induction false} SomeIsWrong(o: Vocabulary, mode: UnknownKeys, ts: seq<FieldToken>, d: Diagnostic)
    ensures d in TokenDiags(o, mode, ts) <==> exists i :: IsWrong(o, mode, ts, i, d)
  {
    if ts != [] {
      var k := |ts| - 1;
      SomeIsWrong(o, mode, ts[..k], d);
      LastIsWrong(o, mode, ts, d);
      WrongSplits(o, mode, ts, d);
    }
  }

  lemma {:induction false} WrongSplits(o: Vocabulary, mode: UnknownKeys, ts: seq<FieldToken>, d: Diagnostic)
    requires ts != []
    ensures var k := |ts| - 1;
      (exists i :: IsWrong(o, mode, ts, i, d)) <==> (exists i :: IsWrong(o, mode, ts[..k], i, d)) || IsWrong(o, mode, ts, k, d)
  {
    var k := |ts| - 1;
    if i :| IsWrong(o, mode, ts[..k], i, d) { WrongBefore(o, mode, ts, k, i, d); }
    if i :| IsWrong(o, mode, ts, i, d) && i < k { WrongBefore(o, mode, ts, k, i, d); }
  }

  /** A given type is not the one that the id says. */
  ghost predicate TypeDiffers(o: Vocabulary, ts: seq<FieldToken>) {
    exists i, j :: Gives(o, ts, Id, i) && Gives(o, ts, Type, j) && o.infer(ts[i].value).Some? && ts[j].value != o.infer(ts[i].value).value
  }

  lemma {:induction false} LastDiagnosis(o: Vocabulary, ts: seq<FieldToken>, d: Diagnostic)
    ensures d in Finish(o, SlotMap(o, Effective(ts))).1 <==>
      || (d == Diagnostic(TL004, ERROR) && forall i :: !Gives(o, ts, Id, i))
      || (d == Diagnostic(TL007, INFO) && TypeDiffers(o, ts))
  {
    SlotsOfTokens(o, ts, Id);
    SlotsOfTokens(o, ts, Type);
  }

  ghost predicate IsDiagnosed(o: Vocabulary, mode: UnknownKeys, t: Tokens, d: Diagnostic) {
    || d in t.diags
    || (exists i :: IsWrong(o, mode, t.tokens, i, d))
    || (d == Diagnostic(TL004, ERROR) && forall i :: !Gives(o, t.tokens, Id, i))
    || (d == Diagnostic(TL007, INFO) && TypeDiffers(o, t.tokens))
  }

  /** What is diagnosed, exactly: what is wrong with the text and with each token, a missing id, and a type
      that differs from the one that the id says. */
  lemma {:induction false} DiagnosedExactly(o: Vocabulary, mode: UnknownKeys, t: Tokens, d: Diagnostic)
    ensures d in Meaning(o, mode, t).diags <==> IsDiagnosed(o, mode, t, d)
  {
    SomeIsWrong(o, mode, t.tokens, d);
    LastDiagnosis(o, t.tokens, d);
  }

  // ----- errors -----

  /** The token is in order: it counts, and its value is what its key asks for. */
  ghost predicate InOrder(o: Vocabulary, mode: UnknownKeys, ts: seq<FieldToken>, i: int) {
    Counts(ts, i) && IsRight(o, mode, ts[i])
  }

  ghost predicate IsRight(o: Vocabulary, mode: UnknownKeys, tok: FieldToken) {
    match o.classify(tok.key)
    case Scalar(s) => (s == Id ==> IsValidId(tok.value)) && (s == Type ==> tok.value in o.nodeTypes)
    case Expects => forall x | Names(tok, x) :: IsValidId(x)
    case EdgeTo(_) => forall x | Names(tok, x) :: IsValidId(x)
    case DerivedEdge => false
    case Unknown => mode != Reject
  }

  lemma {:induction false} OutOfOrder(o: Vocabulary, mode: UnknownKeys, ts: seq<FieldToken>, i: int)
    requires 0 <= i < |ts|
    ensures InOrder(o, mode, ts, i) <==> forall d | IsWrong(o, mode, ts, i, d) :: d.severity != ERROR
  {
    if exists j | 0 <= j < i :: ts[j].key == ts[i].key {
      assert IsWrong(o, mode, ts, i, Diagnostic(TL006, ERROR));
    } else if ts[i].value == "" {
      assert IsWrong(o, mode, ts, i, Diagnostic(TL004, ERROR));
    } else {
      ValueOutOfOrder(o, mode, ts[i]);
    }
  }

  lemma {:induction false} ValueOutOfOrder(o: Vocabulary, mode: UnknownKeys, tok: FieldToken)
    ensures IsRight(o, mode, tok) <==> forall d | IsWrongValue(o, mode, tok, d) :: d.severity != ERROR
  {
    if !IsRight(o, mode, tok) {
      var code := match o.classify(tok.key)
        case Scalar(s) => if s == Id then TL005 else TL007
        case Expects => TL004
        case EdgeTo(_) => TL004
        case DerivedEdge => TL040
        case Unknown => TL040;
      assert IsWrongValue(o, mode, tok, Diagnostic(code, ERROR));
    }
  }

  lemma {:induction false} ErrorFreeIsInOrder(o: Vocabulary, mode: UnknownKeys, t: Tokens, i: int)
    requires NoErrors(Meaning(o, mode, t).diags) && 0 <= i < |t.tokens|
    ensures InOrder(o, mode, t.tokens, i)
  {
    forall d | IsWrong(o, mode, t.tokens, i, d) ensures d.severity != ERROR {
      DiagnosedExactly(o, mode, t, d);
    }
    OutOfOrder(o, mode, t.tokens, i);
  }

  lemma {:induction false} InOrderIsErrorFree(o: Vocabulary, mode: UnknownKeys, t: Tokens, d: Diagnostic)
    requires NoErrors(t.diags) && (forall i | 0 <= i < |t.tokens| :: InOrder(o, mode, t.tokens, i)) && exists i :: Gives(o, t.tokens, Id, i)
    requires d in Meaning(o, mode, t).diags
    ensures d.severity != ERROR
  {
    DiagnosedExactly(o, mode, t, d);
    if i :| IsWrong(o, mode, t.tokens, i, d) {
      OutOfOrder(o, mode, t.tokens, i);
    }
  }

  /** A payload is parsed without an error exactly when its text has none, every token is in order, and one
      of them gives an id. */
  lemma {:induction false} NoErrorExactly(o: Vocabulary, mode: UnknownKeys, t: Tokens)
    ensures NoErrors(Meaning(o, mode, t).diags) <==>
      NoErrors(t.diags) && (forall i | 0 <= i < |t.tokens| :: InOrder(o, mode, t.tokens, i)) && exists i :: Gives(o, t.tokens, Id, i)
  {
    var ds := Meaning(o, mode, t).diags;
    if NoErrors(ds) {
      forall d | d in t.diags ensures d.severity != ERROR { DiagnosedExactly(o, mode, t, d); }
      forall i | 0 <= i < |t.tokens| ensures InOrder(o, mode, t.tokens, i) { ErrorFreeIsInOrder(o, mode, t, i); }
      DiagnosedExactly(o, mode, t, Diagnostic(TL004, ERROR));
    }
    if NoErrors(t.diags) && (forall i | 0 <= i < |t.tokens| :: InOrder(o, mode, t.tokens, i)) && exists i :: Gives(o, t.tokens, Id, i) {
      forall d | d in ds ensures d.severity != ERROR { InOrderIsErrorFree(o, mode, t, d); }
    }
  }

  /** What is kept of unknown keys: with the permissive setting, the value of each that counts. */
  lemma {:induction false} MigratedExactly(o: Vocabulary, mode: UnknownKeys, ts: seq<FieldToken>, k: string)
    ensures var m := MigratedOf(o, mode, Effective(ts));
      && (k in m <==> mode.Permissive? && exists i :: Counts(ts, i) && ts[i].key == k && o.classify(k).Unknown?)
      && (k in m ==> exists i :: Counts(ts, i) && ts[i].key == k && m[k] == ts[i].value)
  {
    if ts != [] {
      var n := |ts| - 1;
      var init, last := ts[..n], ts[n];
      MigratedExactly(o, mode, init, k);
      EffectiveStep(ts);
      forall i | i < n ensures Counts(init, i) <==> Counts(ts, i) { CountsBefore(ts, n, i); }
      if Counts(ts, n) {
        assert (Effective(init) + [last])[..|Effective(init)|] == Effective(init);
      }
      if i :| Counts(init, i) && init[i].key == k { assert Counts(ts, i) && ts[i].key == k; }
      if i :| Counts(ts, i) && ts[i].key == k && i < n { assert Counts(init, i) && init[i].key == k; }
    }
  }
}
