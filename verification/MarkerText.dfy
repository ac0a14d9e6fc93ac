/** Markers in a text: its lines, the marker lines among them, and when a rendering survives that. */
module MarkerText {
  import opened Models
  import opened Grammar
  import opened TextLines
  import opened Quoting
  import opened Marker
  import opened MarkerRoundTrip
  import opened MarkerLine

  // ----- marker lines -----

  /** A marker line: its number, from 1, and its payload. */
  datatype Hit = Hit(line: nat, payload: string)

  function HitsOf(lines: seq<string>): seq<Hit> {
    if lines == [] then []
    else
      var k := |lines| - 1;
      var payload := ExtractPayload(lines[k]);
      HitsOf(lines[..k]) + if payload.Some? then [Hit(k + 1, payload.value)] else []
  }

  /** Every marker line of the text, in order. */
  method MarkerHits(text: string) returns (hits: seq<Hit>)
    ensures hits == HitsOf(Lines(text))
  {
    var lines := Lines(text);
    hits := [];
    for i := 0 to |lines|
      invariant hits == HitsOf(lines[..i])
    {
      assert lines[..i + 1][..i] == lines[..i];
      var payload := ExtractPayload(lines[i]);
      if payload.Some? {
        hits := hits + [Hit(i + 1, payload.value)];
      }
    }
    assert lines[..|lines|] == lines;
  }

  lemma {:induction false} HitOfLine(lines: seq<string>, i: nat)
    requires i < |lines| && ExtractPayload(lines[i]).Some?
    ensures Hit(i + 1, ExtractPayload(lines[i]).value) in HitsOf(lines)
  {
    if i < |lines| - 1 {
      HitOfLine(lines[..|lines| - 1], i);
    }
  }

  // ----- where a rendering breaks -----

  lemma {:induction false} MarksHaveNoBreak()
    ensures !HasBreak(PREFIX) && !HasBreak(" ") && !HasBreak("\"") && !HasBreak("=")
  {}

  lemma {:induction false} UnquotedHasNoBreak(v: string)
    requires AllUnquoted(v)
    ensures !HasBreak(v)
  {}

  lemma {:induction false} KeyHasNoBreak(k: string)
    requires IsKey(k)
    ensures !HasBreak(k + "=")
  {
    BreaksOfConcat(k, "=");
  }

  lemma {:induction false} FieldBreaks(f: Pair)
    requires IsKey(f.key)
    ensures HasBreak(FieldText(f.key, f.value)) <==> HasBreak(QuoteValue(f.value))
  {
    KeyHasNoBreak(f.key);
    BreaksOfConcat(f.key + "=", QuoteValue(f.value));
  }

  predicate FieldHasBreak(f: Pair) {
    HasBreak(QuoteValue(f.value))
  }

  lemma {:induction false} JoinBreaks(fs: seq<Pair>)
    requires ValidPairs(fs)
    ensures HasBreak(JoinFields(fs)) <==> exists i | 0 <= i < |fs| :: FieldHasBreak(fs[i])
    decreases |fs|
  {
    if fs != [] {
      assert fs[0] in fs;
      FieldBreaks(fs[0]);
      if |fs| > 1 {
        JoinBreaks(fs[1..]);
        BreaksOfConcat(" ", JoinFields(fs[1..]));
        BreaksOfConcat(FieldText(fs[0].key, fs[0].value), " " + JoinFields(fs[1..]));
        if i: nat :| i < |fs| && FieldHasBreak(fs[i]) { assert i > 0 ==> FieldHasBreak(fs[1..][i - 1]); }
        if i: nat :| i < |fs[1..]| && FieldHasBreak(fs[1..][i]) { assert FieldHasBreak(fs[i + 1]); }
      } else {
        assert FieldText(fs[0].key, fs[0].value) + "" == FieldText(fs[0].key, fs[0].value);
        if i: nat :| i < |fs| && FieldHasBreak(fs[i]) { assert i == 0; }
      }
    }
  }

  // ----- a value cut off at its first break -----

  lemma {:induction false} EscapeConcat(a: string, b: string)
    ensures Escape(a + b) == Escape(a) + Escape(b)
  {
    if a == [] {
      assert a + b == b;
    } else {
      Uncons(a, b);
      assert ([a[0]] + (a[1..] + b))[1..] == a[1..] + b;
      EscapeConcat(a[1..], b);
      Associate(EscapeChar(a[0]), Escape(a[1..]), Escape(b));
    }
  }

  lemma {:induction false} EscapeOne(c: char)
    ensures Escape([c]) == EscapeChar(c)
    ensures !HasBreak(EscapeChar(c)) || (EscapeChar(c) == [c] && IsBreak(c))
    ensures IsSpace(EscapeChar(c)[|EscapeChar(c)| - 1]) ==> EscapeChar(c) == [c]
  {
    assert [c][1..] == [];
  }

  /** The first break of an escaped value comes right behind the escape of a beginning of it. */
  lemma {:induction false} EscapeCut(v: string) returns (k: nat)
    requires HasBreak(Escape(v))
    ensures k < |v| && FirstLine(Escape(v)) == Escape(v[..k])
    decreases |v|
  {
    var head, tail := EscapeChar(v[0]), Escape(v[1..]);
    EscapeOne(v[0]);
    BreaksOfConcat(head, tail);
    FirstLineOfConcat(head, tail);
    if HasBreak(head) {
      k := 0;
    } else {
      var j := EscapeCut(v[1..]);
      k := j + 1;
      EscapePrefix(v, j);
    }
  }

  lemma {:induction false} EscapePrefix(v: string, j: nat)
    requires j < |v|
    ensures Escape(v[..j + 1]) == EscapeChar(v[0]) + Escape(v[1..][..j])
  {
    assert v[..j + 1][1..] == v[1..][..j];
  }

  /** Stripping an opened value leaves the escape of a beginning of it. */
  lemma {:induction false} EscapeStrip(u: string) returns (k: nat)
    ensures k <= |u| && Rstrip("\"" + Escape(u)) == "\"" + Escape(u[..k])
    decreases |u|
  {
    if u == [] {
      k := 0;
      assert "\"" + [] == "\"";
    } else {
      var init, c := u[..|u| - 1], u[|u| - 1];
      assert u == init + [c];
      EscapeSnoc(init, c);
      var s := "\"" + Escape(u);
      if IsSpace(s[|s| - 1]) {
        k := EscapeStrip(init);
        assert init[..k] == u[..k];
      } else {
        k := |u|;
        assert u[..k] == u;
      }
    }
  }

  lemma {:induction false} EscapeSnoc(init: string, c: char)
    ensures var s := "\"" + Escape(init + [c]);
      IsSpace(s[|s| - 1]) ==> s[..|s| - 1] == "\"" + Escape(init)
  {
    EscapeConcat(init, [c]);
    EscapeOne(c);
    var s := "\"" + (Escape(init) + EscapeChar(c));
    assert s[|s| - 1] == EscapeChar(c)[|EscapeChar(c)| - 1];
  }

  /** A quote that is never closed: the value so far, and an error. */
  lemma {:induction false} OpenQuote(u: string)
    ensures QuotedTail(Escape(u)) == Scanned(u, "", false)
  {
    if u != [] {
      QuotedOneChar(u[0], Escape(u[1..]));
      OpenQuote(u[1..]);
      HeadTail(u);
    }
  }

  /** What is left of a rendered value with a break in it: the text up to the break, stripped, is read
      as another value. */
  lemma {:induction false} CutValue(v: string) returns (w: string, ok: bool)
    requires HasBreak(QuoteValue(v)) && v != ""
    ensures var q := Rstrip(FirstLine(QuoteValue(v))); q != [] && !IsBlank(q[0]) && ValueOf(q) == Scanned(w, "", ok)
    ensures |w| < |v|
  {
    if UnquotedOk(v) {
      w := CutUnquoted(v);
      ok := true;
      UnquotedInverts(w, "");
      assert w + "" == w;
    } else {
      w := CutQuoted(v);
      ok := false;
      OpenedValue(w);
    }
  }

  lemma {:induction false} CutUnquoted(v: string) returns (w: string)
    requires v != "" && UnquotedOk(v) && HasBreak(v)
    ensures w != "" && UnquotedOk(w) && Rstrip(FirstLine(v)) == w && |w| < |v|
  {
    if AllUnquoted(v) { UnquotedHasNoBreak(v); }
    w := v[..|v| - 1];
    assert v == w + "\n";
    UnquotedHasNoBreak(w);
    FirstLineOfConcat(w, "\n");
    assert w + FirstLine("\n") == w;
    UnquotedEnd(w);
  }

  lemma {:induction false} OpenedValue(w: string)
    ensures var q := "\"" + Escape(w); q != [] && !IsBlank(q[0]) && ValueOf(q) == Scanned(w, "", false)
  {
    OpenQuote(w);
    assert ("\"" + Escape(w))[0] == '"' && ("\"" + Escape(w))[1..] == Escape(w);
  }

  lemma {:induction false} CutQuoted(v: string) returns (w: string)
    requires !UnquotedOk(v) && HasBreak(QuoteValue(v))
    ensures Rstrip(FirstLine(QuoteValue(v))) == "\"" + Escape(w) && |w| < |v|
  {
    QuotedForm(v);
    QuotedBreak(v);
    var k := EscapeCut(v);
    var j := EscapeStrip(v[..k]);
    w := v[..k][..j];
  }

  lemma {:induction false} QuotedForm(v: string)
    requires !UnquotedOk(v)
    ensures QuoteValue(v) == "\"" + (Escape(v) + "\"")
  {
    QuotedText(v, "");
    assert QuoteValue(v) + "" == QuoteValue(v) && "\"" + "" == "\"";
  }

  lemma {:induction false} QuotedBreak(v: string)
    requires HasBreak("\"" + (Escape(v) + "\""))
    ensures HasBreak(Escape(v)) && FirstLine("\"" + (Escape(v) + "\"")) == "\"" + FirstLine(Escape(v))
  {
    MarksHaveNoBreak();
    BreaksOfConcat("\"", Escape(v) + "\"");
    BreaksOfConcat(Escape(v), "\"");
    FirstLineOfConcat("\"", Escape(v) + "\"");
    FirstLineOfConcat(Escape(v), "\"");
  }

  // ----- a rendering cut off at its first break -----

  /** The rendered fields, a space behind each, in front of other text. */
  function FieldsBefore(fs: seq<Pair>, rest: string): string {
    if fs == [] then rest else FieldText(fs[0].key, fs[0].value) + (" " + FieldsBefore(fs[1..], rest))
  }

  lemma {:induction false} BeforeStarts(fs: seq<Pair>, rest: string)
    requires ValidPairs(fs) && rest != [] && !IsBlank(rest[0])
    ensures FieldsBefore(fs, rest) != [] && !IsBlank(FieldsBefore(fs, rest)[0])
  {
    if fs != [] {
      assert fs[0] in fs;
      assert FieldsBefore(fs, rest)[0] == fs[0].key[0];
    }
  }

  /** Fields in front of any other text are read as they are. */
  lemma {:induction false} TokensThen(fs: seq<Pair>, rest: string)
    requires ValidPairs(fs) && rest != [] && !IsBlank(rest[0])
    ensures TokensOf(FieldsBefore(fs, rest)) == After(TokensFor(fs), [], TokensOf(rest))
  {
    if fs == [] {
      assert After([], [], TokensOf(rest)) == TokensOf(rest);
    } else {
      assert fs[0] in fs && forall f | f in fs[1..] :: f in fs;
      BeforeStarts(fs[1..], rest);
      TokensHead(fs[0], FieldsBefore(fs[1..], rest));
      TokensThen(fs[1..], rest);
      AfterTwice(fs, TokensOf(rest));
    }
  }

  lemma {:induction false} AfterTwice(a: seq<Pair>, r: Tokens)
    requires a != []
    ensures After([TokenOf(a[0])], [], After(TokensFor(a[1..]), [], r)) == After(TokensFor(a), [], r)
  {}

  lemma {:induction false} TokensHead(f: Pair, behind: string)
    requires IsKey(f.key) && behind != [] && !IsBlank(behind[0])
    ensures TokensOf(FieldText(f.key, f.value) + (" " + behind)) == After([TokenOf(f)], [], TokensOf(behind))
  {
    FieldInverts(f.key, f.value, " " + behind);
    DropGap(behind);
  }

  lemma {:induction false} JoinedBefore(a: seq<Pair>, b: seq<Pair>)
    requires b != []
    ensures JoinFields(a + b) == FieldsBefore(a, JoinFields(b))
    decreases |a|
  {
    if a == [] {
      assert a + b == b;
    } else {
      assert (a + b)[0] == a[0] && (a + b)[1..] == a[1..] + b;
      JoinedBefore(a[1..], b);
    }
  }

  /** The rendered value of the slot has a break in it. */
  predicate SlotBreaks(m: ParsedMarker, s: Slot) {
    s in m.slots && HasBreak(QuoteValue(m.slots[s]))
  }

  lemma {:induction false} FirstBreaking(order: seq<Slot>, m: ParsedMarker, k: nat) returns (i: nat)
    requires k < |order| && SlotBreaks(m, order[k])
    ensures i <= k && SlotBreaks(m, order[i]) && forall j | 0 <= j < i :: !SlotBreaks(m, order[j])
  {
    i := k;
    if j: nat :| j < k && SlotBreaks(m, order[j]) {
      i := FirstBreaking(order, m, j);
    }
  }

  /** The first slot whose rendering has a break; there is none when the rendering has none. */
  lemma {:induction false} FirstBreakingSlot(o: Vocabulary, mode: UnknownKeys, order: seq<Slot>, m: ParsedMarker) returns (i: nat)
    requires ValidVocabulary(o) && Writable(o, m) && order == SLOT_ORDER && HasBreak(Render(o, m))
    ensures i < |order| && SlotBreaks(m, order[i]) && forall j | 0 <= j < i :: !SlotBreaks(m, order[j])
  {
    if forall k | 0 <= k < |order| :: !SlotBreaks(m, order[k]) {
      RenderHasNoBreak(o, mode, order, m);
      assert false;
    } else {
      var k: nat :| k < |order| && SlotBreaks(m, order[k]);
      i := FirstBreaking(order, m, k);
    }
  }

  lemma {:induction false} SlotFieldBreaks(o: Vocabulary, order: seq<Slot>, slots: map<Slot, string>, f: Pair)
    requires f in SlotFields(o, order, slots)
    ensures exists s :: s in order && s in slots && f == Pair(o.slotName(s), slots[s])
  {
    var k := |order| - 1;
    if f in SlotFields(o, order[..k], slots) {
      SlotFieldBreaks(o, order[..k], slots, f);
      var s :| s in order[..k] && s in slots && f == Pair(o.slotName(s), slots[s]);
      assert s in order;
    } else {
      assert order[k] in order;
    }
  }

  lemma {:induction false} EdgeFieldBreaks(order: seq<string>, edges: map<string, seq<string>>, f: Pair)
    requires f in EdgeFields(order, edges) && forall e | e in edges :: CleanTargets(edges[e])
    ensures !FieldHasBreak(f)
  {
    var k := |order| - 1;
    if f in EdgeFields(order[..k], edges) {
      EdgeFieldBreaks(order[..k], edges, f);
    } else {
      ListHasNoBreak(order[k], edges[order[k]]);
    }
  }

  lemma {:induction false} ListHasNoBreak(key: string, ts: seq<string>)
    requires CleanTargets(ts)
    ensures !HasBreak(QuoteValue(JoinCommas(ts)))
  {
    JoinedIsUnquoted(ts);
    ListToken(key, ts);
    UnquotedHasNoBreak(JoinCommas(ts));
  }

  lemma {:induction false} RenderHasNoBreak(o: Vocabulary, mode: UnknownKeys, order: seq<Slot>, m: ParsedMarker)
    requires ValidVocabulary(o) && Writable(o, m) && order == SLOT_ORDER
    requires forall j | 0 <= j < |order| :: !SlotBreaks(m, order[j])
    ensures !HasBreak(Render(o, m))
  {
    RenderIsFields(o, order, m);
    FieldsRead(o, mode, order, m);
    forall f | f in Fields(o, order, m) ensures !FieldHasBreak(f) {
      FieldOfMarker(o, order, m, f);
    }
    PayloadHasNoBreak(Fields(o, order, m));
  }

  lemma {:induction false} PayloadHasNoBreak(fs: seq<Pair>)
    requires ValidPairs(fs) && forall f | f in fs :: !FieldHasBreak(f)
    ensures !HasBreak(PREFIX + (" " + JoinFields(fs)))
  {
    JoinBreaks(fs);
    BreaksOfConcat(" ", JoinFields(fs));
    BreaksOfConcat(PREFIX, " " + JoinFields(fs));
  }

  lemma {:induction false} FieldOfMarker(o: Vocabulary, order: seq<Slot>, m: ParsedMarker, f: Pair)
    requires Writable(o, m) && f in Fields(o, order, m)
    requires forall j | 0 <= j < |order| :: !SlotBreaks(m, order[j])
    ensures !FieldHasBreak(f)
  {
    if f in SlotFields(o, order, m.slots) {
      SlotFieldBreaks(o, order, m.slots, f);
      var s :| s in order && s in m.slots && f == Pair(o.slotName(s), m.slots[s]);
      var j :| 0 <= j < |order| && order[j] == s;
    } else if f in ExpectsFields(m.expects) {
      ListHasNoBreak("expects", m.expects.value);
    } else {
      EdgeFieldBreaks(o.edgeOrder, m.edges, f);
    }
  }

  lemma {:induction false} SlotFieldsPrefix(o: Vocabulary, order: seq<Slot>, slots: map<Slot, string>, i: nat)
    requires i <= |order|
    ensures SlotFields(o, order[..i], slots) <= SlotFields(o, order, slots)
    decreases |order|
  {
    if i < |order| {
      var k := |order| - 1;
      SlotFieldsPrefix(o, order[..k], slots, i);
      assert order[..k][..i] == order[..i];
    } else {
      assert order[..i] == order;
    }
  }

  /** The fields up to a slot, that slot, and the fields behind. */
  lemma {:induction false} FieldsAround(o: Vocabulary, order: seq<Slot>, m: ParsedMarker, i: nat) returns (behind: seq<Pair>)
    requires i < |order| && order[i] in m.slots
    ensures Fields(o, order, m) == SlotFields(o, order[..i], m.slots) + ([Pair(o.slotName(order[i]), m.slots[order[i]])] + behind)
  {
    var fs := Fields(o, order, m);
    var a, f := SlotFields(o, order[..i], m.slots), Pair(o.slotName(order[i]), m.slots[order[i]]);
    SlotFieldsPrefix(o, order, m.slots, i + 1);
    assert order[..i + 1][..i] == order[..i];
    assert a + [f] <= SlotFields(o, order, m.slots) <= fs;
    behind := fs[|a| + 1..];
    assert fs[..|a| + 1] == a + [f] && fs == fs[..|a| + 1] + behind;
  }

  lemma {:induction false} CutBefore(fs: seq<Pair>, rest: string)
    requires ValidPairs(fs) && forall f | f in fs :: !FieldHasBreak(f)
    ensures FirstLine(FieldsBefore(fs, rest)) == FieldsBefore(fs, FirstLine(rest))
  {
    if fs != [] {
      assert fs[0] in fs && forall f | f in fs[1..] :: f in fs;
      CutBefore(fs[1..], rest);
      FieldBreaks(fs[0]);
      FirstLineOfConcat(" ", FieldsBefore(fs[1..], rest));
      FirstLineOfConcat(FieldText(fs[0].key, fs[0].value), " " + FieldsBefore(fs[1..], rest));
    }
  }

  lemma {:induction false} StripBefore(fs: seq<Pair>, rest: string)
    requires Rstrip(rest) != []
    ensures Rstrip(FieldsBefore(fs, rest)) == FieldsBefore(fs, Rstrip(rest)) != []
  {
    if fs != [] {
      StripBefore(fs[1..], rest);
      RstripBehind(" ", FieldsBefore(fs[1..], rest));
      RstripBehind(FieldText(fs[0].key, fs[0].value), " " + FieldsBefore(fs[1..], rest));
    }
  }

  function FieldsBehind(fs: seq<Pair>): string {
    if fs == [] then "" else " " + JoinFields(fs)
  }

  lemma {:induction false} FieldThenBehind(f: Pair, behind: seq<Pair>)
    ensures JoinFields([f] + behind) == (f.key + "=") + (QuoteValue(f.value) + FieldsBehind(behind))
  {
    assert ([f] + behind)[1..] == behind;
    Associate(f.key + "=", QuoteValue(f.value), FieldsBehind(behind));
    assert behind == [] ==> QuoteValue(f.value) + "" == QuoteValue(f.value);
  }

  /** The first line of a field with a break in its value. */
  lemma {:induction false} CutField(f: Pair, behind: seq<Pair>)
    requires IsKey(f.key) && FieldHasBreak(f)
    ensures FirstLine(JoinFields([f] + behind)) == (f.key + "=") + FirstLine(QuoteValue(f.value))
  {
    FieldThenBehind(f, behind);
    KeyHasNoBreak(f.key);
    FirstLineOfConcat(f.key + "=", QuoteValue(f.value) + FieldsBehind(behind));
    FirstLineOfConcat(QuoteValue(f.value), FieldsBehind(behind));
  }

  lemma {:induction false} CutText(a: seq<Pair>, rest: string)
    requires ValidPairs(a) && forall x | x in a :: !FieldHasBreak(x)
    ensures FirstLine(PREFIX + (" " + FieldsBefore(a, rest))) == PREFIX + (" " + FieldsBefore(a, FirstLine(rest)))
  {
    MarksHaveNoBreak();
    CutBefore(a, rest);
    FirstLineOfConcat(" ", FieldsBefore(a, rest));
    FirstLineOfConcat(PREFIX, " " + FieldsBefore(a, rest));
  }

  lemma {:induction false} StripText(a: seq<Pair>, key: string, cut: string)
    requires Rstrip(cut) != []
    ensures Rstrip(PREFIX + (" " + FieldsBefore(a, (key + "=") + cut))) == PREFIX + (" " + FieldsBefore(a, (key + "=") + Rstrip(cut)))
  {
    RstripBehind(key + "=", cut);
    StripBefore(a, (key + "=") + cut);
    RstripBehind(" ", FieldsBefore(a, (key + "=") + cut));
    RstripBehind(PREFIX, " " + FieldsBefore(a, (key + "=") + cut));
  }

  /** The stripped first line of a payload. */
  lemma {:induction false} CutPayload(a: seq<Pair>, f: Pair, behind: seq<Pair>)
    requires ValidPairs(a) && IsKey(f.key) && (forall x | x in a :: !FieldHasBreak(x)) && FieldHasBreak(f)
    requires Rstrip(FirstLine(QuoteValue(f.value))) != []
    ensures var payload := PREFIX + (" " + JoinFields(a + ([f] + behind)));
      Rstrip(FirstLine(payload)) == PREFIX + (" " + FieldsBefore(a, (f.key + "=") + Rstrip(FirstLine(QuoteValue(f.value)))))
  {
    JoinedBefore(a, [f] + behind);
    CutText(a, JoinFields([f] + behind));
    CutField(f, behind);
    StripText(a, f.key, FirstLine(QuoteValue(f.value)));
  }

  lemma {:induction false} LineMeans(o: Vocabulary, mode: UnknownKeys, line: string, j: string)
    requires Rstrip(line) == PREFIX + (" " + j) && j != [] && !IsSpace(j[0])
    ensures ParsedLine(o, mode, line) == Some(Meaning(o, mode, TokensOf(j)))
  {
    var s := PREFIX + (" " + j);
    assert s[0] == PREFIX[0] && s[|PREFIX|] == ' ';
    assert Strip(line) == s;
    assert AtMarker(s);
    PayloadTail(j);
  }

  /** The last field, cut off: its key and another value. */
  lemma {:induction false} CutToken(key: string, q: string, w: string, ok: bool)
    requires IsKey(key) && q != [] && !IsBlank(q[0]) && ValueOf(q) == Scanned(w, "", ok)
    ensures TokensOf((key + "=") + q) == Tokens([FieldToken(key, w, StartsQuoted(q))], Verdict(ok))
  {
    KeyThenEquals(key, q);
    NoSpaceToDrop(q);
    Associate(key, "=", q);
    assert TokensOf("") == Tokens([], []);
    assert [FieldToken(key, w, StartsQuoted(q))] + [] == [FieldToken(key, w, StartsQuoted(q))];
    assert Verdict(ok) + [] == Verdict(ok);
  }

  /** One more token behind tokens that all count: it counts too, or it does not. */
  lemma {:induction false} OneMoreToken(o: Vocabulary, mode: UnknownKeys, toks: seq<FieldToken>, tok: FieldToken)
    requires DistinctKeys(toks) && forall t | t in toks :: Fine(o, mode, t)
    ensures Effective(toks + [tok]) == toks || Effective(toks + [tok]) == toks + [tok]
  {
    AllCount(o, mode, toks);
    EffectiveOfMore(toks, tok);
  }

  lemma {:induction false} EffectiveOfMore(toks: seq<FieldToken>, tok: FieldToken)
    ensures Effective(toks + [tok]) ==
      if tok.key in Keys(toks) || tok.value == "" then Effective(toks) else Effective(toks) + [tok]
  {
    assert (toks + [tok])[..|toks|] == toks;
  }

  lemma {:induction false} SlotOfMore(o: Vocabulary, mode: UnknownKeys, toks: seq<FieldToken>, s: Slot, tok: FieldToken)
    requires DistinctKeys(toks) && (forall t | t in toks :: Fine(o, mode, t)) && s !in SlotMap(o, toks)
    requires o.classify(tok.key) == Scalar(s)
    ensures var slots := SlotMap(o, Effective(toks + [tok])); s !in slots || slots[s] == tok.value
  {
    OneMoreToken(o, mode, toks, tok);
    LastToken(o, toks, tok);
  }

  /** With another value for the slot, or none, it is another marker. */
  lemma {:induction false} OtherSlot(o: Vocabulary, mode: UnknownKeys, fs: seq<Pair>, before: seq<Slot>, m: ParsedMarker, s: Slot, tok: FieldToken, diags: seq<Diagnostic>)
    requires ReadsSlots(o, mode, fs, before, m.slots) && s !in before && s != Type && s in m.slots
    requires Id in m.slots && o.classify(tok.key) == Scalar(s) && tok.value != m.slots[s]
    ensures Meaning(o, mode, Tokens(TokensFor(fs) + [tok], diags)).marker != Typed(o, m)
  {
    var toks := TokensFor(fs);
    assert forall t | t in toks :: Fine(o, mode, t);
    assert s !in SlotMap(o, toks);
    SlotOfMore(o, mode, toks, s, tok);
    FinishLeaves(o, SlotMap(o, Effective(toks + [tok])), s);
  }

  lemma {:induction false} FinishLeaves(o: Vocabulary, slots: map<Slot, string>, s: Slot)
    requires s != Type
    ensures var r := Finish(o, slots).0; (s in r <==> s in slots) && (s in r ==> r[s] == slots[s])
  {}

  /** A rendering with a break in it does not come back from its first line. */
  lemma {:induction false} CutMarker(o: Vocabulary, mode: UnknownKeys, order: seq<Slot>, m: ParsedMarker)
    requires ValidVocabulary(o) && Writable(o, m) && order == SLOT_ORDER && HasBreak(Render(o, m))
    ensures var r := ParsedLine(o, mode, FirstLine(Render(o, m))); r.Some? && r.value.marker != Typed(o, m)
  {
    var i := FirstBreakingSlot(o, mode, order, m);
    var s := order[i];
    var a, f := SlotFields(o, order[..i], m.slots), Pair(o.slotName(s), m.slots[s]);
    var behind := FieldsAround(o, order, m, i);
    RenderIsFields(o, order, m);
    BreakingSlotIsText(o, m, s);
    SlotsBefore(o, mode, order, m, i);
    var w, ok := CutValue(f.value);
    var q := Rstrip(FirstLine(QuoteValue(f.value)));
    CutPayload(a, f, behind);
    CutLine(o, mode, a, f.key, q, w, ok, FirstLine(Render(o, m)));
    OtherSlot(o, mode, a, order[..i], m, s, FieldToken(f.key, w, StartsQuoted(q)), Verdict(ok));
  }

  lemma {:induction false} CutLine(o: Vocabulary, mode: UnknownKeys, a: seq<Pair>, key: string, q: string, w: string, ok: bool, line: string)
    requires ValidPairs(a) && IsKey(key) && q != [] && !IsBlank(q[0]) && ValueOf(q) == Scanned(w, "", ok)
    requires Rstrip(line) == PREFIX + (" " + FieldsBefore(a, (key + "=") + q))
    ensures ParsedLine(o, mode, line) == Some(Meaning(o, mode, Tokens(TokensFor(a) + [FieldToken(key, w, StartsQuoted(q))], Verdict(ok))))
  {
    var rest := (key + "=") + q;
    assert rest[0] == key[0];
    BeforeStartsLetter(a, rest);
    LineMeans(o, mode, line, FieldsBefore(a, rest));
    TokensThen(a, rest);
    CutToken(key, q, w, ok);
    assert [] + Verdict(ok) == Verdict(ok);
  }

  lemma {:induction false} BeforeStartsLetter(fs: seq<Pair>, rest: string)
    requires ValidPairs(fs) && rest != [] && IsLetter(rest[0])
    ensures FieldsBefore(fs, rest) != [] && IsLetter(FieldsBefore(fs, rest)[0])
  {
    if fs != [] {
      assert fs[0] in fs;
      assert FieldsBefore(fs, rest)[0] == fs[0].key[0];
    }
  }

  /** Ids and types have no break. */
  lemma {:induction false} BreakingSlotIsText(o: Vocabulary, m: ParsedMarker, s: Slot)
    requires ValidVocabulary(o) && Writable(o, m) && SlotBreaks(m, s)
    ensures s != Id && s != Type && m.slots[s] != ""
  {
    CleanIsUnquoted(m.slots[Id]);
    UnquotedHasNoBreak(m.slots[Id]);
    if Type in m.slots { UnquotedHasNoBreak(m.slots[Type]); }
  }

  lemma {:induction false} SlotsBefore(o: Vocabulary, mode: UnknownKeys, order: seq<Slot>, m: ParsedMarker, i: nat)
    requires ValidVocabulary(o) && Writable(o, m) && order == SLOT_ORDER && i < |order|
    requires forall j | 0 <= j < i :: !SlotBreaks(m, order[j])
    ensures order[i] !in order[..i]
    ensures var fs := SlotFields(o, order[..i], m.slots);
      ReadsSlots(o, mode, fs, order[..i], m.slots) && ValidPairs(fs) && forall f | f in fs :: !FieldHasBreak(f)
  {
    SlotOrderIsComplete(order);
    assert DistinctSlots(order[..i]);
    SlotFieldsRead(o, mode, order[..i], m.slots);
    forall f | f in SlotFields(o, order[..i], m.slots) ensures !FieldHasBreak(f) {
      SlotFieldBreaks(o, order[..i], m.slots, f);
      var s :| s in order[..i] && s in m.slots && f == Pair(o.slotName(s), m.slots[s]);
      var j :| 0 <= j < i && order[..i][j] == s;
    }
  }

  // ----- the round trip through a text -----

  lemma {:induction false} NewlineIsBreak(s: string)
    ensures EndsInNewline(s) ==> HasBreak(s)
  {
    if EndsInNewline(s) { assert s[|s| - 1] in s; }
  }

  lemma {:induction false} RenderComesBackExactly(o: Vocabulary, mode: UnknownKeys, m: ParsedMarker)
    requires ValidVocabulary(o) && Writable(o, m)
    ensures var r := ParsedLine(o, mode, FirstLine(Render(o, m)));
      r.Some? && (r.value.marker == Typed(o, m) <==> !HasBreak(Render(o, m)))
  {
    var r := Render(o, m);
    BreakIsFirst(r);
    if HasBreak(r) {
      CutMarker(o, mode, SLOT_ORDER, m);
    } else {
      NewlineIsBreak(r);
      assert FirstLine(r) == r;
      LineRoundTrip(o, mode, m);
    }
  }

  /** Round trip through a text, exactly: where a canonical marker is rendered at the start of a line,
      that line is a marker line, and the marker comes back from it if and only if the rendering has
      none of the characters that end a line. Quoting escapes line feeds and no other of them. */
  lemma {:induction false} TextRoundTripExactly(o: Vocabulary, mode: UnknownKeys, m: ParsedMarker, before: seq<string>, behind: string)
    requires ValidVocabulary(o) && Writable(o, m)
    requires (forall l | l in before :: !HasBreak(l)) && (behind == [] || IsBreak(behind[0]))
    ensures var lines := Lines(Unlines(before) + (Render(o, m) + behind));
      && |lines| > |before| && lines[..|before|] == before
      && ParsedLine(o, mode, lines[|before|]).Some?
      && Hit(|before| + 1, ExtractPayload(lines[|before|]).value) in HitsOf(lines)
      && (ParsedLine(o, mode, lines[|before|]).value.marker == Typed(o, m) <==> !HasBreak(Render(o, m)))
  {
    RenderShape(o, SLOT_ORDER, m);
    LinesOfUnlines(before, Render(o, m) + behind);
    LineStarts(Render(o, m), behind);
    RenderComesBackExactly(o, mode, m);
    HitOfLine(Lines(Unlines(before) + (Render(o, m) + behind)), |before|);
  }
}
