/** The payload grammar as a description of texts, and that the scanner accepts exactly those. */
module GrammarReading {
  import opened Models
  import opened Grammar

  // ----- quoted values -----

  /** What an escape stands for. */
  predicate Stands(e: char, text: string) {
    || (e == '\\' && text == "\\") || (e == '"' && text == "\"") || (e == 'n' && text == "\n") || (e == 't' && text == "\t")
    || (e in "dDsSwWbBAZ" && text == ['\\', e])
  }

  /** The text between the quotes stands for the value: characters for themselves, escapes for what they
      stand for, and class escapes of regular expressions for themselves with their backslash. */
  ghost predicate Decodes(body: string, value: string)
    decreases |body|
  {
    if body == "" then value == ""
    else if body[0] == '\\' then
      |body| >= 2 && exists k :: 0 < k <= |value| && Stands(body[1], value[..k]) && Decodes(body[2..], value[k..])
    else
      body[0] != '"' && value != "" && value[0] == body[0] && Decodes(body[1..], value[1..])
  }

  lemma {:induction false} StandsExactly(e: char)
    ensures (exists text :: Stands(e, text)) <==> IsEscape(e) || IsPassthrough(e)
    ensures IsEscape(e) ==> Stands(e, [Unescape(e)]) && forall text | Stands(e, text) :: text == [Unescape(e)]
    ensures IsPassthrough(e) ==> Stands(e, ['\\', e]) && forall text | Stands(e, text) :: text == ['\\', e]
  {
    if IsPassthrough(e) {
      assert e in "dDsSwWbBAZ";
      assert Stands(e, ['\\', e]);
    }
    if IsEscape(e) {
      assert Stands(e, [Unescape(e)]);
    }
  }

  /** What follows an opening quote is the body, the closing quote and the rest. */
  ghost predicate Closes(s: string, body: string, value: string, rest: string) {
    s == body + ("\"" + rest) && Decodes(body, value)
  }

  lemma {:induction false} DecodesMore(head: string, body: string, text: string, value: string)
    requires Decodes(body, value)
    requires |head| == 1 ==> head[0] != '\\' && head[0] != '"' && text == head
    requires |head| == 2 ==> head[0] == '\\' && Stands(head[1], text)
    requires 1 <= |head| <= 2
    ensures Decodes(head + body, text + value)
  {
    var b, v := head + body, text + value;
    assert b[|head|..] == body && v[|text|..] == value && v[..|text|] == text;
  }

  lemma {:induction false} ClosesMore(head: string, s: string, body: string, text: string, value: string, rest: string)
    requires Closes(s, body, value, rest)
    requires |head| == 1 ==> head[0] != '\\' && head[0] != '"' && text == head
    requires |head| == 2 ==> head[0] == '\\' && Stands(head[1], text)
    requires 1 <= |head| <= 2
    ensures Closes(head + s, head + body, text + value, rest)
  {
    DecodesMore(head, body, text, value);
    assert head + (body + ("\"" + rest)) == (head + body) + ("\"" + rest);
  }

  /** The first one or two characters of the text, and what is behind them. */
  lemma {:induction false} QuotedHead(s: string) returns (head: string, text: string)
    requires QuotedTail(s).ok && s[0] != '"'
    ensures 1 <= |head| <= 2 && |head| <= |s| && s == head + s[|head|..]
    ensures |head| == 1 ==> head[0] != '\\' && head[0] != '"' && text == head
    ensures |head| == 2 ==> head[0] == '\\' && Stands(head[1], text)
    ensures QuotedTail(s) == Prepend(text, QuotedTail(s[|head|..]))
  {
    if s[0] == '\\' {
      StandsExactly(s[1]);
      head := s[..2];
      text := if IsEscape(s[1]) then [Unescape(s[1])] else ['\\', s[1]];
    } else {
      head, text := [s[0]], [s[0]];
    }
  }

  lemma {:induction false} QuotedIsBody(s: string) returns (body: string)
    requires QuotedTail(s).ok
    ensures Closes(s, body, QuotedTail(s).value, QuotedTail(s).rest)
    decreases |s|
  {
    if s[0] == '"' {
      body := "";
      assert s == "" + ("\"" + s[1..]);
    } else {
      var head, text := QuotedHead(s);
      var behind := s[|head|..];
      body := QuotedIsBody(behind);
      ClosesMore(head, behind, body, text, QuotedTail(behind).value, QuotedTail(behind).rest);
      body := head + body;
    }
  }

  lemma {:induction false} EscapeLeads(s: string, text: string)
    requires |s| >= 2 && s[0] == '\\' && Stands(s[1], text)
    ensures QuotedTail(s) == Prepend(text, QuotedTail(s[2..]))
  {
    StandsExactly(s[1]);
  }

  lemma {:induction false} CharLeads(s: string)
    requires s != "" && s[0] != '\\' && s[0] != '"'
    ensures QuotedTail(s) == Prepend([s[0]], QuotedTail(s[1..]))
  {}

  /** Behind the first n characters of the body the text closes in the same way. */
  lemma {:induction false} ClosesBehind(s: string, body: string, value: string, rest: string, n: nat, k: nat)
    requires s == body + ("\"" + rest) && n <= |body| && k <= |value| && Decodes(body[n..], value[k..])
    ensures Closes(s[n..], body[n..], value[k..], rest)
  {
    assert s[n..] == body[n..] + ("\"" + rest);
  }

  lemma {:induction false} PrependAll(value: string, k: nat, rest: string)
    requires k <= |value|
    ensures Prepend(value[..k], Scanned(value[k..], rest, true)) == Scanned(value, rest, true)
  {
    assert value[..k] + value[k..] == value;
  }

  lemma {:induction false} BodyIsQuoted(s: string, body: string, value: string, rest: string)
    requires Closes(s, body, value, rest)
    ensures QuotedTail(s) == Scanned(value, rest, true)
    decreases |body|
  {
    if body == "" {
      assert s == "\"" + rest && s[1..] == rest;
    } else {
      var n, k := BodyHead(s, body, value, rest);
      ClosesBehind(s, body, value, rest, n, k);
      BodyIsQuoted(s[n..], body[n..], value[k..], rest);
      PrependAll(value, k, rest);
    }
  }

  /** The first one or two characters of a body, and how many of the value they stand for. */
  lemma {:induction false} BodyHead(s: string, body: string, value: string, rest: string) returns (n: nat, k: nat)
    requires Closes(s, body, value, rest) && body != ""
    ensures 0 < n <= |body| && k <= |value| && Decodes(body[n..], value[k..])
    ensures QuotedTail(s) == Prepend(value[..k], QuotedTail(s[n..]))
  {
    assert s[0] == body[0];
    if body[0] == '\\' {
      k :| 0 < k <= |value| && Stands(body[1], value[..k]) && Decodes(body[2..], value[k..]);
      n := 2;
      assert s[1] == body[1];
      EscapeLeads(s, value[..k]);
    } else {
      n, k := 1, 1;
      CharLeads(s);
      assert value[..1] == [value[0]];
    }
  }

  // ----- one field -----

  predicate AllOf(s: string, p: char -> bool) {
    forall c | c in s :: p(c)
  }

  lemma {:induction false} SplitsWhile(s: string, p: char -> bool)
    ensures s == TakeWhile(s, p) + DropWhile(s, p) && AllOf(TakeWhile(s, p), p)
    ensures DropWhile(s, p) != "" ==> !p(DropWhile(s, p)[0])
  {
    if s != "" && p(s[0]) {
      SplitsWhile(s[1..], p);
      assert s == [s[0]] + s[1..];
    }
  }

  lemma {:induction false} WhileSplits(a: string, b: string, p: char -> bool)
    requires AllOf(a, p) && (b != "" ==> !p(b[0]))
    ensures TakeWhile(a + b, p) == a && DropWhile(a + b, p) == b
  {
    if a == "" {
      assert a + b == b;
    } else {
      assert a[0] in a && (a + b)[1..] == a[1..] + b;
      assert forall c | c in a[1..] :: c in a;
      WhileSplits(a[1..], b, p);
    }
  }

  /** A value as it is written: between quotes, or plain characters up to a blank or the end. One line feed
      at the end of a plain value is let pass. */
  ghost predicate WrittenAs(raw: string, tok: FieldToken, blanks: string, rest: string) {
    if tok.quoted then exists body :: raw == "\"" + (body + "\"") && Decodes(body, tok.value)
    else
      && raw == tok.value && (blanks != "" || rest == "")
      && var plain := if raw != "" && raw[|raw| - 1] == '\n' then raw[..|raw| - 1] else raw;
         plain != "" && forall c | c in plain :: IsPlain(c)
  }

  predicate IsPlain(c: char) {
    'a' <= c <= 'z' || 'A' <= c <= 'Z' || '0' <= c <= '9' || c in {'.', '_', ':', '/', '#', '@', ',', '+', '-'}
  }

  predicate IsName(key: string) {
    && key != "" && ('a' <= key[0] <= 'z' || 'A' <= key[0] <= 'Z')
    && forall c | c in key :: 'a' <= c <= 'z' || 'A' <= c <= 'Z' || '0' <= c <= '9' || c == '_'
  }

  /** A field as it is written: a key, an equals sign with spaces around it, a value, blanks, and what is
      behind. */
  ghost predicate IsField(s: string, tok: FieldToken, rest: string, before: string, after: string, raw: string, blanks: string) {
    && IsName(tok.key) && (forall c | c in before :: c == ' ') && (forall c | c in after :: c == ' ') && (forall c | c in blanks :: c == ' ' || c == '\t')
    && WrittenAs(raw, tok, blanks, rest) && (rest != "" ==> rest[0] != ' ' && rest[0] != '\t')
    && s == tok.key + (before + ("=" + (after + (raw + (blanks + rest)))))
  }

  lemma {:induction false} PlainIsUnquoted(c: char)
    requires IsPlain(c)
    ensures IsUnquotedChar(c) && IsWordChar(c) && c != '"'
  {}

  lemma {:induction false} PlainWord(raw: string)
    requires var plain := if raw != "" && raw[|raw| - 1] == '\n' then raw[..|raw| - 1] else raw;
             plain != "" && forall c | c in plain :: IsPlain(c)
    ensures UnquotedOk(raw) && AllOf(raw, IsWordChar) && !StartsQuoted(raw) && raw != "" && raw[0] != ' '
  {
    var plain := if raw != "" && raw[|raw| - 1] == '\n' then raw[..|raw| - 1] else raw;
    forall c | c in plain ensures IsUnquotedChar(c) && IsWordChar(c) && c != '"' { PlainIsUnquoted(c); }
    assert plain[0] in plain && plain[0] == raw[0];
    assert raw == plain || raw == plain + "\n";
  }

  lemma {:induction false} WordIsPlain(raw: string)
    requires UnquotedOk(raw)
    ensures var plain := if raw != "" && raw[|raw| - 1] == '\n' then raw[..|raw| - 1] else raw;
            plain != "" && forall c | c in plain :: IsPlain(c)
  {
    if raw != "" && AllUnquoted(raw) {
      assert raw[|raw| - 1] in raw;
    }
  }

  /** The text as one value, its blanks and the rest. */
  lemma {:induction false} ValueExactly(at: string, tok: FieldToken, raw: string, blanks: string, rest: string)
    requires WrittenAs(raw, tok, blanks, rest) && AllOf(blanks, IsBlank) && (rest != "" ==> !IsBlank(rest[0]))
    requires at == raw + (blanks + rest)
    ensures var v := ValueOf(at);
      && v.ok && v.value == tok.value && StartsQuoted(at) == tok.quoted && DropWhile(v.rest, IsBlank) == rest
      && at[0] != ' '
  {
    WhileSplits(blanks, rest, IsBlank);
    if tok.quoted {
      var body :| raw == "\"" + (body + "\"") && Decodes(body, tok.value);
      assert at[1..] == body + ("\"" + (blanks + rest));
      BodyIsQuoted(at[1..], body, tok.value, blanks + rest);
    } else {
      PlainWord(raw);
      if blanks != "" {
        assert blanks[0] in blanks && (blanks + rest)[0] == blanks[0];
      }
      WhileSplits(raw, blanks + rest, IsWordChar);
      assert at[0] == raw[0];
    }
  }

  lemma {:induction false} WrittenIsField(s: string, tok: FieldToken, rest: string, before: string, after: string, raw: string, blanks: string)
    requires IsField(s, tok, rest, before, after, raw, blanks)
    ensures FieldOf(s) == Field(tok, rest, true)
  {
    var at := raw + (blanks + rest);
    ValueExactly(at, tok, raw, blanks, rest);
    var equals := "=" + (after + at);
    WhileSplits(after, at, IsPlainSpace);
    assert equals[1..] == after + at;
    WhileSplits(before, equals, IsPlainSpace);
    if before != "" {
      assert before[0] in before && (before + equals)[0] == ' ';
    } else {
      assert before + equals == equals;
    }
    forall c | c in tok.key ensures IsKeyChar(c) {}
    WhileSplits(tok.key, before + equals, IsKeyChar);
    assert s[0] == tok.key[0];
  }

  lemma {:induction false} FieldIsWritten(s: string, tok: FieldToken, rest: string) returns (before: string, after: string, raw: string, blanks: string)
    requires FieldOf(s) == Field(tok, rest, true)
    ensures IsField(s, tok, rest, before, after, raw, blanks)
  {
    SplitsWhile(s, IsKeyChar);
    var key, s1 := TakeWhile(s, IsKeyChar), DropWhile(s, IsKeyChar);
    assert key != "" && key[0] == s[0];
    SplitsWhile(s1, IsPlainSpace);
    before := TakeWhile(s1, IsPlainSpace);
    var s2 := DropWhile(s1, IsPlainSpace);
    assert s2 == "=" + s2[1..];
    SplitsWhile(s2[1..], IsPlainSpace);
    after := TakeWhile(s2[1..], IsPlainSpace);
    var at := DropWhile(s2[1..], IsPlainSpace);
    var v := ValueOf(at);
    SplitsWhile(v.rest, IsBlank);
    blanks := TakeWhile(v.rest, IsBlank);
    raw := ValueIsWritten(at, tok, blanks, rest);
    forall c | c in key ensures 'a' <= c <= 'z' || 'A' <= c <= 'Z' || '0' <= c <= '9' || c == '_' { assert IsKeyChar(c); }
  }

  lemma {:induction false} QuotedIsWritten(at: string, tok: FieldToken, blanks: string, rest: string) returns (raw: string)
    requires StartsQuoted(at) && QuotedTail(at[1..]) == Scanned(tok.value, blanks + rest, true) && tok.quoted
    ensures WrittenAs(raw, tok, blanks, rest) && at == raw + (blanks + rest)
  {
    var body := QuotedIsBody(at[1..]);
    raw := "\"" + (body + "\"");
    assert at == "\"" + at[1..];
    assert "\"" + (body + ("\"" + (blanks + rest))) == raw + (blanks + rest);
  }

  lemma {:induction false} PlainIsWritten(at: string, tok: FieldToken, blanks: string, rest: string) returns (raw: string)
    requires tok.value == TakeWhile(at, IsWordChar) && UnquotedOk(tok.value) && !tok.quoted
    requires DropWhile(at, IsWordChar) == blanks + rest && (rest != "" ==> !IsBlank(rest[0]))
    ensures WrittenAs(raw, tok, blanks, rest) && at == raw + (blanks + rest)
  {
    SplitsWhile(at, IsWordChar);
    raw := tok.value;
    WordIsPlain(raw);
    if blanks == "" {
      assert blanks + rest == rest;
    }
  }

  lemma {:induction false} ValueIsWritten(at: string, tok: FieldToken, blanks: string, rest: string) returns (raw: string)
    requires ValueOf(at).ok && tok.value == ValueOf(at).value && tok.quoted == StartsQuoted(at)
    requires ValueOf(at).rest == blanks + rest && (rest != "" ==> !IsBlank(rest[0]))
    ensures WrittenAs(raw, tok, blanks, rest) && at == raw + (blanks + rest)
  {
    if StartsQuoted(at) {
      raw := QuotedIsWritten(at, tok, blanks, rest);
    } else {
      raw := PlainIsWritten(at, tok, blanks, rest);
    }
  }

  /** One field is scanned without an error exactly when the text starts with one as it is written. */
  lemma {:induction false} FieldExactly(s: string, tok: FieldToken, rest: string)
    ensures FieldOf(s) == Field(tok, rest, true) <==> exists before, after, raw, blanks :: IsField(s, tok, rest, before, after, raw, blanks)
  {
    if FieldOf(s) == Field(tok, rest, true) {
      var before, after, raw, blanks := FieldIsWritten(s, tok, rest);
    }
    if before, after, raw, blanks :| IsField(s, tok, rest, before, after, raw, blanks) {
      WrittenIsField(s, tok, rest, before, after, raw, blanks);
    }
  }

  // ----- all fields -----

  /** The text is these fields one behind the other. */
  ghost predicate IsWritten(s: string, ts: seq<FieldToken>)
    decreases |ts|
  {
    if ts == [] then s == ""
    else exists rest, before, after, raw, blanks :: IsField(s, ts[0], rest, before, after, raw, blanks) && IsWritten(rest, ts[1..])
  }

  lemma {:induction false} SomethingIsSaid(s: string)
    requires s != ""
    ensures TokensOf(s) != Tokens([], [])
  {
    assert FieldOf(s).Field? ==> |TokensOf(s).tokens| > 0;
  }

  /** A text is scanned without an error exactly when it is fields as they are written, one behind the other,
      and then the tokens are those fields. */
  lemma {:induction false} TokensExactly(s: string, ts: seq<FieldToken>)
    ensures TokensOf(s) == Tokens(ts, []) <==> IsWritten(s, ts)
    decreases |ts|
  {
    if ts == [] {
      if s != "" { SomethingIsSaid(s); }
    } else {
      if TokensOf(s) == Tokens(ts, []) {
        var f := FieldOf(s);
        var r := TokensOf(f.rest);
        assert [f.token] + r.tokens == ts && f.token == ts[0] && r.tokens == ts[1..];
        assert Verdict(f.ok) + r.diags == [];
        var before, after, raw, blanks := FieldIsWritten(s, ts[0], f.rest);
        TokensExactly(f.rest, ts[1..]);
      }
      if IsWritten(s, ts) {
        var rest, before, after, raw, blanks :| IsField(s, ts[0], rest, before, after, raw, blanks) && IsWritten(rest, ts[1..]);
        WrittenIsField(s, ts[0], rest, before, after, raw, blanks);
        TokensExactly(rest, ts[1..]);
        assert [ts[0]] + ts[1..] == ts;
      }
    }
  }
}
