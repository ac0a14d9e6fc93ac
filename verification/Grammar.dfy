/** The `trace:v1` marker grammar: payload extraction, tokenizing, quoting. */
module Grammar {
  import opened Models

  datatype Severity = ERROR | WARNING | INFO

  datatype Rule = TL004 | TL005 | TL006 | TL007 | TL040

  datatype Diagnostic = Diagnostic(rule: Rule, severity: Severity)

  /** A key with its unescaped value. */
  datatype FieldToken = FieldToken(key: string, value: string, quoted: bool)

  const PREFIX := "trace:v1"

  // ----- character classes -----

  /** Whitespace as `str.strip` and `\s` see it. */
  predicate IsSpace(c: char) {
    || '\t' <= c <= '\r' || '\U{1C}' <= c <= ' ' || c == '\U{85}' || c == '\U{A0}'
    || c == '\U{1680}' || '\U{2000}' <= c <= '\U{200A}' || c == '\U{2028}' || c == '\U{2029}'
    || c == '\U{202F}' || c == '\U{205F}' || c == '\U{3000}'
  }

  predicate IsLetter(c: char) { 'a' <= c <= 'z' || 'A' <= c <= 'Z' }

  predicate IsDigit(c: char) { '0' <= c <= '9' }

  predicate IsKeyChar(c: char) { IsLetter(c) || IsDigit(c) || c == '_' }

  predicate IsIdChar(c: char) {
    IsLetter(c) || IsDigit(c) || c == '.' || c == '_' || c == ':' || c == '/' || c == '-'
  }

  predicate IsUnquotedChar(c: char) {
    IsIdChar(c) || c == '#' || c == '@' || c == ',' || c == '+'
  }

  predicate IsBlank(c: char) { c == ' ' || c == '\t' }

  predicate IsPlainSpace(c: char) { c == ' ' }

  predicate IsWordChar(c: char) { !IsBlank(c) }

  predicate AllUnquoted(s: string) { forall c | c in s :: IsUnquotedChar(c) }

  predicate AllIdChars(s: string) { forall c | c in s :: IsIdChar(c) }

  /** A match of `^[class]+$`: `$` also matches before one final newline. */
  predicate UnquotedOk(s: string) {
    || (s != [] && AllUnquoted(s))
    || (|s| >= 2 && s[|s| - 1] == '\n' && AllUnquoted(s[..|s| - 1]))
  }

  predicate IsValidId(s: string) {
    || (s != [] && AllIdChars(s))
    || (|s| >= 2 && s[|s| - 1] == '\n' && AllIdChars(s[..|s| - 1]))
  }

  predicate IsKey(s: string) {
    s != [] && IsLetter(s[0]) && forall c | c in s :: IsKeyChar(c)
  }

  // ----- scanning, as functions of the text that is left -----

  function TakeWhile(s: string, p: char -> bool): string {
    if s != [] && p(s[0]) then [s[0]] + TakeWhile(s[1..], p) else []
  }

  function DropWhile(s: string, p: char -> bool): (r: string)
    ensures |r| <= |s|
  {
    if s != [] && p(s[0]) then DropWhile(s[1..], p) else s
  }

  predicate IsEscape(e: char) { e == '\\' || e == '"' || e == 'n' || e == 't' }

  function Unescape(e: char): char {
    if e == 'n' then '\n' else if e == 't' then '\t' else e
  }

  /** Regex class escapes that pass through with their backslash. */
  predicate IsPassthrough(e: char) {
    || e == 'd' || e == 'D' || e == 's' || e == 'S' || e == 'w' || e == 'W'
    || e == 'b' || e == 'B' || e == 'A' || e == 'Z'
  }

  /** A decoded value, the text after it, and whether it was well formed. */
  datatype Scanned = Scanned(value: string, rest: string, ok: bool)

  function Prepend(out: string, r: Scanned): Scanned {
    r.(value := out + r.value)
  }

  /** What follows an opening quote, up to and including the closing one. */
  function QuotedTail(s: string): (r: Scanned)
    ensures |r.rest| <= |s|
  {
    if s == [] then Scanned("", "", false)
    else if s[0] == '\\' then
      if |s| == 1 then Scanned("", "", false)
      else if IsEscape(s[1]) then Prepend([Unescape(s[1])], QuotedTail(s[2..]))
      else if IsPassthrough(s[1]) then Prepend([s[0], s[1]], QuotedTail(s[2..]))
      else Scanned("", s[2..], false)
    else if s[0] == '"' then Scanned("", s[1..], true)
    else Prepend([s[0]], QuotedTail(s[1..]))
  }

  predicate StartsQuoted(s: string) { s != [] && s[0] == '"' }

  /** One value: quoted or not. */
  function ValueOf(s: string): (r: Scanned)
    ensures |r.rest| <= |s|
  {
    if StartsQuoted(s) then QuotedTail(s[1..])
    else
      var word := TakeWhile(s, IsWordChar);
      Scanned(word, DropWhile(s, IsWordChar), UnquotedOk(word))
  }

  datatype FieldScan = NoField | Field(token: FieldToken, rest: string, ok: bool)

  function FieldAfterEquals(key: string, s: string): (r: FieldScan)
    ensures r.Field? && |r.rest| <= |s|
  {
    var atValue := DropWhile(s, IsPlainSpace);
    var v := ValueOf(atValue);
    Field(FieldToken(key, v.value, StartsQuoted(atValue)), DropWhile(v.rest, IsBlank), v.ok)
  }

  function FieldAfterKey(key: string, s: string): (r: FieldScan)
    ensures r.Field? ==> |r.rest| < |s|
  {
    var atEquals := DropWhile(s, IsPlainSpace);
    if atEquals == [] || atEquals[0] != '=' then NoField else FieldAfterEquals(key, atEquals[1..])
  }

  /** One `key=value` with the blanks after it. */
  function FieldOf(s: string): (r: FieldScan)
    ensures r.Field? ==> |r.rest| < |s|
  {
    if s == [] || !IsLetter(s[0]) then NoField
    else FieldAfterKey(TakeWhile(s, IsKeyChar), DropWhile(s, IsKeyChar))
  }

  datatype Tokens = Tokens(tokens: seq<FieldToken>, diags: seq<Diagnostic>)

  const SYNTAX := Diagnostic(TL004, ERROR)

  function Verdict(ok: bool): seq<Diagnostic> {
    if ok then [] else [SYNTAX]
  }

  function After(tokens: seq<FieldToken>, diags: seq<Diagnostic>, r: Tokens): Tokens {
    Tokens(tokens + r.tokens, diags + r.diags)
  }

  /** The fields of the text. Every field takes up text, so scanning ends on every input. */
  function TokensOf(s: string): Tokens
    decreases |s|
  {
    if s == [] then Tokens([], [])
    else
      var f := FieldOf(s);
      if f.NoField? then Tokens([], [SYNTAX]) else After([f.token], Verdict(f.ok), TokensOf(f.rest))
  }

  function Lstrip(s: string): string {
    DropWhile(s, IsSpace)
  }

  function Rstrip(s: string): string {
    if s != [] && IsSpace(s[|s| - 1]) then Rstrip(s[..|s| - 1]) else s
  }

  function Strip(s: string): string {
    Lstrip(Rstrip(s))
  }

  ghost predicate AllSpace(s: string) {
    forall c | c in s :: IsSpace(c)
  }

  lemma {:induction false} RstripParts(s: string) returns (b: string)
    ensures s == Rstrip(s) + b && AllSpace(b)
    ensures Rstrip(s) != "" ==> !IsSpace(Rstrip(s)[|Rstrip(s)| - 1])
  {
    if s != "" && IsSpace(s[|s| - 1]) {
      var c := [s[|s| - 1]];
      b := RstripParts(s[..|s| - 1]);
      b := b + c;
      assert s == s[..|s| - 1] + c;
    } else {
      b := "";
    }
  }

  lemma {:induction false} LstripParts(s: string) returns (a: string)
    ensures s == a + Lstrip(s) && AllSpace(a) && (Lstrip(s) != "" ==> !IsSpace(Lstrip(s)[0]))
  {
    if s != "" && IsSpace(s[0]) {
      a := LstripParts(s[1..]);
      a := [s[0]] + a;
      assert s == [s[0]] + s[1..];
    } else {
      a := "";
    }
  }

  /** Stripping takes off the whitespace at both ends, and nothing else. */
  lemma {:induction false} StripParts(s: string) returns (a: string, b: string)
    ensures s == a + Strip(s) + b && AllSpace(a) && AllSpace(b)
    ensures Strip(s) != "" ==> !IsSpace(Strip(s)[0])
  {
    b := RstripParts(s);
    a := LstripParts(Rstrip(s));
  }

  /** All fields of a payload. */
  function FieldsOf(payload: string): Tokens
    requires |payload| >= |PREFIX|
  {
    TokensOf(Lstrip(payload[|PREFIX|..]))
  }

  // ----- the scanner as it runs -----

  lemma {:induction false} PrependTwice(a: string, b: string, r: Scanned)
    ensures Prepend(a, Prepend(b, r)) == Prepend(a + b, r)
  {
    assert a + (b + r.value) == (a + b) + r.value;
  }

  lemma {:induction false} DropOne(s: string, i: nat)
    requires i < |s|
    ensures s[i..] != [] && s[i..][0] == s[i] && s[i..][1..] == s[i + 1..]
  {}

  lemma {:induction false} DropTwo(s: string, i: nat)
    requires i + 1 < |s|
    ensures |s[i..]| >= 2 && s[i..][0] == s[i] && s[i..][1] == s[i + 1] && s[i..][2..] == s[i + 2..]
  {}

  lemma {:induction false} PrependStop(out: string, rest: string, ok: bool)
    ensures Prepend(out, Scanned("", rest, ok)) == Scanned(out, rest, ok)
  {}

  lemma {:induction false} QuotedChar(out: string, s: string, i: nat)
    requires i < |s| && s[i] != '\\' && s[i] != '"'
    ensures Prepend(out, QuotedTail(s[i..])) == Prepend(out + [s[i]], QuotedTail(s[i + 1..]))
  {
    DropOne(s, i);
    PrependTwice(out, [s[i]], QuotedTail(s[i + 1..]));
  }

  lemma {:induction false} QuotedEscape(out: string, s: string, i: nat)
    requires i + 1 < |s| && s[i] == '\\'
    ensures Prepend(out, QuotedTail(s[i..])) ==
      if IsEscape(s[i + 1]) then Prepend(out + [Unescape(s[i + 1])], QuotedTail(s[i + 2..]))
      else if IsPassthrough(s[i + 1]) then Prepend(out + [s[i], s[i + 1]], QuotedTail(s[i + 2..]))
      else Scanned(out, s[i + 2..], false)
  {
    DropTwo(s, i);
    var e := s[i + 1];
    if IsEscape(e) {
      PrependTwice(out, [Unescape(e)], QuotedTail(s[i + 2..]));
    } else if IsPassthrough(e) {
      PrependTwice(out, [s[i], e], QuotedTail(s[i + 2..]));
    } else {
      PrependStop(out, s[i + 2..], false);
    }
  }

  lemma {:induction false} QuotedEnd(out: string, s: string, i: nat)
    requires i <= |s|
    ensures i < |s| && s[i] == '"' ==> Prepend(out, QuotedTail(s[i..])) == Scanned(out, s[i + 1..], true)
    ensures i + 1 == |s| && s[i] == '\\' ==> Prepend(out, QuotedTail(s[i..])) == Scanned(out, s[i + 1..], false)
    ensures i == |s| ==> Prepend(out, QuotedTail(s[i..])) == Scanned(out, s[i..], false)
  {
    if i < |s| {
      DropOne(s, i);
      PrependStop(out, s[i + 1..], s[i] == '"');
    } else {
      PrependStop(out, s[i..], false);
    }
  }

  /** Decodes the escape at a backslash: the text it stands for, or an error. */
  method DecodeEscape(s: string, i: nat, ghost out: string) returns (text: string, next: nat, ok: bool)
    requires i < |s| && s[i] == '\\'
    ensures i < next <= |s|
    ensures Prepend(out, QuotedTail(s[i..])) ==
      if ok then Prepend(out + text, QuotedTail(s[next..])) else Scanned(out, s[next..], false)
  {
    if i + 1 >= |s| {
      QuotedEnd(out, s, i);
      return "", i + 1, false;
    }
    var e := s[i + 1];
    QuotedEscape(out, s, i);
    if IsEscape(e) {
      return [Unescape(e)], i + 2, true;
    } else if IsPassthrough(e) {
      return [s[i], e], i + 2, true;
    }
    return "", i + 2, false;
  }

  /** Parses a quoted value that opens at `pos`. */
  method ParseQuoted(s: string, pos: nat) returns (value: string, next: nat, ok: bool)
    requires pos < |s| && s[pos] == '"'
    ensures pos < next <= |s|
    ensures Scanned(value, s[next..], ok) == QuotedTail(s[pos + 1..])
  {
    value := [];
    next := pos + 1;
    ghost var all := QuotedTail(s[pos + 1..]);
    while next < |s|
      invariant pos < next <= |s|
      invariant all == Prepend(value, QuotedTail(s[next..]))
      decreases |s| - next
    {
      if s[next] == '\\' {
        var text, i, decoded := DecodeEscape(s, next, value);
        next := i;
        if !decoded {
          return value, next, false;
        }
        value := value + text;
      } else if s[next] == '"' {
        QuotedEnd(value, s, next);
        return value, next + 1, true;
      } else {
        QuotedChar(value, s, next);
        value := value + [s[next]];
        next := next + 1;
      }
    }
    QuotedEnd(value, s, next);
    return value, next, false;
  }

  /** Advances over characters of a class. */
  method SkipWhile(s: string, pos: nat, p: char -> bool) returns (next: nat)
    requires pos <= |s|
    ensures pos <= next <= |s|
    ensures s[next..] == DropWhile(s[pos..], p)
    ensures s[pos..next] == TakeWhile(s[pos..], p)
  {
    next := pos;
    while next < |s| && p(s[next])
      invariant pos <= next <= |s|
      invariant DropWhile(s[pos..], p) == DropWhile(s[next..], p)
      invariant TakeWhile(s[pos..], p) == s[pos..next] + TakeWhile(s[next..], p)
    {
      DropOne(s, next);
      assert s[pos..next] + ([s[next]] + TakeWhile(s[next + 1..], p)) == s[pos..next + 1] + TakeWhile(s[next + 1..], p);
      next := next + 1;
    }
  }

  method ScanValue(s: string, at: nat) returns (value: string, next: nat, ok: bool)
    requires at <= |s|
    ensures at <= next <= |s|
    ensures Scanned(value, s[next..], ok) == ValueOf(s[at..])
  {
    if at < |s| && s[at] == '"' {
      value, next, ok := ParseQuoted(s, at);
      DropOne(s, at);
    } else {
      next := SkipWhile(s, at, IsWordChar);
      value := s[at..next];
      ok := UnquotedOk(value);
    }
  }

  /** Scans one field at `pos`; `found` is false when there is no key or no `=`. */
  method ScanField(s: string, pos: nat) returns (found: bool, token: FieldToken, next: nat, ok: bool)
    requires pos < |s|
    ensures pos <= next <= |s|
    ensures FieldOf(s[pos..]) == if found then Field(token, s[next..], ok) else NoField
  {
    token, next, ok := FieldToken("", "", false), pos, false;
    DropOne(s, pos);
    if !IsLetter(s[pos]) {
      return false, token, next, ok;
    }
    var keyEnd := SkipWhile(s, pos, IsKeyChar);
    var key := s[pos..keyEnd];
    var eq := SkipWhile(s, keyEnd, IsPlainSpace);
    if eq >= |s| || s[eq] != '=' {
      return false, token, next, ok;
    }
    DropOne(s, eq);
    var at := SkipWhile(s, eq + 1, IsPlainSpace);
    var value, valueEnd;
    value, valueEnd, ok := ScanValue(s, at);
    next := SkipWhile(s, valueEnd, IsBlank);
    return true, FieldToken(key, value, at < |s| && s[at] == '"'), next, ok;
  }

  lemma {:induction false} AfterStep(tokens: seq<FieldToken>, diags: seq<Diagnostic>, f: FieldScan, r: Tokens)
    requires f.Field?
    ensures After(tokens, diags, After([f.token], Verdict(f.ok), r)) == After(tokens + [f.token], diags + Verdict(f.ok), r)
  {
    assert tokens + ([f.token] + r.tokens) == (tokens + [f.token]) + r.tokens;
    assert diags + (Verdict(f.ok) + r.diags) == (diags + Verdict(f.ok)) + r.diags;
  }

  lemma {:induction false} TokensStep(s: string, pos: nat, tokens: seq<FieldToken>, diags: seq<Diagnostic>)
    requires pos < |s|
    ensures var f := FieldOf(s[pos..]);
            After(tokens, diags, TokensOf(s[pos..])) ==
              if f.NoField? then Tokens(tokens, diags + [SYNTAX])
              else After(tokens + [f.token], diags + Verdict(f.ok), TokensOf(f.rest))
  {
    DropOne(s, pos);
    var f := FieldOf(s[pos..]);
    if f.Field? {
      AfterStep(tokens, diags, f, TokensOf(f.rest));
    } else {
      assert tokens + [] == tokens;
    }
  }

  lemma {:induction false} AfterEnd(tokens: seq<FieldToken>, diags: seq<Diagnostic>)
    ensures After(tokens, diags, TokensOf("")) == Tokens(tokens, diags)
  {}

  /** The scanner loop: keys, values and diagnostics from left to right. */
  method TokenizeFields(payload: string) returns (tokens: seq<FieldToken>, diags: seq<Diagnostic>)
    requires |payload| >= |PREFIX|
    ensures Tokens(tokens, diags) == FieldsOf(payload)
  {
    var rest := Lstrip(payload[|PREFIX|..]);
    tokens, diags := [], [];
    var pos := 0;
    assert rest[0..] == rest;
    while pos < |rest|
      invariant pos <= |rest|
      invariant TokensOf(rest) == After(tokens, diags, TokensOf(rest[pos..]))
      decreases |rest| - pos
    {
      var found, token, next, ok := ScanField(rest, pos);
      TokensStep(rest, pos, tokens, diags);
      if !found {
        diags := diags + [SYNTAX];
        return;
      }
      if ok {
        assert diags + Verdict(ok) == diags;
      } else {
        diags := diags + [SYNTAX];
      }
      tokens := tokens + [token];
      pos := next;
    }
    AfterEnd(tokens, diags);
  }
}
