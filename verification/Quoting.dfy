/** Quoting of field values, and that tokenizing undoes it. */
module Quoting {
  import opened Models
  import opened Grammar

  /** `str.replace` of one character. */
  function Replace(s: string, c: char, sub: string): string {
    if s == [] then [] else ReplaceOne(s[0], c, sub) + Replace(s[1..], c, sub)
  }

  function ReplaceOne(x: char, c: char, sub: string): string {
    if x == c then sub else [x]
  }

  /** Canonical form of a value: unquoted when possible, else quoted and escaped. */
  function QuoteValue(value: string): string {
    if value != "" && UnquotedOk(value) then value
    else
      var a := Replace(Replace(value, '\\', "\\\\"), '"', "\\\"");
      var b := Replace(Replace(a, '\n', "\\n"), '\t', "\\t");
      "\"" + b + "\""
  }

  /** Escape of a single character. */
  function EscapeChar(c: char): string {
    if c == '\\' then "\\\\" else if c == '"' then "\\\"" else if c == '\n' then "\\n" else if c == '\t' then "\\t" else [c]
  }

  function Escape(s: string): string {
    if s == [] then [] else EscapeChar(s[0]) + Escape(s[1..])
  }

  lemma {:induction false} ReplaceCons(x: char, s: string, c: char, sub: string)
    ensures Replace([x] + s, c, sub) == ReplaceOne(x, c, sub) + Replace(s, c, sub)
  {
    assert ([x] + s)[1..] == s;
  }

  lemma {:induction false} Uncons(a: string, b: string)
    requires a != []
    ensures a + b == [a[0]] + (a[1..] + b)
  {}

  lemma {:induction false} ReplaceConcat(a: string, b: string, c: char, sub: string)
    ensures Replace(a + b, c, sub) == Replace(a, c, sub) + Replace(b, c, sub)
  {
    if a == [] {
      assert a + b == b;
    } else {
      ReplaceConcat(a[1..], b, c, sub);
      Uncons(a, b);
      ReplaceCons(a[0], a[1..] + b, c, sub);
      Associate(ReplaceOne(a[0], c, sub), Replace(a[1..], c, sub), Replace(b, c, sub));
    }
  }

  lemma {:induction false} ReplaceShort(s: string, c: char, sub: string)
    ensures |s| == 1 ==> Replace(s, c, sub) == if s[0] == c then sub else s
    ensures |s| == 2 ==> Replace(s, c, sub) == (if s[0] == c then sub else [s[0]]) + (if s[1] == c then sub else [s[1]])
  {
    if |s| == 1 {
      assert s[1..] == [];
    } else if |s| == 2 {
      assert s[1..] == [s[1]];
      ReplaceShort(s[1..], c, sub);
    }
  }

  /** What the two backslash replaces do to one character. */
  lemma {:induction false} ChainOnChar(c: char)
    ensures Replace(Replace(Replace(Replace([c], '\\', "\\\\"), '"', "\\\""), '\n', "\\n"), '\t', "\\t") == EscapeChar(c)
  {
    ReplaceShort([c], '\\', "\\\\");
    var a := Replace([c], '\\', "\\\\");
    ReplaceShort(a, '"', "\\\"");
    var b := Replace(a, '"', "\\\"");
    ReplaceShort(b, '\n', "\\n");
    ReplaceShort(Replace(b, '\n', "\\n"), '\t', "\\t");
  }

  /** The four replaces, one after the other, escape each character exactly once. */
  lemma {:induction false} ReplacesEscapeOnce(v: string)
    ensures Replace(Replace(Replace(Replace(v, '\\', "\\\\"), '"', "\\\""), '\n', "\\n"), '\t', "\\t") == Escape(v)
  {
    if v != [] {
      var h, t := [v[0]], v[1..];
      assert v == h + t;
      ReplaceConcat(h, t, '\\', "\\\\");
      var h1, t1 := Replace(h, '\\', "\\\\"), Replace(t, '\\', "\\\\");
      ReplaceConcat(h1, t1, '"', "\\\"");
      var h2, t2 := Replace(h1, '"', "\\\""), Replace(t1, '"', "\\\"");
      ReplaceConcat(h2, t2, '\n', "\\n");
      ReplaceConcat(Replace(h2, '\n', "\\n"), Replace(t2, '\n', "\\n"), '\t', "\\t");
      ChainOnChar(v[0]);
      ReplacesEscapeOnce(t);
    }
  }

  lemma {:induction false} QuotedOneChar(c: char, t: string)
    ensures QuotedTail(EscapeChar(c) + t) == Prepend([c], QuotedTail(t))
  {
    var s := EscapeChar(c) + t;
    if |EscapeChar(c)| == 1 {
      assert s[1..] == t;
    } else {
      assert s[2..] == t;
    }
  }

  /** Reading an escaped value back gives the value, whatever follows the closing quote; the
      regex pass-through escapes never get in the way. */
  lemma {:induction false} QuotedInverts(v: string, rest: string)
    ensures QuotedTail(Escape(v) + ("\"" + rest)) == Scanned(v, rest, true)
  {
    var end := "\"" + rest;
    if v == [] {
      assert Escape(v) + end == end;
      QuotedClosing(rest);
    } else {
      var tail := v[1..];
      calc {
        QuotedTail(Escape(v) + end);
        { Associate(EscapeChar(v[0]), Escape(tail), end); }
        QuotedTail(EscapeChar(v[0]) + (Escape(tail) + end));
        { QuotedOneChar(v[0], Escape(tail) + end); }
        Prepend([v[0]], QuotedTail(Escape(tail) + end));
        { QuotedInverts(tail, rest); }
        Prepend([v[0]], Scanned(tail, rest, true));
        { HeadTail(v); }
        Scanned(v, rest, true);
      }
    }
  }

  lemma {:induction false} QuotedClosing(rest: string)
    ensures QuotedTail("\"" + rest) == Scanned("", rest, true)
  {
    assert ("\"" + rest)[1..] == rest;
  }

  lemma {:induction false} Associate(a: string, b: string, c: string)
    ensures (a + b) + c == a + (b + c)
  {}

  lemma {:induction false} HeadTail(s: string)
    requires s != []
    ensures [s[0]] + s[1..] == s
  {}

  lemma {:induction false} SpanConcat(a: string, b: string, p: char -> bool)
    requires forall c | c in a :: p(c)
    requires b == [] || !p(b[0])
    ensures TakeWhile(a + b, p) == a && DropWhile(a + b, p) == b
  {
    if a == [] {
      assert a + b == b;
    } else {
      assert a[0] in a;
      assert (a + b)[1..] == a[1..] + b;
      SpanConcat(a[1..], b, p);
    }
  }

  function FieldText(k: string, v: string): string {
    k + "=" + QuoteValue(v)
  }

  lemma {:induction false} UnquotedStaysWhole(v: string)
    requires v != "" && UnquotedOk(v)
    ensures v[0] != '"' && !IsBlank(v[0]) && forall c | c in v :: IsWordChar(c)
  {
    forall c | c in v ensures IsWordChar(c) && c != '"' {
      var i :| 0 <= i < |v| && v[i] == c;
      if i < |v| - 1 { assert v[..|v| - 1][i] in v[..|v| - 1]; }
    }
    assert v[0] in v;
  }

  lemma {:induction false} UnquotedInverts(v: string, rest: string)
    requires v != "" && UnquotedOk(v) && (rest == [] || rest[0] == ' ')
    ensures var s := v + rest; s != [] && !IsBlank(s[0]) && ValueOf(s) == Scanned(v, rest, true) && !StartsQuoted(s)
  {
    UnquotedStaysWhole(v);
    SpanConcat(v, rest, IsWordChar);
    assert (v + rest)[0] == v[0];
  }

  lemma {:induction false} EscapedInverts(v: string, rest: string)
    ensures var s := "\"" + (Escape(v) + ("\"" + rest));
            s != [] && !IsBlank(s[0]) && ValueOf(s) == Scanned(v, rest, true) && StartsQuoted(s)
  {
    QuotedInverts(v, rest);
    var tail := Escape(v) + ("\"" + rest);
    assert ("\"" + tail)[0] == '"' && ("\"" + tail)[1..] == tail;
  }

  lemma {:induction false} QuotedText(v: string, rest: string)
    requires v == "" || !UnquotedOk(v)
    ensures QuoteValue(v) + rest == "\"" + (Escape(v) + ("\"" + rest))
  {
    ReplacesEscapeOnce(v);
    Associate("\"" + Escape(v), "\"", rest);
    Associate("\"", Escape(v), "\"" + rest);
  }

  /** A rendered value reads back as itself. */
  lemma {:induction false} ValueInverts(v: string, rest: string)
    requires rest == [] || rest[0] == ' '
    ensures var s := QuoteValue(v) + rest;
            s != [] && !IsBlank(s[0]) && ValueOf(s) == Scanned(v, rest, true) && (StartsQuoted(s) <==> !UnquotedOk(v))
  {
    if v != "" && UnquotedOk(v) {
      UnquotedInverts(v, rest);
    } else {
      QuotedText(v, rest);
      EscapedInverts(v, rest);
    }
  }

  lemma {:induction false} NoSpaceToDrop(s: string)
    requires s == [] || !IsBlank(s[0])
    ensures DropWhile(s, IsPlainSpace) == s
  {}

  lemma {:induction false} KeyThenEquals(k: string, value: string)
    requires IsKey(k) && (value == [] || !IsBlank(value[0]))
    ensures FieldOf(k + ("=" + value)) == FieldAfterEquals(k, value)
  {
    var u := "=" + value;
    SpanConcat(k, u, IsKeyChar);
    assert (k + u)[0] == k[0];
    assert FieldOf(k + u) == FieldAfterKey(k, u);
    NoSpaceToDrop(u);
    assert u[1..] == value;
  }

  lemma {:induction false} FieldTextSplit(k: string, v: string, rest: string)
    ensures FieldText(k, v) + rest == k + ("=" + (QuoteValue(v) + rest))
  {
    var q := QuoteValue(v);
    assert ((k + "=") + q) + rest == k + ("=" + (q + rest));
  }

  /** One rendered field reads back as one token. */
  lemma {:induction false} FieldInverts(k: string, v: string, rest: string)
    requires IsKey(k) && (rest == [] || rest[0] == ' ')
    ensures FieldOf(FieldText(k, v) + rest) == Field(FieldToken(k, v, !UnquotedOk(v)), DropWhile(rest, IsBlank), true)
  {
    var value := QuoteValue(v) + rest;
    ValueInverts(v, rest);
    FieldTextSplit(k, v, rest);
    KeyThenEquals(k, value);
    NoSpaceToDrop(value);
  }

  datatype Pair = Pair(key: string, value: string)

  predicate ValidPairs(fs: seq<Pair>) {
    forall f | f in fs :: IsKey(f.key)
  }

  /** The rendered fields, one space between neighbours. */
  function JoinFields(fs: seq<Pair>): string {
    if fs == [] then ""
    else FieldText(fs[0].key, fs[0].value) + if |fs| == 1 then "" else " " + JoinFields(fs[1..])
  }

  function TokenOf(f: Pair): FieldToken {
    FieldToken(f.key, f.value, !UnquotedOk(f.value))
  }

  function TokensFor(fs: seq<Pair>): seq<FieldToken> {
    if fs == [] then [] else [TokenOf(fs[0])] + TokensFor(fs[1..])
  }

  lemma {:induction false} JoinStartsWithKey(fs: seq<Pair>)
    requires ValidPairs(fs) && fs != []
    ensures JoinFields(fs) != [] && IsLetter(JoinFields(fs)[0])
  {
    assert fs[0] in fs;
    assert JoinFields(fs)[0] == fs[0].key[0];
  }

  lemma {:induction false} DropGap(s: string)
    requires s == [] || !IsBlank(s[0])
    ensures DropWhile(" " + s, IsBlank) == s
  {
    SpanConcat(" ", s, IsBlank);
  }

  /** Tokenizing space-joined rendered fields gives back exactly those keys and values, in
      order, without a diagnostic, for every list of valid keys and arbitrary values. */
  lemma {:induction false} TokensInvertFields(fs: seq<Pair>)
    requires ValidPairs(fs)
    ensures TokensOf(JoinFields(fs)) == Tokens(TokensFor(fs), [])
    decreases |fs|
  {
    if fs != [] {
      assert fs[0] in fs;
      JoinStartsWithKey(fs);
      var tail := JoinFields(fs[1..]);
      var rest := if |fs| == 1 then "" else " " + tail;
      FieldInverts(fs[0].key, fs[0].value, rest);
      TokensInvertFields(fs[1..]);
      if |fs| > 1 {
        JoinStartsWithKey(fs[1..]);
        DropGap(tail);
      }
      assert DropWhile(rest, IsBlank) == tail;
      assert TokensOf(JoinFields(fs)) == After([TokenOf(fs[0])], [], TokensOf(tail));
    }
  }
}
