/**
 * `stringify` of packages/logging/src/logfmt-transport.ts: one record rendered
 * as a logfmt line of `key=value` tokens.
 *
 * `Encoded` states the value rules directly (nullish values are empty, an
 * empty text is `""`, a text holding a space, `=`, `"`, `\`, LF or CR is
 * quoted with its body escaped in one left-to-right pass). The method
 * `Stringify` follows the source step by step (three flag tests, the
 * quote/backslash escape, then the three line-break replacements) and is
 * proved to produce exactly those renderings.
 */
module LogfmtStringify {
  import opened Wrappers
  import opened Text
  import opened LogObjects

  /** The characters that make a value quoted. */
  predicate IsSpecial(c: char) {
    c == ' ' || c == '=' || c == '"' || c == '\\' || c == '\n' || c == '\r'
  }

  predicate NeedsQuotes(t: string) {
    exists i :: 0 <= i < |t| && IsSpecial(t[i])
  }

  /** The escape of one character inside a quoted value. */
  function EscapeChar(c: char): (e: string)
    ensures '\n' !in e && '\r' !in e
  {
    if c == '"' || c == '\\' then ['\\', c]
    else if c == '\n' then "\\n"
    else if c == '\r' then "\\r"
    else [c]
  }

  /**
   * The body of a quoted value, read left to right: CR LF becomes the two
   * characters `\n`, and every other character is escaped by `EscapeChar`.
   * No raw line break survives.
   */
  function EscapeBody(t: string): (e: string)
    ensures '\n' !in e && '\r' !in e
  {
    if t == [] then []
    else if |t| >= 2 && t[0] == '\r' && t[1] == '\n' then "\\n" + EscapeBody(t[2..])
    else EscapeChar(t[0]) + EscapeBody(t[1..])
  }

  /**
   * The rendering of one field value. Empty exactly for `null` and
   * `undefined`; never holding a raw line break.
   */
  function Encoded(raw: Value): (e: string)
    ensures e == "" <==> IsNullish(raw)
    ensures '\n' !in e && '\r' !in e
  {
    if IsNullish(raw) then ""
    else
      var t := ToText(raw);
      if t == "" then "\"\""
      else if NeedsQuotes(t) then "\"" + EscapeBody(t) + "\""
      else
        assert forall i :: 0 <= i < |t| ==> !IsSpecial(t[i]);
        t
  }

  // ---------------------------------------------------------------------------
  // The string operations as the source chains them.

  /** `value.replace(/["\\]/g, '\\$&')`. */
  function EscapeQuotes(s: string): string {
    if s == [] then []
    else QuoteEscape(s[0]) + EscapeQuotes(s[1..])
  }

  /** `value.replace(/\r\n/g, '\\n')`. */
  function ReplaceCrlf(s: string): string {
    if s == [] then []
    else if |s| >= 2 && s[0] == '\r' && s[1] == '\n' then "\\n" + ReplaceCrlf(s[2..])
    else [s[0]] + ReplaceCrlf(s[1..])
  }

  /** `value.replace(/c/g, rep)` for a single character `c`. */
  function ReplaceChar(s: string, c: char, rep: string): string {
    if s == [] then []
    else (if s[0] == c then rep else [s[0]]) + ReplaceChar(s[1..], c, rep)
  }

  /** `.replace(/\r\n/g, '\\n').replace(/\n/g, '\\n').replace(/\r/g, '\\r')`. */
  function EscapeLineBreaks(s: string): string {
    ReplaceChar(ReplaceChar(ReplaceCrlf(s), '\n', "\\n"), '\r', "\\r")
  }

  lemma {:induction false} ReplaceCharAppend(a: string, b: string, c: char, rep: string)
    ensures ReplaceChar(a + b, c, rep) == ReplaceChar(a, c, rep) + ReplaceChar(b, c, rep)
  {
    if a == [] {
      assert a + b == b;
    } else {
      assert (a + b)[1..] == a[1..] + b;
      ReplaceCharAppend(a[1..], b, c, rep);
    }
  }

  lemma {:induction false} ReplaceCharAbsent(s: string, c: char, rep: string)
    requires c !in s
    ensures ReplaceChar(s, c, rep) == s
  {
    if s != [] {
      ReplaceCharAbsent(s[1..], c, rep);
    }
  }

  lemma {:induction false} ReplaceCrlfPrefix(p: string, s: string)
    requires '\r' !in p
    ensures ReplaceCrlf(p + s) == p + ReplaceCrlf(s)
  {
    if p == [] {
      assert p + s == s;
    } else {
      assert (p + s)[1..] == p[1..] + s;
      ReplaceCrlfPrefix(p[1..], s);
    }
  }

  lemma {:induction false} ReplaceCrlfAbsent(s: string)
    requires '\r' !in s
    ensures ReplaceCrlf(s) == s
  {
    ReplaceCrlfPrefix(s, []);
    assert s + [] == s;
  }

  lemma {:induction false} EscapeQuotesAbsent(s: string)
    requires '"' !in s && '\\' !in s
    ensures EscapeQuotes(s) == s
  {
    if s != [] {
      EscapeQuotesAbsent(s[1..]);
    }
  }

  /** Escaping quotes and backslashes adds no line break and does not start one where there was none. */
  lemma {:induction false} EscapeQuotesLineBreaks(s: string)
    ensures ('\n' in EscapeQuotes(s)) <==> ('\n' in s)
    ensures ('\r' in EscapeQuotes(s)) <==> ('\r' in s)
    ensures s != [] ==> EscapeQuotes(s) != [] && (EscapeQuotes(s)[0] == '\n' <==> s[0] == '\n')
  {
    if s != [] {
      EscapeQuotesLineBreaks(s[1..]);
    }
  }

  /** The source's chain of replacements computes exactly the escaped body. */
  lemma {:induction false} ChainIsEscapeBody(t: string)
    ensures EscapeLineBreaks(EscapeQuotes(t)) == EscapeBody(t)
  {
    if t == [] {
    } else if |t| >= 2 && t[0] == '\r' && t[1] == '\n' {
      ChainIsEscapeBody(t[2..]);
      ChainStepCrlf(t);
    } else {
      ChainIsEscapeBody(t[1..]);
      ChainStepChar(t);
    }
  }

  lemma ChainStepCrlf(t: string)
    requires |t| >= 2 && t[0] == '\r' && t[1] == '\n'
    ensures EscapeLineBreaks(EscapeQuotes(t)) == "\\n" + EscapeLineBreaks(EscapeQuotes(t[2..]))
  {
    var rest := EscapeQuotes(t[2..]);
    assert t[1..][1..] == t[2..];
    assert EscapeQuotes(t) == "\r\n" + rest;
    assert ("\r\n" + rest)[2..] == rest;
    var crlf := ReplaceCrlf(rest);
    assert ReplaceCrlf(EscapeQuotes(t)) == "\\n" + crlf;
    ReplaceCharAbsent("\\n", '\n', "\\n");
    ReplaceCharAbsent("\\n", '\r', "\\r");
    ReplaceCharAppend("\\n", crlf, '\n', "\\n");
    ReplaceCharAppend("\\n", ReplaceChar(crlf, '\n', "\\n"), '\r', "\\r");
  }

  /** The quote/backslash escape of one character, as `EscapeQuotes` emits it. */
  function QuoteEscape(c: char): string {
    if c == '"' || c == '\\' then ['\\', c] else [c]
  }

  lemma ChainStepChar(t: string)
    requires t != [] && !(|t| >= 2 && t[0] == '\r' && t[1] == '\n')
    ensures EscapeLineBreaks(EscapeQuotes(t)) == EscapeChar(t[0]) + EscapeLineBreaks(EscapeQuotes(t[1..]))
  {
    var c := t[0];
    var head := QuoteEscape(c);
    var crlf := ReplaceCrlf(EscapeQuotes(t[1..]));
    CrlfStepChar(t);
    ReplaceCharAppend(head, crlf, '\n', "\\n");
    LineBreakStep(c, ReplaceChar(crlf, '\n', "\\n"));
  }

  lemma CrlfStepChar(t: string)
    requires t != [] && !(|t| >= 2 && t[0] == '\r' && t[1] == '\n')
    ensures ReplaceCrlf(EscapeQuotes(t)) == QuoteEscape(t[0]) + ReplaceCrlf(EscapeQuotes(t[1..]))
  {
    var head, rest := QuoteEscape(t[0]), EscapeQuotes(t[1..]);
    assert EscapeQuotes(t) == head + rest;
    if t[0] == '\r' {
      RestAfterLoneCr(t);
      LoneCr(rest);
    } else {
      ReplaceCrlfPrefix(head, rest);
    }
  }

  /** After a carriage return that does not start CR LF, the escaped rest does not start with a line feed. */
  lemma RestAfterLoneCr(t: string)
    requires t != [] && t[0] == '\r' && !(|t| >= 2 && t[1] == '\n')
    ensures EscapeQuotes(t[1..]) == [] || EscapeQuotes(t[1..])[0] != '\n'
  {
    EscapeQuotesLineBreaks(t[1..]);
  }

  /** A carriage return not followed by a line feed is kept by the CR LF replacement. */
  lemma LoneCr(rest: string)
    requires rest == [] || rest[0] != '\n'
    ensures ReplaceCrlf("\r" + rest) == "\r" + ReplaceCrlf(rest)
  {
    assert ("\r" + rest)[1..] == rest;
  }

  lemma LineBreakStep(c: char, tail: string)
    ensures ReplaceChar(ReplaceChar(QuoteEscape(c), '\n', "\\n") + tail, '\r', "\\r")
            == EscapeChar(c) + ReplaceChar(tail, '\r', "\\r")
  {
    var head := QuoteEscape(c);
    var mid := if c == '\n' then "\\n" else head;
    if c == '\n' {
      ReplaceCharSingle(c, '\n', "\\n");
    } else {
      ReplaceCharAbsent(head, '\n', "\\n");
    }
    ReplaceCharAppend(mid, tail, '\r', "\\r");
    if c == '\r' {
      ReplaceCharSingle(c, '\r', "\\r");
    } else {
      ReplaceCharAbsent(mid, '\r', "\\r");
    }
  }

  lemma ReplaceCharSingle(a: char, c: char, rep: string)
    ensures ReplaceChar([a], c, rep) == if a == c then rep else [a]
  {
    assert [a][1..] == [];
  }

  /** A text without line breaks is left alone by the line-break replacements. */
  lemma LineBreaksAbsent(s: string)
    requires '\n' !in s && '\r' !in s
    ensures EscapeLineBreaks(s) == s
  {
    ReplaceCrlfAbsent(s);
    ReplaceCharAbsent(s, '\n', "\\n");
    ReplaceCharAbsent(s, '\r', "\\r");
  }

  // ---------------------------------------------------------------------------
  // The line.

  function Token(f: Field): string {
    f.key + "=" + Encoded(f.value)
  }

  /** The tokens of `r`, each followed by one space: the line before `trimEnd`. */
  function Tokens(r: Record): string {
    if r == [] then "" else Tokens(r[..|r| - 1]) + Token(r[|r| - 1]) + " "
  }

  /** `stringify(r)` as specified: the tokens in record order with trailing whitespace trimmed. */
  function Line(r: Record): string {
    TrimEnd(Tokens(r))
  }

  /** The rendering of one value, step by step as the loop body of `stringify` does it. */
  method RenderValue(raw: Value) returns (value: string)
    ensures value == Encoded(raw)
  {
    if IsNullish(raw) {
      value := "";
    } else {
      value := ToText(raw);
    }
    ghost var text := value;
    var hasNewlines := '\n' in value || '\r' in value;
    var needsQuoting := ' ' in value || '=' in value;
    var needsEscaping := '"' in value || '\\' in value;
    if needsEscaping {
      value := EscapeQuotes(value);
    }
    if hasNewlines {
      value := EscapeLineBreaks(value);
    }
    BodyAfterFlags(text);
    QuoteFlags(text);
    if needsQuoting || needsEscaping || hasNewlines {
      value := "\"" + value + "\"";
    }
    if value == "" && !IsNullish(raw) {
      value := "\"\"";
    }
  }

  /** Whichever of the two escaping steps run, the body ends up as the escaped text. */
  lemma BodyAfterFlags(t: string)
    ensures var q := if '"' in t || '\\' in t then EscapeQuotes(t) else t;
            (if '\n' in t || '\r' in t then EscapeLineBreaks(q) else q) == EscapeBody(t)
  {
    ChainIsEscapeBody(t);
    EscapeQuotesLineBreaks(t);
    if !('"' in t || '\\' in t) {
      EscapeQuotesAbsent(t);
    }
    if !('\n' in t || '\r' in t) {
      LineBreaksAbsent(EscapeQuotes(t));
    }
  }

  /** The three flags of `stringify` together say whether the text holds a special character. */
  lemma QuoteFlags(t: string)
    ensures (' ' in t || '=' in t) || ('"' in t || '\\' in t) || ('\n' in t || '\r' in t) <==> NeedsQuotes(t)
  {
    if NeedsQuotes(t) {
      var i :| 0 <= i < |t| && IsSpecial(t[i]);
      assert t[i] in t;
    }
  }

  /** `stringify(data)`: appends `key=value ` for every field, then trims the end. */
  method Stringify(data: Record) returns (line: string)
    ensures line == Line(data)
  {
    var acc := "";
    for i := 0 to |data|
      invariant acc == Tokens(data[..i])
    {
      var value := RenderValue(data[i].value);
      ghost var prefix := data[..i + 1];
      assert prefix[..i] == data[..i] && prefix[i] == data[i];
      assert Tokens(prefix) == Tokens(data[..i]) + Token(data[i]) + " ";
      acc := acc + (data[i].key + "=" + value) + " ";
    }
    assert data[..|data|] == data;
    line := TrimEnd(acc);
  }

  // ---------------------------------------------------------------------------
  // Properties of the rendering.

  /** Reading a quoted body back: `\n`, `\r`, `\"` and `\\` give LF, CR, `"` and `\`. */
  function Unescape(e: string): string {
    if e == [] then []
    else if e[0] == '\\' && |e| >= 2 then
      (if e[1] == 'n' then "\n" else if e[1] == 'r' then "\r" else [e[1]]) + Unescape(e[2..])
    else [e[0]] + Unescape(e[1..])
  }

  /** `t` with every CR LF pair replaced by a single LF. */
  function NormalizeCrlf(t: string): string {
    if t == [] then []
    else if |t| >= 2 && t[0] == '\r' && t[1] == '\n' then "\n" + NormalizeCrlf(t[2..])
    else [t[0]] + NormalizeCrlf(t[1..])
  }

  /** Reading a rendered value back: empty stands for `null`/`undefined`, a quoted value is unescaped. */
  function DecodeValue(e: string): Option<string> {
    if e == "" then None
    else if |e| >= 2 && e[0] == '"' && e[|e| - 1] == '"' then Some(Unescape(e[1..|e| - 1]))
    else Some(e)
  }

  /** Unescaping an escaped body gives the text back, except that CR LF reads back as LF. */
  lemma {:induction false} UnescapeEscapeBody(t: string)
    ensures Unescape(EscapeBody(t)) == NormalizeCrlf(t)
  {
    if t == [] {
    } else if |t| >= 2 && t[0] == '\r' && t[1] == '\n' {
      UnescapeEscapeBody(t[2..]);
      UnescapeChar('\n', EscapeBody(t[2..]));
    } else {
      UnescapeEscapeBody(t[1..]);
      UnescapeChar(t[0], EscapeBody(t[1..]));
    }
  }

  /** Reading back an escaped character gives the character. */
  lemma UnescapeChar(c: char, rest: string)
    ensures Unescape(EscapeChar(c) + rest) == [c] + Unescape(rest)
  {
    var head := EscapeChar(c);
    if |head| == 2 {
      assert (head + rest)[2..] == rest;
    } else {
      assert (head + rest)[1..] == rest;
    }
  }

  lemma {:induction false} NormalizeCrlfAbsent(t: string)
    requires '\r' !in t
    ensures NormalizeCrlf(t) == t
  {
    if t != [] {
      NormalizeCrlfAbsent(t[1..]);
    }
  }

  /**
   * Every rendered value reads back: `null` and `undefined` as nothing, any
   * other value as its text (with CR LF read back as LF).
   */
  lemma EncodedRoundTrip(raw: Value)
    ensures DecodeValue(Encoded(raw)) == if IsNullish(raw) then None else Some(NormalizeCrlf(ToText(raw)))
  {
    if !IsNullish(raw) {
      var t := ToText(raw);
      var e := Encoded(raw);
      if t == "" {
        assert e[1..|e| - 1] == "";
      } else if NeedsQuotes(t) {
        assert e[1..|e| - 1] == EscapeBody(t);
        UnescapeEscapeBody(t);
      } else {
        assert !IsSpecial(t[0]);
        assert forall i :: 0 <= i < |t| ==> !IsSpecial(t[i]);
        NormalizeCrlfAbsent(t);
      }
    }
  }

  /** The rendered tokens of a record, in record order. */
  function TokenList(r: Record): (ts: seq<string>)
    ensures |ts| == |r|
  {
    seq(|r|, i requires 0 <= i < |r| => Token(r[i]))
  }

  /** Before trimming, the line is the tokens joined by single spaces, plus one space. */
  lemma {:induction false} TokensJoined(r: Record)
    requires r != []
    ensures Tokens(r) == Join(TokenList(r), " ") + " "
  {
    var init := r[..|r| - 1];
    var t := Token(r[|r| - 1]);
    assert Tokens(r) == Tokens(init) + t + " ";
    TokenListSnoc(r);
    if init == [] {
      assert TokenList(r) == [t];
    } else {
      TokensJoined(init);
      JoinSnoc(TokenList(init), t, " ");
    }
  }

  lemma TokenListSnoc(r: Record)
    requires r != []
    ensures TokenList(r) == TokenList(r[..|r| - 1]) + [Token(r[|r| - 1])]
  {
  }

  /**
   * The shape of a line: no fields give the empty line; otherwise the tokens
   * joined by single spaces, with trailing whitespace trimmed.
   */
  lemma LineShape(r: Record)
    ensures r == [] ==> Line(r) == ""
    ensures r != [] ==> Line(r) == TrimEnd(Join(TokenList(r), " "))
  {
    if r != [] {
      TokensJoined(r);
      TrimEndSpace(Join(TokenList(r), " "));
    }
  }

  /**
   * Trimming removes nothing but the final space unless the last value is
   * unquoted and ends in whitespace.
   */
  lemma LineIsJoinedTokens(r: Record)
    requires r != []
    requires var e := Encoded(r[|r| - 1].value); e == "" || !IsWhitespace(e[|e| - 1])
    ensures Line(r) == Join(TokenList(r), " ")
  {
    LineShape(r);
    JoinedEnd(r);
    TrimEndKeeps(Join(TokenList(r), " "));
  }

  /** The joined tokens end as the last token does. */
  lemma JoinedEnd(r: Record)
    requires r != []
    ensures var j := Join(TokenList(r), " "); var e := Encoded(r[|r| - 1].value);
            |j| > 0 && j[|j| - 1] == if e == "" then '=' else e[|e| - 1]
  {
    var p := if |r| == 1 then "" else Join(TokenList(r[..|r| - 1]), " ") + " ";
    TokenListLast(r);
    TokenEnd(r[|r| - 1]);
    EndsWithLast(p, Token(r[|r| - 1]));
  }

  lemma EndsWithLast(p: string, t: string)
    requires |t| > 0
    ensures (p + t)[|p + t| - 1] == t[|t| - 1]
  {
  }

  /** A token ends with the last character of its value, or with `=` when the value is empty. */
  lemma TokenEnd(f: Field)
    ensures var t := Token(f); var e := Encoded(f.value);
            |t| > 0 && t[|t| - 1] == if e == "" then '=' else e[|e| - 1]
  {
  }

  lemma TrimEndSpace(j: string)
    ensures TrimEnd(j + " ") == TrimEnd(j)
  {
    assert (j + " ")[..|j + " "| - 1] == j;
  }

  /** The joined tokens are those of all fields but the last, a space, and the last token. */
  lemma {:induction false} TokenListLast(r: Record)
    requires r != []
    ensures Join(TokenList(r), " ")
            == (if |r| == 1 then "" else Join(TokenList(r[..|r| - 1]), " ") + " ") + Token(r[|r| - 1])
  {
    var init := r[..|r| - 1];
    var t := Token(r[|r| - 1]);
    TokenListSnoc(r);
    if init == [] {
      assert TokenList(r) == [t];
    } else {
      JoinSnoc(TokenList(init), t, " ");
    }
  }

  /** Values never break a line: with keys free of CR and LF, so is the whole line. */
  lemma {:induction false} LineWithoutLineBreaks(r: Record)
    requires forall i :: 0 <= i < |r| ==> '\n' !in r[i].key && '\r' !in r[i].key
    ensures '\n' !in Line(r) && '\r' !in Line(r)
  {
    TokensWithoutLineBreaks(r);
    var s := Tokens(r);
    assert Line(r) == s[..|Line(r)|];
  }

  lemma {:induction false} TokensWithoutLineBreaks(r: Record)
    requires forall i :: 0 <= i < |r| ==> '\n' !in r[i].key && '\r' !in r[i].key
    ensures '\n' !in Tokens(r) && '\r' !in Tokens(r)
  {
    if r != [] {
      TokensWithoutLineBreaks(r[..|r| - 1]);
    }
  }

  /** Keys are written as they are: a line break inside a key reaches the output line. */
  lemma KeyLineBreakReachesLine()
    ensures Line([Field("a\nb", Null)]) == "a\nb="
  {
    var r := [Field("a\nb", Null)];
    assert r[..0] == [];
    assert Tokens(r) == "a\nb=" + " ";
  }

  /** `trimEnd` also eats whitespace ending the last unquoted value (a tab does not cause quoting). */
  lemma TrailingTabTrimmed()
    ensures Line([Field("k", Str("v\t"))]) == "k=v"
  {
    var r := [Field("k", Str("v\t"))];
    assert r[..0] == [];
    assert !IsSpecial("v\t"[0]) && !IsSpecial("v\t"[1]);
    assert Encoded(Str("v\t")) == "v\t";
    assert Tokens(r) == "k=v\t ";
    assert "k=v\t "[..4] == "k=v\t" && "k=v\t"[..3] == "k=v";
  }

  /** A value that is a lone tab, last in its line, renders like `null`. */
  lemma LoneTabReadsAsNull()
    ensures Line([Field("k", Str("\t"))]) == Line([Field("k", Null)]) == "k="
  {
    var r := [Field("k", Str("\t"))];
    assert r[..0] == [];
    assert !IsSpecial("\t"[0]);
    assert Encoded(Str("\t")) == "\t";
    assert Tokens(r) == "k=\t ";
    assert "k=\t "[..3] == "k=\t" && "k=\t"[..2] == "k=";
    NullLine();
  }

  lemma NullLine()
    ensures Line([Field("k", Null)]) == "k="
  {
    var r := [Field("k", Null)];
    assert r[..0] == [];
    assert Tokens(r) == "k= ";
    assert "k= "[..2] == "k=";
  }

  /** A quoted body with nothing to escape is the text itself. */
  lemma {:induction false} EscapeBodyPlain(t: string)
    requires forall i :: 0 <= i < |t| ==> t[i] != '"' && t[i] != '\\' && t[i] != '\n' && t[i] != '\r'
    ensures EscapeBody(t) == t
  {
    if t != [] {
      EscapeBodyPlain(t[1..]);
      assert t == [t[0]] + t[1..];
    }
  }

  /** Text written without quotes: non-empty and free of the characters that force quoting. */
  predicate Bare(t: string) {
    t != [] && forall i :: 0 <= i < |t| ==> !IsSpecial(t[i])
  }

  /** A value whose text is bare is written as `key=text`. */
  lemma BareToken(k: string, v: Value)
    requires !IsNullish(v) && Bare(ToText(v))
    ensures Token(Field(k, v)) == k + "=" + ToText(v)
  {
  }

  /** A value holding a space or `=` but nothing to escape is written as `key="text"`. */
  lemma QuotedToken(k: string, v: Value)
    requires !IsNullish(v) && NeedsQuotes(ToText(v))
    requires forall i :: 0 <= i < |ToText(v)| ==>
               ToText(v)[i] != '"' && ToText(v)[i] != '\\' && ToText(v)[i] != '\n' && ToText(v)[i] != '\r'
    ensures Encoded(v) == "\"" + ToText(v) + "\""
    ensures Token(Field(k, v)) == k + "=" + "\"" + ToText(v) + "\""
  {
    EscapeBodyPlain(ToText(v));
  }
}
