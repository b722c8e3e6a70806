// Shell command templates: the tokenizers, the expansion of parameters, the argument list
// and the printer of shcmdtemplate.py.
module ShellTemplate {
  import opened Wrappers
  import opened Numerals

  // ---------- character classes ----------

  predicate IsSpace(c: char) {
    c == ' ' || c == '\t' || c == '\n' || c == '\r' || c == '\U{000C}'
  }

  predicate IsNameStart(c: char) {
    'a' <= c <= 'z' || 'A' <= c <= 'Z' || c == '_'
  }

  predicate IsNameChar(c: char) {
    IsNameStart(c) || IsDigit(c)
  }

  // Single-character names such as $# and $?.
  predicate IsSpecialName(c: char) {
    !IsDigit(c) && c != '{' && c != '}' && c != '\"' && c != '\'' && c != '\\' && !IsSpace(c)
  }

  // Plain characters of a command.
  predicate IsWord(c: char) {
    c != '\"' && c != '\'' && c != '$' && c != '\\' && !IsSpace(c)
  }

  predicate IsNoQuote(c: char) {
    c != '\''
  }

  // Characters that must be escaped between double quotes.
  predicate IsQuotedSpecial(c: char) {
    c == '\"' || c == '$' || c == '\\'
  }

  // Characters of a parameter value that are escaped outside double quotes.
  predicate IsSpecial(c: char) {
    || IsQuotedSpecial(c) || c == '\'' || c == '`' || c == '!' || c == '#' || c == '^' || c == '&' || c == '*'
    || c == '(' || c == ')' || c == '{' || c == '}' || c == '[' || c == ']' || c == '|' || c == ';'
    || c == '<' || c == '>' || c == '?'
  }

  predicate IsPlainValue(c: char) {
    !IsSpecial(c) && !IsSpace(c)
  }

  predicate IsQuotedPlain(c: char) {
    !IsQuotedSpecial(c)
  }

  // ---------- runs of characters ----------

  // The length of the longest prefix inside a class.
  function Span(s: string, p: char -> bool): (n: nat)
    ensures n <= |s| && (forall i | 0 <= i < n :: p(s[i])) && (n < |s| ==> !p(s[n]))
  {
    if s == [] || !p(s[0]) then 0 else 1 + Span(s[1..], p)
  }

  lemma {:induction false} SpanAppend(a: string, b: string, p: char -> bool)
    requires Span(a, p) == |a|
    ensures Span(a + b, p) == |a| + Span(b, p)
  {
    if a == [] {
      assert a + b == b;
    } else {
      assert (a + b)[1..] == a[1..] + b;
      SpanAppend(a[1..], b, p);
    }
  }

  lemma {:induction false} SpanPrefix(s: string, p: char -> bool)
    ensures Span(s[..Span(s, p)], p) == Span(s, p)
  {
  }

  // Between double quotes a backslash before an ordinary character is ordinary itself.
  function QuotedSpan(s: string): (n: nat)
    ensures n <= |s|
  {
    if s == [] then 0
    else if IsQuotedPlain(s[0]) then 1 + QuotedSpan(s[1..])
    else if s[0] == '\\' && |s| > 1 && IsQuotedPlain(s[1]) && s[1] != '\n' then 2 + QuotedSpan(s[2..])
    else 0
  }

  lemma {:induction false} QuotedSpanAppend(a: string, b: string)
    requires QuotedSpan(a) == |a|
    ensures QuotedSpan(a + b) == |a| + QuotedSpan(b)
    decreases |a|
  {
    if a == [] {
      assert a + b == b;
    } else if IsQuotedPlain(a[0]) {
      assert (a + b)[1..] == a[1..] + b;
      QuotedSpanAppend(a[1..], b);
    } else {
      assert (a + b)[2..] == a[2..] + b;
      QuotedSpanAppend(a[2..], b);
    }
  }

  lemma {:induction false} QuotedSpanPrefix(s: string)
    ensures QuotedSpan(s[..QuotedSpan(s)]) == QuotedSpan(s)
    decreases |s|
  {
    var n := QuotedSpan(s);
    if n == 0 {
      assert s[..0] == [];
    } else if IsQuotedPlain(s[0]) {
      assert s[..n][1..] == s[1..][..n - 1];
      QuotedSpanPrefix(s[1..]);
    } else {
      assert s[..n][2..] == s[2..][..n - 2];
      QuotedSpanPrefix(s[2..]);
    }
  }

  // ---------- tokens ----------

  datatype Kind = Str | Space | Escape | EscapedNewLine | Parameter | SingleQuoted | QuoteStart | QuoteEnd

  datatype Token = Token(text: string, kind: Kind)

  function NameLength(s: string): (n: nat)
    ensures n <= |s|
  {
    if s == [] then 0
    else if IsNameStart(s[0]) then Span(s, IsNameChar)
    else if IsSpecialName(s[0]) then 1
    else Span(s, IsDigit)
  }

  // $name or ${name}; 0 if there is none.
  function ParameterLength(s: string): (n: nat)
    requires s != [] && s[0] == '$'
    ensures n <= |s|
  {
    var name := NameLength(s[1..]);
    if name > 0 then 1 + name
    else if |s| > 1 && s[1] == '{' then
      var braced := NameLength(s[2..]);
      if braced > 0 && 2 + braced < |s| && s[2 + braced] == '}' then 3 + braced else 0
    else 0
  }

  function Take(s: string, n: nat, kind: Kind): (t: Option<Token>)
    requires n <= |s|
    ensures t.Some? <==> n > 0
    ensures t.Some? ==> t.value.text == s[..n] && t.value.text != [] && t.value.kind == kind
  {
    if n == 0 then None else Some(Token(s[..n], kind))
  }

  // Group k of the current lexer's expression, matched at the start of s.
  function Group(s: string, quoted: bool, k: nat): (t: Option<Token>)
    requires s != []
    ensures t.Some? ==> t.value.text != [] && t.value.text <= s
  {
    if k == 0 then Take(s, if s[0] == '\"' then 1 else 0, if quoted then QuoteEnd else QuoteStart)
    else if k == 1 then Take(s, if s[0] == '$' then ParameterLength(s) else 0, Parameter)
    else if k == 2 then Take(s, if s[0] == '\\' && |s| > 1 && s[1] == '\n' then 2 else 0, EscapedNewLine)
    else if k == 3 then Take(s, if s[0] == '\\' && |s| > 1 && (quoted ==> IsQuotedSpecial(s[1])) then 2 else 0, Escape)
    else if quoted then (if k == 4 then Take(s, QuotedSpan(s), Str) else None)
    else if k == 4 then Take(s, Span(s, IsSpace), Space)
    else if k == 5 then
      var n := if s[0] == '\'' then 1 + Span(s[1..], IsNoQuote) else 0;
      Take(s, if 0 < n < |s| then n + 1 else 0, SingleQuoted)
    else Take(s, Span(s, IsWord), Str)
  }

  // The groups are tried in turn.
  function Try(s: string, quoted: bool, k: nat): (t: Option<Token>)
    requires s != []
    ensures t.Some? ==> t.value.text != [] && t.value.text <= s
    decreases |s|, 7 - k
  {
    if k >= 7 then None
    else
      var t := Group(s, quoted, k);
      if t.Some? then t else Try(s, quoted, k + 1)
  }

  // The next token of a command, outside or inside double quotes.
  function Next(s: string, quoted: bool): (t: Option<Token>)
    requires s != []
    ensures t.Some? ==> t.value.text != [] && t.value.text <= s
  {
    Try(s, quoted, 0)
  }

  // The same by the first character.
  function Direct(s: string, quoted: bool): (t: Option<Token>)
    requires s != []
  {
    if s[0] == '\"' then Take(s, 1, if quoted then QuoteEnd else QuoteStart)
    else if s[0] == '$' then Take(s, ParameterLength(s), Parameter)
    else if s[0] == '\\' && |s| > 1 && s[1] == '\n' then Take(s, 2, EscapedNewLine)
    else if quoted then
      if s[0] == '\\' && |s| > 1 && IsQuotedSpecial(s[1]) then Take(s, 2, Escape)
      else Take(s, QuotedSpan(s), Str)
    else if s[0] == '\\' then (if |s| > 1 then Take(s, 2, Escape) else None)
    else if IsSpace(s[0]) then Take(s, Span(s, IsSpace), Space)
    else if s[0] == '\'' then
      var n := 1 + Span(s[1..], IsNoQuote);
      if n < |s| then Take(s, n + 1, SingleQuoted) else None
    else Take(s, Span(s, IsWord), Str)
  }

  lemma {:induction false} NextIsDirect(s: string, quoted: bool)
    requires s != []
    ensures Next(s, quoted) == Direct(s, quoted)
  {
    assert Try(s, quoted, 7) == None;
    assert Try(s, quoted, 6) == Group(s, quoted, 6);
    var t5, t4 := Group(s, quoted, 5), Group(s, quoted, 4);
    assert Try(s, quoted, 5) == if t5.Some? then t5 else Group(s, quoted, 6);
    assert Try(s, quoted, 4) == if t4.Some? then t4 else Try(s, quoted, 5);
    var t3, t2, t1 := Group(s, quoted, 3), Group(s, quoted, 2), Group(s, quoted, 1);
    assert Try(s, quoted, 3) == if t3.Some? then t3 else Try(s, quoted, 4);
    assert Try(s, quoted, 2) == if t2.Some? then t2 else Try(s, quoted, 3);
    assert Try(s, quoted, 1) == if t1.Some? then t1 else Try(s, quoted, 2);
  }

  function Mode(t: Token, quoted: bool): bool {
    if t.kind == QuoteStart then true else if t.kind == QuoteEnd then false else quoted
  }

  // The tokens of a command; None is a syntax error.
  function Lex(s: string, quoted: bool): (r: Option<seq<Token>>)
    decreases |s|
  {
    if s == [] then (if quoted then None else Some([]))
    else
      var t := Next(s, quoted);
      if t.None? then None
      else
        var rest := Lex(s[|t.value.text|..], Mode(t.value, quoted));
        if rest.None? then None else Some([t.value] + rest.value)
  }

  method TokenizeWordList(input: string) returns (r: Option<seq<Token>>)
    ensures r == Lex(input, false)
  {
    var tokens: seq<Token> := [];
    var i, quoted := 0, false;
    LexStart(input);
    while i < |input|
      invariant 0 <= i <= |input| && WithRest(tokens, input, i, quoted) == Lex(input, false)
    {
      var m := Next(input[i..], quoted);
      if m.None? {
        LexFails(tokens, input, i, quoted);
        return None;
      }
      var t := m.value;
      LexStep(tokens, input, i, quoted, t);
      var next, mode, after := tokens + [t], Mode(t, quoted), i + |t.text|;
      assert WithRest(next, input, after, mode) == Lex(input, false);
      tokens, quoted, i := next, mode, after;
    }
    LexEnds(tokens, input, quoted);
    r := if quoted then None else Some(tokens);
  }

  // The tokens so far, before those of the rest of the input.
  function WithRest(ts: seq<Token>, input: string, i: nat, quoted: bool): Option<seq<Token>>
    requires i <= |input|
  {
    Prepend(ts, Lex(input[i..], quoted))
  }

  lemma {:induction false} LexStart(input: string)
    ensures WithRest([], input, 0, false) == Lex(input, false)
  {
    assert input[0..] == input;
  }

  lemma {:induction false} LexFails(ts: seq<Token>, input: string, i: nat, quoted: bool)
    requires i < |input| && Next(input[i..], quoted) == None
    ensures WithRest(ts, input, i, quoted) == None
  {
  }

  lemma {:induction false} LexEnds(ts: seq<Token>, input: string, quoted: bool)
    ensures WithRest(ts, input, |input|, quoted) == if quoted then None else Some(ts)
  {
    assert input[|input|..] == [];
  }

  function Prepend(ts: seq<Token>, r: Option<seq<Token>>): (p: Option<seq<Token>>)
    ensures ts == [] ==> p == r
    ensures r == Some([]) ==> p == Some(ts)
  {
    if r.None? then None
    else
      assert ts == [] ==> ts + r.value == r.value;
      assert r.value == [] ==> ts + r.value == ts;
      Some(ts + r.value)
  }

  lemma {:induction false} LexStep(ts: seq<Token>, input: string, i: nat, quoted: bool, t: Token)
    requires i < |input| && Next(input[i..], quoted) == Some(t)
    ensures i + |t.text| <= |input| && WithRest(ts, input, i, quoted) == WithRest(ts + [t], input, i + |t.text|, Mode(t, quoted))
  {
    assert input[i..][|t.text|..] == input[i + |t.text|..];
    PrependOne(ts, t, Lex(input[i + |t.text|..], Mode(t, quoted)));
  }

  lemma {:induction false} PrependOne(ts: seq<Token>, t: Token, r: Option<seq<Token>>)
    ensures Prepend(ts, Prepend([t], r)) == Prepend(ts + [t], r)
  {
    if r.Some? { assert ts + ([t] + r.value) == (ts + [t]) + r.value; }
  }

  // to_sh_code
  function Print(ts: seq<Token>): string {
    if ts == [] then "" else ts[0].text + Print(ts[1..])
  }

  lemma {:induction false} PrintAppend(a: seq<Token>, b: seq<Token>)
    ensures Print(a + b) == Print(a) + Print(b)
  {
    if a == [] {
      assert a + b == b;
    } else {
      assert (a + b)[1..] == a[1..] + b;
      PrintAppend(a[1..], b);
    }
  }

  // The tokens of every accepted command concatenate back to it.
  lemma {:induction false} LexPrints(s: string, quoted: bool)
    ensures Lex(s, quoted).Some? ==> Print(Lex(s, quoted).value) == s
    decreases |s|
  {
    if s != [] && Lex(s, quoted).Some? {
      var t := Next(s, quoted).value;
      LexPrints(s[|t.text|..], Mode(t, quoted));
      assert s == t.text + s[|t.text|..];
    }
  }

  // ---------- well-formed tokens ----------

  // Texts that a token of each kind can have, outside or inside double quotes.
  predicate Fits(t: Token, quoted: bool) {
    match t.kind
    case Str => t.text != [] && (if quoted then QuotedSpan(t.text) else Span(t.text, IsWord)) == |t.text|
    case Space => !quoted && t.text != [] && Span(t.text, IsSpace) == |t.text|
    case Escape => |t.text| == 2 && t.text[0] == '\\' && (if quoted then IsQuotedSpecial(t.text[1]) else t.text[1] != '\n')
    case EscapedNewLine => t.text == "\\\n"
    case Parameter => t.text != [] && t.text[0] == '$'
    case SingleQuoted =>
      !quoted && |t.text| >= 2 && t.text[0] == '\'' && t.text[|t.text| - 1] == '\'' &&
      Span(t.text[1..|t.text| - 1], IsNoQuote) == |t.text| - 2
    case QuoteStart => !quoted && t.text == "\""
    case QuoteEnd => quoted && t.text == "\""
  }

  // A token list that starts in the given mode and ends outside quotes.
  predicate WellFormed(ts: seq<Token>, quoted: bool) {
    if ts == [] then !quoted else Fits(ts[0], quoted) && WellFormed(ts[1..], Mode(ts[0], quoted))
  }

  predicate Expanded(ts: seq<Token>) {
    forall i | 0 <= i < |ts| :: ts[i].kind != Parameter
  }

  lemma {:induction false} NextFits(s: string, quoted: bool)
    requires s != [] && Next(s, quoted).Some?
    ensures Fits(Next(s, quoted).value, quoted)
  {
    var t := Next(s, quoted).value;
    NextIsDirect(s, quoted);
    match t.kind
    case Str => if quoted { QuotedSpanPrefix(s); } else { SpanPrefix(s, IsWord); }
    case Space => SpanPrefix(s, IsSpace);
    case SingleQuoted =>
      SpanPrefix(s[1..], IsNoQuote);
      assert t.text[1..|t.text| - 1] == s[1..][..|t.text| - 2];
    case _ =>
  }

  lemma {:induction false} LexWellFormed(s: string, quoted: bool)
    requires Lex(s, quoted).Some?
    ensures WellFormed(Lex(s, quoted).value, quoted)
    decreases |s|
  {
    if s != [] {
      var t := Next(s, quoted).value;
      NextFits(s, quoted);
      LexWellFormed(s[|t.text|..], Mode(t, quoted));
      var rest := Lex(s[|t.text|..], Mode(t, quoted)).value;
      assert ([t] + rest)[1..] == rest;
    }
  }

  // ---------- printing and lexing again ----------

  predicate Merges(k: Kind) {
    k == Str || k == Space
  }

  // Adjacent strings, and adjacent white space, become one token.
  function Merge(ts: seq<Token>): seq<Token> {
    if ts == [] then []
    else
      var rest := Merge(ts[1..]);
      if Merges(ts[0].kind) && rest != [] && rest[0].kind == ts[0].kind
      then [Token(ts[0].text + rest[0].text, ts[0].kind)] + rest[1..]
      else [ts[0]] + rest
  }

  lemma {:induction false} NextSingleQuoted(text: string, rest: string)
    requires Fits(Token(text, SingleQuoted), false)
    ensures Next(text + rest, false) == Some(Token(text, SingleQuoted))
  {
    var s, inner := text + rest, text[1..|text| - 1];
    assert s[1..] == inner + (['\''] + rest);
    SpanAppend(inner, ['\''] + rest, IsNoQuote);
    assert Span(['\''] + rest, IsNoQuote) == 0;
    assert s[..|text|] == text;
    assert s[0] == '\'';
    NextIsDirect(s, false);
  }

  // A whole name: of letters, digits and underscores, of digits, or one special character.
  predicate WholeName(name: string) {
    name != "" &&
    if IsNameStart(name[0]) then Span(name, IsNameChar) == |name|
    else if IsSpecialName(name[0]) then |name| == 1
    else IsDigit(name[0]) && Span(name, IsDigit) == |name|
  }

  // ${name}
  predicate Braced(text: string) {
    && |text| >= 4 && text[0] == '$' && text[1] == '{' && text[|text| - 1] == '}'
    && WholeName(text[2..|text| - 1])
  }

  lemma {:induction false} WholeNameLength(name: string, rest: string)
    requires WholeName(name)
    requires rest != "" && IsNameStart(name[0]) ==> !IsNameChar(rest[0])
    requires rest != "" && IsDigit(name[0]) ==> !IsDigit(rest[0])
    ensures NameLength(name + rest) == |name|
  {
    assert (name + rest)[0] == name[0];
    if IsNameStart(name[0]) { SpanAppend(name, rest, IsNameChar); }
    else if !IsSpecialName(name[0]) { SpanAppend(name, rest, IsDigit); }
  }

  lemma {:induction false} NextBraced(text: string, rest: string, quoted: bool)
    requires Braced(text)
    ensures Next(text + rest, quoted) == Some(Token(text, Parameter))
  {
    var s, name := text + rest, text[2..|text| - 1];
    assert s[2..] == name + (['}'] + rest);
    WholeNameLength(name, ['}'] + rest);
    assert s[0] == '$' && s[1] == '{' && s[1..][0] == '{';
    assert NameLength(s[1..]) == 0 && NameLength(s[2..]) == |name|;
    assert s[..|text|] == text && s[2 + |name|] == '}';
    NextIsDirect(s, quoted);
  }

  // A token whose text does not grow with what follows is found again.
  lemma {:induction false} NextClosed(t: Token, rest: string, quoted: bool)
    requires Fits(t, quoted) && !Merges(t.kind) && (t.kind == Parameter ==> Braced(t.text))
    ensures Next(t.text + rest, quoted) == Some(t)
  {
    if t.kind == SingleQuoted {
      NextSingleQuoted(t.text, rest);
    } else if t.kind == Parameter {
      NextBraced(t.text, rest, quoted);
    } else {
      var s := t.text + rest;
      assert s[..|t.text|] == t.text && s[0] == t.text[0];
      if |t.text| > 1 { assert s[1] == t.text[1]; }
      NextIsDirect(s, quoted);
    }
  }

  // The run of characters that a Str or Space token takes.
  function Run(s: string, kind: Kind, quoted: bool): (n: nat)
    ensures n <= |s|
  {
    if kind == Space then Span(s, IsSpace) else if quoted then QuotedSpan(s) else Span(s, IsWord)
  }

  lemma {:induction false} NextOpen(t: Token, rest: string, quoted: bool)
    requires Fits(t, quoted) && Merges(t.kind)
    ensures Next(t.text + rest, quoted) == Some(Token(t.text + rest[..Run(rest, t.kind, quoted)], t.kind))
  {
    var s := t.text + rest;
    var n := Run(rest, t.kind, quoted);
    RunAppend(t, rest, quoted);
    assert s[..|t.text| + n] == t.text + rest[..n];
    RunIsNext(s, t.kind, quoted);
  }

  lemma {:induction false} RunAppend(t: Token, rest: string, quoted: bool)
    requires Fits(t, quoted) && Merges(t.kind)
    ensures !(quoted && t.kind == Space) && t.text != []
    ensures Run(t.text + rest, t.kind, quoted) == |t.text| + Run(rest, t.kind, quoted)
  {
    if t.kind == Space { SpanAppend(t.text, rest, IsSpace); }
    else if quoted { QuotedSpanAppend(t.text, rest); }
    else { SpanAppend(t.text, rest, IsWord); }
  }

  // A run is taken exactly by a token of its kind.
  lemma {:induction false} RunIsNext(s: string, kind: Kind, quoted: bool)
    requires s != [] && Merges(kind) && !(quoted && kind == Space)
    ensures Run(s, kind, quoted) > 0 ==> Next(s, quoted) == Some(Token(s[..Run(s, kind, quoted)], kind))
    ensures Next(s, quoted).Some? && Next(s, quoted).value.kind == kind ==> Run(s, kind, quoted) > 0
  {
    NextIsDirect(s, quoted);
  }

  predicate AllBraced(ts: seq<Token>) {
    forall i | 0 <= i < |ts| :: ts[i].kind == Parameter ==> Braced(ts[i].text)
  }

  // Lexing the printed form of a well-formed list, whose parameters are in braces, gives
  // the list back, up to merging.
  lemma {:induction false} LexOfPrint(ts: seq<Token>, quoted: bool)
    requires WellFormed(ts, quoted) && AllBraced(ts)
    ensures Lex(Print(ts), quoted) == Some(Merge(ts))
  {
    if ts != [] {
      var t, rest := ts[0], Print(ts[1..]);
      LexOfPrint(ts[1..], Mode(t, quoted));
      if Merges(t.kind) {
        LexOpen(t, ts[1..], quoted);
      } else {
        NextClosed(t, rest, quoted);
        assert (t.text + rest)[|t.text|..] == rest;
      }
    }
  }

  lemma {:induction false} LexOpen(t: Token, ts: seq<Token>, quoted: bool)
    requires Fits(t, quoted) && Merges(t.kind) && Lex(Print(ts), quoted) == Some(Merge(ts))
    ensures Lex(t.text + Print(ts), quoted) == Some(Merge([t] + ts))
  {
    var rest := Print(ts);
    var n := Run(rest, t.kind, quoted);
    assert ([t] + ts)[1..] == ts;
    NextOpen(t, rest, quoted);
    if rest != [] { RunIsNext(rest, t.kind, quoted); }
    if n == 0 {
      LexApart(t, ts, quoted);
    } else {
      LexTogether(t, ts, quoted, n);
    }
  }

  lemma {:induction false} LexApart(t: Token, ts: seq<Token>, quoted: bool)
    requires Merges(t.kind) && t.text != [] && Lex(Print(ts), quoted) == Some(Merge(ts))
    requires Next(t.text + Print(ts), quoted) == Some(Token(t.text + Print(ts)[..0], t.kind))
    requires Print(ts) != [] ==> !(Next(Print(ts), quoted).Some? && Next(Print(ts), quoted).value.kind == t.kind)
    ensures Lex(t.text + Print(ts), quoted) == Some(Merge([t] + ts))
  {
    assert t.text + Print(ts)[..0] == t.text;
    assert (t.text + Print(ts))[|t.text|..] == Print(ts);
    assert ([t] + ts)[1..] == ts;
  }

  lemma {:induction false} LexTogether(t: Token, ts: seq<Token>, quoted: bool, n: nat)
    requires Merges(t.kind) && t.text != [] && Lex(Print(ts), quoted) == Some(Merge(ts))
    requires 0 < n <= |Print(ts)| && Next(Print(ts), quoted) == Some(Token(Print(ts)[..n], t.kind))
    requires Next(t.text + Print(ts), quoted) == Some(Token(t.text + Print(ts)[..n], t.kind))
    ensures Lex(t.text + Print(ts), quoted) == Some(Merge([t] + ts))
  {
    var rest, merged := Print(ts), Merge(ts);
    var whole := Token(t.text + rest[..n], t.kind);
    assert (t.text + rest)[|whole.text|..] == rest[n..];
    assert merged[0] == Token(rest[..n], t.kind) && Lex(rest[n..], quoted) == Some(merged[1..]);
    assert ([t] + ts)[1..] == ts;
  }

  // ---------- parameter values ----------

  // The first token of a value and how many of its characters it stands for.
  function NextValue(v: string, quoted: bool): (r: (Token, nat))
    requires v != []
    ensures 0 < r.1 <= |v|
  {
    if (if quoted then IsQuotedSpecial(v[0]) else IsSpecial(v[0])) then (Token(['\\', v[0]], Escape), 1)
    else if quoted then (Token(v[..Span(v, IsQuotedPlain)], Str), Span(v, IsQuotedPlain))
    else if IsSpace(v[0]) then (Token(v[..Span(v, IsSpace)], Space), Span(v, IsSpace))
    else (Token(v[..Span(v, IsPlainValue)], Str), Span(v, IsPlainValue))
  }

  function ValueTokens(v: string, quoted: bool): seq<Token> {
    if v == [] then [] else [NextValue(v, quoted).0] + ValueTokens(v[NextValue(v, quoted).1..], quoted)
  }

  method TokenizeParameterValue(value: string, quoted: bool) returns (tokens: seq<Token>)
    ensures tokens == ValueTokens(value, quoted)
  {
    tokens := [];
    var i := 0;
    while i < |value|
      invariant 0 <= i <= |value| && ValueTokens(value, quoted) == tokens + ValueTokens(value[i..], quoted)
    {
      var m := NextValue(value[i..], quoted);
      assert value[i..][m.1..] == value[i + m.1..];
      tokens, i := tokens + [m.0], i + m.1;
    }
  }

  // Tokens that leave the quoting as it is.
  predicate FitsAll(ts: seq<Token>, quoted: bool) {
    forall i | 0 <= i < |ts| :: Fits(ts[i], quoted) && ts[i].kind in {Str, Space, Escape}
  }

  lemma {:induction false} PlainIsQuoted(s: string)
    requires forall i | 0 <= i < |s| :: IsQuotedPlain(s[i])
    ensures QuotedSpan(s) == |s|
  {
    if s != [] { PlainIsQuoted(s[1..]); }
  }

  lemma {:induction false} NextValueFits(v: string, quoted: bool)
    requires v != []
    ensures Fits(NextValue(v, quoted).0, quoted) && NextValue(v, quoted).0.kind in {Str, Space, Escape}
  {
    var t := NextValue(v, quoted).0;
    match t.kind
    case Str => if quoted { PlainIsQuoted(t.text); }
    case _ =>
  }

  lemma {:induction false} ValueFits(v: string, quoted: bool)
    ensures FitsAll(ValueTokens(v, quoted), quoted)
    decreases |v|
  {
    if v != [] {
      NextValueFits(v, quoted);
      ValueFits(v[NextValue(v, quoted).1..], quoted);
    }
  }

  lemma {:induction false} WellFormedAppend(a: seq<Token>, b: seq<Token>, quoted: bool)
    requires FitsAll(a, quoted) && WellFormed(b, quoted)
    ensures WellFormed(a + b, quoted)
  {
    if a == [] {
      assert a + b == b;
    } else {
      assert (a + b)[1..] == a[1..] + b;
      WellFormedAppend(a[1..], b, quoted);
    }
  }

  // ---------- expansion ----------

  datatype Parameters = Parameters(values: map<string, string>, otherwise: Option<string>, undefinedOk: Option<bool>)

  function StripLeft(s: string): string {
    if s != [] && s[0] in "{}" then StripLeft(s[1..]) else s
  }

  function StripRight(s: string): string {
    if s != [] && s[|s| - 1] in "{}" then StripRight(s[..|s| - 1]) else s
  }

  function NameOf(t: Token): string {
    if t.text == [] then [] else StripRight(StripLeft(t.text[1..]))
  }

  // Undefined parameters are an error unless allowed or given a default.
  predicate Allowed(p: Parameters, name: string) {
    name in p.values || p.undefinedOk == Some(true) || (p.undefinedOk.None? && p.otherwise.Some?)
  }

  function ValueOf(p: Parameters, name: string): Option<string> {
    if name in p.values then Some(p.values[name]) else p.otherwise
  }

  function ExpandOne(t: Token, quoted: bool, p: Parameters): Option<seq<Token>> {
    if t.kind != Parameter then Some([t])
    else if !Allowed(p, NameOf(t)) then None
    else
      match ValueOf(p, NameOf(t))
      case None => Some([t])
      case Some(v) => Some(ValueTokens(v, quoted))
  }

  function Expand(ts: seq<Token>, quoted: bool, p: Parameters): Option<seq<Token>> {
    if ts == [] then Some([])
    else
      var first, rest := ExpandOne(ts[0], quoted, p), Expand(ts[1..], Mode(ts[0], quoted), p);
      if first.None? || rest.None? then None else Some(first.value + rest.value)
  }

  method ExpandParameters(ts: seq<Token>, p: Parameters) returns (r: Option<seq<Token>>)
    ensures r == Expand(ts, false, p)
  {
    var tokens: seq<Token>, quoted := [], false;
    for i := 0 to |ts|
      invariant Expand(ts, false, p) == Prepend(tokens, Expand(ts[i..], quoted, p))
    {
      var t := ts[i];
      assert ts[i..][0] == t && ts[i..][1..] == ts[i + 1..];
      ghost var rest := Expand(ts[i + 1..], Mode(t, quoted), p);
      var out: seq<Token> := [t];
      match t.kind {
        case QuoteStart => quoted := true;
        case QuoteEnd => quoted := false;
        case Parameter =>
          if !Allowed(p, NameOf(t)) {
            return None;
          }
          var value := ValueOf(p, NameOf(t));
          if value.Some? {
            out := TokenizeParameterValue(value.value, quoted);
          }
        case _ =>
      }
      PrependAll(tokens, out, rest);
      tokens := tokens + out;
    }
    assert ts[|ts|..] == [];
    r := Some(tokens);
  }

  lemma {:induction false} PrependAll(ts: seq<Token>, us: seq<Token>, r: Option<seq<Token>>)
    ensures Prepend(ts, Prepend(us, r)) == Prepend(ts + us, r)
  {
    if r.Some? { assert ts + (us + r.value) == (ts + us) + r.value; }
  }

  // Every parameter of the template has a value.
  predicate Resolved(ts: seq<Token>, p: Parameters) {
    forall i | 0 <= i < |ts| :: ts[i].kind == Parameter ==> Allowed(p, NameOf(ts[i])) && ValueOf(p, NameOf(ts[i])).Some?
  }

  lemma {:induction false} ExpandedAppend(a: seq<Token>, b: seq<Token>, quoted: bool)
    requires FitsAll(a, quoted) && Expanded(b)
    ensures Expanded(a + b)
  {
  }

  lemma {:induction false} ExpandWellFormed(ts: seq<Token>, quoted: bool, p: Parameters)
    requires WellFormed(ts, quoted) && Resolved(ts, p)
    ensures Expand(ts, quoted, p).Some? && WellFormed(Expand(ts, quoted, p).value, quoted) && Expanded(Expand(ts, quoted, p).value)
  {
    if ts != [] {
      var t := ts[0];
      ExpandWellFormed(ts[1..], Mode(t, quoted), p);
      var rest := Expand(ts[1..], Mode(t, quoted), p).value;
      if t.kind == Parameter {
        var v := ValueOf(p, NameOf(t)).value;
        ValueFits(v, quoted);
        WellFormedAppend(ValueTokens(v, quoted), rest, quoted);
        ExpandedAppend(ValueTokens(v, quoted), rest, quoted);
      } else {
        assert ([t] + rest)[1..] == rest;
      }
    }
  }

  // ---------- argument lists ----------

  // What a token adds to the current argument.
  function Piece(t: Token): string {
    match t.kind
    case Str => t.text
    case SingleQuoted => if |t.text| >= 2 then t.text[1..|t.text| - 1] else ""
    case Escape => if |t.text| >= 2 then [t.text[1]] else ""
    case EscapedNewLine => if |t.text| >= 2 then [t.text[1]] else ""
    case _ => ""
  }

  function Start(argv: seq<string>, begin: bool): seq<string> {
    if begin then argv + [""] else argv
  }

  function AddLast(argv: seq<string>, s: string): (r: seq<string>)
    requires argv != []
    ensures r != []
  {
    argv[..|argv| - 1] + [argv[|argv| - 1] + s]
  }

  // The arguments so far; begin: the next piece starts an argument.
  datatype Filling = Filling(argv: seq<string>, begin: bool)

  // What a token that is no parameter does; None is text for a list without arguments.
  function Fill(t: Token, f: Filling): Option<Filling> {
    match t.kind
    case Space => Some(Filling(f.argv, true))
    case Parameter => Some(f)
    case QuoteStart => Some(Filling(Start(f.argv, f.begin), false))
    case QuoteEnd => Some(Filling(f.argv, false))
    case _ =>
      var argv := Start(f.argv, f.begin);
      if argv == [] then None else Some(Filling(AddLast(argv, Piece(t)), false))
  }

  // to_argument_list from a given state; None is an unexpanded parameter, too.
  function Args(ts: seq<Token>, f: Filling, unexpandedOk: bool): Option<seq<string>> {
    if ts == [] then Some(f.argv)
    else if ts[0].kind == Parameter && !unexpandedOk then None
    else
      var g := Fill(ts[0], f);
      if g.None? then None else Args(ts[1..], g.value, unexpandedOk)
  }

  const EMPTY: Filling := Filling([], true)

  method ToArgumentList(ts: seq<Token>, unexpandedOk: bool) returns (r: Option<seq<string>>)
    ensures r == Args(ts, EMPTY, unexpandedOk)
  {
    var argv: seq<string>, startNewArg := [], true;
    for i := 0 to |ts|
      invariant Args(ts, EMPTY, unexpandedOk) == Args(ts[i..], Filling(argv, startNewArg), unexpandedOk)
    {
      var t := ts[i];
      assert ts[i..][0] == t && ts[i..][1..] == ts[i + 1..];
      match t.kind {
        case Space => startNewArg := true;
        case Parameter =>
          if !unexpandedOk {
            return None;
          }
        case QuoteStart =>
          argv := Start(argv, startNewArg);
          startNewArg := false;
        case QuoteEnd => startNewArg := false;
        case _ =>
          argv := Start(argv, startNewArg);
          if argv == [] {
            return None;
          }
          argv := AddLast(argv, Piece(t));
          startNewArg := false;
      }
    }
    r := Some(argv);
  }

  // Merging adjacent tokens does not change the arguments.
  lemma {:induction false} MergeArgs(ts: seq<Token>, f: Filling, ok: bool)
    ensures Args(Merge(ts), f, ok) == Args(ts, f, ok)
  {
    if ts != [] {
      var t, rest := ts[0], Merge(ts[1..]);
      var g := Fill(t, f);
      if g.Some? { MergeArgs(ts[1..], g.value, ok); }
      assert ([t] + rest)[1..] == rest;
      assert Args([t] + rest, f, ok) == Args(ts, f, ok);
      if Merges(t.kind) && rest != [] && rest[0].kind == t.kind { JoinArgs(t, rest, f, ok); }
    }
  }

  lemma {:induction false} JoinArgs(t: Token, rest: seq<Token>, f: Filling, ok: bool)
    requires Merges(t.kind) && rest != [] && rest[0].kind == t.kind
    ensures Args([Token(t.text + rest[0].text, t.kind)] + rest[1..], f, ok) == Args([t] + rest, f, ok)
  {
    var joined := Token(t.text + rest[0].text, t.kind);
    assert ([joined] + rest[1..])[1..] == rest[1..] && ([t] + rest)[1..] == rest;
    if t.kind == Str && Start(f.argv, f.begin) != [] {
      AddTwice(Start(f.argv, f.begin), t.text, rest[0].text);
    }
  }

  lemma {:induction false} AddTwice(argv: seq<string>, a: string, b: string)
    requires argv != []
    ensures AddLast(AddLast(argv, a), b) == AddLast(argv, a + b)
  {
    var last := argv[|argv| - 1];
    assert (last + a) + b == last + (a + b);
    assert AddLast(argv, a)[..|argv| - 1] == argv[..|argv| - 1];
  }

  // ---------- what a value means ----------

  // The characters of a value go into the current argument one by one; outside quotes
  // white space ends it.
  function Feed(v: string, quoted: bool, f: Filling): Filling {
    if v == [] then f
    else if !quoted && IsSpace(v[0]) then Feed(v[1..], quoted, Filling(f.argv, true))
    else if Start(f.argv, f.begin) == [] then f
    else Feed(v[1..], quoted, Filling(AddLast(Start(f.argv, f.begin), [v[0]]), false))
  }

  lemma {:induction false} FeedAppend(a: string, b: string, quoted: bool, f: Filling)
    requires f.begin || f.argv != []
    ensures Feed(a + b, quoted, f) == Feed(b, quoted, Feed(a, quoted, f))
    ensures Feed(a, quoted, f).begin || Feed(a, quoted, f).argv != []
  {
    if a == [] {
      assert a + b == b;
    } else {
      assert (a + b)[1..] == a[1..] + b;
      if !quoted && IsSpace(a[0]) { FeedAppend(a[1..], b, quoted, Filling(f.argv, true)); }
      else { FeedAppend(a[1..], b, quoted, Filling(AddLast(Start(f.argv, f.begin), [a[0]]), false)); }
    }
  }

  lemma {:induction false} FeedPlain(a: string, quoted: bool, f: Filling)
    requires a != [] && (f.begin || f.argv != [])
    requires quoted || forall i | 0 <= i < |a| :: !IsSpace(a[i])
    ensures Feed(a, quoted, f) == Filling(AddLast(Start(f.argv, f.begin), a), false)
  {
    var next := Filling(AddLast(Start(f.argv, f.begin), [a[0]]), false);
    assert Feed(a, quoted, f) == Feed(a[1..], quoted, next);
    if |a| > 1 {
      assert a == [a[0]] + a[1..];
      FeedPlain(a[1..], quoted, next);
      AddTwice(Start(f.argv, f.begin), [a[0]], a[1..]);
    } else {
      assert a[1..] == [] && a == [a[0]];
    }
  }

  lemma {:induction false} FeedSpaces(a: string, f: Filling)
    requires a != [] && forall i | 0 <= i < |a| :: IsSpace(a[i])
    ensures Feed(a, false, f) == Filling(f.argv, true)
  {
    if |a| > 1 { FeedSpaces(a[1..], Filling(f.argv, true)); } else { assert a[1..] == []; }
  }

  // The tokens of a value act like its characters.
  lemma {:induction false} ValueFeeds(v: string, quoted: bool, rest: seq<Token>, f: Filling, ok: bool)
    requires f.begin || f.argv != []
    ensures Args(ValueTokens(v, quoted) + rest, f, ok) == Args(rest, Feed(v, quoted, f), ok)
    decreases |v|
  {
    if v == [] {
      assert ValueTokens(v, quoted) + rest == rest;
    } else {
      var t, n := NextValue(v, quoted).0, NextValue(v, quoted).1;
      var tail := ValueTokens(v[n..], quoted) + rest;
      assert ValueTokens(v, quoted) + rest == [t] + tail && ([t] + tail)[1..] == tail;
      assert v == v[..n] + v[n..];
      FeedAppend(v[..n], v[n..], quoted, f);
      ValuePiece(v, quoted, f);
      ValueFeeds(v[n..], quoted, rest, Feed(v[..n], quoted, f), ok);
    }
  }

  // One token of a value against the characters it stands for.
  lemma {:induction false} ValuePiece(v: string, quoted: bool, f: Filling)
    requires v != [] && (f.begin || f.argv != [])
    ensures var t, n := NextValue(v, quoted).0, NextValue(v, quoted).1;
            t.kind in {Str, Escape, Space} && Fill(t, f) == Some(Feed(v[..n], quoted, f))
  {
    var t, n := NextValue(v, quoted).0, NextValue(v, quoted).1;
    if t.kind == Space {
      FeedSpaces(v[..n], f);
    } else {
      ValueText(v, quoted);
      FeedPlain(v[..n], quoted, f);
    }
  }

  lemma {:induction false} ValueText(v: string, quoted: bool)
    requires v != [] && NextValue(v, quoted).0.kind != Space
    ensures var t, n := NextValue(v, quoted).0, NextValue(v, quoted).1;
            Piece(t) == v[..n] && (quoted || forall i | 0 <= i < |v[..n]| :: !IsSpace(v[..n][i]))
  {
  }

  // ---------- the round trips ----------

  // What a template means with its parameters filled in: their values are fed into the
  // arguments as they are, and can end an argument only by white space outside quotes.
  function Meaning(ts: seq<Token>, quoted: bool, p: Parameters, f: Filling): Option<seq<string>> {
    if ts == [] then Some(f.argv)
    else
      var g := if ts[0].kind != Parameter then Fill(ts[0], f) else FillValue(ValueOf(p, NameOf(ts[0])), quoted, f);
      if g.None? then None else Meaning(ts[1..], Mode(ts[0], quoted), p, g.value)
  }

  function FillValue(v: Option<string>, quoted: bool, f: Filling): Option<Filling> {
    if v.None? then None else Some(Feed(v.value, quoted, f))
  }

  // An argument is open, or will be with the next text; inside quotes it is open.
  predicate Ready(f: Filling, quoted: bool) {
    if quoted then !f.begin && f.argv != [] else f.begin || f.argv != []
  }

  lemma {:induction false} ExpandMeans(ts: seq<Token>, quoted: bool, p: Parameters, f: Filling)
    requires WellFormed(ts, quoted) && Resolved(ts, p) && Ready(f, quoted)
    ensures Expand(ts, quoted, p).Some? && Meaning(ts, quoted, p, f).Some?
    ensures Args(Expand(ts, quoted, p).value, f, false) == Meaning(ts, quoted, p, f)
  {
    if ts != [] {
      var t, mode := ts[0], Mode(ts[0], quoted);
      if t.kind == Parameter {
        var v := ValueOf(p, NameOf(t)).value;
        FeedReady(v, quoted, f);
        ExpandMeans(ts[1..], mode, p, Feed(v, quoted, f));
        ValueFeeds(v, quoted, Expand(ts[1..], mode, p).value, f, false);
      } else {
        FillReady(t, quoted, f);
        ExpandMeans(ts[1..], mode, p, Fill(t, f).value);
        var rest := Expand(ts[1..], mode, p).value;
        assert ([t] + rest)[1..] == rest;
      }
    }
  }

  lemma {:induction false} FillReady(t: Token, quoted: bool, f: Filling)
    requires Fits(t, quoted) && t.kind != Parameter && Ready(f, quoted)
    ensures Fill(t, f).Some? && Ready(Fill(t, f).value, Mode(t, quoted))
  {
  }

  lemma {:induction false} FeedReady(v: string, quoted: bool, f: Filling)
    requires Ready(f, quoted)
    ensures Ready(Feed(v, quoted, f), quoted)
  {
    FeedAppend(v, "", quoted, f);
    if quoted && v != [] { FeedPlain(v, true, f); }
  }

  // A command whose parameters all have values: the expanded template, printed and lexed
  // again, has the arguments that the template means.
  lemma {:induction false} ExpansionSurvivesPrinting(command: string, p: Parameters)
    requires Lex(command, false).Some? && Resolved(Lex(command, false).value, p)
    ensures var ts := Lex(command, false).value;
            var expanded := Expand(ts, false, p);
            && expanded.Some? && Lex(Print(expanded.value), false).Some?
            && Args(Lex(Print(expanded.value), false).value, EMPTY, false) == Args(expanded.value, EMPTY, false)
            && Args(expanded.value, EMPTY, false) == Meaning(ts, false, p, EMPTY)
            && Meaning(ts, false, p, EMPTY).Some?
  {
    var ts := Lex(command, false).value;
    LexWellFormed(command, false);
    ExpandWellFormed(ts, false, p);
    var expanded := Expand(ts, false, p).value;
    LexOfPrint(expanded, false);
    MergeArgs(expanded, EMPTY, false);
    ExpandMeans(ts, false, p, EMPTY);
  }

  // ShStrTemplate.escape, printed in double quotes.
  function Escaped(s: string): string {
    "\"" + Print(ValueTokens(s, true)) + "\""
  }

  function EscapedTokens(s: string): seq<Token> {
    [Token("\"", QuoteStart)] + (ValueTokens(s, true) + [Token("\"", QuoteEnd)])
  }

  lemma {:induction false} EscapedFits(s: string)
    ensures WellFormed(EscapedTokens(s), false) && Expanded(EscapedTokens(s)) && Print(EscapedTokens(s)) == Escaped(s)
  {
    var close := [Token("\"", QuoteEnd)];
    assert EscapedTokens(s)[1..] == ValueTokens(s, true) + close && close[1..] == [];
    ValueFits(s, true);
    WellFormedAppend(ValueTokens(s, true), close, true);
    ExpandedAppend(ValueTokens(s, true), close, true);
    PrintAppend(ValueTokens(s, true), close);
    assert Print(close) == "\"";
  }

  lemma {:induction false} EscapedArgs(s: string)
    ensures Args(EscapedTokens(s), EMPTY, false) == Some([s])
  {
    var close, f := [Token("\"", QuoteEnd)], Filling([""], false);
    assert EscapedTokens(s)[1..] == ValueTokens(s, true) + close;
    assert Start([], true) == [""];
    FirstToken(EscapedTokens(s), EMPTY, f);
    ValueFeeds(s, true, close, f, false);
    EscapedFill(s, f);
    ArgsOfEnd([s]);
  }

  lemma {:induction false} FirstToken(ts: seq<Token>, f: Filling, g: Filling)
    requires ts != [] && ts[0].kind != Parameter && Fill(ts[0], f) == Some(g)
    ensures Args(ts, f, false) == Args(ts[1..], g, false)
  {
  }

  lemma {:induction false} ArgsOfEnd(argv: seq<string>)
    ensures Args([Token("\"", QuoteEnd)], Filling(argv, false), false) == Some(argv)
  {
    assert [Token("\"", QuoteEnd)][1..] == [];
  }

  lemma {:induction false} EscapedFill(s: string, f: Filling)
    requires f == Filling([""], false)
    ensures Feed(s, true, f) == Filling([s], false)
  {
    if s != [] {
      FeedPlain(s, true, f);
      assert "" + s == s;
    }
  }

  // The escaped form of any string lexes to that string as the only argument.
  lemma {:induction false} EscapeRoundTrip(s: string)
    ensures Lex(Escaped(s), false).Some?
    ensures Args(Lex(Escaped(s), false).value, EMPTY, false) == Some([s])
  {
    EscapedFits(s);
    LexOfPrint(EscapedTokens(s), false);
    MergeArgs(EscapedTokens(s), EMPTY, false);
    EscapedArgs(s);
  }
}
