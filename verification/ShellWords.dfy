// What a command template means, told from its words: how they are written, and which
// arguments they stand for.
module ShellWords {
  import opened Wrappers
  import opened Numerals
  import opened ShellTemplate

  // ---------- words ----------

  // A stretch of a word between double quotes: text, a parameter, a backslash that is kept
  // because the character after it needs none, or an escaped line break.
  datatype Inner = Text(s: string) | Value(name: string) | Kept(c: char) | LineBreak

  // A word is a sequence of parts without a gap.
  datatype Part =
    | Bare(s: string)
    | Single(s: string)
    | Escaped(c: char)
    | Double(inners: seq<Inner>)
    | Param(name: string)

  const SPACES := " \t\n\r\U{000C}"

  predicate AllIn(s: string, chars: string) {
    forall i | 0 <= i < |s| :: s[i] in chars
  }

  predicate NoneIn(s: string, chars: string) {
    forall i | 0 <= i < |s| :: s[i] !in chars
  }

  predicate Letter(c: char) {
    'a' <= c <= 'z' || 'A' <= c <= 'Z' || c == '_'
  }

  // Letters, digits and underscores, not starting with a digit; or digits only, as in $10;
  // or one other character, as in $?.
  predicate IsName(name: string) {
    name != "" &&
    if Letter(name[0]) then forall i | 0 <= i < |name| :: Letter(name[i]) || IsDigit(name[i])
    else if IsDigit(name[0]) then forall i | 0 <= i < |name| :: IsDigit(name[i])
    else |name| == 1 && name[0] !in "{}\"'\\" && name[0] !in SPACES
  }

  // The value of a parameter, or the default if that may be used.
  predicate HasValue(p: Parameters, name: string) {
    name in p.values || (p.otherwise.Some? && (p.undefinedOk.Some? ==> p.undefinedOk.value))
  }

  function Lookup(p: Parameters, name: string): string {
    if name in p.values then p.values[name] else if p.otherwise.Some? then p.otherwise.value else ""
  }

  // Parameters have values; outside quotes the value must be a word of its own.
  predicate GoodInner(i: Inner, p: Parameters) {
    match i
    case Value(name) => IsName(name) && HasValue(p, name)
    case Kept(c) => c !in "\"$\\\n"
    case _ => true
  }

  predicate GoodPart(part: Part, p: Parameters) {
    match part
    case Bare(s) => s != "" && NoneIn(s, "\"'$\\") && NoneIn(s, SPACES)
    case Single(s) => '\'' !in s
    case Escaped(_) => true
    case Double(inners) => forall i | 0 <= i < |inners| :: GoodInner(inners[i], p)
    case Param(name) => IsName(name) && HasValue(p, name) && Lookup(p, name) != "" && NoneIn(Lookup(p, name), SPACES)
  }

  predicate GoodWord(parts: seq<Part>, p: Parameters) {
    parts != [] && forall i | 0 <= i < |parts| :: GoodPart(parts[i], p)
  }

  // Words with white space around them, and at least one such character between two.
  predicate GoodCommand(gaps: seq<string>, words: seq<seq<Part>>, p: Parameters) {
    && |gaps| == |words| + 1
    && (forall i | 0 <= i < |gaps| :: AllIn(gaps[i], SPACES) && (0 < i < |words| ==> gaps[i] != ""))
    && forall i | 0 <= i < |words| :: GoodWord(words[i], p)
  }

  // ---------- how they are written ----------

  // Between double quotes a backslash goes before every ", $ and \.
  function QuoteText(s: string): string {
    if s == "" then "" else (if s[0] in "\"$\\" then ['\\', s[0]] else [s[0]]) + QuoteText(s[1..])
  }

  function StretchCode(i: Inner): string {
    match i
    case Text(s) => QuoteText(s)
    case Value(name) => "${" + name + "}"
    case Kept(c) => ['\\', c]
    case LineBreak => "\\\n"
  }

  function InnerCode(inners: seq<Inner>): string {
    if inners == [] then "" else StretchCode(inners[0]) + InnerCode(inners[1..])
  }

  function PartCode(part: Part): string {
    match part
    case Bare(s) => s
    case Single(s) => "'" + s + "'"
    case Escaped(c) => ['\\', c]
    case Double(inners) => "\"" + InnerCode(inners) + "\""
    case Param(name) => "${" + name + "}"
  }

  function WordCode(parts: seq<Part>): string {
    if parts == [] then "" else PartCode(parts[0]) + WordCode(parts[1..])
  }

  function Code(gaps: seq<string>, words: seq<seq<Part>>): string
    requires |gaps| == |words| + 1
  {
    gaps[0] + if words == [] then "" else WordCode(words[0]) + Code(gaps[1..], words[1..])
  }

  // ---------- what they stand for ----------

  function StretchValue(i: Inner, p: Parameters): string {
    match i
    case Text(s) => s
    case Value(name) => Lookup(p, name)
    case Kept(c) => ['\\', c]
    case LineBreak => "\n"
  }

  function InnerValue(inners: seq<Inner>, p: Parameters): string {
    if inners == [] then "" else StretchValue(inners[0], p) + InnerValue(inners[1..], p)
  }

  function PartValue(part: Part, p: Parameters): string {
    match part
    case Bare(s) => s
    case Single(s) => s
    case Escaped(c) => [c]
    case Double(inners) => InnerValue(inners, p)
    case Param(name) => Lookup(p, name)
  }

  function WordValue(parts: seq<Part>, p: Parameters): string {
    if parts == [] then "" else PartValue(parts[0], p) + WordValue(parts[1..], p)
  }

  function WordValues(words: seq<seq<Part>>, p: Parameters): (r: seq<string>)
    ensures |r| == |words|
  {
    seq(|words|, i requires 0 <= i < |words| => WordValue(words[i], p))
  }

  // ---------- their tokens ----------

  function ParamToken(name: string): Token {
    Token("${" + name + "}", Parameter)
  }

  function StretchTokens(i: Inner): seq<Token> {
    match i
    case Text(s) => ValueTokens(s, true)
    case Value(name) => [ParamToken(name)]
    case Kept(c) => [Token(['\\', c], Str)]
    case LineBreak => [Token("\\\n", EscapedNewLine)]
  }

  function InnerTokens(inners: seq<Inner>): seq<Token> {
    if inners == [] then [] else StretchTokens(inners[0]) + InnerTokens(inners[1..])
  }

  function PartTokens(part: Part): seq<Token> {
    match part
    case Bare(s) => [Token(s, Str)]
    case Single(s) => [Token("'" + s + "'", SingleQuoted)]
    case Escaped(c) => [Token(['\\', c], if c == '\n' then EscapedNewLine else Escape)]
    case Double(inners) => [Token("\"", QuoteStart)] + (InnerTokens(inners) + [Token("\"", QuoteEnd)])
    case Param(name) => [ParamToken(name)]
  }

  function WordTokens(parts: seq<Part>): seq<Token> {
    if parts == [] then [] else PartTokens(parts[0]) + WordTokens(parts[1..])
  }

  function GapTokens(gap: string): seq<Token> {
    if gap == "" then [] else [Token(gap, Space)]
  }

  function CommandTokens(gaps: seq<string>, words: seq<seq<Part>>): seq<Token>
    requires |gaps| == |words| + 1
  {
    GapTokens(gaps[0]) + if words == [] then [] else WordTokens(words[0]) + CommandTokens(gaps[1..], words[1..])
  }

  // ---------- the tokens print as the code ----------

  lemma {:induction false} QuoteTextRun(s: string, n: nat)
    requires n <= |s| && NoneIn(s[..n], "\"$\\")
    ensures QuoteText(s) == s[..n] + QuoteText(s[n..])
  {
    if n > 0 {
      assert s[..n][0] == s[0] && s[1..][..n - 1] == s[..n][1..] && s[1..][n - 1..] == s[n..];
      QuoteTextRun(s[1..], n - 1);
      assert [s[0]] + s[1..][..n - 1] == s[..n];
    } else {
      assert s[0..] == s;
    }
  }

  lemma {:induction false} ValuePrints(s: string)
    ensures Print(ValueTokens(s, true)) == QuoteText(s)
    decreases |s|
  {
    if s != "" {
      var t, n := NextValue(s, true).0, NextValue(s, true).1;
      var rest := ValueTokens(s[n..], true);
      assert ([t] + rest)[1..] == rest;
      ValuePrints(s[n..]);
      if !IsQuotedSpecial(s[0]) { QuoteTextRun(s, n); }
    }
  }

  lemma {:induction false} OnePrints(t: Token)
    ensures Print([t]) == t.text
  {
    assert [t][1..] == [] && t.text + "" == t.text;
  }

  lemma {:induction false} InnerPrints(inners: seq<Inner>)
    ensures Print(InnerTokens(inners)) == InnerCode(inners)
  {
    if inners != [] {
      InnerPrints(inners[1..]);
      PrintAppend(StretchTokens(inners[0]), InnerTokens(inners[1..]));
      if inners[0].Text? { ValuePrints(inners[0].s); } else { OnePrints(StretchTokens(inners[0])[0]); }
    }
  }

  lemma {:induction false} PartPrints(part: Part)
    ensures Print(PartTokens(part)) == PartCode(part)
  {
    match part
    case Double(inners) =>
      var open, close := Token("\"", QuoteStart), Token("\"", QuoteEnd);
      InnerPrints(inners);
      OnePrints(open);
      OnePrints(close);
      PrintAppend(InnerTokens(inners), [close]);
      PrintAppend([open], InnerTokens(inners) + [close]);
      assert "\"" + (InnerCode(inners) + "\"") == PartCode(part);
    case _ => OnePrints(PartTokens(part)[0]);
  }

  lemma {:induction false} WordPrints(parts: seq<Part>)
    ensures Print(WordTokens(parts)) == WordCode(parts)
  {
    if parts != [] {
      PartPrints(parts[0]);
      WordPrints(parts[1..]);
      PrintAppend(PartTokens(parts[0]), WordTokens(parts[1..]));
    }
  }

  lemma {:induction false} CommandPrints(gaps: seq<string>, words: seq<seq<Part>>)
    requires |gaps| == |words| + 1
    ensures Print(CommandTokens(gaps, words)) == Code(gaps, words)
  {
    var gap := GapTokens(gaps[0]);
    if gaps[0] != "" { OnePrints(gap[0]); }
    if words == [] {
      assert gap + [] == gap && gaps[0] + "" == gaps[0];
    } else {
      var rest := CommandTokens(gaps[1..], words[1..]);
      WordPrints(words[0]);
      CommandPrints(gaps[1..], words[1..]);
      PrintAppend(WordTokens(words[0]), rest);
      PrintAppend(gap, WordTokens(words[0]) + rest);
    }
  }

  // ---------- the tokens are well formed ----------

  lemma {:induction false} SpanAll(s: string, p: char -> bool)
    requires forall i | 0 <= i < |s| :: p(s[i])
    ensures Span(s, p) == |s|
  {
  }

  lemma {:induction false} ParamFits(name: string, quoted: bool)
    requires IsName(name)
    ensures Fits(ParamToken(name), quoted) && Braced(ParamToken(name).text)
  {
    var text := ParamToken(name).text;
    assert text == ['$', '{'] + name + ['}'];
    assert text[2..|text| - 1] == name;
    NameIsWhole(name);
  }

  lemma {:induction false} NameIsWhole(name: string)
    requires IsName(name)
    ensures WholeName(name)
  {
    if Letter(name[0]) { SpanAll(name, IsNameChar); }
    else if IsDigit(name[0]) { SpanAll(name, IsDigit); }
    else { SpecialName(name[0]); }
  }

  lemma {:induction false} SpecialName(c: char)
    requires c !in "{}\"'\\" && c !in SPACES && !IsDigit(c)
    ensures IsSpecialName(c)
  {
    assert c != ' ' && c != '\t' && c != '\n' && c != '\r' && c != '\U{000C}';
  }

  lemma {:induction false} TextFits(s: string, rest: seq<Token>)
    requires WellFormed(rest, true) && AllBraced(rest)
    ensures WellFormed(ValueTokens(s, true) + rest, true) && AllBraced(ValueTokens(s, true) + rest)
  {
    ValueFits(s, true);
    WellFormedAppend(ValueTokens(s, true), rest, true);
  }

  // Before more tokens of the same quoting, or the closing quote.
  lemma {:induction false} InnerFits(inners: seq<Inner>, p: Parameters, rest: seq<Token>)
    requires forall i | 0 <= i < |inners| :: GoodInner(inners[i], p)
    requires WellFormed(rest, true) && AllBraced(rest)
    ensures WellFormed(InnerTokens(inners) + rest, true) && AllBraced(InnerTokens(inners) + rest)
  {
    if inners == [] {
      assert InnerTokens(inners) + rest == rest;
    } else {
      var tail := InnerTokens(inners[1..]) + rest;
      InnerFits(inners[1..], p, rest);
      assert GoodInner(inners[0], p);
      assert InnerTokens(inners) + rest == StretchTokens(inners[0]) + tail;
      StretchFits(inners[0], p, tail);
    }
  }

  lemma {:induction false} StretchFits(i: Inner, p: Parameters, rest: seq<Token>)
    requires GoodInner(i, p) && WellFormed(rest, true) && AllBraced(rest)
    ensures WellFormed(StretchTokens(i) + rest, true) && AllBraced(StretchTokens(i) + rest)
  {
    match i
    case Text(s) => TextFits(s, rest);
    case Value(name) =>
      ParamFits(name, true);
      OneQuotedFits(ParamToken(name), rest);
    case Kept(c) =>
      KeptFits(c);
      OneQuotedFits(Token(['\\', c], Str), rest);
    case LineBreak => OneQuotedFits(Token("\\\n", EscapedNewLine), rest);
  }

  lemma {:induction false} KeptFits(c: char)
    requires c !in "\"$\\\n"
    ensures Fits(Token(['\\', c], Str), true)
  {
    var s := ['\\', c];
    assert s[2..] == "" && IsQuotedPlain(c) && QuotedSpan(s) == 2 + QuotedSpan(s[2..]);
  }

  lemma {:induction false} OneQuotedFits(t: Token, rest: seq<Token>)
    requires Fits(t, true) && t.kind != QuoteEnd && (t.kind == Parameter ==> Braced(t.text))
    requires WellFormed(rest, true) && AllBraced(rest)
    ensures WellFormed([t] + rest, true) && AllBraced([t] + rest)
  {
    assert ([t] + rest)[1..] == rest;
  }

  lemma {:induction false} OneFits(t: Token, rest: seq<Token>)
    requires Fits(t, false) && t.kind != QuoteStart && (t.kind == Parameter ==> Braced(t.text))
    requires WellFormed(rest, false) && AllBraced(rest)
    ensures WellFormed([t] + rest, false) && AllBraced([t] + rest)
  {
    assert ([t] + rest)[1..] == rest;
  }

  lemma {:induction false} PartFits(part: Part, p: Parameters, rest: seq<Token>)
    requires GoodPart(part, p) && WellFormed(rest, false) && AllBraced(rest)
    ensures WellFormed(PartTokens(part) + rest, false) && AllBraced(PartTokens(part) + rest)
  {
    match part
    case Double(inners) => DoubleFits(inners, p, rest);
    case _ =>
      OnePartFits(part, p);
      OneFits(PartTokens(part)[0], rest);
  }

  lemma {:induction false} OnePartFits(part: Part, p: Parameters)
    requires GoodPart(part, p) && !part.Double?
    ensures var t := PartTokens(part)[0]; Fits(t, false) && (t.kind == Parameter ==> Braced(t.text))
  {
    match part
    case Bare(s) =>
      forall i | 0 <= i < |s| ensures IsWord(s[i]) { BareChar(s, i); }
      SpanAll(s, IsWord);
    case Single(s) =>
      var text := "'" + s + "'";
      assert text[1..|text| - 1] == s;
      SpanAll(s, IsNoQuote);
    case Param(name) => ParamFits(name, false);
    case _ =>
  }

  lemma {:induction false} BareChar(s: string, i: nat)
    requires NoneIn(s, "\"'$\\") && NoneIn(s, SPACES) && i < |s|
    ensures IsWord(s[i])
  {
    var c := s[i];
    assert c !in "\"'$\\" && c !in SPACES;
  }

  lemma {:induction false} DoubleFits(inners: seq<Inner>, p: Parameters, rest: seq<Token>)
    requires forall i | 0 <= i < |inners| :: GoodInner(inners[i], p)
    requires WellFormed(rest, false) && AllBraced(rest)
    ensures var ts := PartTokens(Double(inners)) + rest; WellFormed(ts, false) && AllBraced(ts)
  {
    var open, close := Token("\"", QuoteStart), Token("\"", QuoteEnd);
    var tail := [close] + rest;
    assert tail[1..] == rest && WellFormed(tail, true) && AllBraced(tail);
    InnerFits(inners, p, tail);
    var inner := InnerTokens(inners) + tail;
    assert PartTokens(Double(inners)) + rest == [open] + inner && ([open] + inner)[1..] == inner;
  }

  lemma {:induction false} WordFits(parts: seq<Part>, p: Parameters, rest: seq<Token>)
    requires forall i | 0 <= i < |parts| :: GoodPart(parts[i], p)
    requires WellFormed(rest, false) && AllBraced(rest)
    ensures WellFormed(WordTokens(parts) + rest, false) && AllBraced(WordTokens(parts) + rest)
  {
    if parts == [] {
      assert WordTokens(parts) + rest == rest;
    } else {
      var tail := WordTokens(parts[1..]) + rest;
      WordFits(parts[1..], p, rest);
      PartFits(parts[0], p, tail);
      assert WordTokens(parts) + rest == PartTokens(parts[0]) + tail;
    }
  }

  lemma {:induction false} GapFits(gap: string, rest: seq<Token>)
    requires AllIn(gap, SPACES) && WellFormed(rest, false) && AllBraced(rest)
    ensures WellFormed(GapTokens(gap) + rest, false) && AllBraced(GapTokens(gap) + rest)
  {
    if gap == "" {
      assert GapTokens(gap) + rest == rest;
    } else {
      SpanAll(gap, IsSpace);
      OneFits(Token(gap, Space), rest);
    }
  }

  lemma {:induction false} TailIsGood(gaps: seq<string>, words: seq<seq<Part>>, p: Parameters)
    requires GoodCommand(gaps, words, p) && words != []
    ensures GoodCommand(gaps[1..], words[1..], p) && GoodWord(words[0], p)
    ensures |words| > 1 ==> gaps[1] != ""
  {
    forall i | 0 <= i < |gaps[1..]|
      ensures AllIn(gaps[1..][i], SPACES) && (0 < i < |words[1..]| ==> gaps[1..][i] != "")
    {
      assert gaps[1..][i] == gaps[i + 1];
    }
    forall i | 0 <= i < |words[1..]| ensures GoodWord(words[1..][i], p) { assert words[1..][i] == words[i + 1]; }
  }

  lemma {:induction false} CommandFits(gaps: seq<string>, words: seq<seq<Part>>, p: Parameters)
    requires GoodCommand(gaps, words, p)
    ensures WellFormed(CommandTokens(gaps, words), false) && AllBraced(CommandTokens(gaps, words))
  {
    if words == [] {
      GapFits(gaps[0], []);
    } else {
      TailIsGood(gaps, words, p);
      CommandFits(gaps[1..], words[1..], p);
      WordFits(words[0], p, CommandTokens(gaps[1..], words[1..]));
      GapFits(gaps[0], WordTokens(words[0]) + CommandTokens(gaps[1..], words[1..]));
    }
  }

  // ---------- what the tokens mean ----------

  // Text is added to the argument that is open, or opens one.
  function Grown(f: Filling, s: string): Filling
    requires f.begin || f.argv != []
  {
    Filling(AddLast(Start(f.argv, f.begin), s), false)
  }

  lemma {:induction false} AddNothing(argv: seq<string>)
    requires argv != []
    ensures AddLast(argv, "") == argv
  {
    var last := argv[|argv| - 1];
    assert last + "" == last && argv == argv[..|argv| - 1] + [last];
  }

  lemma {:induction false} GrownTwice(f: Filling, a: string, b: string)
    requires f.begin || f.argv != []
    ensures Grown(Grown(f, a), b) == Grown(f, a + b)
  {
    AddTwice(Start(f.argv, f.begin), a, b);
  }

  lemma {:induction false} OneMeans(t: Token, rest: seq<Token>, quoted: bool, p: Parameters, f: Filling)
    requires t.kind != Parameter && Fill(t, f).Some?
    ensures Meaning([t] + rest, quoted, p, f) == Meaning(rest, Mode(t, quoted), p, Fill(t, f).value)
  {
    assert ([t] + rest)[1..] == rest;
  }

  // The tokens of a text between double quotes add it as it is.
  lemma {:induction false} TextMeans(s: string, rest: seq<Token>, p: Parameters, f: Filling)
    requires !f.begin && f.argv != []
    ensures Meaning(ValueTokens(s, true) + rest, true, p, f) == Meaning(rest, true, p, Grown(f, s))
    decreases |s|
  {
    if s == "" {
      AddNothing(f.argv);
      assert ValueTokens(s, true) + rest == rest;
    } else {
      var t, n := NextValue(s, true).0, NextValue(s, true).1;
      var tail := ValueTokens(s[n..], true) + rest;
      assert ValueTokens(s, true) + rest == [t] + tail;
      ValuePiece(s, true, f);
      ValueFits(s, true);
      FeedPlain(s[..n], true, f);
      OneMeans(t, tail, true, p, f);
      assert Mode(t, true);
      TextMeans(s[n..], rest, p, Grown(f, s[..n]));
      GrownTwice(f, s[..n], s[n..]);
      assert s[..n] + s[n..] == s;
    }
  }

  lemma {:induction false} StripName(name: string)
    requires IsName(name)
    ensures NameOf(ParamToken(name)) == name
  {
    var open := name + "}";
    assert ParamToken(name).text[1..] == "{" + open;
    NothingStripped(name);
    StripsOpening(open);
    StripsClosing(name);
  }

  lemma {:induction false} StripsOpening(s: string)
    requires s != "" && s[0] != '{' && s[0] != '}'
    ensures StripLeft("{" + s) == s
  {
    assert ("{" + s)[1..] == s && StripLeft(s) == s;
  }

  lemma {:induction false} StripsClosing(s: string)
    requires s != "" && s[|s| - 1] != '{' && s[|s| - 1] != '}'
    ensures StripRight(s + "}") == s
  {
    assert (s + "}")[..|s|] == s && StripRight(s) == s;
  }

  lemma {:induction false} ParamMeans(name: string, rest: seq<Token>, quoted: bool, p: Parameters, f: Filling)
    requires IsName(name) && HasValue(p, name) && (f.begin || f.argv != [])
    requires Lookup(p, name) == "" ==> quoted && !f.begin
    requires quoted || NoneIn(Lookup(p, name), SPACES)
    ensures Meaning([ParamToken(name)] + rest, quoted, p, f) == Meaning(rest, quoted, p, Grown(f, Lookup(p, name)))
  {
    var t, v := ParamToken(name), Lookup(p, name);
    assert ([t] + rest)[1..] == rest;
    StripName(name);
    if v == "" {
      AddNothing(f.argv);
    } else {
      forall i | !quoted && 0 <= i < |v| ensures !IsSpace(v[i]) { assert v[i] !in SPACES; }
      FeedPlain(v, quoted, f);
    }
  }

  lemma {:induction false} InnerMeans(inners: seq<Inner>, rest: seq<Token>, p: Parameters, f: Filling)
    requires forall i | 0 <= i < |inners| :: GoodInner(inners[i], p)
    requires !f.begin && f.argv != []
    ensures Meaning(InnerTokens(inners) + rest, true, p, f) == Meaning(rest, true, p, Grown(f, InnerValue(inners, p)))
  {
    if inners == [] {
      AddNothing(f.argv);
      assert InnerTokens(inners) + rest == rest;
    } else {
      var tail := InnerTokens(inners[1..]) + rest;
      var first, more := StretchValue(inners[0], p), InnerValue(inners[1..], p);
      assert GoodInner(inners[0], p);
      assert InnerTokens(inners) + rest == StretchTokens(inners[0]) + tail;
      StretchMeans(inners[0], tail, p, f);
      InnerMeans(inners[1..], rest, p, Grown(f, first));
      GrownTwice(f, first, more);
    }
  }

  lemma {:induction false} StretchMeans(i: Inner, rest: seq<Token>, p: Parameters, f: Filling)
    requires GoodInner(i, p) && !f.begin && f.argv != []
    ensures Meaning(StretchTokens(i) + rest, true, p, f) == Meaning(rest, true, p, Grown(f, StretchValue(i, p)))
  {
    match i
    case Text(s) => TextMeans(s, rest, p, f);
    case Value(name) => ParamMeans(name, rest, true, p, f);
    case _ => OneMeans(StretchTokens(i)[0], rest, true, p, f);
  }

  lemma {:induction false} DoubleMeans(inners: seq<Inner>, rest: seq<Token>, p: Parameters, f: Filling)
    requires GoodPart(Double(inners), p) && (f.begin || f.argv != [])
    ensures Meaning(PartTokens(Double(inners)) + rest, false, p, f) ==
            Meaning(rest, false, p, Grown(f, InnerValue(inners, p)))
  {
    var open, close := Token("\"", QuoteStart), Token("\"", QuoteEnd);
    var g := Filling(Start(f.argv, f.begin), false);
    var inner := InnerTokens(inners) + ([close] + rest);
    assert PartTokens(Double(inners)) + rest == [open] + inner;
    OneMeans(open, inner, false, p, f);
    InnerMeans(inners, [close] + rest, p, g);
    OneMeans(close, rest, true, p, Grown(g, InnerValue(inners, p)));
  }

  // A part adds its value to the argument, and ends none.
  lemma {:induction false} PartMeans(part: Part, rest: seq<Token>, p: Parameters, f: Filling)
    requires GoodPart(part, p) && (f.begin || f.argv != [])
    ensures Meaning(PartTokens(part) + rest, false, p, f) == Meaning(rest, false, p, Grown(f, PartValue(part, p)))
  {
    match part
    case Double(inners) => DoubleMeans(inners, rest, p, f);
    case Param(name) => ParamMeans(name, rest, false, p, f);
    case Single(s) =>
      var text := "'" + s + "'";
      assert text[1..|text| - 1] == s;
      OneMeans(Token(text, SingleQuoted), rest, false, p, f);
    case _ => OneMeans(PartTokens(part)[0], rest, false, p, f);
  }

  lemma {:induction false} WordMeans(parts: seq<Part>, rest: seq<Token>, p: Parameters, f: Filling)
    requires GoodWord(parts, p) && (f.begin || f.argv != [])
    ensures Meaning(WordTokens(parts) + rest, false, p, f) == Meaning(rest, false, p, Grown(f, WordValue(parts, p)))
    decreases |parts|, 0
  {
    var first, more := PartValue(parts[0], p), WordValue(parts[1..], p);
    assert GoodPart(parts[0], p);
    assert WordTokens(parts) + rest == PartTokens(parts[0]) + (WordTokens(parts[1..]) + rest);
    PartMeans(parts[0], WordTokens(parts[1..]) + rest, p, f);
    MorePartsMean(parts[1..], rest, p, Grown(f, first));
    GrownTwice(f, first, more);
  }

  // Once an argument is open.
  lemma {:induction false} MorePartsMean(parts: seq<Part>, rest: seq<Token>, p: Parameters, f: Filling)
    requires (forall i | 0 <= i < |parts| :: GoodPart(parts[i], p)) && !f.begin && f.argv != []
    ensures Meaning(WordTokens(parts) + rest, false, p, f) == Meaning(rest, false, p, Grown(f, WordValue(parts, p)))
    decreases |parts|, 1
  {
    if parts == [] {
      AddNothing(f.argv);
      assert WordTokens(parts) + rest == rest;
    } else {
      WordMeans(parts, rest, p, f);
    }
  }

  lemma {:induction false} GapMeans(gap: string, rest: seq<Token>, p: Parameters, f: Filling)
    ensures Meaning(GapTokens(gap) + rest, false, p, f) ==
            Meaning(rest, false, p, if gap == "" then f else Filling(f.argv, true))
  {
    if gap == "" { assert GapTokens(gap) + rest == rest; } else { OneMeans(Token(gap, Space), rest, false, p, f); }
  }

  lemma {:induction false} CommandMeans(gaps: seq<string>, words: seq<seq<Part>>, p: Parameters, f: Filling)
    requires GoodCommand(gaps, words, p) && (words != [] ==> f.begin || gaps[0] != "")
    ensures Meaning(CommandTokens(gaps, words), false, p, f) == Some(f.argv + WordValues(words, p))
  {
    var g := if gaps[0] == "" then f else Filling(f.argv, true);
    if words == [] {
      GapMeans(gaps[0], [], p, f);
      assert f.argv + WordValues(words, p) == f.argv;
    } else {
      var rest, value := CommandTokens(gaps[1..], words[1..]), WordValue(words[0], p);
      TailIsGood(gaps, words, p);
      GapMeans(gaps[0], WordTokens(words[0]) + rest, p, f);
      WordMeans(words[0], rest, p, g);
      OpensArgument(f.argv, value);
      CommandMeans(gaps[1..], words[1..], p, Filling(f.argv + [value], false));
      FirstValue(f.argv, words, p);
    }
  }

  lemma {:induction false} OpensArgument(argv: seq<string>, s: string)
    ensures Grown(Filling(argv, true), s) == Filling(argv + [s], false)
  {
    assert "" + s == s && (argv + [""])[..|argv|] == argv;
  }

  lemma {:induction false} FirstValue(argv: seq<string>, words: seq<seq<Part>>, p: Parameters)
    requires words != []
    ensures argv + WordValues(words, p) == (argv + [WordValue(words[0], p)]) + WordValues(words[1..], p)
  {
    assert WordValues(words, p) == [WordValue(words[0], p)] + WordValues(words[1..], p);
  }

  // ---------- every parameter has a value ----------

  lemma {:induction false} ParamResolves(name: string, p: Parameters)
    requires IsName(name) && HasValue(p, name)
    ensures Resolved([ParamToken(name)], p)
  {
    StripName(name);
  }

  lemma {:induction false} InnerResolves(inners: seq<Inner>, p: Parameters)
    requires forall i | 0 <= i < |inners| :: GoodInner(inners[i], p)
    ensures Resolved(InnerTokens(inners), p)
  {
    if inners != [] {
      assert GoodInner(inners[0], p);
      InnerResolves(inners[1..], p);
      match inners[0]
      case Text(s) => ValueFits(s, true);
      case Value(name) => ParamResolves(name, p);
      case _ =>
    }
  }

  lemma {:induction false} PartResolves(part: Part, p: Parameters)
    requires GoodPart(part, p)
    ensures Resolved(PartTokens(part), p)
  {
    match part
    case Double(inners) => InnerResolves(inners, p);
    case Param(name) => ParamResolves(name, p);
    case _ =>
  }

  lemma {:induction false} WordResolves(parts: seq<Part>, p: Parameters)
    requires forall i | 0 <= i < |parts| :: GoodPart(parts[i], p)
    ensures Resolved(WordTokens(parts), p)
  {
    if parts != [] {
      PartResolves(parts[0], p);
      WordResolves(parts[1..], p);
    }
  }

  lemma {:induction false} CommandResolves(gaps: seq<string>, words: seq<seq<Part>>, p: Parameters)
    requires GoodCommand(gaps, words, p)
    ensures Resolved(CommandTokens(gaps, words), p)
  {
    if words != [] {
      TailIsGood(gaps, words, p);
      WordResolves(words[0], p);
      CommandResolves(gaps[1..], words[1..], p);
    }
  }

  // ---------- merging adjacent tokens ----------

  lemma {:induction false} MergeResolves(ts: seq<Token>, p: Parameters)
    requires Resolved(ts, p)
    ensures Resolved(Merge(ts), p)
  {
    if ts != [] {
      assert forall i | 0 <= i < |ts[1..]| :: ts[1..][i] == ts[i + 1];
      MergeResolves(ts[1..], p);
    }
  }

  lemma {:induction false} MergeMeans(ts: seq<Token>, quoted: bool, p: Parameters, f: Filling)
    ensures Meaning(Merge(ts), quoted, p, f) == Meaning(ts, quoted, p, f)
  {
    if ts != [] {
      var t, rest := ts[0], Merge(ts[1..]);
      var g := if t.kind != Parameter then Fill(t, f) else FillValue(ShellTemplate.ValueOf(p, NameOf(t)), quoted, f);
      if g.Some? { MergeMeans(ts[1..], Mode(t, quoted), p, g.value); }
      assert ([t] + rest)[1..] == rest;
      assert Meaning([t] + rest, quoted, p, f) == Meaning(ts, quoted, p, f);
      if Merges(t.kind) && rest != [] && rest[0].kind == t.kind { JoinMeans(t, rest, quoted, p, f); }
    }
  }

  lemma {:induction false} JoinMeans(t: Token, rest: seq<Token>, quoted: bool, p: Parameters, f: Filling)
    requires Merges(t.kind) && rest != [] && rest[0].kind == t.kind
    ensures Meaning([Token(t.text + rest[0].text, t.kind)] + rest[1..], quoted, p, f) == Meaning([t] + rest, quoted, p, f)
  {
    var joined := Token(t.text + rest[0].text, t.kind);
    assert ([joined] + rest[1..])[1..] == rest[1..] && ([t] + rest)[1..] == rest;
    if t.kind == Str && Start(f.argv, f.begin) != [] {
      AddTwice(Start(f.argv, f.begin), t.text, rest[0].text);
    }
  }

  // ---------- from code to arguments ----------

  // A command written from words is accepted. Expanded, printed and lexed again it has one
  // argument for each word, which is what the word stands for.
  lemma {:induction false} CommandArguments(gaps: seq<string>, words: seq<seq<Part>>, p: Parameters)
    requires GoodCommand(gaps, words, p)
    ensures Lex(Code(gaps, words), false).Some?
    ensures var expanded := Expand(Lex(Code(gaps, words), false).value, false, p);
            && expanded.Some?
            && Args(expanded.value, EMPTY, false) == Some(WordValues(words, p))
            && Lex(Print(expanded.value), false).Some?
            && Args(Lex(Print(expanded.value), false).value, EMPTY, false) == Some(WordValues(words, p))
  {
    var ts := CommandTokens(gaps, words);
    CommandPrints(gaps, words);
    CommandFits(gaps, words, p);
    LexOfPrint(ts, false);
    CommandResolves(gaps, words, p);
    MergeResolves(ts, p);
    ExpansionSurvivesPrinting(Code(gaps, words), p);
    MergeMeans(ts, false, p, EMPTY);
    CommandMeans(gaps, words, p, EMPTY);
    assert [] + WordValues(words, p) == WordValues(words, p);
  }

  // ---------- how a value is printed outside quotes ----------

  const SPECIALS := "`!#$^&*(){}[]|'\";<>?\\"

  // A backslash goes before every character that a shell could take for an operator.
  function EscapeText(s: string): string {
    if s == "" then "" else (if s[0] in SPECIALS then ['\\', s[0]] else [s[0]]) + EscapeText(s[1..])
  }

  lemma {:induction false} SpecialIff(c: char)
    ensures IsSpecial(c) <==> c in SPECIALS
  {
  }

  lemma {:induction false} EscapeTextRun(s: string, n: nat)
    requires n <= |s| && forall i | 0 <= i < n :: !IsSpecial(s[i])
    ensures EscapeText(s) == s[..n] + EscapeText(s[n..])
  {
    if n > 0 {
      SpecialIff(s[0]);
      assert s[1..][..n - 1] == s[..n][1..] && s[1..][n - 1..] == s[n..];
      EscapeTextRun(s[1..], n - 1);
      assert [s[0]] + s[1..][..n - 1] == s[..n];
    } else {
      assert s[0..] == s;
    }
  }

  // White space is printed as it is.
  lemma {:induction false} ValuePrintsEscaped(v: string)
    ensures Print(ValueTokens(v, false)) == EscapeText(v)
    decreases |v|
  {
    if v != "" {
      var t, n := NextValue(v, false).0, NextValue(v, false).1;
      var rest := ValueTokens(v[n..], false);
      assert ([t] + rest)[1..] == rest;
      ValuePrintsEscaped(v[n..]);
      SpecialIff(v[0]);
      if !IsSpecial(v[0]) { EscapeTextRun(v, n); }
    }
  }

  // ---------- a parameter outside quotes is split ----------

  function Spread(gaps: seq<string>, texts: seq<string>): string
    requires |gaps| == |texts| + 1
  {
    gaps[0] + if texts == [] then "" else texts[0] + Spread(gaps[1..], texts[1..])
  }

  predicate GoodSpread(gaps: seq<string>, texts: seq<string>) {
    && |gaps| == |texts| + 1
    && (forall i | 0 <= i < |gaps| :: AllIn(gaps[i], SPACES) && (0 < i < |texts| ==> gaps[i] != ""))
    && forall i | 0 <= i < |texts| :: texts[i] != "" && NoneIn(texts[i], SPACES)
  }

  lemma {:induction false} FeedSplits(gaps: seq<string>, texts: seq<string>, f: Filling)
    requires GoodSpread(gaps, texts) && (f.begin || f.argv != []) && (texts != [] ==> f.begin || gaps[0] != "")
    ensures Feed(Spread(gaps, texts), false, f).argv == f.argv + texts
  {
    FeedGap(gaps[0], f);
    var g := if gaps[0] == "" then f else Filling(f.argv, true);
    if texts == [] {
      assert gaps[0] + "" == gaps[0];
    } else {
      var rest := Spread(gaps[1..], texts[1..]);
      SpreadTail(gaps, texts);
      FeedAppend(gaps[0], texts[0] + rest, false, f);
      FeedAppend(texts[0], rest, false, g);
      forall i | 0 <= i < |texts[0]| ensures !IsSpace(texts[0][i]) { assert texts[0][i] !in SPACES; }
      FeedPlain(texts[0], false, g);
      OpensArgument(f.argv, texts[0]);
      FeedSplits(gaps[1..], texts[1..], Filling(f.argv + [texts[0]], false));
      assert f.argv + texts == (f.argv + [texts[0]]) + texts[1..];
    }
  }

  lemma {:induction false} FeedGap(gap: string, f: Filling)
    requires AllIn(gap, SPACES)
    ensures Feed(gap, false, f) == if gap == "" then f else Filling(f.argv, true)
  {
    forall i | 0 <= i < |gap| ensures IsSpace(gap[i]) { assert gap[i] in SPACES; }
    if gap != "" { FeedSpaces(gap, f); }
  }

  lemma {:induction false} SpreadTail(gaps: seq<string>, texts: seq<string>)
    requires GoodSpread(gaps, texts) && texts != []
    ensures GoodSpread(gaps[1..], texts[1..]) && texts[0] != "" && NoneIn(texts[0], SPACES)
    ensures |texts| > 1 ==> gaps[1] != ""
  {
    forall i | 0 <= i < |gaps[1..]|
      ensures AllIn(gaps[1..][i], SPACES) && (0 < i < |texts[1..]| ==> gaps[1..][i] != "")
    {
      assert gaps[1..][i] == gaps[i + 1];
    }
    forall i | 0 <= i < |texts[1..]| ensures texts[1..][i] != "" && NoneIn(texts[1..][i], SPACES) {
      assert texts[1..][i] == texts[i + 1];
    }
  }

  // ${name} outside quotes stands for the words of its value, whatever other characters
  // they hold.
  lemma {:induction false} ParameterSplits(name: string, gaps: seq<string>, texts: seq<string>, p: Parameters)
    requires IsName(name) && GoodSpread(gaps, texts) && HasValue(p, name) && Lookup(p, name) == Spread(gaps, texts)
    ensures Lex("${" + name + "}", false) == Some([ParamToken(name)])
    ensures var expanded := Expand([ParamToken(name)], false, p);
            expanded.Some? && Args(expanded.value, EMPTY, false) == Some(texts)
  {
    var t := ParamToken(name);
    OnePrints(t);
    ParamFits(name, false);
    assert [t][1..] == [] && Merge([t]) == [t];
    assert WellFormed([t], false);
    LexOfPrint([t], false);
    StripName(name);
    ExpandMeans([t], false, p, EMPTY);
    FeedSplits(gaps, texts, EMPTY);
    assert [] + texts == texts;
  }

  // $name ends where the name does.
  lemma {:induction false} PlainParameter(name: string, rest: string, quoted: bool)
    requires IsName(name)
    requires rest != "" && Letter(name[0]) ==> !Letter(rest[0]) && !IsDigit(rest[0])
    requires rest != "" && IsDigit(name[0]) ==> !IsDigit(rest[0])
    ensures var t := Token("$" + name, Parameter);
            Next("$" + name + rest, quoted) == Some(t) && NameOf(t) == name
  {
    var s := "$" + name + rest;
    assert s[1..] == name + rest && s[0] == '$';
    NameIsWhole(name);
    WholeNameLength(name, rest);
    assert s[..1 + |name|] == "$" + name;
    NextIsDirect(s, quoted);
    assert ("$" + name)[1..] == name;
    NothingStripped(name);
  }

  lemma {:induction false} NothingStripped(name: string)
    requires IsName(name)
    ensures name[0] != '{' && name[0] != '}' && name[|name| - 1] != '{' && name[|name| - 1] != '}'
    ensures StripRight(StripLeft(name)) == name
  {
    var last := name[|name| - 1];
    assert last != '{' && last != '}' && name[0] != '{' && name[0] != '}';
  }

  // ---------- the errors ----------

  // A parameter without a value, where that is an error: it has been said to be one, or
  // nothing has been said and there is no default.
  predicate Undefined(t: Token, p: Parameters) {
    t.kind == Parameter && NameOf(t) !in p.values &&
    match p.undefinedOk
    case Some(ok) => !ok
    case None => p.otherwise.None?
  }

  // A parameter without a value or a default, where that is allowed, is left as it is.
  lemma {:induction false} ParameterStays(t: Token, quoted: bool, p: Parameters)
    requires t.kind == Parameter && NameOf(t) !in p.values && p.otherwise.None?
    ensures Expand([t], quoted, p) == if p.undefinedOk.Some? && p.undefinedOk.value then Some([t]) else None
  {
    assert [t][1..] == [] && [t] + [] == [t];
    assert p.undefinedOk.Some? ==> p.undefinedOk == Some(p.undefinedOk.value);
  }

  // Expansion fails exactly on such a parameter.
  lemma {:induction false} ExpandFailsIff(ts: seq<Token>, quoted: bool, p: Parameters)
    ensures Expand(ts, quoted, p).None? <==> exists i | 0 <= i < |ts| :: Undefined(ts[i], p)
  {
    if ts != [] {
      var rest := ts[1..];
      ExpandFailsIff(rest, Mode(ts[0], quoted), p);
      assert p.undefinedOk.Some? ==> p.undefinedOk == Some(p.undefinedOk.value);
      assert ExpandOne(ts[0], quoted, p).None? <==> Undefined(ts[0], p);
      if i :| 0 <= i < |rest| && Undefined(rest[i], p) { assert Undefined(ts[i + 1], p); }
      if i :| 0 < i < |ts| && Undefined(ts[i], p) { assert Undefined(rest[i - 1], p); }
    }
  }

  // The argument list of an accepted command fails exactly on a parameter that is left.
  lemma {:induction false} ArgumentsFailIff(ts: seq<Token>, quoted: bool, f: Filling, ok: bool)
    requires WellFormed(ts, quoted) && Ready(f, quoted)
    ensures Args(ts, f, ok).None? <==> !ok && exists i :: 0 <= i < |ts| && ts[i].kind == Parameter
  {
    if ts != [] {
      if ts[0].kind == Parameter {
        if ok { ArgumentsFailIff(ts[1..], quoted, f, ok); }
      } else {
        FillReady(ts[0], quoted, f);
        ArgumentsFailIff(ts[1..], Mode(ts[0], quoted), Fill(ts[0], f).value, ok);
        assert forall i | 0 < i < |ts| :: ts[i] == ts[1..][i - 1];
        if i :| 0 <= i < |ts[1..]| && ts[1..][i].kind == Parameter { assert ts[i + 1] == ts[1..][i]; }
      }
    }
  }
}
