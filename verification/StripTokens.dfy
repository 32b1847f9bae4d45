/**
 * scripts/lint-magic-numbers.ts, stripFile: what is kept of a text. Every text is a sequence of
 * tokens as the scanner sees them, which for a slash in front of a quote is not what it means:
 * the scanner knows no regular expressions.
 */
module StripTokens {
  import Sequences
  import opened StringLiterals
  import opened StripFile

  // A literal ends at its closing quote. It is left open at the end of the line (a template: of the
  // text), where a backslash may escape nothing.
  datatype Token =
    | Plain(c: char)
    | Slash
    | CodeEscape(c: char)
    | LoneBackslash
    | Literal(quote: char, parts: seq<Part>)
    | OpenLiteral(quote: char, parts: seq<Part>, backslash: bool)
    | BlockComment(body: string)
    | OpenComment(body: string)
    | LineComment(body: string)
    | LineEnd

  function Show(t: Token): string {
    match t
    case Plain(c) => [c]
    case Slash => "/"
    case CodeEscape(c) => ['\\', c]
    case LoneBackslash => "\\"
    case Literal(q, parts) => [q] + ShowParts(parts) + [q]
    case OpenLiteral(q, parts, backslash) => [q] + ShowParts(parts) + if backslash then "\\" else ""
    case BlockComment(body) => "/*" + body + "*/"
    case OpenComment(body) => "/*" + body
    case LineComment(body) => "//" + body
    case LineEnd => "\n"
  }

  function ShowAll(tokens: seq<Token>): string {
    if tokens == [] then "" else Show(tokens[0]) + ShowAll(tokens[1..])
  }

  function BlankPart(p: Part): string {
    if p.c == '\n' then "\n" else if p.Ch? then " " else ""
  }

  function BlankParts(parts: seq<Part>): string {
    if parts == [] then "" else BlankPart(parts[0]) + BlankParts(parts[1..])
  }

  function LineBreaks(body: string): string {
    if body == "" then "" else (if body[0] == '\n' then "\n" else "") + LineBreaks(body[1..])
  }

  // Code stays, literals become blanks and their closing quote, comments and escapes vanish.
  function Kept(t: Token): string {
    match t
    case Plain(c) => [c]
    case Slash => "/"
    case CodeEscape(_) => ""
    case LoneBackslash => ""
    case Literal(q, parts) => " " + BlankParts(parts) + [q]
    case OpenLiteral(_, parts, _) => " " + BlankParts(parts)
    case BlockComment(body) => LineBreaks(body)
    case OpenComment(body) => LineBreaks(body)
    case LineComment(_) => ""
    case LineEnd => "\n"
  }

  function KeptAll(tokens: seq<Token>): string {
    if tokens == [] then "" else Kept(tokens[0]) + KeptAll(tokens[1..])
  }

  predicate OpensLiteral(c: char) {
    c == '\'' || c == '\"' || c == '`'
  }

  predicate IsSymbol(c: char) {
    !OpensLiteral(c) && c != '\n' && c != '/' && c != '\\'
  }

  // Only template literals contain line ends.
  predicate PartOf(q: char, p: Part) {
    && (p.c == '\n' ==> q == '`')
    && (p.Ch? ==> p.c != q && p.c != '\\')
  }

  predicate PartsOf(q: char, parts: seq<Part>) {
    forall i :: 0 <= i < |parts| ==> PartOf(q, parts[i])
  }

  ghost predicate NeverCloses(body: string) {
    forall i, j :: 0 <= i && j == i + 1 && j < |body| ==> !(body[i] == '*' && body[j] == '/')
  }

  predicate EndsLine(rest: string) {
    rest == "" || rest[0] == '\n'
  }

  // The token is complete in itself and ends where it does because of the text that follows.
  ghost predicate Fits(t: Token, rest: string) {
    match t
    case Plain(c) => IsSymbol(c)
    case Slash => !At(rest, 0, '/') && !At(rest, 0, '*')
    case CodeEscape(c) => c != '\n'
    case LoneBackslash => EndsLine(rest)
    case Literal(q, parts) => OpensLiteral(q) && PartsOf(q, parts)
    case OpenLiteral(q, parts, _) =>
      OpensLiteral(q) && PartsOf(q, parts) && if q == '`' then rest == "" else EndsLine(rest)
    case BlockComment(body) => NeverCloses(body)
    case OpenComment(body) => NeverCloses(body) && rest == ""
    case LineComment(body) => OneLine(body) && EndsLine(rest)
    case LineEnd => true
  }

  // The tokens, in front of the rest of a text.
  ghost predicate WellFormed(tokens: seq<Token>, rest: string) {
    tokens == [] || (Fits(tokens[0], ShowAll(tokens[1..]) + rest) && WellFormed(tokens[1..], rest))
  }

  // ---------- The machine on one token ----------

  lemma RunOne(s: State, c: char)
    ensures Run(s, [c]) == Step(s, c)
  {
    var (next, written) := Step(s, c);
    assert [c][1..] == "" && written + "" == written;
  }

  lemma RunTwo(s: State, c: char, d: char)
    ensures Run(s, [c, d]).0 == Step(Step(s, c).0, d).0
    ensures Run(s, [c, d]).1 == Step(s, c).1 + Step(Step(s, c).0, d).1
    ensures Step(s, c).1 == "" ==> Run(s, [c, d]).1 == Step(Step(s, c).0, d).1
  {
    assert [c, d][1..] == [d];
    RunOne(Step(s, c).0, d);
    assert "" + Step(Step(s, c).0, d).1 == Step(Step(s, c).0, d).1;
  }

  lemma RunPart(q: char, p: Part)
    requires OpensLiteral(q) && PartOf(q, p)
    ensures Run(In(Toggle(Code, q)), ShowPart(p)) == (In(Toggle(Code, q)), BlankPart(p))
  {
    match p
    case Ch(c) =>
      RunOne(In(Toggle(Code, q)), c);
      assert "" + "\n" == "\n";
    case Esc(c) =>
      RunTwo(In(Toggle(Code, q)), '\\', c);
      assert "" + "\n" == "\n";
  }

  lemma {:induction false} RunParts(q: char, parts: seq<Part>)
    requires OpensLiteral(q) && PartsOf(q, parts)
    ensures Run(In(Toggle(Code, q)), ShowParts(parts)) == (In(Toggle(Code, q)), BlankParts(parts))
    decreases |parts|
  {
    if parts != [] {
      RunPart(q, parts[0]);
      RunParts(q, parts[1..]);
      RunJoins(In(Toggle(Code, q)), ShowPart(parts[0]), ShowParts(parts[1..]));
    }
  }

  lemma RunLiteral(q: char, parts: seq<Part>)
    requires OpensLiteral(q) && PartsOf(q, parts)
    ensures Run(In(Code), Show(Literal(q, parts))) == (In(Code), Kept(Literal(q, parts)))
  {
    RunOne(In(Code), q);
    RunParts(q, parts);
    RunOne(In(Toggle(Code, q)), q);
    RunJoins(In(Code), [q], ShowParts(parts));
    RunJoins(In(Code), [q] + ShowParts(parts), [q]);
  }

  lemma {:induction false} RunBlock(s: State, body: string)
    requires s == In(Block) || (s == Star && !At(body, 0, '/'))
    requires NeverCloses(body)
    ensures Run(s, body + "*/") == (In(Code), LineBreaks(body))
    decreases |body|
  {
    var text := body + "*/";
    if body == "" {
      assert text == ['*', '/'];
      RunTwo(s, '*', '/');
    } else {
      assert text[1..] == body[1..] + "*/" && text[0] == body[0];
      assert NeverCloses(body[1..]);
      RunBlock(Step(s, body[0]).0, body[1..]);
      assert "" + LineBreaks(body[1..]) == LineBreaks(body[1..]) && "" + "\n" == "\n";
    }
  }

  lemma RunBlockComment(body: string)
    requires NeverCloses(body)
    ensures Run(In(Code), Show(BlockComment(body))) == (In(Code), LineBreaks(body))
  {
    RunTwo(In(Code), '/', '*');
    RunBlock(In(Block), body);
    RunJoins(In(Code), ['/', '*'], body + "*/");
    assert ['/', '*'] + (body + "*/") == Show(BlockComment(body));
    assert "" + LineBreaks(body) == LineBreaks(body);
  }

  lemma {:induction false} RunOpenBlock(s: State, body: string)
    requires s == In(Block) || (s == Star && !At(body, 0, '/'))
    requires NeverCloses(body)
    ensures Run(s, body).1 == LineBreaks(body) && Flush(Run(s, body).0) == ""
    decreases |body|
  {
    if body != "" {
      assert NeverCloses(body[1..]);
      RunOpenBlock(Step(s, body[0]).0, body[1..]);
      assert "" + LineBreaks(body[1..]) == LineBreaks(body[1..]) && "" + "\n" == "\n";
    }
  }

  lemma RunOpenComment(body: string)
    requires NeverCloses(body)
    ensures Run(In(Code), Show(OpenComment(body))).1 == LineBreaks(body)
    ensures Flush(Run(In(Code), Show(OpenComment(body))).0) == ""
  {
    RunTwo(In(Code), '/', '*');
    RunOpenBlock(In(Block), body);
    RunJoins(In(Code), ['/', '*'], body);
    assert "" + LineBreaks(body) == LineBreaks(body);
  }

  lemma RunLineComment(body: string)
    requires OneLine(body)
    ensures Run(In(Code), Show(LineComment(body))) == (Comment, "")
  {
    RunTwo(In(Code), '/', '/');
    CommentIsSilent(body);
    RunJoins(In(Code), ['/', '/'], body);
    assert "" + "" == "";
  }

  lemma RunOpenLiteral(q: char, parts: seq<Part>, backslash: bool)
    requires OpensLiteral(q) && PartsOf(q, parts)
    ensures Run(In(Code), Show(OpenLiteral(q, parts, backslash)))
         == (if backslash then Skipping(Toggle(Code, q)) else In(Toggle(Code, q)), " " + BlankParts(parts))
  {
    RunOne(In(Code), q);
    RunParts(q, parts);
    RunJoins(In(Code), [q], ShowParts(parts));
    if backslash {
      RunOne(In(Toggle(Code, q)), '\\');
      RunJoins(In(Code), [q] + ShowParts(parts), "\\");
      assert " " + BlankParts(parts) + "" == " " + BlankParts(parts);
    } else {
      assert [q] + ShowParts(parts) + "" == [q] + ShowParts(parts);
    }
  }

  lemma OutputJoins(s: State, a: string, b: string)
    ensures Output(s, a + b) == Run(s, a).1 + Output(Run(s, a).0, b)
  {
    RunJoins(s, a, b);
    var mid := Run(s, a).0;
    Sequences.Assoc(Run(s, a).1, Run(mid, b).1, Flush(Run(mid, b).0));
  }

  // At the end of a line, states with nothing pending that go on in code are alike.
  lemma LineEndAlike(s: State, rest: string)
    requires Flush(s) == "" && (rest == "" || (rest[0] == '\n' && AtLineEnd(s) == Code))
    ensures Output(s, rest) == Output(In(Code), rest)
  {
    if rest != "" {
      assert Step(s, '\n') == Step(In(Code), '\n');
    }
  }

  lemma ClosedToken(t: Token, rest: string)
    requires Run(In(Code), Show(t)) == (In(Code), Kept(t))
    ensures Output(In(Code), Show(t) + rest) == Kept(t) + Output(In(Code), rest)
  {
    OutputJoins(In(Code), Show(t), rest);
  }

  lemma OpenToken(t: Token, rest: string)
    requires Run(In(Code), Show(t)).1 == Kept(t) && Flush(Run(In(Code), Show(t)).0) == ""
    requires rest == "" || (rest[0] == '\n' && AtLineEnd(Run(In(Code), Show(t)).0) == Code)
    ensures Output(In(Code), Show(t) + rest) == Kept(t) + Output(In(Code), rest)
  {
    OutputJoins(In(Code), Show(t), rest);
    LineEndAlike(Run(In(Code), Show(t)).0, rest);
  }

  // A token in front of a text it fits adds what is kept of it.
  lemma TokenOutput(t: Token, rest: string)
    requires Fits(t, rest)
    ensures Output(In(Code), Show(t) + rest) == Kept(t) + Output(In(Code), rest)
  {
    hide Run, Output, Step;
    match t
    case Plain(c) =>
      RunPlain(c);
      ClosedToken(t, rest);
    case Slash =>
      RunSlash();
      OutputJoins(In(Code), "/", rest);
      PendingSlash(rest);
      Sequences.Empty("/" + Output(In(Code), rest));
    case CodeEscape(c) =>
      RunEscape(c);
      ClosedToken(t, rest);
    case LoneBackslash =>
      RunBackslash();
      OpenToken(t, rest);
    case Literal(q, parts) =>
      RunLiteral(q, parts);
      ClosedToken(t, rest);
    case OpenLiteral(q, parts, backslash) =>
      RunOpenLiteral(q, parts, backslash);
      OpenToken(t, rest);
    case BlockComment(body) =>
      RunBlockComment(body);
      ClosedToken(t, rest);
    case OpenComment(body) =>
      RunOpenComment(body);
      OpenToken(t, rest);
    case LineComment(body) =>
      RunLineComment(body);
      OpenToken(t, rest);
    case LineEnd =>
      RunLineEnd();
      ClosedToken(t, rest);
  }

  lemma RunPlain(c: char)
    requires IsSymbol(c)
    ensures Run(In(Code), [c]) == (In(Code), [c])
  {
    RunOne(In(Code), c);
  }

  lemma RunSlash()
    ensures Run(In(Code), "/") == (State.Slash, "")
  {
    RunOne(In(Code), '/');
  }

  lemma RunEscape(c: char)
    requires c != '\n'
    ensures Run(In(Code), ['\\', c]) == (In(Code), "")
  {
    RunTwo(In(Code), '\\', c);
  }

  lemma RunBackslash()
    ensures Run(In(Code), "\\") == (Skipping(Code), "")
  {
    RunOne(In(Code), '\\');
  }

  lemma RunLineEnd()
    ensures Run(In(Code), "\n") == (In(Code), "\n")
  {
    RunOne(In(Code), '\n');
    assert "" + "\n" == "\n";
  }

  // ---------- All texts ----------

  lemma {:induction false} TokensOutput(tokens: seq<Token>, rest: string)
    requires WellFormed(tokens, rest)
    ensures Output(In(Code), ShowAll(tokens) + rest) == KeptAll(tokens) + Output(In(Code), rest)
    decreases |tokens|
  {
    hide Output, Fits, Show, Kept;
    if tokens == [] {
      Sequences.Empty(rest);
      Sequences.Empty(Output(In(Code), rest));
    } else {
      var more := ShowAll(tokens[1..]);
      TokenOutput(tokens[0], more + rest);
      TokensOutput(tokens[1..], rest);
      Sequences.Assoc(Show(tokens[0]), more, rest);
      Sequences.Assoc(Kept(tokens[0]), KeptAll(tokens[1..]), Output(In(Code), rest));
    }
  }

  // Stripping a text keeps its code and line structure and nothing of what its literals and comments
  // say, as far as the scanner sees them.
  lemma StripKeepsCodeOnly(tokens: seq<Token>, rest: string)
    requires WellFormed(tokens, rest)
    ensures JoinLines(Stripped(ShowAll(tokens) + rest)) == KeptAll(tokens) + JoinLines(Stripped(rest))
  {
    StripIsRun(ShowAll(tokens) + rest);
    StripIsRun(rest);
    TokensOutput(tokens, rest);
  }

  lemma OneMoreToken(t: Token, tokens: seq<Token>)
    requires Fits(t, ShowAll(tokens)) && WellFormed(tokens, "")
    ensures WellFormed([t] + tokens, "") && ShowAll([t] + tokens) == Show(t) + ShowAll(tokens)
  {
    assert ([t] + tokens)[1..] == tokens && ShowAll(tokens) + "" == ShowAll(tokens);
  }

  // The literal at the start of a text, behind its opening quote.
  lemma {:induction false} ScanLiteral(q: char, text: string)
    returns (parts: seq<Part>, closed: bool, backslash: bool, rest: string)
    requires OpensLiteral(q)
    ensures PartsOf(q, parts)
    ensures text == ShowParts(parts) + (if closed then [q] else if backslash then "\\" else "") + rest
    ensures !closed ==> if q == '`' then rest == "" else EndsLine(rest)
    decreases |text|
  {
    parts, closed, backslash, rest := [], false, false, text;
    if text == "" || (text[0] == '\n' && q != '`') {
      assert text == "" + "" + text;
    } else if text[0] == q {
      closed, rest := true, text[1..];
      assert text == "" + [q] + rest;
    } else if text[0] != '\\' {
      parts, closed, backslash, rest := ScanLiteral(q, text[1..]);
      OnePartMore(q, Ch(text[0]), parts, if closed then [q] else if backslash then "\\" else "", rest);
      assert text == ShowPart(Ch(text[0])) + text[1..];
      parts := [Ch(text[0])] + parts;
    } else if |text| == 1 || (text[1] == '\n' && q != '`') {
      backslash, rest := true, text[1..];
      assert text == "" + "\\" + rest;
    } else {
      parts, closed, backslash, rest := ScanLiteral(q, text[2..]);
      OnePartMore(q, Esc(text[1]), parts, if closed then [q] else if backslash then "\\" else "", rest);
      assert text == ShowPart(Esc(text[1])) + text[2..];
      parts := [Esc(text[1])] + parts;
    }
  }

  lemma OnePartMore(q: char, p: Part, parts: seq<Part>, end: string, rest: string)
    requires PartOf(q, p) && PartsOf(q, parts)
    ensures PartsOf(q, [p] + parts)
    ensures ShowParts([p] + parts) + end + rest == ShowPart(p) + (ShowParts(parts) + end + rest)
  {
    assert ([p] + parts)[1..] == parts;
  }

  lemma {:induction false} ScanLine(text: string) returns (body: string, rest: string)
    ensures text == body + rest && OneLine(body) && EndsLine(rest)
  {
    body, rest := "", text;
    if !EndsLine(text) {
      body, rest := ScanLine(text[1..]);
      body := [text[0]] + body;
    }
  }

  lemma {:induction false} ScanBlock(text: string) returns (body: string, closed: bool, rest: string)
    ensures text == body + (if closed then "*/" else "") + rest && NeverCloses(body)
    ensures !closed ==> rest == ""
    ensures body != "" ==> text != "" && body[0] == text[0]
    ensures body == "" ==> text == "" || (closed && text[0] == '*')
    decreases |text|
  {
    body, closed, rest := "", false, "";
    if text == "" {
    } else if text[0] == '*' && At(text, 1, '/') {
      closed, rest := true, text[2..];
    } else {
      body, closed, rest := ScanBlock(text[1..]);
      assert text == [text[0]] + text[1..];
      body := [text[0]] + body;
    }
  }

  // Every text is a sequence of tokens.
  lemma {:induction false} EveryTextIsTokens(text: string) returns (tokens: seq<Token>)
    ensures WellFormed(tokens, "") && ShowAll(tokens) == text
    decreases |text|
  {
    if text == "" {
      tokens := [];
    } else {
      var t, rest := FirstToken(text);
      tokens := EveryTextIsTokens(rest);
      OneMoreToken(t, tokens);
      tokens := [t] + tokens;
    }
  }

  lemma FirstToken(text: string) returns (t: Token, rest: string)
    requires text != ""
    ensures text == Show(t) + rest && Fits(t, rest) && |rest| < |text|
  {
    t, rest := Plain(text[0]), text[1..];
    if text[0] == '\n' {
      t := LineEnd;
    } else if text[0] == '\\' {
      if EndsLine(rest) {
        t := LoneBackslash;
      } else {
        t, rest := CodeEscape(text[1]), text[2..];
      }
    } else if OpensLiteral(text[0]) {
      var parts, closed, backslash;
      parts, closed, backslash, rest := ScanLiteral(text[0], text[1..]);
      t := if closed then Literal(text[0], parts) else OpenLiteral(text[0], parts, backslash);
      QuoteShown(text, parts, if closed then [text[0]] else if backslash then "\\" else "", rest);
    } else if text[0] == '/' {
      t, rest := FirstAfterSlash(text);
    }
  }

  lemma QuoteShown(text: string, parts: seq<Part>, end: string, rest: string)
    requires text != "" && text[1..] == ShowParts(parts) + end + rest
    ensures text == [text[0]] + ShowParts(parts) + end + rest
  {
    assert text == [text[0]] + text[1..];
  }

  lemma FirstAfterSlash(text: string) returns (t: Token, rest: string)
    requires text != "" && text[0] == '/'
    ensures text == Show(t) + rest && Fits(t, rest) && |rest| < |text|
  {
    t, rest := Token.Slash, text[1..];
    assert text == "/" + rest;
    if At(rest, 0, '/') {
      var body;
      body, rest := ScanLine(text[2..]);
      t := LineComment(body);
      assert text == "//" + text[2..] == "//" + body + rest;
    } else if At(rest, 0, '*') {
      var body, closed;
      body, closed, rest := ScanBlock(text[2..]);
      t := if closed then BlockComment(body) else OpenComment(body);
      assert text == "/*" + text[2..];
      assert "/*" + (body + (if closed then "*/" else "") + rest) == "/*" + body + (if closed then "*/" else "") + rest;
      assert !closed ==> "/*" + body + "" + rest == "/*" + body + rest;
    }
  }

  // What is left of any text: what is kept of its tokens.
  lemma StripOfAnyText(text: string) returns (tokens: seq<Token>)
    ensures WellFormed(tokens, "") && ShowAll(tokens) == text
    ensures JoinLines(Stripped(text)) == KeptAll(tokens)
  {
    tokens := EveryTextIsTokens(text);
    StripKeepsCodeOnly(tokens, "");
    assert text + "" == text;
    StripIsRun("");
    assert KeptAll(tokens) + "" == KeptAll(tokens);
  }

  // ---------- A slash in front of a quote ----------

  function Blanks(n: nat): string {
    seq(n, _ => ' ')
  }

  lemma {:induction false} CharsBlank(line: string) returns (parts: seq<Part>)
    requires forall i :: 0 <= i < |line| ==> line[i] != '\\' && line[i] != '\n'
    ensures ShowParts(parts) == line && BlankParts(parts) == Blanks(|line|)
    ensures forall i :: 0 <= i < |parts| ==> parts[i].Ch? && parts[i].c in line
  {
    parts := [];
    if line != "" {
      var more := CharsBlank(line[1..]);
      parts := [Ch(line[0])] + more;
      assert parts[1..] == more && line == [line[0]] + line[1..];
      assert " " + Blanks(|line| - 1) == Blanks(|line|);
    }
  }

  // A regular expression that tests for a quote, like /"/g, opens a string for the scanner: if the
  // quote does not occur again on the line, all code up to the line's end is blanked.
  lemma QuoteAfterSlashBlanksLine(before: seq<Token>, q: char, line: string, rest: string)
    requires (q == '\'' || q == '\"') && EndsLine(rest) && WellFormed(before, "/" + [q] + line + rest)
    requires forall i :: 0 <= i < |line| ==> line[i] != q && line[i] != '\\' && line[i] != '\n'
    ensures JoinLines(Stripped(ShowAll(before) + ("/" + [q] + line + rest)))
         == KeptAll(before) + ("/" + Blanks(1 + |line|) + JoinLines(Stripped(rest)))
  {
    hide Stripped, JoinLines, WellFormed, ShowAll, KeptAll, Blanks;
    StripKeepsCodeOnly(before, "/" + [q] + line + rest);
    SlashAndQuote(q, line, rest);
  }

  lemma SlashAndQuote(q: char, line: string, rest: string)
    requires (q == '\'' || q == '\"') && EndsLine(rest)
    requires forall i :: 0 <= i < |line| ==> line[i] != q && line[i] != '\\' && line[i] != '\n'
    ensures JoinLines(Stripped("/" + [q] + line + rest)) == "/" + Blanks(1 + |line|) + JoinLines(Stripped(rest))
  {
    hide Stripped, JoinLines, Blanks;
    Sequences.Assoc("/", [q], line);
    Sequences.Assoc("/", [q] + line, rest);
    assert ([q] + line + rest)[0] == q;
    SlashAlone([q] + line + rest);
    QuoteAlone(q, line, rest);
    Sequences.Assoc("/", Blanks(1 + |line|), JoinLines(Stripped(rest)));
  }

  lemma QuoteAlone(q: char, line: string, rest: string)
    requires (q == '\'' || q == '\"') && EndsLine(rest)
    requires forall i :: 0 <= i < |line| ==> line[i] != q && line[i] != '\\' && line[i] != '\n'
    ensures JoinLines(Stripped([q] + line + rest)) == Blanks(1 + |line|) + JoinLines(Stripped(rest))
  {
    var parts := CharsBlank(line);
    var open := OpenLiteral(q, parts, false);
    assert Show(open) == [q] + line;
    assert Kept(open) == Blanks(1 + |line|);
    hide Stripped, JoinLines;
    TokenAlone(open, rest);
  }

  lemma TokenAlone(t: Token, rest: string)
    requires Fits(t, rest)
    ensures JoinLines(Stripped(Show(t) + rest)) == Kept(t) + JoinLines(Stripped(rest))
  {
    StripIsRun(Show(t) + rest);
    StripIsRun(rest);
    TokenOutput(t, rest);
  }

  lemma SlashAlone(rest: string)
    requires !At(rest, 0, '/') && !At(rest, 0, '*')
    ensures JoinLines(Stripped("/" + rest)) == "/" + JoinLines(Stripped(rest))
  {
    TokenAlone(Token.Slash, rest);
  }
}
