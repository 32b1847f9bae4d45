/**
 * scripts/lint-magic-numbers.ts, stripFile: blanks strings and removes comments line by line,
 * carrying template and block comment state from one line to the next.
 *
 * The scanner looks ahead within a line. Its reference is a machine that reads one character at a
 * time, on which the meaning of the result is easy to state.
 */
module StripFile {
  import Sequences
  import opened StringLiterals

  // What the scanner is inside of.
  datatype Mode = Code | Single | Double | Template | Block

  // ---------- The scanner, line by line ----------

  // The mode after an ordinary character; quotes open and close literals.
  function Toggle(mode: Mode, ch: char): Mode {
    match mode
    case Code => if ch == '\'' then Single else if ch == '\"' then Double else if ch == '`' then Template else Code
    case Single => if ch == '\'' then Code else Single
    case Double => if ch == '\"' then Code else Double
    case Template => if ch == '`' then Code else Template
    case Block => Block
  }

  function Drop(line: string, n: nat): (rest: string)
    ensures n > 0 && line != "" ==> |rest| < |line|
  {
    if n <= |line| then line[n..] else ""
  }

  function At(line: string, i: nat, ch: char): bool {
    i < |line| && line[i] == ch
  }

  // What is left of the rest of a line, and the mode at its end.
  ghost function LexLine(line: string, mode: Mode): (r: (string, Mode))
    ensures |r.0| <= |line|
    decreases |line|
  {
    if line == "" then ("", mode)
    else if mode.Block? then
      if line[0] == '*' && At(line, 1, '/') then LexLine(line[2..], Code) else LexLine(line[1..], Block)
    else if mode.Code? && line[0] == '/' && At(line, 1, '/') then ("", Code)
    else if mode.Code? && line[0] == '/' && At(line, 1, '*') then LexLine(line[2..], Block)
    else if line[0] == '\\' then LexLine(Drop(line, 2), mode)
    else
      var next := Toggle(mode, line[0]);
      var r := LexLine(line[1..], next);
      ([if next.Code? then line[0] else ' '] + r.0, r.1)
  }

  // Single and double quotes never span lines.
  function NextLine(mode: Mode): Mode {
    if mode.Single? || mode.Double? then Code else mode
  }

  ghost function LexLines(lines: seq<string>, mode: Mode): (out: seq<string>)
    ensures |out| == |lines|
    ensures forall i :: 0 <= i < |lines| ==> |out[i]| <= |lines[i]|
  {
    if lines == [] then [] else
      var r := LexLine(lines[0], NextLine(mode));
      [r.0] + LexLines(lines[1..], r.1)
  }

  ghost function ModeAfter(lines: seq<string>, mode: Mode): Mode {
    if lines == [] then mode else ModeAfter(lines[1..], LexLine(lines[0], NextLine(mode)).1)
  }

  // The text between the line ends.
  function SplitLines(src: string): (lines: seq<string>)
    ensures |lines| > 0
  {
    if src == "" then [""]
    else
      var rest := SplitLines(src[1..]);
      if src[0] == '\n' then [""] + rest else [[src[0]] + rest[0]] + rest[1..]
  }

  ghost function Stripped(src: string): (lines: seq<string>)
    ensures |lines| > 0
  {
    LexLines(SplitLines(src), Code)
  }

  // ---------- The script's loops ----------

  // How the four flags encode the mode: at most one of them is set.
  ghost predicate Encodes(inSingle: bool, inDouble: bool, inBack: bool, inBlock: bool, mode: Mode) {
    && inSingle == mode.Single? && inDouble == mode.Double? && inBack == mode.Template? && inBlock == mode.Block?
  }

  method Strip(src: string) returns (out: seq<string>)
    ensures out == Stripped(src)
  {
    hide LexLine, SplitLines;
    out := [];
    var inBack, inBlock := false, false;
    var lines := SplitLines(src);
    ghost var mode := Code;
    assert lines[0..] == lines;
    for n := 0 to |lines|
      invariant Encodes(false, false, inBack, inBlock, NextLine(mode))
      invariant out + LexLines(lines[n..], mode) == Stripped(src)
    {
      assert lines[n..][1..] == lines[n + 1..];
      var stripped;
      ghost var next := LexLine(lines[n], NextLine(mode)).1;
      stripped, inBack, inBlock := StripLine(lines[n], inBack, inBlock, NextLine(mode));
      mode := next;
      AppendLine(out, stripped, LexLines(lines[n + 1..], mode));
      out := out + [stripped];
    }
  }

  lemma AppendLine(a: seq<string>, line: string, b: seq<string>)
    ensures a + ([line] + b) == a + [line] + b
  {
  }

  // The inner loop. The string flags start out false on every line.
  method StripLine(line: string, inBack0: bool, inBlock0: bool, ghost mode: Mode)
    returns (stripped: string, inBack: bool, inBlock: bool)
    requires Encodes(false, false, inBack0, inBlock0, mode)
    ensures stripped == LexLine(line, mode).0
    ensures Encodes(false, false, inBack, inBlock, NextLine(LexLine(line, mode).1))
  {
    hide LexLine, Drop;
    LexEnds(line);
    var inSingle, inDouble := false, false;
    inBack, inBlock := inBack0, inBlock0;
    stripped := "";
    var i := 0;
    ghost var m := mode;
    while i < |line|
      invariant 0 <= i
      invariant Encodes(inSingle, inDouble, inBack, inBlock, m)
      invariant stripped + LexLine(Drop(line, i), m).0 == LexLine(line, mode).0
      invariant LexLine(Drop(line, i), m).1 == LexLine(line, mode).1
    {
      LexAt(line, i, m);
      var ch := line[i];
      if inBlock {
        if ch == '*' && At(line, i + 1, '/') {
          inBlock := false;
          m := Code;
          i := i + 2;
          continue;
        }
        i := i + 1;
        continue;
      }
      if !inSingle && !inDouble && !inBack && ch == '/' && At(line, i + 1, '/') {
        assert stripped + "" == stripped;
        break;
      }
      if !inSingle && !inDouble && !inBack && ch == '/' && At(line, i + 1, '*') {
        inBlock := true;
        m := Block;
        i := i + 2;
        continue;
      }
      if ch == '\\' {
        i := i + 2;
        continue;
      }
      if !inDouble && !inBack && ch == '\'' {
        inSingle := !inSingle;
      } else if !inSingle && !inBack && ch == '\"' {
        inDouble := !inDouble;
      } else if !inSingle && !inDouble && ch == '`' {
        inBack := !inBack;
      }
      m := Toggle(m, ch);
      Append(stripped, if m.Code? then ch else ' ', LexLine(Drop(line, i + 1), m).0);
      if !inSingle && !inDouble && !inBack {
        stripped := stripped + [ch];
      } else {
        stripped := stripped + " ";
      }
      i := i + 1;
    }
    if i >= |line| {
      assert LexLine(Drop(line, i), m) == ("", m);
      assert stripped + "" == stripped;
    }
  }

  lemma Append(a: string, ch: char, b: string)
    ensures a + ([ch] + b) == a + [ch] + b
    ensures forall c: string :: c + "" == c
  {
  }

  lemma LexEnds(line: string)
    ensures Drop(line, 0) == line
    ensures forall i: nat, m :: i >= |line| ==> LexLine(Drop(line, i), m) == ("", m)
  {
  }

  // One step of the scanner at position i.
  lemma LexAt(line: string, i: nat, m: Mode)
    requires i < |line|
    ensures LexLine(Drop(line, i), m) ==
            if m.Block? then
              if line[i] == '*' && At(line, i + 1, '/') then LexLine(Drop(line, i + 2), Code)
              else LexLine(Drop(line, i + 1), Block)
            else if m.Code? && line[i] == '/' && At(line, i + 1, '/') then ("", Code)
            else if m.Code? && line[i] == '/' && At(line, i + 1, '*') then LexLine(Drop(line, i + 2), Block)
            else if line[i] == '\\' then LexLine(Drop(line, i + 2), m)
            else
              var next := Toggle(m, line[i]);
              var r := LexLine(Drop(line, i + 1), next);
              ([if next.Code? then line[i] else ' '] + r.0, r.1)
  {
    var rest := Drop(line, i);
    assert rest[0] == line[i] && rest[1..] == Drop(line, i + 1) && Drop(rest, 2) == Drop(line, i + 2);
    assert forall ch :: At(rest, 1, ch) == At(line, i + 1, ch);
    assert |rest| > 1 ==> rest[2..] == Drop(line, i + 2);
  }

  // ---------- The reference: one character at a time ----------

  // Slash: a slash was read that may begin a comment. Star: a star was read that may end one.
  // Skipping: a backslash was read in the given mode. Comment: in a line comment.
  datatype State = In(mode: Mode) | Slash | Star | Skipping(mode: Mode) | Comment

  // What is still to be written when the line or the text ends.
  function Flush(s: State): string {
    if s.Slash? then "/" else ""
  }

  // The mode that goes on after the end of a line.
  function AtLineEnd(s: State): Mode {
    match s
    case In(mode) => NextLine(mode)
    case Skipping(mode) => NextLine(mode)
    case Star => Block
    case Slash => Code
    case Comment => Code
  }

  function StepIn(mode: Mode, ch: char): (State, string) {
    if mode.Block? then (if ch == '*' then Star else In(Block), "")
    else if ch == '\\' then (Skipping(mode), "")
    else if mode.Code? && ch == '/' then (Slash, "")
    else (In(Toggle(mode, ch)), if Toggle(mode, ch).Code? then [ch] else " ")
  }

  function Step(s: State, ch: char): (State, string) {
    if ch == '\n' then (In(AtLineEnd(s)), Flush(s) + "\n")
    else
      match s
      case In(mode) => StepIn(mode, ch)
      case Skipping(mode) => (In(mode), "")
      case Comment => (Comment, "")
      case Star => if ch == '/' then (In(Code), "") else StepIn(Block, ch)
      case Slash =>
        if ch == '/' then (Comment, "")
        else if ch == '*' then (In(Block), "")
        else (StepIn(Code, ch).0, "/" + StepIn(Code, ch).1)
  }

  // The machine's state and output after the text.
  ghost function Run(s: State, text: string): (State, string)
    decreases |text|
  {
    if text == "" then (s, "")
    else
      var first := Step(s, text[0]);
      var rest := Run(first.0, text[1..]);
      (rest.0, first.1 + rest.1)
  }

  ghost function Output(s: State, text: string): string {
    Run(s, text).1 + Flush(Run(s, text).0)
  }

  // Reading one character.
  lemma RunStep(s: State, text: string)
    requires text != ""
    ensures var (next, written) := Step(s, text[0]);
            && Run(s, text).0 == Run(next, text[1..]).0
            && Output(s, text) == written + Output(next, text[1..])
            && (written == "" ==> Output(s, text) == Output(next, text[1..]))
  {
    var (next, written) := Step(s, text[0]);
    var rest := Run(next, text[1..]);
    assert written + rest.1 + Flush(rest.0) == written + (rest.1 + Flush(rest.0));
    assert written == "" ==> written + Output(next, text[1..]) == Output(next, text[1..]);
  }

  lemma {:induction false} RunJoins(s: State, a: string, b: string)
    ensures Run(s, a + b) == (Run(Run(s, a).0, b).0, Run(s, a).1 + Run(Run(s, a).0, b).1)
    decreases |a|
  {
    hide Step;
    if a == "" {
      Sequences.Empty(b);
      Sequences.Empty(Run(s, b).1);
    } else {
      Sequences.Tail(a, b);
      var (next, written) := Step(s, a[0]);
      RunJoins(next, a[1..], b);
      Sequences.Assoc(written, Run(next, a[1..]).1, Run(Run(next, a[1..]).0, b).1);
    }
  }

  ghost predicate OneLine(line: string) {
    forall i :: 0 <= i < |line| ==> line[i] != '\n'
  }

  lemma {:induction false} CommentIsSilent(line: string)
    requires OneLine(line)
    ensures Run(Comment, line) == (Comment, "")
  {
    if line != "" {
      CommentIsSilent(line[1..]);
      assert "" + "" == "";
    }
  }

  // A pending star matters only for a slash right after it.
  lemma PendingStar(rest: string)
    requires OneLine(rest) && !At(rest, 0, '/')
    ensures Output(Star, rest) == Output(In(Block), rest)
    ensures AtLineEnd(Run(Star, rest).0) == AtLineEnd(Run(In(Block), rest).0)
  {
    if rest != "" {
      assert Step(Star, rest[0]) == Step(In(Block), rest[0]);
    }
  }

  // A pending slash matters only for a slash or a star right after it.
  lemma PendingSlash(rest: string)
    requires !At(rest, 0, '/') && !At(rest, 0, '*')
    ensures Output(Slash, rest) == "/" + Output(In(Code), rest)
    ensures AtLineEnd(Run(Slash, rest).0) == AtLineEnd(Run(In(Code), rest).0)
  {
    if rest == "" {
      assert "/" + "" == "/" && "" + "" == "";
    } else {
      SlashThenOther(rest[0]);
      var (next, written) := Step(In(Code), rest[0]);
      hide Step, StepIn, Run, Output;
      RunStep(Slash, rest);
      RunStep(In(Code), rest);
      Sequences.Assoc("/", written, Output(next, rest[1..]));
    }
  }

  lemma SlashThenOther(ch: char)
    requires ch != '/' && ch != '*'
    ensures Step(Slash, ch) == (Step(In(Code), ch).0, "/" + Step(In(Code), ch).1)
  {
    assert "" + "\n" == "\n";
  }

  // Within a line, the machine and the scanner agree.
  lemma {:induction false} LexIsRun(line: string, mode: Mode)
    requires OneLine(line)
    ensures Output(In(mode), line) == LexLine(line, mode).0
    ensures AtLineEnd(Run(In(mode), line).0) == NextLine(LexLine(line, mode).1)
    decreases |line|
  {
    if line == "" {
      assert "" + "" == "";
      return;
    }
    RunStep(In(mode), line);
    if mode.Block? && line[0] == '*' {
      LexIsRunAfterStar(line);
    } else if !mode.Block? && line[0] == '\\' {
      if |line| > 1 {
        RunStep(Skipping(mode), line[1..]);
        LexIsRun(line[2..], mode);
        assert line[1..][1..] == line[2..];
      } else {
        assert "" + "" == "";
      }
    } else if mode.Code? && line[0] == '/' {
      LexIsRunAfterSlash(line);
    } else {
      LexIsRun(line[1..], if mode.Block? then Block else Toggle(mode, line[0]));
    }
  }

  lemma {:induction false} LexIsRunAfterStar(line: string)
    requires OneLine(line) && line != "" && line[0] == '*'
    ensures Output(In(Block), line) == LexLine(line, Block).0
    ensures AtLineEnd(Run(In(Block), line).0) == NextLine(LexLine(line, Block).1)
    decreases |line|, 0
  {
    var rest := line[1..];
    RunStep(In(Block), line);
    if At(rest, 0, '/') {
      RunStep(Star, rest);
      LexIsRun(line[2..], Code);
      assert rest[1..] == line[2..];
    } else {
      PendingStar(rest);
      LexIsRun(rest, Block);
    }
  }

  lemma {:induction false} LexIsRunAfterSlash(line: string)
    requires OneLine(line) && line != "" && line[0] == '/'
    ensures Output(In(Code), line) == LexLine(line, Code).0
    ensures AtLineEnd(Run(In(Code), line).0) == NextLine(LexLine(line, Code).1)
    decreases |line|, 0
  {
    var rest := line[1..];
    assert |rest| > 0 ==> rest[1..] == line[2..] && rest[0] == line[1];
    assert Step(In(Code), '/') == (Slash, "");
    RunStep(In(Code), line);
    if At(rest, 0, '/') {
      assert Step(Slash, '/') == (Comment, "") && LexLine(line, Code) == ("", Code);
      RunStep(Slash, rest);
      CommentIsSilent(line[2..]);
      assert "" + "" == "";
    } else if At(rest, 0, '*') {
      assert Step(Slash, '*') == (In(Block), "") && LexLine(line, Code) == LexLine(line[2..], Block);
      RunStep(Slash, rest);
      LexIsRun(line[2..], Block);
    } else {
      assert Toggle(Code, '/') == Code;
      assert LexLine(line, Code) == ("/" + LexLine(rest, Code).0, LexLine(rest, Code).1);
      hide LexLine, Step, Run, Output;
      PendingSlash(rest);
      LexIsRun(rest, Code);
    }
  }

  // ---------- Whole files ----------

  function JoinLines(lines: seq<string>): string
    requires |lines| > 0
  {
    if |lines| == 1 then lines[0] else lines[0] + "\n" + JoinLines(lines[1..])
  }

  lemma {:induction false} SplitJoins(src: string)
    ensures JoinLines(SplitLines(src)) == src
    ensures forall i :: 0 <= i < |SplitLines(src)| ==> OneLine(SplitLines(src)[i])
  {
    if src != "" {
      SplitJoins(src[1..]);
      var rest := SplitLines(src[1..]);
      if src[0] != '\n' {
        assert ([[src[0]] + rest[0]] + rest[1..])[1..] == rest[1..];
      } else {
        assert ([""] + rest)[1..] == rest;
      }
    }
  }

  lemma {:induction false} LinesAreRun(lines: seq<string>, mode: Mode)
    requires |lines| > 0 && forall i :: 0 <= i < |lines| ==> OneLine(lines[i])
    ensures JoinLines(LexLines(lines, mode)) == Output(In(NextLine(mode)), JoinLines(lines))
    ensures NextLine(ModeAfter(lines, mode)) == AtLineEnd(Run(In(NextLine(mode)), JoinLines(lines)).0)
    decreases |lines|
  {
    hide Run, Output, LexLine, OneLine, AtLineEnd;
    var m := NextLine(mode);
    var first := LexLine(lines[0], m);
    LexIsRun(lines[0], m);
    assert LexLines(lines, mode) == [first.0] + LexLines(lines[1..], first.1);
    if |lines| == 1 {
      assert lines[1..] == [];
    } else {
      LinesAreRun(lines[1..], first.1);
      RunOverLineEnd(m, lines[0], JoinLines(lines[1..]));
      JoinFirst(first.0, LexLines(lines[1..], first.1));
    }
  }

  lemma JoinFirst(line: string, lines: seq<string>)
    requires |lines| > 0
    ensures JoinLines([line] + lines) == line + "\n" + JoinLines(lines)
  {
    assert ([line] + lines)[1..] == lines;
  }

  lemma RunOverLineEnd(mode: Mode, line: string, more: string)
    ensures var next := In(AtLineEnd(Run(In(mode), line).0));
            && Run(In(mode), line + "\n" + more).0 == Run(next, more).0
            && Output(In(mode), line + "\n" + more) == Output(In(mode), line) + "\n" + Output(next, more)
  {
    var s := Run(In(mode), line).0;
    RunJoins(In(mode), line, "\n" + more);
    Sequences.Assoc(line, "\n", more);
    Sequences.Tail("\n", more);
    assert ("\n" + more)[1..] == more;
    RunStep(s, "\n" + more);
    var x, y, rest := Run(In(mode), line).1, Flush(s), Output(In(AtLineEnd(s)), more);
    assert Output(s, "\n" + more) == y + "\n" + rest;
    hide Run, Step;
    Sequences.Assoc(x, Run(s, "\n" + more).1, Flush(Run(s, "\n" + more).0));
    Sequences.Assoc(y, "\n", rest);
    Sequences.Assoc(x, y, "\n" + rest);
    Sequences.Assoc(x + y, "\n", rest);
  }

  // The scanner with its look-ahead and line state writes what the one-character machine writes.
  lemma StripIsRun(src: string)
    ensures JoinLines(Stripped(src)) == Output(In(Code), src)
  {
    SplitJoins(src);
    LinesAreRun(SplitLines(src), Code);
  }

  // A text that ends outside templates and block comments is scanned on its own.
  ghost predicate EndsInCode(src: string) {
    AtLineEnd(Run(In(Code), src).0) == Code
  }

  lemma {:induction false} SplitOverLineEnd(a: string, b: string)
    ensures SplitLines(a + "\n" + b) == SplitLines(a) + SplitLines(b)
    decreases |a|
  {
    var src := a + "\n" + b;
    if a == "" {
      assert src[1..] == b;
    } else {
      assert src[1..] == a[1..] + "\n" + b;
      SplitOverLineEnd(a[1..], b);
    }
  }

  lemma {:induction false} LexOverLines(x: seq<string>, y: seq<string>, mode: Mode)
    ensures LexLines(x + y, mode) == LexLines(x, mode) + LexLines(y, ModeAfter(x, mode))
    decreases |x|
  {
    if x == [] {
      assert x + y == y;
    } else {
      assert (x + y)[1..] == x[1..] + y;
      LexOverLines(x[1..], y, LexLine(x[0], NextLine(mode)).1);
    }
  }

  lemma StripComposes(a: string, b: string)
    requires EndsInCode(a)
    ensures Stripped(a + "\n" + b) == Stripped(a) + Stripped(b)
  {
    var x, y := SplitLines(a), SplitLines(b);
    SplitJoins(a);
    LinesAreRun(x, Code);
    SplitOverLineEnd(a, b);
    LexOverLines(x, y, Code);
    assert NextLine(ModeAfter(x, Code)) == NextLine(Code);
  }
}
