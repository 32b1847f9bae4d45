/**
 * src/scripts/import-roles.ts, parseCsv: the lenient reader of delimiter-separated text, and the
 * laws it obeys on the text of section 2 of RFC 4180.
 */
module Csv {
  type Row = seq<string>

  // A row is kept if some cell is not empty.
  function Kept(row: Row): seq<Row> {
    if exists k :: 0 <= k < |row| && |row[k]| > 0 then [row] else []
  }

  // What has been read of the current row and cell, and whether the cell is inside quotes.
  datatype Reader = Reader(row: Row, field: string, inQuotes: bool)

  const START := Reader([], "", false)

  // One turn of the loop: the row completed, if any, the characters used up, and the new state.
  datatype Turn = Turn(rows: seq<Row>, used: nat, reader: Reader)

  // The length of the row end at the start of the text: CR LF counts as one.
  function RowEnd(text: string): (n: nat)
    requires |text| > 0
    ensures 1 <= n <= |text|
  {
    if text[0] == '\r' && |text| > 1 && text[1] == '\n' then 2 else 1
  }

  // The delimiter is a JavaScript string compared with one character at a time.
  function Next(text: string, delimiter: string, r: Reader): (t: Turn)
    requires text != ""
    ensures 1 <= t.used <= |text|
  {
    if r.inQuotes then
      if text[0] == '\"' then
        if |text| > 1 && text[1] == '\"' then Turn([], 2, r.(field := r.field + "\""))
        else Turn([], 1, r.(inQuotes := false))
      else Turn([], 1, r.(field := r.field + [text[0]]))
    else if text[0] == '\"' then Turn([], 1, r.(inQuotes := true))
    else if [text[0]] == delimiter then Turn([], 1, Reader(r.row + [r.field], "", false))
    else if text[0] == '\n' || text[0] == '\r' then Turn(Kept(r.row + [r.field]), RowEnd(text), START)
    else Turn([], 1, r.(field := r.field + [text[0]]))
  }

  // The rows read from the text in the given state.
  ghost function Parse(text: string, delimiter: string, r: Reader): seq<Row>
    decreases |text|
  {
    if text == "" then Kept(r.row + [r.field])
    else
      var t := Next(text, delimiter, r);
      t.rows + Parse(text[t.used..], delimiter, t.reader)
  }

  // The state after the text.
  ghost function Final(text: string, delimiter: string, r: Reader): Reader
    decreases |text|
  {
    if text == "" then r
    else
      var t := Next(text, delimiter, r);
      Final(text[t.used..], delimiter, t.reader)
  }

  ghost function RowsOf(text: string, delimiter: string): seq<Row> {
    Parse(text, delimiter, START)
  }

  ghost predicate EndsQuoted(text: string, delimiter: string) {
    Final(text, delimiter, START).inQuotes
  }

  lemma OneTurn(text: string, delimiter: string, r: Reader)
    requires text != ""
    ensures var t := Next(text, delimiter, r);
            && Parse(text, delimiter, r) == t.rows + Parse(text[t.used..], delimiter, t.reader)
            && (t.rows == [] ==> Parse(text, delimiter, r) == Parse(text[t.used..], delimiter, t.reader))
            && Final(text, delimiter, r) == Final(text[t.used..], delimiter, t.reader)
  {
    var t := Next(text, delimiter, r);
    assert [] + Parse(text[t.used..], delimiter, t.reader) == Parse(text[t.used..], delimiter, t.reader);
  }

  method ParseCsv(text: string, delimiter: string) returns (rows: seq<Row>)
    ensures rows == RowsOf(text, delimiter)
  {
    hide Parse;
    rows := [];
    var row: Row := [];
    var field := "";
    var inQuotes := false;
    var i := 0;
    assert text[0..] == text && [] + RowsOf(text, delimiter) == RowsOf(text, delimiter);
    while i < |text|
      invariant 0 <= i <= |text|
      invariant rows + Parse(text[i..], delimiter, Reader(row, field, inQuotes)) == RowsOf(text, delimiter)
    {
      var ch := text[i];
      TurnAt(text, delimiter, Reader(row, field, inQuotes), i, rows);
      if inQuotes {
        if ch == '\"' {
          if i + 1 < |text| && text[i + 1] == '\"' {
            field := field + "\"";
            i := i + 1;
          } else {
            inQuotes := false;
          }
        } else {
          field := field + [ch];
        }
      } else if ch == '\"' {
        inQuotes := true;
      } else if [ch] == delimiter {
        row := row + [field];
        field := "";
      } else if ch == '\n' || ch == '\r' {
        if ch == '\r' && i + 1 < |text| && text[i + 1] == '\n' {
          i := i + 1;
        }
        row := row + [field];
        field := "";
        rows := rows + Kept(row);
        row := [];
      } else {
        field := field + [ch];
      }
      i := i + 1;
    }
    AtEnd(text, delimiter, Reader(row, field, inQuotes));
    row := row + [field];
    rows := rows + Kept(row);
  }

  lemma TurnAt(text: string, delimiter: string, r: Reader, i: nat, rows: seq<Row>)
    requires i < |text|
    ensures var rest := text[i..];
            var t := Next(rest, delimiter, r);
            && rest[0] == text[i] && (|rest| > 1 <==> i + 1 < |text|) && (|rest| > 1 ==> rest[1] == text[i + 1])
            && rows + Parse(rest, delimiter, r) == rows + t.rows + Parse(text[i + t.used..], delimiter, t.reader)
            && rows + [] == rows
  {
    hide Next, Parse;
    OneTurn(text[i..], delimiter, r);
    var t := Next(text[i..], delimiter, r);
    assert text[i..][t.used..] == text[i + t.used..];
    var more := Parse(text[i + t.used..], delimiter, t.reader);
    assert rows + (t.rows + more) == rows + t.rows + more;
  }

  lemma AtEnd(text: string, delimiter: string, r: Reader)
    ensures Parse(text[|text|..], delimiter, r) == Kept(r.row + [r.field])
  {
  }

  // ---------- Composition ----------

  const LF := "\n"
  const CR := "\r"
  const CRLF := "\r\n"

  ghost predicate IsEol(e: string) {
    e == LF || e == CR || e == CRLF
  }

  // A turn within a text goes on in the same way before more text, unless it looks at what follows.
  lemma NextOfMore(a: string, rest: string, delimiter: string, r: Reader)
    requires a != ""
    requires |a| > 1 || !r.inQuotes || a[0] != '\"' || !StartsWith(rest, '\"')
    requires |a| > 1 || r.inQuotes || a[0] != '\r' || delimiter == CR || !StartsWith(rest, '\n')
    ensures Next(a + rest, delimiter, r) == Next(a, delimiter, r)
    ensures (a + rest)[Next(a, delimiter, r).used..] == a[Next(a, delimiter, r).used..] + rest
  {
    var text := a + rest;
    assert text[0] == a[0] && (|a| > 1 ==> text[1] == a[1]) && (|a| == 1 && rest != "" ==> text[1] == rest[0]);
  }

  predicate StartsWith(text: string, ch: char) {
    text != "" && text[0] == ch
  }

  // A row end outside quotes separates the text into two that are read one by one.
  lemma {:induction false} RowEndSeparates(a: string, e: string, b: string, delimiter: string, r: Reader)
    requires IsEol(e) && !Final(a, delimiter, r).inQuotes
    requires delimiter != LF && (e != LF ==> delimiter != CR)
    ensures Parse(a + (e + b), delimiter, r) == Parse(a, delimiter, r) + RowsOf(b, delimiter)
    decreases |a|
  {
    hide Next, Kept, Parse, Final;
    if a == "" {
      assert a + (e + b) == e + b;
      NothingRead(delimiter, r);
      RowEndFirst(e, b, delimiter, r);
    } else if a == CR && e == LF && !r.inQuotes && delimiter != CR {
      CarriageReturnBeforeLineFeed(b, delimiter, r);
    } else {
      var t := Next(a, delimiter, r);
      assert (e + b)[0] == e[0];
      NextOfMore(a, e + b, delimiter, r);
      OneTurn(a, delimiter, r);
      OneTurn(a + (e + b), delimiter, r);
      RowEndSeparates(a[t.used..], e, b, delimiter, t.reader);
      var x, y := Parse(a[t.used..], delimiter, t.reader), RowsOf(b, delimiter);
      assert t.rows + (x + y) == t.rows + x + y;
    }
  }

  lemma NothingRead(delimiter: string, r: Reader)
    ensures Parse("", delimiter, r) == Kept(r.row + [r.field]) && Final("", delimiter, r) == r
  {
  }

  lemma RowEndFirst(e: string, b: string, delimiter: string, r: Reader)
    requires IsEol(e) && !r.inQuotes && delimiter != LF && (e != LF ==> delimiter != CR)
    ensures Parse(e + b, delimiter, r) == Kept(r.row + [r.field]) + RowsOf(b, delimiter)
  {
    var text := e + b;
    assert text[0] == e[0];
    if RowEnd(text) == |e| {
      assert text[|e|..] == b;
    } else {
      assert text[2..] == b[1..];
      OneTurn(b, delimiter, START);
      assert Kept([] + [""]) == [];
    }
  }

  lemma CarriageReturnBeforeLineFeed(b: string, delimiter: string, r: Reader)
    requires !r.inQuotes && delimiter != LF && delimiter != CR
    ensures Parse(CR + (LF + b), delimiter, r) == Parse(CR, delimiter, r) + RowsOf(b, delimiter)
  {
    var text := CR + (LF + b);
    assert text[0] == '\r' && text[1] == '\n' && text[2..] == b;
    assert CR[1..] == "";
    assert Kept([] + [""]) == [];
    assert Parse(CR, delimiter, r) == Kept(r.row + [r.field]) + [];
  }

  // Two texts joined by a line feed outside quotes are read as the first and then the second.
  ghost predicate JoinsByLineFeed(delimiter: string) {
    forall a, b :: !EndsQuoted(a, delimiter) ==>
      RowsOf(a + (LF + b), delimiter) == RowsOf(a, delimiter) + RowsOf(b, delimiter)
  }

  // The law fails for one delimiter only: the test for the delimiter comes before that for row ends.
  lemma JoinsUnlessDelimiterIsLineFeed(delimiter: string)
    ensures JoinsByLineFeed(delimiter) <==> delimiter != LF
  {
    if delimiter != LF {
      forall a: string, b: string | !EndsQuoted(a, delimiter)
        ensures RowsOf(a + (LF + b), delimiter) == RowsOf(a, delimiter) + RowsOf(b, delimiter)
      {
        RowEndSeparates(a, LF, b, delimiter, START);
      }
    } else {
      LineFeedDelimiterMerges();
    }
  }

  lemma LineFeedDelimiterMerges()
    ensures !JoinsByLineFeed(LF)
  {
    var a, b := "x", "y";
    var text := a + (LF + b);
    NeverEndsRow(text, LF, START);
    OneCell("x");
    OneCell("y");
    assert |RowsOf(a, LF) + RowsOf(b, LF)| == 2;
  }

  lemma OneCell(a: string)
    requires |a| == 1 && a != "\"" && a != LF && a != CR
    ensures |RowsOf(a, LF)| == 1 && !EndsQuoted(a, LF)
  {
    assert a[1..] == "";
    OneTurn(a, LF, START);
    assert ([] + ["" + [a[0]]])[0] == [a[0]];
    assert Parse("", LF, START.(field := "" + [a[0]])) == Kept([] + ["" + [a[0]]]);
  }

  // Which of the three row ends is used outside quotes makes no difference.
  lemma RowEndsAreAlike(a: string, e: string, f: string, b: string, delimiter: string)
    requires IsEol(e) && IsEol(f) && !EndsQuoted(a, delimiter) && delimiter != LF && delimiter != CR
    ensures RowsOf(a + (e + b), delimiter) == RowsOf(a + (f + b), delimiter)
  {
    RowEndSeparates(a, e, b, delimiter, START);
    RowEndSeparates(a, f, b, delimiter, START);
  }

  // ---------- Printing and reading back ----------

  // A piece of a cell is printed inside quotes, with embedded quotes doubled, or as it is.
  datatype Piece = Quoted(value: string) | Bare(value: string)

  // Usually one piece; the reader also takes quotes that open or close in the middle of a cell.
  type Cell = seq<Piece>

  datatype Line = Line(cells: seq<Cell>, eol: string)

  function Doubled(v: string): string {
    if v == "" then "" else (if v[0] == '\"' then "\"\"" else [v[0]]) + Doubled(v[1..])
  }

  function ShowPiece(p: Piece): string {
    match p
    case Quoted(v) => "\"" + Doubled(v) + "\""
    case Bare(v) => v
  }

  function Show(c: Cell): string {
    if c == [] then "" else ShowPiece(c[0]) + Show(c[1..])
  }

  function ValueOf(c: Cell): string {
    if c == [] then "" else c[0].value + ValueOf(c[1..])
  }

  lemma OnePiece(p: Piece)
    ensures Show([p]) == ShowPiece(p) && ValueOf([p]) == p.value
  {
    assert [p][1..] == [];
  }

  function ShowRow(cells: seq<Cell>, delimiter: string): string {
    if |cells| == 0 then ""
    else if |cells| == 1 then Show(cells[0])
    else Show(cells[0]) + delimiter + ShowRow(cells[1..], delimiter)
  }

  // Complete lines and a last one without a row end.
  function ShowText(lines: seq<Line>, last: seq<Cell>, delimiter: string): string {
    if lines == [] then ShowRow(last, delimiter)
    else ShowRow(lines[0].cells, delimiter) + lines[0].eol + ShowText(lines[1..], last, delimiter)
  }

  function Values(cells: seq<Cell>): (row: Row)
    ensures |row| == |cells| && forall i :: 0 <= i < |cells| ==> row[i] == ValueOf(cells[i])
  {
    seq(|cells|, i requires 0 <= i < |cells| => ValueOf(cells[i]))
  }

  // The rows with some non-empty cell.
  ghost function KeptRows(lines: seq<Line>, last: seq<Cell>): seq<Row> {
    if lines == [] then OnlyNotBlank(Values(last))
    else OnlyNotBlank(Values(lines[0].cells)) + KeptRows(lines[1..], last)
  }

  ghost predicate NotBlank(row: Row) {
    exists k :: 0 <= k < |row| && row[k] != ""
  }

  ghost function OnlyNotBlank(row: Row): seq<Row> {
    if NotBlank(row) then [row] else []
  }

  lemma KeptIfNotBlank(row: Row)
    ensures Kept(row) == OnlyNotBlank(row)
  {
  }

  predicate Special(ch: char, delimiter: string) {
    ch == '\"' || ch == '\n' || ch == '\r' || [ch] == delimiter
  }

  // Special characters have to be quoted, and quoted pieces need a bare one between them.
  ghost predicate PrintableCell(c: Cell, delimiter: string) {
    && (forall i, k :: 0 <= i < |c| && c[i].Bare? && 0 <= k < |c[i].value| ==> !Special(c[i].value[k], delimiter))
    && (forall i :: 0 <= i < |c| && c[i].Bare? ==> c[i].value != "")
    && (forall i, j :: 0 <= i && j == i + 1 && j < |c| ==> c[i].Bare? || c[j].Bare?)
  }

  ghost predicate Printable(cells: seq<Cell>, delimiter: string) {
    forall i :: 0 <= i < |cells| ==> PrintableCell(cells[i], delimiter)
  }

  ghost predicate PrintableText(lines: seq<Line>, last: seq<Cell>, delimiter: string) {
    && (forall i :: 0 <= i < |lines| ==> Printable(lines[i].cells, delimiter) && IsEol(lines[i].eol))
    && Printable(last, delimiter)
  }

  predicate PlainDelimiter(delimiter: string) {
    |delimiter| == 1 && delimiter != "\"" && delimiter != LF && delimiter != CR
  }

  lemma {:induction false} ReadDoubled(v: string, rest: string, delimiter: string, r: Reader)
    requires r.inQuotes && !StartsWith(rest, '\"')
    ensures var after := r.(field := r.field + v, inQuotes := false);
            && Parse(Doubled(v) + "\"" + rest, delimiter, r) == Parse(rest, delimiter, after)
            && Final(Doubled(v) + "\"" + rest, delimiter, r) == Final(rest, delimiter, after)
    decreases |v|
  {
    hide Parse, Final;
    var text := Doubled(v) + "\"" + rest;
    OneTurn(text, delimiter, r);
    if v == "" {
      assert text == "\"" + rest;
      assert text[1..] == rest && r.field + v == r.field;
    } else {
      var more := Doubled(v[1..]) + "\"" + rest;
      if v[0] == '\"' {
        assert text == "\"\"" + more;
        assert text[2..] == more;
      } else {
        assert text == [v[0]] + more;
        assert text[1..] == more;
      }
      ReadDoubled(v[1..], rest, delimiter, r.(field := r.field + [v[0]]));
      assert r.field + [v[0]] + v[1..] == r.field + v;
    }
  }

  lemma {:induction false} ReadBare(v: string, rest: string, delimiter: string, r: Reader)
    requires !r.inQuotes && forall k :: 0 <= k < |v| ==> !Special(v[k], delimiter)
    ensures var after := r.(field := r.field + v);
            && Parse(v + rest, delimiter, r) == Parse(rest, delimiter, after)
            && Final(v + rest, delimiter, r) == Final(rest, delimiter, after)
    decreases |v|
  {
    hide Parse, Final;
    var text := v + rest;
    if v == "" {
      assert text == rest && r.field + v == r.field;
    } else {
      OneTurn(text, delimiter, r);
      assert !Special(v[0], delimiter);
      assert text[0] == v[0] && text[1..] == v[1..] + rest;
      ReadBare(v[1..], rest, delimiter, r.(field := r.field + [v[0]]));
      assert r.field + [v[0]] + v[1..] == r.field + v;
    }
  }

  lemma ReadQuoted(v: string, rest: string, delimiter: string, row: Row, field: string)
    requires !StartsWith(rest, '\"')
    ensures var before, after := Reader(row, field, false), Reader(row, field + v, false);
            && Parse("\"" + Doubled(v) + "\"" + rest, delimiter, before) == Parse(rest, delimiter, after)
            && Final("\"" + Doubled(v) + "\"" + rest, delimiter, before) == Final(rest, delimiter, after)
  {
    hide Parse, Final, Doubled;
    var text := "\"" + Doubled(v) + "\"" + rest;
    var more := Doubled(v) + "\"" + rest;
    assert text == "\"" + more;
    assert text[0] == '\"' && text[1..] == more;
    OneTurn(text, delimiter, Reader(row, field, false));
    ReadDoubled(v, rest, delimiter, Reader(row, field, true));
  }

  lemma {:induction false} ReadCell(c: Cell, rest: string, delimiter: string, row: Row, field: string)
    requires !StartsWith(rest, '\"') && PrintableCell(c, delimiter)
    ensures var before, after := Reader(row, field, false), Reader(row, field + ValueOf(c), false);
            && Parse(Show(c) + rest, delimiter, before) == Parse(rest, delimiter, after)
            && Final(Show(c) + rest, delimiter, before) == Final(rest, delimiter, after)
    decreases |c|
  {
    hide Parse, Final, Doubled, PrintableCell, Show, ValueOf;
    FirstPiece(c, rest, field);
    if c != [] {
      var more := Show(c[1..]) + rest;
      TailPrintable(c, delimiter);
      ReadCell(c[1..], rest, delimiter, row, field + c[0].value);
      match c[0]
      case Quoted(v) =>
        BareAfterQuoted(c, rest, delimiter);
        ReadQuoted(v, more, delimiter, row, field);
      case Bare(v) => ReadBare(v, more, delimiter, Reader(row, field, false));
    }
  }

  lemma FirstPiece(c: Cell, rest: string, field: string)
    ensures c == [] ==> Show(c) + rest == rest && field + ValueOf(c) == field
    ensures c != [] ==> Show(c) + rest == ShowPiece(c[0]) + (Show(c[1..]) + rest)
    ensures c != [] ==> field + c[0].value + ValueOf(c[1..]) == field + ValueOf(c)
  {
    if c != [] {
      assert ShowPiece(c[0]) + Show(c[1..]) + rest == ShowPiece(c[0]) + (Show(c[1..]) + rest);
      assert field + c[0].value + ValueOf(c[1..]) == field + (c[0].value + ValueOf(c[1..]));
    }
  }

  lemma TailPrintable(c: Cell, delimiter: string)
    requires c != [] && PrintableCell(c, delimiter)
    ensures PrintableCell(c[1..], delimiter)
    ensures c[0].Bare? ==> forall k :: 0 <= k < |c[0].value| ==> !Special(c[0].value[k], delimiter)
  {
    assert forall i :: 0 <= i < |c[1..]| ==> c[1..][i] == c[i + 1];
  }

  lemma BareAfterQuoted(c: Cell, rest: string, delimiter: string)
    requires c != [] && c[0].Quoted? && PrintableCell(c, delimiter) && !StartsWith(rest, '\"')
    ensures !StartsWith(Show(c[1..]) + rest, '\"')
  {
    if |c| > 1 {
      assert c[1].Bare? && c[1..][0] == c[1] && !Special(c[1].value[0], delimiter);
    } else {
      assert Show(c[1..]) + rest == rest;
    }
  }

  lemma ReadDelimiter(more: string, delimiter: string, row: Row, field: string)
    requires PlainDelimiter(delimiter)
    ensures var before, after := Reader(row, field, false), Reader(row + [field], "", false);
            && Parse(delimiter + more, delimiter, before) == Parse(more, delimiter, after)
            && Final(delimiter + more, delimiter, before) == Final(more, delimiter, after)
    ensures !StartsWith(delimiter + more, '\"')
  {
    assert (delimiter + more)[0] == delimiter[0] && (delimiter + more)[1..] == more && delimiter == [delimiter[0]];
    OneTurn(delimiter + more, delimiter, Reader(row, field, false));
  }

  lemma {:induction false} ReadRow(cells: seq<Cell>, delimiter: string, row: Row)
    requires PlainDelimiter(delimiter) && Printable(cells, delimiter) && |cells| > 0
    ensures var before := Reader(row, "", false);
            && Parse(ShowRow(cells, delimiter), delimiter, before) == Kept(row + Values(cells))
            && !Final(ShowRow(cells, delimiter), delimiter, before).inQuotes
    decreases |cells|
  {
    hide Parse, Final, Show, ValueOf, PrintableCell, NotBlank;
    var c := cells[0];
    assert PrintableCell(c, delimiter);
    if |cells| == 1 {
      assert Show(c) + "" == Show(c);
      ReadCell(c, "", delimiter, row, "");
      assert "" + ValueOf(c) == ValueOf(c);
      NothingRead(delimiter, Reader(row, ValueOf(c), false));
      assert Values(cells) == [ValueOf(c)];
    } else {
      var more := ShowRow(cells[1..], delimiter);
      assert ShowRow(cells, delimiter) == Show(c) + (delimiter + more);
      ReadDelimiter(more, delimiter, row, ValueOf(c));
      ReadCell(c, delimiter + more, delimiter, row, "");
      assert "" + ValueOf(c) == ValueOf(c);
      ReadRow(cells[1..], delimiter, row + [ValueOf(c)]);
      assert row + [ValueOf(c)] + Values(cells[1..]) == row + Values(cells);
    }
  }

  lemma ReadWholeRow(cells: seq<Cell>, delimiter: string)
    requires PlainDelimiter(delimiter) && Printable(cells, delimiter)
    ensures RowsOf(ShowRow(cells, delimiter), delimiter) == Kept(Values(cells))
    ensures !EndsQuoted(ShowRow(cells, delimiter), delimiter)
  {
    if |cells| > 0 {
      ReadRow(cells, delimiter, []);
      assert [] + Values(cells) == Values(cells);
    }
  }

  // Reading inverts printing, whichever cells are quoted and whichever row ends are used; rows
  // whose cells are all empty are dropped.
  lemma {:induction false} ReadInvertsShow(lines: seq<Line>, last: seq<Cell>, delimiter: string)
    requires PlainDelimiter(delimiter) && PrintableText(lines, last, delimiter)
    ensures RowsOf(ShowText(lines, last, delimiter), delimiter) == KeptRows(lines, last)
    decreases |lines|
  {
    hide Parse, Final, Kept, ShowRow, Printable, Values, NotBlank;
    if lines == [] {
      ReadWholeRow(last, delimiter);
      KeptIfNotBlank(Values(last));
    } else {
      var a := ShowRow(lines[0].cells, delimiter);
      assert PrintableText(lines[1..], last, delimiter);
      ReadWholeRow(lines[0].cells, delimiter);
      KeptIfNotBlank(Values(lines[0].cells));
      ReadInvertsShow(lines[1..], last, delimiter);
      RowEndSeparates(a, lines[0].eol, ShowText(lines[1..], last, delimiter), delimiter, START);
      assert a + (lines[0].eol + ShowText(lines[1..], last, delimiter)) == ShowText(lines, last, delimiter);
    }
  }

  ghost predicate ReadsBackAll(delimiter: string) {
    forall lines, last :: PrintableText(lines, last, delimiter) ==>
      RowsOf(ShowText(lines, last, delimiter), delimiter) == KeptRows(lines, last)
  }

  // Delimiters that are not one character, or are the quote, never end a cell.
  lemma {:induction false} NeverSplits(text: string, delimiter: string, r: Reader)
    requires (|delimiter| != 1 || delimiter == "\"") && r.row == []
    ensures forall row :: row in Parse(text, delimiter, r) ==> |row| == 1
    decreases |text|
  {
    if text != "" {
      var t := Next(text, delimiter, r);
      NeverSplits(text[t.used..], delimiter, t.reader);
    }
  }

  // A delimiter that is the text's only line break character leaves one row at most.
  lemma {:induction false} NeverEndsRow(text: string, delimiter: string, r: Reader)
    requires forall ch :: ch in text && (ch == '\n' || ch == '\r') ==> [ch] == delimiter
    ensures |Parse(text, delimiter, r)| <= 1
    decreases |text|
  {
    if text != "" {
      var t := Next(text, delimiter, r);
      assert text[0] in text;
      NeverEndsRow(text[t.used..], delimiter, t.reader);
    }
  }

  // Every printed text is read back exactly for the delimiters that are one plain character.
  lemma ReadsBackIffPlain(delimiter: string)
    ensures ReadsBackAll(delimiter) <==> PlainDelimiter(delimiter)
  {
    if PlainDelimiter(delimiter) {
      forall lines, last | PrintableText(lines, last, delimiter)
        ensures RowsOf(ShowText(lines, last, delimiter), delimiter) == KeptRows(lines, last)
      {
        ReadInvertsShow(lines, last, delimiter);
      }
    } else if |delimiter| != 1 || delimiter == "\"" {
      SplittingNeeded(delimiter);
    } else {
      LineBreakDelimiter(delimiter);
    }
  }

  lemma SplittingNeeded(delimiter: string)
    requires |delimiter| != 1 || delimiter == "\""
    ensures !ReadsBackAll(delimiter)
  {
    var cells := [CELL_A, CELL_B];
    CellsShown();
    NeverSplits(ShowText([], cells, delimiter), delimiter, START);
    hide Show, ValueOf, ShowRow, Parse, Next;
    assert Values(cells)[0] == "a";
    assert PrintableCell(CELL_A, delimiter) && PrintableCell(CELL_B, delimiter);
    hide PrintableCell;
    assert PrintableText([], cells, delimiter);
    assert KeptRows([], cells) == [Values(cells)];
    assert |KeptRows([], cells)[0]| == 2 && KeptRows([], cells)[0] in KeptRows([], cells);
  }

  const CELL_A: Cell := [Quoted("a")]
  const CELL_B: Cell := [Quoted("b")]

  lemma CellsShown()
    ensures Show(CELL_A) == "\"a\"" && Show(CELL_B) == "\"b\"" && ValueOf(CELL_A) == "a" && ValueOf(CELL_B) == "b"
  {
    OnePiece(Quoted("a"));
    OnePiece(Quoted("b"));
    assert "a"[1..] == "" && "b"[1..] == "";
  }

  lemma CellRow(cell: Cell, delimiter: string)
    requires ValueOf(cell) != "" && PrintableCell(cell, delimiter)
    ensures ShowRow([cell], delimiter) == Show(cell) && Printable([cell], delimiter)
    ensures OnlyNotBlank(Values([cell])) == [Values([cell])]
  {
    assert Values([cell])[0] == ValueOf(cell);
  }

  lemma TwoRowsKept(eol: string)
    ensures |KeptRows([Line([CELL_A], eol)], [CELL_B])| == 2
  {
    CellsShown();
    assert Values([CELL_A])[0] == "a" && Values([CELL_B])[0] == "b";
    hide Values, ValueOf;
    assert [Line([CELL_A], eol)][1..] == [];
    assert |KeptRows([], [CELL_B])| == 1;
  }

  lemma OneBreak(delimiter: string)
    requires |delimiter| == 1
    ensures forall ch :: ch in "\"a\"" + delimiter + "\"b\"" && (ch == '\n' || ch == '\r') ==> [ch] == delimiter
  {
  }

  lemma LineBreakDelimiter(delimiter: string)
    requires delimiter == LF || delimiter == CR
    ensures !ReadsBackAll(delimiter)
  {
    var lines := [Line([CELL_A], delimiter)];
    CellsShown();
    CellRow(CELL_A, delimiter);
    CellRow(CELL_B, delimiter);
    hide Show, ValueOf, Values, OnlyNotBlank, ShowRow, Parse, Next, Printable;
    assert lines[1..] == [];
    var text := ShowText(lines, [CELL_B], delimiter);
    assert ShowText([], [CELL_B], delimiter) == ShowRow([CELL_B], delimiter);
    assert text == ShowRow([CELL_A], delimiter) + delimiter + ShowText([], [CELL_B], delimiter);
    OneBreak(delimiter);
    NeverEndsRow(text, delimiter, START);
    TwoRowsKept(delimiter);
    assert PrintableText(lines, [CELL_B], delimiter);
  }

  // ---------- Quotes left open ----------

  lemma {:induction false} ReadOpen(v: string, delimiter: string, r: Reader)
    requires r.inQuotes
    ensures Parse(Doubled(v), delimiter, r) == Kept(r.row + [r.field + v])
    decreases |v|
  {
    hide Kept;
    var text := Doubled(v);
    if v == "" {
      assert r.field + v == r.field;
    } else {
      hide Parse;
      OneTurn(text, delimiter, r);
      assert text == (if v[0] == '\"' then "\"\"" else [v[0]]) + Doubled(v[1..]);
      assert v[0] == '\"' ==> text[2..] == Doubled(v[1..]);
      assert v[0] != '\"' ==> text[1..] == Doubled(v[1..]);
      ReadOpen(v[1..], delimiter, r.(field := r.field + [v[0]]));
      assert r.field + [v[0]] + v[1..] == r.field + v;
    }
  }

  lemma OpenOrClosed(v: string, delimiter: string, r: Reader)
    requires !r.inQuotes
    ensures Parse("\"" + Doubled(v), delimiter, r) == Parse("\"" + Doubled(v) + "\"", delimiter, r)
  {
    var text := "\"" + Doubled(v);
    assert text[0] == '\"' && text[1..] == Doubled(v);
    assert text + "\"" + "" == text + "\"";
    hide Doubled, Kept;
    OneTurn(text, delimiter, r);
    ReadOpen(v, delimiter, r.(inQuotes := true));
    ReadQuoted(v, "", delimiter, r.row, r.field);
    NothingRead(delimiter, Reader(r.row, r.field + v, false));
  }

  // Two texts that are read alike from some state on, and both start with a quote.
  lemma {:induction false} AlikeFromHere(a: string, x: string, y: string, delimiter: string, r: Reader)
    requires (a == "" || a[|a| - 1] != '\"') && StartsWith(x, '\"') && StartsWith(y, '\"')
    requires Parse(x, delimiter, Final(a, delimiter, r)) == Parse(y, delimiter, Final(a, delimiter, r))
    ensures Parse(a + x, delimiter, r) == Parse(a + y, delimiter, r)
    decreases |a|
  {
    hide Next, Kept, Parse, Final;
    if a == "" {
      NothingRead(delimiter, r);
      assert a + x == x && a + y == y;
    } else {
      var t := Next(a, delimiter, r);
      NextOfMore(a, x, delimiter, r);
      NextOfMore(a, y, delimiter, r);
      OneTurn(a, delimiter, r);
      OneTurn(a + x, delimiter, r);
      OneTurn(a + y, delimiter, r);
      AlikeFromHere(a[t.used..], x, y, delimiter, t.reader);
    }
  }

  // A quote that is never closed goes on to the end of the text, as if it were closed there.
  lemma OpenQuoteEndsWithText(a: string, v: string, delimiter: string)
    requires !EndsQuoted(a, delimiter) && (a == "" || a[|a| - 1] != '\"')
    ensures RowsOf(a + ("\"" + Doubled(v)), delimiter) == RowsOf(a + ("\"" + Doubled(v) + "\""), delimiter)
  {
    OpenOrClosed(v, delimiter, Final(a, delimiter, START));
    AlikeFromHere(a, "\"" + Doubled(v), "\"" + Doubled(v) + "\"", delimiter, START);
  }

  // ---------- The two usual printers ----------

  function QuoteAll(row: Row): (cells: seq<Cell>) {
    seq(|row|, i requires 0 <= i < |row| => [Quoted(row[i])])
  }

  function QuoteIfNeeded(row: Row, delimiter: string): (cells: seq<Cell>) {
    seq(|row|, i requires 0 <= i < |row| =>
      if exists k :: 0 <= k < |row[i]| && Special(row[i][k], delimiter) then [Quoted(row[i])]
      else if row[i] == "" then []
      else [Bare(row[i])])
  }

  // A row on a line of its own; `always` quotes every cell.
  function PrintLine(row: Row, delimiter: string, eol: string, always: bool): Line {
    Line(if always then QuoteAll(row) else QuoteIfNeeded(row, delimiter), eol)
  }

  function Print(rows: seq<Row>, delimiter: string, eol: string, always: bool): (lines: seq<Line>) {
    seq(|rows|, i requires 0 <= i < |rows| => PrintLine(rows[i], delimiter, eol, always))
  }

  lemma PrintedLine(row: Row, delimiter: string, eol: string, always: bool)
    requires NotBlank(row)
    ensures OnlyNotBlank(Values(PrintLine(row, delimiter, eol, always).cells)) == [row]
  {
    var cells := PrintLine(row, delimiter, eol, always).cells;
    forall i | 0 <= i < |row| ensures ValueOf(cells[i]) == row[i] {
      OnePiece(Quoted(row[i]));
      OnePiece(Bare(row[i]));
    }
    assert Values(cells) == row;
  }

  lemma {:induction false} KeptRowsAreRows(rows: seq<Row>, delimiter: string, eol: string, always: bool)
    requires forall i :: 0 <= i < |rows| ==> NotBlank(rows[i])
    ensures KeptRows(Print(rows, delimiter, eol, always), []) == rows
    decreases |rows|
  {
    hide PrintLine, OnlyNotBlank, NotBlank;
    if rows == [] {
      NothingPrinted();
    } else {
      var lines := Print(rows, delimiter, eol, always);
      assert lines[1..] == Print(rows[1..], delimiter, eol, always);
      KeptRowsAreRows(rows[1..], delimiter, eol, always);
      PrintedLine(rows[0], delimiter, eol, always);
      assert rows == [rows[0]] + rows[1..];
    }
  }

  lemma NothingPrinted()
    ensures OnlyNotBlank(Values([])) == []
  {
  }

  // Rows with some non-empty cell survive printing and reading, with either printer and any row end.
  lemma RoundTrip(rows: seq<Row>, delimiter: string, eol: string, always: bool)
    requires PlainDelimiter(delimiter) && IsEol(eol)
    requires forall i :: 0 <= i < |rows| ==> NotBlank(rows[i])
    ensures RowsOf(ShowText(Print(rows, delimiter, eol, always), [], delimiter), delimiter) == rows
  {
    var lines := Print(rows, delimiter, eol, always);
    forall i | 0 <= i < |lines| ensures Printable(lines[i].cells, delimiter) {
    }
    ReadInvertsShow(lines, [], delimiter);
    KeptRowsAreRows(rows, delimiter, eol, always);
  }
}
