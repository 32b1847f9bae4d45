/**
 * scripts/lint-boolean-trap.ts: finding the parameter list of a signature (extractParenBody) and
 * splitting it into parameters (splitParams).
 */
module ParamLists {
  import opened Results
  import Sequences
  import opened StringLiterals
  import opened Whitespace

  // ---------- extractParenBody ----------

  predicate IsQuote(c: char) {
    c == '\'' || c == '\"' || c == '`'
  }

  // Where the string literal that goes on at i is closed, or beyond the end.
  function StringEnd(src: string, i: nat, quote: char): (k: nat)
    ensures i <= k
    decreases |src| - i
  {
    if i >= |src| || src[i] == quote then i
    else if src[i] == '\\' then StringEnd(src, i + 2, quote)
    else StringEnd(src, i + 1, quote)
  }

  // Where `depth` open parentheses are closed, scanning from i.
  ghost function CloseFrom(src: string, i: nat, depth: nat): (r: Option<nat>)
    requires depth > 0
    ensures r.Some? ==> i <= r.value < |src| && src[r.value] == ')'
    decreases |src| - i
  {
    if i >= |src| then None
    else if src[i] == '(' then CloseFrom(src, i + 1, depth + 1)
    else if src[i] == ')' then if depth == 1 then Some(i) else CloseFrom(src, i + 1, depth - 1)
    else if IsQuote(src[i]) then CloseFrom(src, StringEnd(src, i + 1, src[i]) + 1, depth)
    else CloseFrom(src, i + 1, depth)
  }

  datatype Extract = Extract(body: string, closeIdx: nat)

  method ExtractParenBody(src: string, openIdx: nat) returns (r: Option<Extract>)
    ensures r == match CloseFrom(src, openIdx + 1, 1)
                 case None => None
                 case Some(k) => Some(Extract(src[openIdx + 1..k], k))
  {
    var depth := 1;
    var i := openIdx + 1;
    while i < |src| && depth > 0
      invariant openIdx + 1 <= i && depth >= 0
      invariant depth > 0 ==> CloseFrom(src, i, depth) == CloseFrom(src, openIdx + 1, 1)
      invariant depth == 0 ==> i <= |src| && CloseFrom(src, openIdx + 1, 1) == Some(i - 1)
      decreases |src| - i
    {
      var ch := src[i];
      if ch == '(' {
        depth := depth + 1;
      } else if ch == ')' {
        depth := depth - 1;
      } else if IsQuote(ch) {
        var quote := ch;
        ghost var from := i + 1;
        i := i + 1;
        while i < |src| && src[i] != quote
          invariant from <= i
          invariant StringEnd(src, i, quote) == StringEnd(src, from, quote)
          decreases |src| - i
        {
          if src[i] == '\\' {
            i := i + 1;
          }
          i := i + 1;
        }
      }
      i := i + 1;
    }
    if depth != 0 {
      return None;
    }
    r := Some(Extract(src[openIdx + 1..i - 1], i - 1));
  }

  // The positions of the parentheses outside strings, from i on.
  ghost function Parens(src: string, i: nat): (ps: seq<nat>)
    ensures forall k :: 0 <= k < |ps| ==> i <= ps[k] < |src| && (src[ps[k]] == '(' || src[ps[k]] == ')')
    decreases |src| - i
  {
    if i >= |src| then []
    else if src[i] == '(' || src[i] == ')' then [i] + Parens(src, i + 1)
    else if IsQuote(src[i]) then Parens(src, StringEnd(src, i + 1, src[i]) + 1)
    else Parens(src, i + 1)
  }

  // Opening minus closing parentheses among the first n.
  ghost function Balance(src: string, ps: seq<nat>, n: nat): int
    requires n <= |ps| && Within(src, ps)
  {
    if n == 0 then 0 else (if src[ps[0]] == '(' then 1 else -1) + Balance(src, ps[1..], n - 1)
  }

  ghost predicate Within(src: string, ps: seq<nat>) {
    forall k :: 0 <= k < |ps| ==> ps[k] < |src|
  }

  // All of the first n parentheses leave some of the `depth` open ones unclosed.
  ghost predicate StaysOpen(src: string, ps: seq<nat>, depth: nat, n: nat)
    requires n <= |ps| && Within(src, ps)
  {
    forall k :: 0 <= k <= n ==> depth + Balance(src, ps, k) > 0
  }

  // r is the first parenthesis that closes `depth` open ones, or None if none does.
  ghost predicate IsFirstMatch(src: string, ps: seq<nat>, depth: nat, r: Option<nat>)
    requires Within(src, ps)
  {
    match r
    case None => StaysOpen(src, ps, depth, |ps|)
    case Some(k) => exists m: nat :: m < |ps| && ps[m] == k && StaysOpen(src, ps, depth, m) &&
                                     depth + Balance(src, ps, m + 1) == 0
  }

  // The scan finds the first parenthesis that matches, and nothing exactly if there is none.
  lemma {:induction false} CloseIsFirstMatch(src: string, i: nat, depth: nat)
    requires depth > 0
    ensures Within(src, Parens(src, i)) && IsFirstMatch(src, Parens(src, i), depth, CloseFrom(src, i, depth))
    decreases |src| - i
  {
    hide IsFirstMatch, Balance, StringEnd;
    var ps := Parens(src, i);
    if i >= |src| {
      NothingCloses(src, depth);
    } else if src[i] == '(' || src[i] == ')' {
      var step := if src[i] == '(' then 1 else -1;
      assert ps[1..] == Parens(src, i + 1) && ps[0] == i;
      if depth + step == 0 {
        ClosedAtOnce(src, ps);
      } else {
        CloseIsFirstMatch(src, i + 1, depth + step);
        OneMoreParen(src, ps, depth, step, CloseFrom(src, i, depth));
      }
    } else if IsQuote(src[i]) {
      CloseIsFirstMatch(src, StringEnd(src, i + 1, src[i]) + 1, depth);
    } else {
      CloseIsFirstMatch(src, i + 1, depth);
    }
  }

  lemma NothingCloses(src: string, depth: nat)
    requires depth > 0
    ensures IsFirstMatch(src, [], depth, None)
  {
  }

  lemma ClosedAtOnce(src: string, ps: seq<nat>)
    requires |ps| > 0 && Within(src, ps) && Within(src, ps[1..]) && src[ps[0]] == ')'
    ensures IsFirstMatch(src, ps, 1, Some(ps[0]))
  {
    assert Balance(src, ps[1..], 0) == 0;
    assert 1 + Balance(src, ps, 0 + 1) == 0 && StaysOpen(src, ps, 1, 0);
  }

  lemma StaysOpenOneMore(src: string, ps: seq<nat>, depth: nat, step: int, n: nat)
    requires |ps| > 0 && n < |ps| && Within(src, ps) && Within(src, ps[1..]) && depth > 0 && depth + step > 0
    requires step == if src[ps[0]] == '(' then 1 else -1
    requires StaysOpen(src, ps[1..], depth + step, n)
    ensures StaysOpen(src, ps, depth, n + 1)
  {
    forall k | 0 <= k <= n + 1 ensures depth + Balance(src, ps, k) > 0 {
      if k > 0 {
        assert depth + step + Balance(src, ps[1..], k - 1) > 0;
      }
    }
  }

  lemma OneMoreParen(src: string, ps: seq<nat>, depth: nat, step: int, r: Option<nat>)
    requires |ps| > 0 && Within(src, ps) && Within(src, ps[1..]) && depth > 0 && depth + step > 0
    requires step == if src[ps[0]] == '(' then 1 else -1
    requires IsFirstMatch(src, ps[1..], depth + step, r)
    ensures IsFirstMatch(src, ps, depth, r)
  {
    match r
    case None => StaysOpenOneMore(src, ps, depth, step, |ps| - 1);
    case Some(k) =>
      var m: nat :| m < |ps[1..]| && ps[1..][m] == k && StaysOpen(src, ps[1..], depth + step, m) &&
                    depth + step + Balance(src, ps[1..], m + 1) == 0;
      StaysOpenOneMore(src, ps, depth, step, m);
      assert ps[m + 1] == k;
  }

  // ---------- Bodies with nested parentheses and strings ----------

  datatype Item = Plain(c: char) | Literal(quote: char, parts: seq<Part>) | Group(items: seq<Item>)

  function Show(item: Item): string
    decreases item
  {
    match item
    case Plain(c) => [c]
    case Literal(q, parts) => [q] + ShowParts(parts) + [q]
    case Group(items) => "(" + ShowAll(items) + ")"
  }

  function ShowAll(items: seq<Item>): string
    decreases items
  {
    if items == [] then "" else Show(items[0]) + ShowAll(items[1..])
  }

  predicate GoodParts(quote: char, parts: seq<Part>) {
    forall i :: 0 <= i < |parts| && parts[i].Ch? ==> parts[i].c != quote && parts[i].c != '\\'
  }

  predicate GoodItem(item: Item)
    decreases item
  {
    match item
    case Plain(c) => c != '(' && c != ')' && c != '\'' && c != '\"' && c != '`'
    case Literal(q, parts) => (q == '\'' || q == '\"' || q == '`') && GoodParts(q, parts)
    case Group(items) => GoodItems(items)
  }

  predicate GoodItems(items: seq<Item>)
    decreases items
  {
    if items == [] then true else GoodItem(items[0]) && GoodItems(items[1..])
  }

  // The text occurs in src at position i.
  ghost predicate Occurs(src: string, i: nat, text: string) {
    i + |text| <= |src| && src[i..i + |text|] == text
  }

  lemma OccursSplit(src: string, i: nat, a: string, b: string)
    requires Occurs(src, i, a + b)
    ensures Occurs(src, i, a) && Occurs(src, i + |a|, b)
  {
    var t := src[i..i + |a + b|];
    assert t[..|a|] == a && t[|a|..] == b;
    assert src[i..i + |a|] == t[..|a|] && src[i + |a|..i + |a| + |b|] == t[|a|..];
  }

  lemma {:induction false} StringEndsAtQuote(src: string, i: nat, quote: char, parts: seq<Part>)
    requires IsQuote(quote) && GoodParts(quote, parts) && Occurs(src, i, ShowParts(parts) + [quote])
    ensures StringEnd(src, i, quote) == i + |ShowParts(parts)|
    decreases |parts|
  {
    if parts == [] {
      assert src[i..i + 1][0] == src[i];
    } else {
      var head := ShowPart(parts[0]);
      assert ShowParts(parts) + [quote] == head + (ShowParts(parts[1..]) + [quote]);
      OccursSplit(src, i, head, ShowParts(parts[1..]) + [quote]);
      assert src[i..i + |head|][0] == src[i];
      StringEndsAtQuote(src, i + |head|, quote, parts[1..]);
    }
  }

  lemma ScanLiteral(src: string, i: nat, depth: nat, q: char, parts: seq<Part>)
    requires depth > 0 && IsQuote(q) && GoodParts(q, parts) && Occurs(src, i, [q] + ShowParts(parts) + [q])
    ensures CloseFrom(src, i, depth) == CloseFrom(src, i + |ShowParts(parts)| + 2, depth)
  {
    assert [q] + ShowParts(parts) + [q] == [q] + (ShowParts(parts) + [q]);
    OccursSplit(src, i, [q], ShowParts(parts) + [q]);
    assert src[i..i + 1][0] == src[i];
    StringEndsAtQuote(src, i + 1, q, parts);
  }

  // The scan passes over a well-formed item, or items, without changing the depth.
  lemma {:induction false} ScanItem(src: string, i: nat, depth: nat, item: Item)
    requires depth > 0 && GoodItem(item) && Occurs(src, i, Show(item))
    ensures CloseFrom(src, i, depth) == CloseFrom(src, i + |Show(item)|, depth)
    decreases item
  {
    hide Occurs, ShowAll;
    match item
    case Plain(c) => CharAt(src, i, c);
    case Literal(q, parts) => ScanLiteral(src, i, depth, q, parts);
    case Group(items) =>
      GroupAt(src, i, items);
      ScanItems(src, i + 1, depth + 1, items);
  }

  lemma CharAt(src: string, i: nat, c: char)
    requires Occurs(src, i, [c])
    ensures i < |src| && src[i] == c
  {
    assert src[i..i + 1][0] == src[i];
  }

  lemma GroupAt(src: string, i: nat, items: seq<Item>)
    requires Occurs(src, i, Show(Group(items)))
    ensures var k := i + 1 + |ShowAll(items)|;
            Occurs(src, i + 1, ShowAll(items)) && k < |src| && src[i] == '(' && src[k] == ')'
  {
    var body := ShowAll(items);
    assert Show(Group(items)) == "(" + (body + ")");
    OccursSplit(src, i, "(", body + ")");
    OccursSplit(src, i + 1, body, ")");
    assert src[i..i + 1][0] == src[i];
    assert src[i + 1 + |body|..i + 2 + |body|][0] == src[i + 1 + |body|];
  }

  lemma {:induction false} ScanItems(src: string, i: nat, depth: nat, items: seq<Item>)
    requires depth > 0 && GoodItems(items) && Occurs(src, i, ShowAll(items))
    ensures CloseFrom(src, i, depth) == CloseFrom(src, i + |ShowAll(items)|, depth)
    decreases items
  {
    hide CloseFrom, Show, Occurs;
    if items != [] {
      OccursSplit(src, i, Show(items[0]), ShowAll(items[1..]));
      ScanItem(src, i, depth, items[0]);
      ScanItems(src, i + |Show(items[0])|, depth, items[1..]);
    }
  }

  function Signature(before: string, body: string, after: string): string {
    before + "(" + body + ")" + after
  }

  // The scan from the opening parenthesis finds the body.
  ghost predicate FindsBody(src: string, openIdx: nat, body: string) {
    var k := openIdx + 1 + |body|;
    CloseFrom(src, openIdx + 1, 1) == Some(k) && src[openIdx + 1..k] == body
  }

  // The body between matching parentheses is found, whatever precedes and follows it.
  lemma BodyIsFound(before: string, items: seq<Item>, after: string)
    requires GoodItems(items)
    ensures FindsBody(Signature(before, ShowAll(items), after), |before|, ShowAll(items))
  {
    var body := ShowAll(items);
    BodyOccurs(before, body, after);
    BodyClosed(Signature(before, body, after), |before| + 1, items);
  }

  lemma BodyOccurs(before: string, body: string, after: string)
    ensures var src := Signature(before, body, after);
            var k := |before| + 1;
            Occurs(src, k, body) && Occurs(src, k + |body|, ")")
  {
    hide Occurs;
    var open := before + "(";
    Sequences.Assoc(open, body, ")");
    InTheMiddle(open, body + ")", after);
    OccursSplit(Signature(before, body, after), |before| + 1, body, ")");
  }

  lemma BodyClosed(src: string, k: nat, items: seq<Item>)
    requires GoodItems(items) && Occurs(src, k, ShowAll(items)) && Occurs(src, k + |ShowAll(items)|, ")")
    ensures CloseFrom(src, k, 1) == Some(k + |ShowAll(items)|)
    ensures src[k..k + |ShowAll(items)|] == ShowAll(items)
  {
    hide ShowAll;
    ScanItems(src, k, 1, items);
    CharAt(src, k + |ShowAll(items)|, ')');
  }

  lemma InTheMiddle(a: string, t: string, b: string)
    ensures Occurs(a + t + b, |a|, t)
  {
  }

  // ---------- splitParams ----------

  function Delta(ch: char): int {
    if ch == '(' || ch == '[' || ch == '{' || ch == '<' then 1
    else if ch == ')' || ch == ']' || ch == '}' || ch == '>' then -1
    else 0
  }

  // The pieces of the body between its commas at depth zero, starting at the given depth.
  function Cut(body: string, depth: int): (pieces: seq<string>)
    ensures |pieces| > 0
  {
    if body == "" then [""]
    else if body[0] == ',' && depth == 0 then [""] + Cut(body[1..], 0)
    else
      var rest := Cut(body[1..], depth + Delta(body[0]));
      [[body[0]] + rest[0]] + rest[1..]
  }

  function TrimAll(pieces: seq<string>): (r: seq<string>)
    ensures |r| == |pieces|
  {
    seq(|pieces|, i requires 0 <= i < |pieces| => Trim(pieces[i]))
  }

  predicate IsNonEmpty(param: string) {
    |param| > 0
  }

  ghost function NonEmpty(params: seq<string>): seq<string> {
    Sequences.Filtered(params, IsNonEmpty)
  }

  // What is still to come when a piece was begun at `start` and the scan is at i.
  ghost function ToCome(body: string, start: nat, i: nat, depth: int): seq<string>
    requires start <= i <= |body|
  {
    var rest := Cut(body[i..], depth);
    [body[start..i] + rest[0]] + rest[1..]
  }

  lemma NothingCut(body: string)
    ensures ToCome(body, 0, 0, 0) == Cut(body, 0)
  {
    assert body[0..] == body && body[0..0] == "" && "" + Cut(body, 0)[0] == Cut(body, 0)[0];
  }

  // The scan moves on, or cuts at a comma.
  lemma CutAt(body: string, start: nat, i: nat, depth: int)
    requires start <= i < |body|
    ensures ToCome(body, start, i, depth) ==
              if body[i] == ',' && depth == 0 then [body[start..i]] + ToCome(body, i + 1, i + 1, 0)
              else ToCome(body, start, i + 1, depth + Delta(body[i]))
  {
    assert body[i..][1..] == body[i + 1..];
    var rest := Cut(body[i..], depth);
    if body[i] == ',' && depth == 0 {
      var more := Cut(body[i + 1..], 0);
      assert rest == [""] + more;
      assert body[start..i] + "" == body[start..i] && body[i + 1..i + 1] == "" && "" + more[0] == more[0];
      assert rest[1..] == more && [more[0]] + more[1..] == more;
    } else {
      var more := Cut(body[i + 1..], depth + Delta(body[i]));
      assert rest == [[body[i]] + more[0]] + more[1..];
      assert body[start..i] + ([body[i]] + more[0]) == body[start..i + 1] + more[0];
    }
  }

  lemma NothingTrimmed()
    ensures TrimAll([]) == []
  {
  }

  lemma TrimOneMore(pieces: seq<string>, piece: string)
    ensures TrimAll(pieces + [piece]) == TrimAll(pieces) + [Trim(piece)]
    ensures piece == "" ==> Trim(piece) == ""
  {
  }

  method SplitParams(body: string) returns (params: seq<string>)
    ensures params == NonEmpty(TrimAll(Cut(body, 0)))
  {
    hide Cut, ToCome, TrimAll, NonEmpty;
    var out: seq<string> := [];
    ghost var cut: seq<string> := [];
    var depth := 0;
    var start := 0;
    NothingCut(body);
    NothingTrimmed();
    assert cut + ToCome(body, 0, 0, 0) == ToCome(body, 0, 0, 0);
    for i := 0 to |body|
      invariant start <= i && out == TrimAll(cut)
      invariant cut + ToCome(body, start, i, depth) == Cut(body, 0)
    {
      CutAt(body, start, i, depth);
      var ch := body[i];
      if ch == '(' || ch == '[' || ch == '{' || ch == '<' {
        depth := depth + 1;
      } else if ch == ')' || ch == ']' || ch == '}' || ch == '>' {
        depth := depth - 1;
      } else if ch == ',' && depth == 0 {
        out := out + [Trim(body[start..i])];
        Regroup(cut, body[start..i], ToCome(body, i + 1, i + 1, 0));
        TrimOneMore(cut, body[start..i]);
        cut := cut + [body[start..i]];
        start := i + 1;
      }
    }
    LastPiece(body, start, depth);
    TrimOneMore(cut, body[start..]);
    if start < |body| {
      out := out + [Trim(body[start..])];
    } else {
      NonEmptyDropsEmpty(out);
    }
    params := Filter(out);
  }

  lemma Regroup(cut: seq<string>, piece: string, rest: seq<string>)
    ensures cut + ([piece] + rest) == cut + [piece] + rest
  {
  }

  lemma LastPiece(body: string, start: nat, depth: int)
    requires start <= |body|
    ensures ToCome(body, start, |body|, depth) == [body[start..]]
  {
    assert body[|body|..] == "" && Cut("", depth) == [""];
    assert body[start..|body|] + "" == body[start..];
  }

  lemma NonEmptyDropsEmpty(params: seq<string>)
    ensures NonEmpty(params + [""]) == NonEmpty(params)
  {
    assert (params + [""])[..|params|] == params;
  }

  // Drops the empty pieces.
  method Filter(out: seq<string>) returns (params: seq<string>)
    ensures params == NonEmpty(out)
  {
    params := [];
    for i := 0 to |out|
      invariant params == NonEmpty(out[..i])
    {
      Sequences.FilteredOneMore(out, IsNonEmpty, i);
      if |out[i]| > 0 {
        params := params + [out[i]];
      }
    }
    assert out[..|out|] == out;
  }

  // ---------- Joining and cutting ----------

  function Join(pieces: seq<string>): string
    requires |pieces| > 0
  {
    if |pieces| == 1 then pieces[0] else pieces[0] + "," + Join(pieces[1..])
  }

  // The net depth after the text.
  function DepthAfter(text: string, depth: int): int {
    if text == "" then depth else DepthAfter(text[1..], depth + Delta(text[0]))
  }

  // No comma of the text is at depth zero, when it starts at the given depth.
  predicate NoBareComma(text: string, depth: int) {
    text == "" || (!(text[0] == ',' && depth == 0) && NoBareComma(text[1..], depth + Delta(text[0])))
  }

  // Every piece but the last closes what it opens, and no piece has a bare comma.
  predicate Separable(pieces: seq<string>) {
    forall i :: 0 <= i < |pieces| ==>
      NoBareComma(pieces[i], 0) && (i < |pieces| - 1 ==> DepthAfter(pieces[i], 0) == 0)
  }

  lemma JoinLonger(head: string, pieces: seq<string>)
    requires |pieces| > 0
    ensures Join([head + pieces[0]] + pieces[1..]) == head + Join(pieces)
  {
    var longer := [head + pieces[0]] + pieces[1..];
    assert longer[1..] == pieces[1..];
    if |pieces| > 1 {
      Sequences.Assoc(head, pieces[0], ",");
      Sequences.Assoc(head, pieces[0] + ",", Join(pieces[1..]));
    }
  }

  // Cutting loses nothing: the pieces join up to the body again.
  lemma {:induction false} JoinAfterCut(body: string, depth: int)
    ensures Join(Cut(body, depth)) == body
    decreases |body|
  {
    if body == "" {
    } else if body[0] == ',' && depth == 0 {
      JoinAfterCut(body[1..], 0);
      assert Cut(body, depth)[1..] == Cut(body[1..], 0);
      assert "" + "," + body[1..] == body;
    } else {
      var rest := Cut(body[1..], depth + Delta(body[0]));
      JoinAfterCut(body[1..], depth + Delta(body[0]));
      JoinLonger([body[0]], rest);
      Sequences.HeadAndTail(body);
    }
  }

  // The pieces of a cut begun at a depth: the first continues from that depth, the others from zero.
  ghost predicate SeparableFrom(pieces: seq<string>, depth: int)
    requires |pieces| > 0
  {
    && NoBareComma(pieces[0], depth)
    && (|pieces| > 1 ==> DepthAfter(pieces[0], depth) == 0)
    && Separable(pieces[1..])
  }

  lemma {:induction false} CutIsSeparable(body: string, depth: int)
    ensures SeparableFrom(Cut(body, depth), depth)
    decreases |body|
  {
    if body == "" {
      assert [""][1..] == [];
    } else if body[0] == ',' && depth == 0 {
      CutIsSeparable(body[1..], 0);
      SeparableFromZero(Cut(body[1..], 0));
      assert Cut(body, depth)[1..] == Cut(body[1..], 0);
    } else {
      var rest := Cut(body[1..], depth + Delta(body[0]));
      CutIsSeparable(body[1..], depth + Delta(body[0]));
      assert ([[body[0]] + rest[0]] + rest[1..])[1..] == rest[1..];
      assert ([body[0]] + rest[0])[1..] == rest[0];
    }
  }

  lemma SeparableFromZero(pieces: seq<string>)
    requires |pieces| > 0
    ensures SeparableFrom(pieces, 0) <==> Separable(pieces)
  {
    if SeparableFrom(pieces, 0) {
      forall i | 0 <= i < |pieces| ensures
        NoBareComma(pieces[i], 0) && (i < |pieces| - 1 ==> DepthAfter(pieces[i], 0) == 0)
      {
        assert i > 0 ==> pieces[i] == pieces[1..][i - 1];
      }
    }
    if Separable(pieces) {
      assert forall i :: 0 <= i < |pieces[1..]| ==> pieces[1..][i] == pieces[i + 1];
    }
  }

  lemma {:induction false} CutAfterPiece(piece: string, depth: int, more: string)
    requires NoBareComma(piece, depth) && DepthAfter(piece, depth) == 0
    ensures Cut(piece + "," + more, depth) == [piece] + Cut(more, 0)
    decreases |piece|
  {
    var body := piece + "," + more;
    if piece == "" {
      assert body[1..] == more;
    } else {
      assert body[1..] == piece[1..] + "," + more;
      CutAfterPiece(piece[1..], depth + Delta(piece[0]), more);
      assert [piece[0]] + piece[1..] == piece;
      assert ([piece[1..]] + Cut(more, 0))[1..] == Cut(more, 0);
    }
  }

  lemma {:induction false} CutLastPiece(piece: string, depth: int)
    requires NoBareComma(piece, depth)
    ensures Cut(piece, depth) == [piece]
    decreases |piece|
  {
    if piece != "" {
      CutLastPiece(piece[1..], depth + Delta(piece[0]));
      assert [piece[0]] + piece[1..] == piece;
    }
  }

  lemma {:induction false} CutSeparable(pieces: seq<string>)
    requires |pieces| > 0 && Separable(pieces)
    ensures Cut(Join(pieces), 0) == pieces
    decreases |pieces|
  {
    if |pieces| == 1 {
      CutLastPiece(pieces[0], 0);
    } else {
      assert forall i :: 0 <= i < |pieces[1..]| ==> pieces[1..][i] == pieces[i + 1];
      CutSeparable(pieces[1..]);
      CutAfterPiece(pieces[0], 0, Join(pieces[1..]));
    }
  }

  // Pieces joined by commas are found again exactly if they are separable. (The > of an arrow
  // counts as a closing bracket, so a parameter of function type is not.)
  lemma CutInvertsJoin(pieces: seq<string>)
    requires |pieces| > 0
    ensures Cut(Join(pieces), 0) == pieces <==> Separable(pieces)
  {
    if Separable(pieces) {
      CutSeparable(pieces);
    }
    if Cut(Join(pieces), 0) == pieces {
      CutIsSeparable(Join(pieces), 0);
      SeparableFromZero(pieces);
    }
  }

  // ---------- A whole parameter list ----------

  function Texts(pieces: seq<seq<Item>>): (texts: seq<string>)
    ensures |texts| == |pieces|
  {
    seq(|pieces|, i requires 0 <= i < |pieces| => ShowAll(pieces[i]))
  }

  function JoinItems(pieces: seq<seq<Item>>): seq<Item>
    requires |pieces| > 0
  {
    if |pieces| == 1 then pieces[0] else pieces[0] + [Plain(',')] + JoinItems(pieces[1..])
  }

  lemma {:induction false} ShowAllJoins(a: seq<Item>, b: seq<Item>)
    ensures ShowAll(a + b) == ShowAll(a) + ShowAll(b)
    ensures GoodItems(a) && GoodItems(b) ==> GoodItems(a + b)
    decreases |a|
  {
    if a == [] {
      assert a + b == b;
    } else {
      assert (a + b)[1..] == a[1..] + b;
      ShowAllJoins(a[1..], b);
    }
  }

  lemma {:induction false} JoinItemsShow(pieces: seq<seq<Item>>)
    requires |pieces| > 0 && forall i :: 0 <= i < |pieces| ==> GoodItems(pieces[i])
    ensures ShowAll(JoinItems(pieces)) == Join(Texts(pieces)) && GoodItems(JoinItems(pieces))
    decreases |pieces|
  {
    if |pieces| > 1 {
      var comma := [Plain(',')];
      JoinItemsShow(pieces[1..]);
      assert Texts(pieces)[1..] == Texts(pieces[1..]);
      assert comma[1..] == [] && ShowAll(comma) == ",";
      ShowAllJoins(pieces[0], comma);
      ShowAllJoins(pieces[0] + comma, JoinItems(pieces[1..]));
    }
  }

  lemma {:induction false} NonEmptyKeepsAll(params: seq<string>)
    requires forall i :: 0 <= i < |params| ==> |params[i]| > 0
    ensures NonEmpty(params) == params
    decreases |params|
  {
    if params != [] {
      var n := |params| - 1;
      NonEmptyKeepsAll(params[..n]);
      assert params == params[..n] + [params[n]];
    }
  }

  // The text is the parameter with blanks around it.
  ghost predicate Padded(param: string, text: string) {
    exists left, right :: IsBlank(left) && IsBlank(right) && text == left + param + right
  }

  // Piece k prints parameter k.
  ghost predicate PrintedAs(params: seq<string>, texts: seq<string>) {
    && |params| == |texts|
    && (forall k :: 0 <= k < |params| ==> |params[k]| > 0 && IsTrimmed(params[k]) && Padded(params[k], texts[k]))
  }

  lemma TrimPrinted(params: seq<string>, texts: seq<string>)
    requires PrintedAs(params, texts)
    ensures NonEmpty(TrimAll(texts)) == params
  {
    forall k | 0 <= k < |params| ensures Trim(texts[k]) == params[k] {
      assert Padded(params[k], texts[k]);
      var left, right :| IsBlank(left) && IsBlank(right) && texts[k] == left + params[k] + right;
      TrimDropsPadding(left, params[k], right);
    }
    assert TrimAll(texts) == params;
    NonEmptyKeepsAll(params);
  }

  // Whatever stands around the list, the two functions recover its parameters.
  lemma SignatureRoundTrip(before: string, params: seq<string>, pieces: seq<seq<Item>>, after: string)
    requires |pieces| > 0 && forall i :: 0 <= i < |pieces| ==> GoodItems(pieces[i])
    requires PrintedAs(params, Texts(pieces)) && Separable(Texts(pieces))
    ensures var body := Join(Texts(pieces));
            && FindsBody(Signature(before, body, after), |before|, body)
            && NonEmpty(TrimAll(Cut(body, 0))) == params
  {
    JoinItemsShow(pieces);
    BodyIsFound(before, JoinItems(pieces), after);
    CutSeparable(Texts(pieces));
    TrimPrinted(params, Texts(pieces));
  }
}
