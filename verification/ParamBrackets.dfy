/**
 * scripts/lint-boolean-trap.ts, splitParams: which commas separate parameters, told by the eight
 * bracket characters.
 */
module ParamBrackets {
  import opened ParamLists

  // ---------- Which commas separate ----------

  // Opening minus closing brackets of the text, of all four kinds.
  ghost function OpenBrackets(text: string): int {
    var m := multiset(text);
    var ups: int := m['('] + m['['] + m['{'] + m['<'];
    var downs: int := m[')'] + m[']'] + m['}'] + m['>'];
    ups - downs
  }

  lemma OneMoreBracket(ch: char, text: string)
    ensures OpenBrackets([ch] + text) == OpenBrackets(text) + Delta(ch)
  {
    var m, more := multiset(text), multiset([ch] + text);
    assert more == multiset{ch} + m;
    assert forall c :: more[c] == m[c] + if c == ch then 1 else 0;
  }

  // The depth counts the brackets.
  lemma {:induction false} DepthCounts(text: string, depth: int)
    ensures DepthAfter(text, depth) == depth + OpenBrackets(text)
    decreases |text|
  {
    if text == "" {
      assert multiset(text) == multiset{};
    } else {
      DepthCounts(text[1..], depth + Delta(text[0]));
      OneMoreBracket(text[0], text[1..]);
      assert text == [text[0]] + text[1..];
    }
  }

  // If there is a comma at i, more brackets have been opened than closed before it, or fewer.
  ghost predicate CommaInside(text: string, depth: int, i: nat)
    requires i < |text|
  {
    text[i] == ',' ==> depth + OpenBrackets(text[..i]) != 0
  }

  lemma CommaInsideTail(text: string, depth: int, i: nat)
    requires i + 1 < |text|
    ensures CommaInside(text, depth, i + 1) <==> CommaInside(text[1..], depth + Delta(text[0]), i)
  {
    OneMoreBracket(text[0], text[1..][..i]);
    assert text[..i + 1] == [text[0]] + text[1..][..i];
  }

  // A comma is bare if as many brackets have been closed as opened before it.
  lemma {:induction false} BareComma(text: string, depth: int)
    ensures NoBareComma(text, depth) <==> forall i: nat :: i < |text| ==> CommaInside(text, depth, i)
    decreases |text|
  {
    if text != "" {
      var rest, next := text[1..], depth + Delta(text[0]);
      BareComma(rest, next);
      assert CommaInside(text, depth, 0) <==> !(text[0] == ',' && depth == 0) by {
        assert multiset(text[..0]) == multiset{};
      }
      hide CommaInside;
      forall i: nat | i + 1 < |text| ensures CommaInside(text, depth, i + 1) <==> CommaInside(rest, next, i) {
        CommaInsideTail(text, depth, i);
      }
      if NoBareComma(text, depth) {
        forall i: nat | i < |text| ensures CommaInside(text, depth, i) {
          assert i > 0 ==> CommaInside(rest, next, i - 1) && i == (i - 1) + 1;
        }
      }
    }
  }

  // Pieces joined by commas are found again exactly if each comma within a piece stands inside more
  // opened than closed brackets (or the other way round), and all pieces but the last close as many
  // brackets as they open.
  lemma JoinInvertedIffBalanced(pieces: seq<string>)
    requires |pieces| > 0
    ensures Cut(Join(pieces), 0) == pieces <==>
      && (forall k, i: nat :: 0 <= k < |pieces| && i < |pieces[k]| ==> CommaInside(pieces[k], 0, i))
      && (forall k :: 0 <= k < |pieces| - 1 ==> OpenBrackets(pieces[k]) == 0)
  {
    hide Cut, Join, OpenBrackets, NoBareComma, DepthAfter, CommaInside;
    CutInvertsJoin(pieces);
    forall k | 0 <= k < |pieces|
      ensures DepthAfter(pieces[k], 0) == OpenBrackets(pieces[k])
      ensures NoBareComma(pieces[k], 0) <==> forall i: nat :: i < |pieces[k]| ==> CommaInside(pieces[k], 0, i)
    {
      DepthCounts(pieces[k], 0);
      BareComma(pieces[k], 0);
    }
  }

  // ---------- Types with brackets ----------

  datatype Bracket = Round | Square | Curly | Angle

  // Characters and bracketed groups.
  datatype Nest = End | Char(c: char, rest: Nest) | Group(kind: Bracket, inner: Nest, rest: Nest)

  function Opening(kind: Bracket): char {
    match kind
    case Round => '('
    case Square => '['
    case Curly => '{'
    case Angle => '<'
  }

  function Closing(kind: Bracket): char {
    match kind
    case Round => ')'
    case Square => ']'
    case Curly => '}'
    case Angle => '>'
  }

  function ShowNest(n: Nest): string {
    match n
    case End => ""
    case Char(c, rest) => [c] + ShowNest(rest)
    case Group(kind, inner, rest) => [Opening(kind)] + ShowNest(inner) + [Closing(kind)] + ShowNest(rest)
  }

  // Brackets stand in pairs, and commas inside brackets only.
  predicate GoodNest(n: Nest, inside: bool) {
    match n
    case End => true
    case Char(c, rest) => c !in "()[]{}<>" && (inside || c != ',') && GoodNest(rest, inside)
    case Group(_, inner, rest) => GoodNest(inner, true) && GoodNest(rest, inside)
  }

  lemma {:induction false} DepthAfterBoth(a: string, b: string, depth: int)
    ensures DepthAfter(a + b, depth) == DepthAfter(b, DepthAfter(a, depth))
    ensures NoBareComma(a + b, depth) <==> NoBareComma(a, depth) && NoBareComma(b, DepthAfter(a, depth))
    decreases |a|
  {
    if a == "" {
      assert a + b == b;
    } else {
      assert (a + b)[1..] == a[1..] + b;
      DepthAfterBoth(a[1..], b, depth + Delta(a[0]));
    }
  }

  lemma DepthOfOne(c: char, depth: int)
    ensures DepthAfter([c], depth) == depth + Delta(c) && (NoBareComma([c], depth) <==> c != ',' || depth != 0)
  {
    assert [c][1..] == "";
  }

  lemma {:induction false} NestIsClosed(n: Nest, depth: nat)
    requires GoodNest(n, depth > 0)
    ensures DepthAfter(ShowNest(n), depth) == depth && NoBareComma(ShowNest(n), depth)
    decreases n
  {
    hide DepthAfter, NoBareComma;
    match n
    case End =>
      EmptyIsClosed(depth);
    case Char(c, rest) =>
      DepthOfOne(c, depth);
      DepthAfterBoth([c], ShowNest(rest), depth);
      NestIsClosed(rest, depth);
    case Group(kind, inner, rest) =>
      var open, text, close := [Opening(kind)], ShowNest(inner), [Closing(kind)];
      DepthOfOne(Opening(kind), depth);
      NestIsClosed(inner, depth + 1);
      DepthOfOne(Closing(kind), depth + 1);
      NestIsClosed(rest, depth);
      DepthAfterBoth(open, text, depth);
      DepthAfterBoth(open + text, close, depth);
      DepthAfterBoth(open + text + close, ShowNest(rest), depth);
  }

  lemma EmptyIsClosed(depth: int)
    ensures DepthAfter("", depth) == depth && NoBareComma("", depth)
  {
  }

  function ShowNests(nests: seq<Nest>): (texts: seq<string>)
    ensures |texts| == |nests|
  {
    seq(|nests|, i requires 0 <= i < |nests| => ShowNest(nests[i]))
  }

  // Parameters whose brackets stand in pairs and whose commas stand inside brackets come out of the
  // joined list trimmed, however they are nested.
  lemma NestedParamsSplit(params: seq<string>, nests: seq<Nest>)
    requires |nests| > 0 && forall i :: 0 <= i < |nests| ==> GoodNest(nests[i], false)
    requires PrintedAs(params, ShowNests(nests))
    ensures NonEmpty(TrimAll(Cut(Join(ShowNests(nests)), 0))) == params
  {
    forall i | 0 <= i < |nests| ensures NoBareComma(ShowNests(nests)[i], 0) && DepthAfter(ShowNests(nests)[i], 0) == 0 {
      NestIsClosed(nests[i], 0);
    }
    CutSeparable(ShowNests(nests));
    TrimPrinted(params, ShowNests(nests));
  }
}
