/** Collapsing every run of gap characters in a text to one character, and what that does to words. */
module Runs {
  import opened Sequences

  function Collapse(s: string, isGap: char -> bool, to: char): (r: string)
    ensures |r| <= |s|
    ensures forall i :: 0 <= i < |r| ==> r[i] == to || r[i] in s
  {
    if s == "" then ""
    else if !isGap(s[0]) then [s[0]] + Collapse(s[1..], isGap, to)
    else if |s| > 1 && isGap(s[1]) then Collapse(s[1..], isGap, to)
    else [to] + Collapse(s[1..], isGap, to)
  }

  // Every gap is a single `to`.
  ghost predicate SingleGaps(s: string, isGap: char -> bool, to: char) {
    && (forall i :: 0 <= i < |s| && isGap(s[i]) ==> s[i] == to)
    && (forall i, j :: 0 <= i && j == i + 1 && j < |s| ==> !(isGap(s[i]) && isGap(s[j])))
  }

  predicate IsWord(w: string, isGap: char -> bool) {
    w != "" && forall i :: 0 <= i < |w| ==> !isGap(w[i])
  }

  predicate AllGap(s: string, isGap: char -> bool) {
    forall i :: 0 <= i < |s| ==> isGap(s[i])
  }

  // Each word with one `to` in front.
  function Joined(words: seq<string>, to: char): string {
    if words == [] then "" else [to] + words[0] + Joined(words[1..], to)
  }

  lemma {:induction false} CollapseSingle(s: string, isGap: char -> bool, to: char)
    requires isGap(to)
    ensures SingleGaps(Collapse(s, isGap, to), isGap, to)
    ensures s != "" ==> Collapse(s, isGap, to) != "" && (isGap(s[0]) <==> isGap(Collapse(s, isGap, to)[0]))
  {
    if s != "" {
      CollapseSingle(s[1..], isGap, to);
    }
  }

  lemma {:induction false} CollapseAlready(s: string, isGap: char -> bool, to: char)
    requires SingleGaps(s, isGap, to)
    ensures Collapse(s, isGap, to) == s
  {
    if s != "" {
      CollapseAlready(s[1..], isGap, to);
      assert s == [s[0]] + s[1..];
      if isGap(s[0]) && |s| > 1 {
        assert !(isGap(s[0]) && isGap(s[1]));
      }
    }
  }

  lemma {:induction false} CollapseGap(gap: string, rest: string, isGap: char -> bool, to: char)
    requires gap != "" && AllGap(gap, isGap) && (rest != "" ==> !isGap(rest[0]))
    ensures Collapse(gap + rest, isGap, to) == [to] + Collapse(rest, isGap, to)
    decreases |gap|
  {
    var s := gap + rest;
    assert s[1..] == gap[1..] + rest;
    if |gap| > 1 {
      CollapseGap(gap[1..], rest, isGap, to);
    } else {
      assert s[1..] == rest;
    }
  }

  lemma {:induction false} CollapseWord(w: string, rest: string, isGap: char -> bool, to: char)
    requires forall i :: 0 <= i < |w| ==> !isGap(w[i])
    ensures Collapse(w + rest, isGap, to) == w + Collapse(rest, isGap, to)
    decreases |w|
  {
    if w == "" {
      assert w + rest == rest;
    } else {
      assert (w + rest)[1..] == w[1..] + rest;
      CollapseWord(w[1..], rest, isGap, to);
    }
  }

  lemma CollapseBlank(gap: string, isGap: char -> bool, to: char)
    requires AllGap(gap, isGap)
    ensures Collapse(gap, isGap, to) == if gap == "" then "" else [to]
  {
    if gap != "" {
      CollapseGap(gap, "", isGap, to);
      assert gap + "" == gap;
    }
  }

  // Words with any gaps in front of them come out with one `to` in front.
  lemma {:induction false} CollapseSpaced(words: seq<string>, gaps: seq<string>, last: string,
                                          isGap: char -> bool, to: char)
    requires |gaps| == |words| && AllGap(last, isGap)
    requires forall i :: 0 <= i < |words| ==> IsWord(words[i], isGap) && gaps[i] != "" && AllGap(gaps[i], isGap)
    ensures Collapse(Spaced(words, gaps) + last, isGap, to) == Joined(words, to) + if last == "" then "" else [to]
    decreases |words|
  {
    hide Collapse;
    var tail := if last == "" then "" else [to];
    if words == [] {
      assert Spaced(words, gaps) + last == last && last + "" == last;
      CollapseBlank(last, isGap, to);
    } else {
      var rest := Spaced(words[1..], gaps[1..]) + last;
      assert Spaced(words, gaps) + last == gaps[0] + (words[0] + rest);
      CollapseSpaced(words[1..], gaps[1..], last, isGap, to);
      CollapseGap(gaps[0], words[0] + rest, isGap, to);
      CollapseWord(words[0], rest, isGap, to);
      assert [to] + (words[0] + (Joined(words[1..], to) + tail)) == Joined(words, to) + tail;
    }
  }

  // A text that starts with a word.
  lemma CollapseWords(lead: string, first: string, words: seq<string>, gaps: seq<string>, last: string,
                      isGap: char -> bool, to: char)
    requires |gaps| == |words| && AllGap(lead, isGap) && AllGap(last, isGap) && IsWord(first, isGap)
    requires forall i :: 0 <= i < |words| ==> IsWord(words[i], isGap) && gaps[i] != "" && AllGap(gaps[i], isGap)
    ensures Collapse(lead + first + (Spaced(words, gaps) + last), isGap, to)
         == (if lead == "" then "" else [to]) + (first + Joined(words, to)) + if last == "" then "" else [to]
  {
    hide Collapse, Spaced, Joined;
    var rest := Spaced(words, gaps) + last;
    var tail := if last == "" then "" else [to];
    CollapseSpaced(words, gaps, last, isGap, to);
    CollapseWord(first, rest, isGap, to);
    assert first + (Joined(words, to) + tail) == first + Joined(words, to) + tail;
    assert lead + first + rest == lead + (first + rest);
    if lead == "" {
      assert lead + (first + rest) == first + rest;
      assert "" + (first + Joined(words, to)) == first + Joined(words, to);
    } else {
      CollapseGap(lead, first + rest, isGap, to);
      assert [to] + (first + Joined(words, to) + tail) == [to] + (first + Joined(words, to)) + tail;
    }
  }

  lemma {:induction false} JoinedEnds(first: string, words: seq<string>, isGap: char -> bool, to: char)
    requires IsWord(first, isGap) && forall i :: 0 <= i < |words| ==> IsWord(words[i], isGap)
    ensures var s := first + Joined(words, to);
            s != "" && !isGap(s[0]) && !isGap(s[|s| - 1])
    decreases |words|
  {
    if words == [] {
      assert first + Joined(words, to) == first;
    } else {
      JoinedEnds(words[0], words[1..], isGap, to);
      assert first + Joined(words, to) == first + [to] + (words[0] + Joined(words[1..], to));
    }
  }
}
