/** Shared notions about sequences, and facts about concatenation that proofs cite one at a time. */
module Sequences {
  lemma Assoc<T>(a: seq<T>, b: seq<T>, c: seq<T>)
    ensures a + b + c == a + (b + c)
  {
  }

  lemma Empty<T>(a: seq<T>)
    ensures [] + a == a && a + [] == a
  {
  }

  lemma Tail<T>(a: seq<T>, b: seq<T>)
    requires a != []
    ensures (a + b)[0] == a[0] && (a + b)[1..] == a[1..] + b
  {
  }

  lemma HeadAndTail<T>(a: seq<T>)
    requires a != []
    ensures a == [a[0]] + a[1..]
  {
  }

  // The elements that satisfy p, in order.
  ghost function Filtered<T(!new)>(s: seq<T>, p: T -> bool): (r: seq<T>)
    ensures forall x :: x in r <==> x in s && p(x)
  {
    if s == [] then [] else
      var n := |s| - 1;
      assert s == s[..n] + [s[n]];
      Filtered(s[..n], p) + if p(s[n]) then [s[n]] else []
  }

  lemma FilteredOneMore<T(!new)>(s: seq<T>, p: T -> bool, i: nat)
    requires i < |s|
    ensures Filtered(s[..i + 1], p) == Filtered(s[..i], p) + if p(s[i]) then [s[i]] else []
    ensures Filtered([], p) == [] && s[..|s|] == s
  {
    assert s[..i + 1][..i] == s[..i];
  }

  lemma {:induction false} FilteredAlike<T(!new)>(s: seq<T>, p: T -> bool, q: T -> bool)
    requires forall x :: p(x) == q(x)
    ensures Filtered(s, p) == Filtered(s, q)
    decreases |s|
  {
    if s != [] {
      FilteredAlike(s[..|s| - 1], p, q);
    }
  }

  ghost predicate Increasing(s: seq<nat>) {
    forall k, l :: 0 <= k < l < |s| ==> s[k] < s[l]
  }

  lemma AppendToIncreasing(s: seq<nat>, n: nat)
    requires Increasing(s) && forall i: nat :: i in s ==> i < n
    ensures Increasing(s + [n]) && forall i: nat :: i in s + [n] <==> i in s || i == n
  {
    assert forall k :: 0 <= k < |s| ==> s[k] in s;
  }

  // r lists the elements of s at these positions.
  ghost predicate PickedAt<T>(s: seq<T>, r: seq<T>, at: seq<nat>) {
    |at| == |r| && forall k :: 0 <= k < |at| ==> at[k] < |s| && r[k] == s[at[k]]
  }

  lemma PickOneMore<T>(s: seq<T>, r: seq<T>, at: seq<nat>, x: T)
    requires PickedAt(s, r, at)
    ensures PickedAt(s + [x], r, at) && PickedAt(s + [x], r + [x], at + [|s|])
  {
  }

  // Where the elements were: each position whose element satisfies p, once and in growing order.
  lemma {:induction false} FilteredPositions<T(!new)>(s: seq<T>, p: T -> bool) returns (at: seq<nat>)
    ensures PickedAt(s, Filtered(s, p), at) && Increasing(at)
    ensures forall i: nat :: i in at <==> i < |s| && p(s[i])
    decreases |s|
  {
    if s == [] {
      at := [];
    } else {
      var n := |s| - 1;
      at := FilteredPositions(s[..n], p);
      FilteredOneMore(s, p, n);
      PickOneMore(s[..n], Filtered(s[..n], p), at, s[n]);
      assert s[..n + 1] == s == s[..n] + [s[n]];
      hide Filtered, Increasing, PickedAt;
      if p(s[n]) {
        AppendToIncreasing(at, n);
        at := at + [n];
      }
    }
  }

  lemma {:induction false} FilteredCount<T(!new)>(s: seq<T>, p: T -> bool) returns (at: set<int>)
    ensures |at| == |Filtered(s, p)|
    ensures forall i :: i in at <==> 0 <= i < |s| && p(s[i])
    decreases |s|
  {
    if s == [] {
      at := {};
    } else {
      var n := |s| - 1;
      at := FilteredCount(s[..n], p);
      assert n !in at;
      at := at + if p(s[n]) then {n} else {};
    }
  }

  lemma LastOfIncreasing(s: seq<nat>, i: nat)
    requires Increasing(s) && s != []
    ensures i in s[..|s| - 1] <==> i in s && i != s[|s| - 1]
    ensures i in s ==> i <= s[|s| - 1]
  {
    assert s == s[..|s| - 1] + [s[|s| - 1]];
  }

  // A growing sequence is determined by its elements.
  lemma {:induction false} SameIncreasing(a: seq<nat>, b: seq<nat>)
    requires Increasing(a) && Increasing(b) && forall i: nat :: i in a <==> i in b
    ensures a == b
    decreases |a|
  {
    if a == [] {
      SomeElement(b);
    } else {
      var m, n := |a| - 1, |b| - 1;
      assert a[m] in a && a[m] in b && b[n] in b && b[n] in a;
      LastOfIncreasing(a, b[n]);
      LastOfIncreasing(b, a[m]);
      forall i: nat ensures i in a[..m] <==> i in b[..n] {
        LastOfIncreasing(a, i);
        LastOfIncreasing(b, i);
      }
      SameIncreasing(a[..m], b[..n]);
      assert a == a[..m] + [a[m]] && b == b[..n] + [b[n]];
    }
  }

  lemma SomeElement<T(!new)>(s: seq<T>)
    ensures s == [] || exists x :: x in s
  {
    assert s == [] || s[0] in s;
  }

  ghost predicate Distinct<T>(s: seq<T>) {
    forall i, j :: 0 <= i < j < |s| ==> s[i] != s[j]
  }

  // The index i, but at most n.
  function Clip(i: nat, n: nat): nat {
    if i < n then i else n
  }

  // Words, each with a gap in front of it.
  function Spaced(words: seq<string>, gaps: seq<string>): string
    requires |gaps| == |words|
  {
    if words == [] then "" else gaps[0] + words[0] + Spaced(words[1..], gaps[1..])
  }
}
