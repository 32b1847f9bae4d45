/**
 * prisma/seed-connection-requests.ts, shuffle: Fisher-Yates on a copy of the array.
 *
 * Math.random is a parameter: draw(i) is the number drawn when position i is filled. The index it
 * selects is choices[i]; the shuffle is uniform because choice sequences and permutations
 * correspond one to one.
 */
module Shuffle {
  import opened Sequences

  // One choice per position, the choice for position i being at most i.
  predicate Legal(choices: seq<nat>, n: nat) {
    |choices| == n && forall i :: 0 <= i < n ==> choices[i] <= i
  }

  function Swapped<T>(s: seq<T>, i: nat, j: nat): (t: seq<T>)
    requires i < |s| && j < |s|
    ensures |t| == |s| && t[i] == s[j] && t[j] == s[i]
    ensures forall k {:trigger t[k]} :: 0 <= k < |s| && k != i && k != j ==> t[k] == s[k]
  {
    s[i := s[j]][j := s[i]]
  }

  lemma SwapPermutes<T>(s: seq<T>, i: nat, j: nat)
    requires i < |s| && j < |s|
    ensures multiset(Swapped(s, i, j)) == multiset(s)
  {
  }

  // Fills positions i, i - 1, ..., 1.
  function Fill<T>(s: seq<T>, choices: seq<nat>, i: nat): (t: seq<T>)
    requires Legal(choices, |s|) && (i < |s| || i == 0)
    ensures |t| == |s|
    decreases i
  {
    if i == 0 then s else Fill(Swapped(s, i, choices[i]), choices, i - 1)
  }

  function Shuffled<T>(s: seq<T>, choices: seq<nat>): seq<T>
    requires Legal(choices, |s|)
  {
    Fill(s, choices, if |s| == 0 then 0 else |s| - 1)
  }

  // ---------- Draws and choices ----------

  ghost predicate IsRandom(draw: nat -> real) {
    forall i :: 0.0 <= draw(i) < 1.0
  }

  function Choice(x: real, i: nat): (j: nat)
    requires 0.0 <= x < 1.0
    ensures j <= i
  {
    ProductBelow(x, (i + 1) as real);
    (x * (i + 1) as real).Floor
  }

  lemma ProductBelow(x: real, y: real)
    requires 0.0 <= x < 1.0 && 0.0 < y
    ensures 0.0 <= x * y < y
  {
  }

  function Choices(draw: nat -> real, n: nat): (choices: seq<nat>)
    requires IsRandom(draw)
    ensures Legal(choices, n)
  {
    seq(n, i requires 0 <= i => Choice(draw(i), i))
  }

  // Each index is selected by an interval of draws of the same length.
  lemma ChoiceInterval(x: real, i: nat, j: nat)
    requires 0.0 <= x < 1.0 && j <= i
    ensures Choice(x, i) == j <==> j as real / (i + 1) as real <= x < (j + 1) as real / (i + 1) as real
  {
    var n := (i + 1) as real;
    Rescale(x, j as real, n);
    Rescale(x, (j + 1) as real, n);
  }

  lemma Rescale(x: real, y: real, n: real)
    requires n > 0.0
    ensures y / n <= x <==> y <= x * n
  {
    assert y == (y / n) * n;
    if y / n <= x {
      assert 0.0 <= (x - y / n) * n;
    } else {
      assert 0.0 < (y / n - x) * n;
    }
  }

  // Every legal choice sequence is drawn.
  lemma EveryChoiceIsDrawn(choices: seq<nat>) returns (draw: nat -> real)
    requires Legal(choices, |choices|)
    ensures IsRandom(draw) && Choices(draw, |choices|) == choices
  {
    draw := (i: nat) => if i < |choices| && choices[i] <= i then choices[i] as real / (i + 1) as real else 0.0;
    forall i: nat ensures 0.0 <= draw(i) < 1.0 {
      if i < |choices| {
        Rescale(0.0, choices[i] as real, (i + 1) as real);
        Rescale(1.0, choices[i] as real, (i + 1) as real);
        Rescale(draw(i), 0.0, (i + 1) as real);
        BelowOne(choices[i] as real, (i + 1) as real);
      }
    }
    forall i | 0 <= i < |choices| ensures Choice(draw(i), i) == choices[i] {
      ChoiceInterval(draw(i), i, choices[i]);
      Rescale(draw(i), (choices[i] + 1) as real, (i + 1) as real);
      assert draw(i) * (i + 1) as real == choices[i] as real;
    }
  }

  lemma BelowOne(y: real, n: real)
    requires 0.0 <= y < n
    ensures 0.0 <= y / n < 1.0
  {
    Rescale(1.0, y, n);
    assert y == (y / n) * n;
  }

  // ---------- The script's loop ----------

  method ShuffleCopy<T>(arr: array<T>, draw: nat -> real) returns (copy: array<T>)
    requires IsRandom(draw)
    ensures fresh(copy) && arr[..] == old(arr[..])
    ensures copy[..] == Shuffled(arr[..], Choices(draw, arr.Length))
  {
    hide Fill, Choices, Shuffled, Swapped;
    copy := new T[arr.Length](i requires 0 <= i < arr.Length reads arr => arr[i]);
    assert copy[..] == arr[..];
    ghost var choices := Choices(draw, arr.Length);
    var i := arr.Length - 1;
    ShuffledIsFill(arr[..], choices);
    while i > 0
      invariant arr.Length == 0 || 0 <= i < arr.Length
      invariant fresh(copy) && copy.Length == arr.Length && arr[..] == old(arr[..])
      invariant Fill(copy[..], choices, if i > 0 then i else 0) == Shuffled(arr[..], choices)
    {
      var j := Choice(draw(i), i);
      ghost var before := copy[..];
      FillNext(before, draw, i);
      copy[i], copy[j] := copy[j], copy[i];
      assert copy[..] == Swapped(before, i, j);
      i := i - 1;
    }
    FillDone(copy[..], choices);
  }

  lemma ShuffledIsFill<T>(s: seq<T>, choices: seq<nat>)
    requires Legal(choices, |s|)
    ensures Shuffled(s, choices) == Fill(s, choices, if |s| > 1 then |s| - 1 else 0)
  {
  }

  lemma FillNext<T>(s: seq<T>, draw: nat -> real, i: nat)
    requires IsRandom(draw) && 0 < i < |s|
    ensures Choice(draw(i), i) < |s|
    ensures Fill(s, Choices(draw, |s|), i) == Fill(Swapped(s, i, Choice(draw(i), i)), Choices(draw, |s|), i - 1)
  {
  }

  lemma FillDone<T>(s: seq<T>, choices: seq<nat>)
    requires Legal(choices, |s|)
    ensures Fill(s, choices, 0) == s
  {
  }

  // ---------- Choice sequences and permutations ----------

  lemma {:induction false} FillPermutes<T>(s: seq<T>, choices: seq<nat>, i: nat)
    requires Legal(choices, |s|) && (i < |s| || i == 0)
    ensures multiset(Fill(s, choices, i)) == multiset(s)
    decreases i
  {
    if i > 0 {
      SwapPermutes(s, i, choices[i]);
      FillPermutes(Swapped(s, i, choices[i]), choices, i - 1);
    }
  }

  lemma {:induction false} FillKeepsAbove<T>(s: seq<T>, choices: seq<nat>, i: nat, k: nat)
    requires Legal(choices, |s|) && i < k < |s|
    ensures Fill(s, choices, i)[k] == s[k]
    decreases i
  {
    if i > 0 {
      FillKeepsAbove(Swapped(s, i, choices[i]), choices, i - 1, k);
    }
  }

  // The result is a permutation of the input.
  lemma ShuffledPermutes<T>(s: seq<T>, choices: seq<nat>)
    requires Legal(choices, |s|)
    ensures multiset(Shuffled(s, choices)) == multiset(s)
  {
    FillPermutes(s, choices, if |s| == 0 then 0 else |s| - 1);
  }

  // What ends up at position i is the element its choice picked.
  lemma FillPlaces<T>(s: seq<T>, choices: seq<nat>, i: nat)
    requires Legal(choices, |s|) && i < |s|
    ensures Fill(s, choices, i)[i] == s[choices[i]]
  {
    if i == 0 {
      assert choices[0] == 0;
    } else {
      SwappedStays(s, choices, i, choices[i]);
    }
  }

  lemma SwappedStays<T>(s: seq<T>, choices: seq<nat>, i: nat, j: nat)
    requires Legal(choices, |s|) && 0 < i < |s| && j < |s|
    ensures Fill(Swapped(s, i, j), choices, i - 1)[i] == s[j]
  {
    FillKeepsAbove(Swapped(s, i, j), choices, i - 1, i);
  }

  // Positions above i are not looked at.
  lemma {:induction false} FillPrefix<T>(s: seq<T>, choices: seq<nat>, i: nat, m: nat)
    requires Legal(choices, |s|) && i < m <= |s|
    ensures Legal(choices[..m], m) && Fill(s, choices, i)[..m] == Fill(s[..m], choices[..m], i)
    decreases i
  {
    if i > 0 {
      assert Swapped(s, i, choices[i])[..m] == Swapped(s[..m], i, choices[i]);
      FillPrefix(Swapped(s, i, choices[i]), choices, i - 1, m);
    }
  }

  // The last choice picks the last element of the result, the old last one takes its place, and the
  // rest is shuffled by the other choices.
  lemma LastIsPickedFirst<T>(s: seq<T>, choices: seq<nat>)
    requires Legal(choices, |s|) && |s| > 0
    ensures var n := |s| - 1;
            && Shuffled(s, choices)[n] == s[choices[n]]
            && Legal(choices[..n], n)
            && Shuffled(s, choices)[..n] == Shuffled(s[choices[n] := s[n]][..n], choices[..n])
  {
    var n := |s| - 1;
    FillPlaces(s, choices, n);
    if n > 0 {
      FillPrefix(Swapped(s, n, choices[n]), choices, n - 1, n);
      assert Swapped(s, n, choices[n])[..n] == s[choices[n] := s[n]][..n];
    }
  }

  lemma SwapKeepsDistinct<T>(s: seq<T>, i: nat, j: nat)
    requires i < |s| && j < |s| && Distinct(s)
    ensures Distinct(Swapped(s, i, j))
  {
  }

  lemma {:induction false} FillInjective<T>(s: seq<T>, c: seq<nat>, d: seq<nat>, i: nat, k: nat)
    requires Legal(c, |s|) && Legal(d, |s|) && k <= i < |s| && Distinct(s)
    requires Fill(s, c, i) == Fill(s, d, i)
    ensures c[k] == d[k]
    decreases i
  {
    FillPlaces(s, c, i);
    FillPlaces(s, d, i);
    assert c[i] == d[i];
    if k < i {
      SwapKeepsDistinct(s, i, c[i]);
      FillInjective(Swapped(s, i, c[i]), c, d, i - 1, k);
    }
  }

  lemma SamePrefix<T>(s: seq<T>, t: seq<T>, n: nat)
    requires n <= |s| == |t| && multiset(s) == multiset(t) && s[n..] == t[n..]
    ensures multiset(s[..n]) == multiset(t[..n])
  {
    var a, b, c := multiset(s[..n]), multiset(t[..n]), multiset(s[n..]);
    assert s == s[..n] + s[n..] && t == t[..n] + t[n..];
    assert a + c == multiset(s) && b + c == multiset(t);
    assert a == multiset(s) - c && b == multiset(t) - c;
  }

  // Where the element wanted at position i is found.
  lemma Find<T>(s: seq<T>, t: seq<T>, i: nat) returns (j: nat)
    requires i < |s| == |t| && multiset(s) == multiset(t) && s[i + 1..] == t[i + 1..]
    ensures j <= i && s[j] == t[i]
    ensures multiset(Swapped(s, i, j)) == multiset(t) && Swapped(s, i, j)[i..] == t[i..]
  {
    SamePrefix(s, t, i + 1);
    assert t[..i + 1][i] in multiset(t[..i + 1]);
    assert t[i] in multiset(s[..i + 1]);
    j :| 0 <= j <= i && s[..i + 1][j] == t[i];
    SwapPermutes(s, i, j);
    assert Swapped(s, i, j)[i + 1..] == s[i + 1..];
    assert t[i..] == [t[i]] + t[i + 1..];
  }

  // Which choices lead from s to its rearrangement t, filling positions i and below.
  lemma {:induction false} FillReaches<T>(s: seq<T>, t: seq<T>, i: nat) returns (choices: seq<nat>)
    requires i < |s| == |t| && multiset(s) == multiset(t) && s[i + 1..] == t[i + 1..]
    ensures Legal(choices, |s|) && Fill(s, choices, i) == t
    decreases i
  {
    var j := Find(s, t, i);
    if i == 0 {
      choices := seq(|s|, _ => 0);
      assert s == [s[0]] + s[1..] && t == [t[0]] + t[1..];
    } else {
      var rest := FillReaches(Swapped(s, i, j), t, i - 1);
      choices := rest[i := j];
      FillIgnores(Swapped(s, i, j), rest, choices, i - 1);
    }
  }

  lemma {:induction false} FillIgnores<T>(s: seq<T>, c: seq<nat>, d: seq<nat>, i: nat)
    requires Legal(c, |s|) && Legal(d, |s|) && i < |s| && forall k :: 0 <= k <= i ==> c[k] == d[k]
    ensures Fill(s, c, i) == Fill(s, d, i)
    decreases i
  {
    if i > 0 {
      FillIgnores(Swapped(s, i, c[i]), c, d, i - 1);
    }
  }

  // Every rearrangement, repeated elements or not, comes from some choices.
  lemma EveryPermutationArises<T>(s: seq<T>, t: seq<T>) returns (choices: seq<nat>)
    requires multiset(s) == multiset(t)
    ensures Legal(choices, |s|) && Shuffled(s, choices) == t
  {
    assert |s| == |multiset(s)| == |multiset(t)| == |t|;
    if |s| == 0 {
      choices := [];
    } else {
      choices := FillReaches(s, t, |s| - 1);
    }
  }

  ghost predicate DifferentChoicesDiffer<T(!new)>(s: seq<T>) {
    forall c, d :: Legal(c, |s|) && Legal(d, |s|) && Shuffled(s, c) == Shuffled(s, d) ==> c == d
  }

  lemma {:induction false} FillNothing<T>(s: seq<T>, choices: seq<nat>, i: nat)
    requires Legal(choices, |s|) && (i < |s| || i == 0)
    requires forall k {:trigger choices[k]} :: 0 <= k < |s| ==> s[choices[k]] == s[k]
    ensures Fill(s, choices, i) == s
    decreases i
  {
    if i > 0 {
      assert Swapped(s, i, choices[i]) == s;
      FillNothing(s, choices, i - 1);
    }
  }

  // Different choices give different results exactly if the elements are distinct: then each
  // permutation comes from one choice sequence only.
  lemma OneToOneIffDistinct<T(!new)>(s: seq<T>)
    ensures DifferentChoicesDiffer(s) <==> Distinct(s)
  {
    if Distinct(s) {
      forall c, d | Legal(c, |s|) && Legal(d, |s|) && Shuffled(s, c) == Shuffled(s, d) ensures c == d {
        forall k | 0 <= k < |s| ensures c[k] == d[k] {
          FillInjective(s, c, d, |s| - 1, k);
        }
      }
    } else {
      var p, q :| 0 <= p < q < |s| && s[p] == s[q];
      var c: seq<nat> := seq(|s|, i requires 0 <= i => i);
      var d := c[q := p];
      FillNothing(s, c, |s| - 1);
      FillNothing(s, d, |s| - 1);
      assert c[q] != d[q];
      assert Legal(c, |s|) && Legal(d, |s|) && Shuffled(s, c) == Shuffled(s, d);
    }
  }
}
