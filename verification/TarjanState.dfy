/**
 * The state of one run of Tarjan's algorithm (scripts/lint-no-cyclic-imports.ts), the invariant
 * every step keeps, and what each step does to it.
 */
module TarjanState {
  import opened ImportGraph
  import opened Sequences

  // The bookkeeping record of a visited node.
  datatype Meta = Meta(index: nat, lowlink: nat, onStack: bool)

  datatype State = State(meta: map<Node, Meta>, stack: seq<Node>, sccs: seq<seq<Node>>, nextIndex: nat)

  const INITIAL := State(map[], [], [], 0)

  ghost predicate OnStack(s: State, x: Node) {
    x in s.meta && s.meta[x].onStack
  }

  ghost predicate InSomeScc(sccs: seq<seq<Node>>, x: Node) {
    exists k :: 0 <= k < |sccs| && x in sccs[k]
  }

  // ---------- The invariant ----------

  // Only keys are visited; indexes come from the counter and low-links never exceed them.
  ghost predicate Numbered(g: Graph, s: State) {
    forall x :: x in s.meta ==> x in g && s.meta[x].lowlink <= s.meta[x].index < s.nextIndex
  }

  // `onStack` holds exactly for the nodes on the stack, which are sorted by strictly growing index.
  ghost predicate StackOrdered(s: State) {
    && (forall i :: 0 <= i < |s.stack| ==> OnStack(s, s.stack[i]))
    && (forall i, j :: 0 <= i < j < |s.stack| ==> s.meta[s.stack[i]].index < s.meta[s.stack[j]].index)
    && (forall x :: OnStack(s, x) ==> x in s.stack)
  }

  // A lower stack node reaches every higher one.
  ghost predicate StackReaches(g: Graph, s: State) {
    forall i, j :: 0 <= i <= j < |s.stack| ==> Reaches(g, s.stack[i], s.stack[j])
  }

  // x is the node of a call that has not returned, no younger than y, and y reaches x.
  ghost predicate Anchors(g: Graph, s: State, open: set<Node>, y: Node, x: Node) {
    x in open && OnStack(s, x) && OnStack(s, y) && s.meta[x].index <= s.meta[y].index && Reaches(g, y, x)
  }

  ghost predicate HasAnchor(g: Graph, s: State, open: set<Node>, y: Node) {
    exists x :: Anchors(g, s, open, y, x)
  }

  // Every stack node reaches the node of some open call of no larger index.
  ghost predicate Anchored(g: Graph, s: State, open: set<Node>) {
    && (forall x :: x in open ==> OnStack(s, x))
    && (forall y {:trigger HasAnchor(g, s, open, y)} :: OnStack(s, y) ==> HasAnchor(g, s, open, y))
  }

  // A finished node has no unvisited successor.
  ghost predicate NoFinishedToWhite(g: Graph, s: State, open: set<Node>) {
    forall x, y :: x in s.meta && x !in open && Edge(g, x, y) ==> y in s.meta
  }

  // Emitted components hold exactly the visited nodes off the stack, each once.
  ghost predicate EmittedOnce(s: State) {
    && (forall x :: InSomeScc(s.sccs, x) <==> x in s.meta && !s.meta[x].onStack)
    && (forall k :: 0 <= k < |s.sccs| ==> |s.sccs[k]| > 0 && Distinct(s.sccs[k]))
    && (forall k, l, x :: 0 <= k < l < |s.sccs| && x in s.sccs[k] ==> x !in s.sccs[l])
  }

  // An emitted component is a class of mutual reachability.
  ghost predicate IsComponent(g: Graph, c: seq<Node>) {
    forall x, y :: x in c ==> (y in c <==> Mutual(g, x, y))
  }

  // Edges out of a component stay in it or lead to one emitted before it.
  ghost predicate PointsBack(g: Graph, sccs: seq<seq<Node>>, k: nat)
    requires k < |sccs|
  {
    forall x, y :: x in sccs[k] && Edge(g, x, y) ==> InSomeScc(sccs[..k + 1], y)
  }

  ghost predicate ComponentsInOrder(g: Graph, sccs: seq<seq<Node>>) {
    forall k :: 0 <= k < |sccs| ==> IsComponent(g, sccs[k]) && PointsBack(g, sccs, k)
  }

  // What holds at every step, `open` being the nodes whose calls have not returned.
  ghost predicate Inv(g: Graph, s: State, open: set<Node>) {
    && Numbered(g, s)
    && StackOrdered(s)
    && StackReaches(g, s)
    && Anchored(g, s, open)
    && NoFinishedToWhite(g, s, open)
    && EmittedOnce(s)
    && ComponentsInOrder(g, s.sccs)
  }

  // ---------- What one call does ----------

  // Some stack node reached from v has v's low-link as its index.
  ghost predicate LowWitness(g: Graph, s: State, v: Node) {
    exists y :: OnStack(s, y) && v in s.meta && s.meta[y].index == s.meta[v].lowlink && Reaches(g, v, y)
  }

  ghost predicate Keeps(before: State, after: State) {
    && (forall x :: x in before.meta ==> x in after.meta && after.meta[x] == before.meta[x])
    && before.stack <= after.stack
    && before.sccs <= after.sccs
  }

  // v's low-link is at most the index of every node below height h that stack nodes from `from` on import.
  ghost predicate LowBound(g: Graph, s: State, v: Node, h: nat, from: nat)
    requires h <= |s.stack| && StackOrdered(s) && v in s.meta
  {
    forall i, j :: from <= i < |s.stack| && 0 <= j < h && Edge(g, s.stack[i], s.stack[j]) ==>
      s.meta[v].lowlink <= s.meta[s.stack[j]].index
  }

  // The effect of a whole call strongconnect(v).
  ghost predicate Connected(g: Graph, before: State, after: State, v: Node)
    requires StackOrdered(after)
  {
    && Keeps(before, after)
    && v in after.meta && after.meta[v].index == before.nextIndex
    && LowBound(g, after, v, |before.stack|, |before.stack|)
    && (if after.meta[v].onStack then LowWitness(g, after, v)
        else after.stack == before.stack && after.meta[v].lowlink == after.meta[v].index)
  }

  // v's first i imports have been dealt with.
  ghost predicate ImportsDone(g: Graph, before: State, s: State, v: Node, i: nat)
    requires v in g && i <= |g[v]| && v in s.meta
  {
    && (forall j :: 0 <= j < i && g[v][j] in g ==> g[v][j] in s.meta)
    && (forall j :: 0 <= j < i && OnStack(before, g[v][j]) ==> s.meta[v].lowlink <= before.meta[g[v][j]].index)
  }

  // The situation of strongconnect(v), entered in state `before`, after i of v's imports.
  ghost predicate Exploring(g: Graph, before: State, s: State, v: Node, i: nat)
    requires v in g && i <= |g[v]| && StackOrdered(s)
  {
    && Keeps(before, s)
    && v !in before.meta
    && |before.stack| < |s.stack| && s.stack[|before.stack|] == v
    && v in s.meta && s.meta[v].index == before.nextIndex
    && ImportsDone(g, before, s, v, i)
    && LowBound(g, s, v, |before.stack|, |before.stack| + 1)
    && LowWitness(g, s, v)
  }

  // ---------- Steps ----------

  function Enter(s: State, v: Node): State {
    State(s.meta[v := Meta(s.nextIndex, s.nextIndex, true)], s.stack + [v], s.sccs, s.nextIndex + 1)
  }

  function Lower(s: State, v: Node, l: nat): State
    requires v in s.meta
  {
    s.(meta := s.meta[v := s.meta[v].(lowlink := l)])
  }

  lemma EnterKeepsStackReaches(g: Graph, s: State, open: set<Node>, v: Node)
    requires StackReaches(g, s) && Anchored(g, s, open)
    requires forall i :: 0 <= i < |s.stack| ==> OnStack(s, s.stack[i])
    requires v in g
    requires forall x :: x in open ==> Reaches(g, x, v)
    ensures StackReaches(g, Enter(s, v))
  {
    var t := Enter(s, v);
    ReachesSelf(g, v);
    forall i, j | 0 <= i <= j < |t.stack| ensures Reaches(g, t.stack[i], t.stack[j]) {
      if i < j == |s.stack| {
        assert HasAnchor(g, s, open, s.stack[i]);
        var x :| Anchors(g, s, open, s.stack[i], x);
        ReachesTrans(g, s.stack[i], x, v);
      }
    }
  }

  lemma EnterKeepsAnchored(g: Graph, s: State, open: set<Node>, v: Node)
    requires Anchored(g, s, open) && v in g && v !in s.meta
    ensures Anchored(g, Enter(s, v), open + {v})
  {
    var t := Enter(s, v);
    ReachesSelf(g, v);
    forall y | OnStack(t, y) ensures HasAnchor(g, t, open + {v}, y) {
      if y == v {
        assert Anchors(g, t, open + {v}, y, v);
      } else {
        assert HasAnchor(g, s, open, y);
        var x :| Anchors(g, s, open, y, x);
        assert Anchors(g, t, open + {v}, y, x);
      }
    }
  }

  lemma EnterKeepsShape(g: Graph, s: State, v: Node)
    requires Numbered(g, s) && StackOrdered(s) && EmittedOnce(s) && v in g && v !in s.meta
    ensures Numbered(g, Enter(s, v)) && StackOrdered(Enter(s, v)) && EmittedOnce(Enter(s, v))
  {
    var t := Enter(s, v);
    assert StackOrdered(t);
    forall x ensures InSomeScc(t.sccs, x) <==> x in t.meta && !t.meta[x].onStack {
      assert InSomeScc(s.sccs, x) <==> x in s.meta && !s.meta[x].onStack;
    }
  }

  lemma EnterStartsExploring(g: Graph, s: State, v: Node)
    requires Numbered(g, s) && StackOrdered(s) && StackOrdered(Enter(s, v)) && v in g && v !in s.meta
    ensures Exploring(g, s, Enter(s, v), v, 0)
  {
    ReachesSelf(g, v);
    assert OnStack(Enter(s, v), v);
  }

  // A call starts: v is white and every open call's node reaches it.
  lemma EnterKeepsInv(g: Graph, s: State, open: set<Node>, v: Node)
    requires Inv(g, s, open)
    requires v in g && v !in s.meta
    requires forall x :: x in open ==> Reaches(g, x, v)
    ensures Inv(g, Enter(s, v), open + {v}) && Exploring(g, s, Enter(s, v), v, 0)
  {
    EnterKeepsStackReaches(g, s, open, v);
    EnterKeepsAnchored(g, s, open, v);
    EnterKeepsShape(g, s, v);
    EnterStartsExploring(g, s, v);
  }

  // Two states that differ in low-links only satisfy the same invariant, given the bound on low-links.
  ghost predicate SameButLowlinks(s: State, t: State) {
    && t.stack == s.stack && t.sccs == s.sccs && t.nextIndex == s.nextIndex && t.meta.Keys == s.meta.Keys
    && (forall x :: x in s.meta ==> t.meta[x].index == s.meta[x].index && t.meta[x].onStack == s.meta[x].onStack)
  }

  lemma LowlinksKeepAnchored(g: Graph, s: State, t: State, open: set<Node>)
    requires SameButLowlinks(s, t) && Anchored(g, s, open)
    ensures Anchored(g, t, open)
  {
    forall y | OnStack(t, y) ensures HasAnchor(g, t, open, y) {
      assert HasAnchor(g, s, open, y);
      var x :| Anchors(g, s, open, y, x);
      assert Anchors(g, t, open, y, x);
    }
  }

  lemma LowlinksKeepShape(s: State, t: State)
    requires SameButLowlinks(s, t)
    ensures StackOrdered(s) ==> StackOrdered(t)
    ensures EmittedOnce(s) ==> EmittedOnce(t)
  {
    if EmittedOnce(s) {
      forall x ensures InSomeScc(t.sccs, x) <==> x in t.meta && !t.meta[x].onStack {
        assert InSomeScc(s.sccs, x) <==> x in s.meta && !s.meta[x].onStack;
      }
    }
  }

  lemma LowerKeepsInv(g: Graph, s: State, open: set<Node>, v: Node, l: nat)
    requires Inv(g, s, open) && v in s.meta && l <= s.meta[v].lowlink
    ensures Inv(g, Lower(s, v, l), open)
  {
    var t := Lower(s, v, l);
    LowlinksKeepAnchored(g, s, t, open);
    LowlinksKeepShape(s, t);
    assert Numbered(g, t);
  }

  function Min(a: nat, b: nat): nat {
    if a < b then a else b
  }

  // The import is not a key, or its component has been emitted.
  lemma SkipKeepsExploring(g: Graph, before: State, s: State, v: Node, i: nat)
    requires StackOrdered(s) && v in g && i < |g[v]| && Exploring(g, before, s, v, i)
    requires g[v][i] !in g || (g[v][i] in s.meta && !s.meta[g[v][i]].onStack)
    requires Numbered(g, before)
    ensures Exploring(g, before, s, v, i + 1)
  {
  }

  // The import is on the stack: v's low-link drops to its index.
  lemma BackEdgeKeepsExploring(g: Graph, before: State, s: State, v: Node, i: nat)
    requires StackOrdered(s) && v in g && i < |g[v]| && Exploring(g, before, s, v, i)
    requires g[v][i] in g && OnStack(s, g[v][i])
    ensures var t := Lower(s, v, Min(s.meta[v].lowlink, s.meta[g[v][i]].index));
            StackOrdered(t) && Exploring(g, before, t, v, i + 1)
  {
    var w := g[v][i];
    var l := Min(s.meta[v].lowlink, s.meta[w].index);
    var t := Lower(s, v, l);
    LowlinksKeepShape(s, t);
    ReachesEdge(g, v, w);
    LowBoundLower(g, s, v, |before.stack|, |before.stack| + 1, l);
    BackLowWitness(g, s, v, w);
    OneMoreImport(g, before, s, v, i, l);
  }

  lemma OneMoreImport(g: Graph, before: State, s: State, v: Node, i: nat, l: nat)
    requires v in g && i < |g[v]| && v in s.meta && v !in before.meta && Keeps(before, s)
    requires ImportsDone(g, before, s, v, i) && g[v][i] in s.meta && l <= s.meta[v].lowlink
    requires OnStack(before, g[v][i]) ==> l <= s.meta[g[v][i]].index
    ensures ImportsDone(g, before, Lower(s, v, l), v, i + 1)
    ensures Keeps(before, Lower(s, v, l))
  {
  }

  lemma BackLowWitness(g: Graph, s: State, v: Node, w: Node)
    requires OnStack(s, w) && Reaches(g, v, w) && LowWitness(g, s, v)
    ensures LowWitness(g, Lower(s, v, Min(s.meta[v].lowlink, s.meta[w].index)), v)
  {
    var t := Lower(s, v, Min(s.meta[v].lowlink, s.meta[w].index));
    var y :| OnStack(s, y) && s.meta[y].index == s.meta[v].lowlink && Reaches(g, v, y);
    assert OnStack(t, w) && OnStack(t, y);
  }

  lemma LowBoundLower(g: Graph, s: State, v: Node, h: nat, from: nat, l: nat)
    requires StackOrdered(s) && h <= |s.stack| && v in s.meta && LowBound(g, s, v, h, from)
    requires l <= s.meta[v].lowlink && StackOrdered(Lower(s, v, l))
    ensures LowBound(g, Lower(s, v, l), v, h, from)
  {
  }

  // The import was unvisited: the call on it turned `mid` into `s`, and v takes over its low-link.
  lemma TreeEdgeKeepsExploring(g: Graph, before: State, mid: State, s: State, v: Node, i: nat)
    requires StackOrdered(mid) && StackOrdered(s) && Numbered(g, mid)
    requires v in g && i < |g[v]| && Exploring(g, before, mid, v, i)
    requires g[v][i] in g && g[v][i] !in mid.meta && Connected(g, mid, s, g[v][i])
    ensures var t := Lower(s, v, Min(s.meta[v].lowlink, s.meta[g[v][i]].lowlink));
            StackOrdered(t) && Exploring(g, before, t, v, i + 1)
  {
    var w := g[v][i];
    var t := Lower(s, v, Min(s.meta[v].lowlink, s.meta[w].lowlink));
    LowlinksKeepShape(s, t);
    ReachesEdge(g, v, w);
    TreeLowWitness(g, mid, s, v, w);
    TreeLowBound(g, before, mid, s, v, w);
    TreeFrame(before, mid, s, v, t.meta[v].lowlink);
    TreeImportsDone(g, before, mid, s, v, i, t.meta[v].lowlink);
  }

  lemma TreeImportsDone(g: Graph, before: State, mid: State, s: State, v: Node, i: nat, l: nat)
    requires v in g && i < |g[v]| && Keeps(before, mid) && Keeps(mid, s) && v in mid.meta && v !in before.meta
    requires ImportsDone(g, before, mid, v, i) && g[v][i] !in mid.meta && g[v][i] in s.meta
    requires l <= s.meta[v].lowlink
    ensures ImportsDone(g, before, Lower(s, v, l), v, i + 1)
  {
    assert ImportsDone(g, before, s, v, i);
    OneMoreImport(g, before, s, v, i, l);
  }

  lemma TreeFrame(before: State, mid: State, s: State, v: Node, l: nat)
    requires Keeps(before, mid) && Keeps(mid, s) && v !in before.meta && v in mid.meta && |before.stack| < |mid.stack|
    ensures Keeps(before, Lower(s, v, l))
    ensures |before.stack| < |s.stack| && s.stack[|before.stack|] == mid.stack[|before.stack|]
  {
  }

  lemma TreeLowBound(g: Graph, before: State, mid: State, s: State, v: Node, w: Node)
    requires StackOrdered(mid) && StackOrdered(s) && Keeps(mid, s) && v in mid.meta && w in s.meta
    requires |before.stack| < |mid.stack|
    requires LowBound(g, mid, v, |before.stack|, |before.stack| + 1)
    requires LowBound(g, s, w, |mid.stack|, |mid.stack|)
    ensures var t := Lower(s, v, Min(s.meta[v].lowlink, s.meta[w].lowlink));
            StackOrdered(t) && LowBound(g, t, v, |before.stack|, |before.stack| + 1)
  {
    var t := Lower(s, v, Min(s.meta[v].lowlink, s.meta[w].lowlink));
    LowlinksKeepShape(s, t);
    forall a, b | |before.stack| + 1 <= a < |t.stack| && 0 <= b < |before.stack| && Edge(g, t.stack[a], t.stack[b])
      ensures t.meta[v].lowlink <= t.meta[t.stack[b]].index
    {
      assert t.stack[b] == mid.stack[b];
      if a < |mid.stack| {
        assert t.stack[a] == mid.stack[a];
      }
    }
  }

  lemma TreeLowWitness(g: Graph, mid: State, s: State, v: Node, w: Node)
    requires StackOrdered(s) && LowWitness(g, mid, v) && Numbered(g, mid)
    requires w !in mid.meta && Connected(g, mid, s, w) && Reaches(g, v, w)
    ensures LowWitness(g, Lower(s, v, Min(s.meta[v].lowlink, s.meta[w].lowlink)), v)
  {
    var l := Min(s.meta[v].lowlink, s.meta[w].lowlink);
    var t := Lower(s, v, l);
    if s.meta[w].lowlink < s.meta[v].lowlink {
      var y :| OnStack(s, y) && s.meta[y].index == s.meta[w].lowlink && Reaches(g, w, y);
      ReachesTrans(g, v, w, y);
      assert OnStack(t, y) && t.meta[y].index == l;
    } else {
      var y :| OnStack(mid, y) && mid.meta[y].index == mid.meta[v].lowlink && Reaches(g, v, y);
      assert OnStack(t, y) && t.meta[y].index == l;
    }
  }

  // ---------- The end of a call ----------

  lemma LowBoundIncludesV(g: Graph, before: State, s: State, v: Node)
    requires StackOrdered(before) && StackOrdered(s) && v in g && Exploring(g, before, s, v, |g[v]|)
    ensures LowBound(g, s, v, |before.stack|, |before.stack|)
  {
    var h := |before.stack|;
    forall i, j | h <= i < |s.stack| && 0 <= j < h && Edge(g, s.stack[i], s.stack[j])
      ensures s.meta[v].lowlink <= s.meta[s.stack[j]].index
    {
      if i == h {
        assert s.stack[h] == v;
        var d :| 0 <= d < |g[v]| && g[v][d] == s.stack[j];
        assert s.stack[j] == before.stack[j] && OnStack(before, g[v][d]);
      }
    }
  }

  lemma LeaveAnchored(g: Graph, s: State, open: set<Node>, v: Node)
    requires Anchored(g, s, open + {v}) && v in s.meta && LowWitness(g, s, v) && s.meta[v].lowlink < s.meta[v].index
    ensures Anchored(g, s, open)
  {
    var y :| OnStack(s, y) && s.meta[y].index == s.meta[v].lowlink && Reaches(g, v, y);
    assert HasAnchor(g, s, open + {v}, y);
    var x :| Anchors(g, s, open + {v}, y, x);
    ReachesTrans(g, v, y, x);
    forall z | OnStack(s, z) ensures HasAnchor(g, s, open, z) {
      assert HasAnchor(g, s, open + {v}, z);
      var a :| Anchors(g, s, open + {v}, z, a);
      if a == v {
        ReachesTrans(g, z, v, x);
        assert Anchors(g, s, open, z, x);
      } else {
        assert Anchors(g, s, open, z, a);
      }
    }
  }

  lemma LeaveNoFinishedToWhite(g: Graph, before: State, s: State, open: set<Node>, v: Node)
    requires StackOrdered(s) && NoFinishedToWhite(g, s, open + {v}) && v in g && Exploring(g, before, s, v, |g[v]|)
    ensures NoFinishedToWhite(g, s, open)
  {
  }

  // v could reach further down: it is left on the stack.
  lemma LeaveKeepsInv(g: Graph, before: State, s: State, open: set<Node>, v: Node)
    requires StackOrdered(before) && StackOrdered(s) && v in g
    requires Anchored(g, s, open + {v}) && NoFinishedToWhite(g, s, open + {v})
    requires Exploring(g, before, s, v, |g[v]|)
    requires s.meta[v].lowlink < s.meta[v].index
    ensures Anchored(g, s, open) && NoFinishedToWhite(g, s, open) && Connected(g, before, s, v)
  {
    LowBoundIncludesV(g, before, s, v);
    LeaveAnchored(g, s, open, v);
    LeaveNoFinishedToWhite(g, before, s, open, v);
    LeaveConnected(g, before, s, v);
  }

  lemma LeaveConnected(g: Graph, before: State, s: State, v: Node)
    requires StackOrdered(s) && v in g && Exploring(g, before, s, v, |g[v]|)
    requires LowBound(g, s, v, |before.stack|, |before.stack|)
    ensures Connected(g, before, s, v)
  {
    assert s.stack[|before.stack|] == v;
  }

  // ---------- A component is complete ----------

  function Reversed(c: seq<Node>): (r: seq<Node>)
    ensures |r| == |c| && forall i :: 0 <= i < |c| ==> r[i] == c[|c| - 1 - i]
    ensures forall x :: x in r <==> x in c
  {
    var r := seq(|c|, i requires 0 <= i < |c| => c[|c| - 1 - i]);
    assert forall i :: 0 <= i < |c| ==> c[i] == r[|c| - 1 - i];
    r
  }

  // The state after the nodes at and above height h have been popped into one component.
  function Emit(s: State, h: nat): State
    requires h <= |s.stack|
  {
    State(map x | x in s.meta :: if x in s.stack[h..] then s.meta[x].(onStack := false) else s.meta[x],
          s.stack[..h], s.sccs + [Reversed(s.stack[h..])], s.nextIndex)
  }

  // The nodes at and above height h, where v is, import nothing visited below them on the stack.
  ghost predicate Sealed(g: Graph, s: State, h: nat) {
    forall x, y :: h <= |s.stack| && x in s.stack[h..] && Edge(g, x, y) ==>
      y in s.meta && (s.meta[y].onStack ==> y in s.stack[h..])
  }

  lemma StackSuffix(s: State, h: nat, y: Node)
    requires StackOrdered(s) && h <= |s.stack| && OnStack(s, y)
    ensures y in s.stack[..h] || y in s.stack[h..]
  {
    assert s.stack == s.stack[..h] + s.stack[h..];
  }

  // v's low-link equals its index, so nothing it leads to is older.
  lemma CompleteIsSealed(g: Graph, before: State, s: State, open: set<Node>, v: Node)
    requires StackOrdered(before) && StackOrdered(s) && Numbered(g, before) && v in g
    requires Exploring(g, before, s, v, |g[v]|)
    requires LowBound(g, s, v, |before.stack|, |before.stack|)
    requires s.meta[v].lowlink == s.meta[v].index && NoFinishedToWhite(g, s, open)
    requires forall x :: x in open ==> OnStack(before, x)
    ensures Sealed(g, s, |before.stack|)
  {
    var h := |before.stack|;
    assert forall j :: 0 <= j < h ==> s.stack[j] == before.stack[j] && OnStack(before, s.stack[j]);
    forall x, y | x in s.stack[h..] && Edge(g, x, y)
      ensures y in s.meta && (s.meta[y].onStack ==> y in s.stack[h..])
    {
      var i :| h <= i < |s.stack| && s.stack[i] == x;
      NewOnStackIsNew(before, s, i);
      assert x !in open;
      if s.meta[y].onStack {
        StackSuffix(s, h, y);
      }
    }
  }

  lemma NewOnStackIsNew(before: State, s: State, i: nat)
    requires StackOrdered(before) && StackOrdered(s) && Keeps(before, s) && |before.stack| <= i < |s.stack|
    ensures s.stack[i] !in before.meta
  {
    assert s.stack[i] in before.meta ==> OnStack(before, s.stack[i]);
    assert forall j :: 0 <= j < |before.stack| ==> before.stack[j] == s.stack[j];
  }

  lemma EmitNothing(s: State)
    ensures Emit(s, |s.stack|).meta == s.meta && Reversed(s.stack[|s.stack|..]) == []
  {
  }

  lemma EmitShape(s: State, h: nat)
    requires h <= |s.stack|
    ensures Emit(s, h) == State(Emit(s, h).meta, s.stack[..h], s.sccs + [Reversed(s.stack[h..])], s.nextIndex)
  {
  }

  // Popping one more node, at height n; it is the one at height h only when n is h.
  lemma EmitOneMore(s: State, n: nat, h: nat)
    requires StackOrdered(s) && h <= n < |s.stack|
    ensures var w := s.stack[n];
            && w in Emit(s, n + 1).meta
            && Emit(s, n).meta == Emit(s, n + 1).meta[w := Emit(s, n + 1).meta[w].(onStack := false)]
            && Reversed(s.stack[n..]) == Reversed(s.stack[n + 1..]) + [w]
            && s.stack[..n + 1][..n] == s.stack[..n]
            && (w == s.stack[h] <==> n == h)
  {
    assert s.stack[n..] == [s.stack[n]] + s.stack[n + 1..];
  }

  // Every popped node and v reach each other.
  lemma PoppedReachV(g: Graph, s: State, open: set<Node>, h: nat, i: nat)
    requires h <= i < |s.stack| && StackReaches(g, s) && Anchored(g, s, open + {s.stack[h]})
    requires OnStack(s, s.stack[i])
    requires forall x :: x in open ==> x in s.stack[..h]
    ensures Mutual(g, s.stack[h], s.stack[i])
  {
    var v := s.stack[h];
    assert Reaches(g, s.stack[h], s.stack[i]);
    assert HasAnchor(g, s, open + {v}, s.stack[i]);
    var a :| Anchors(g, s, open + {v}, s.stack[i], a);
    if a != v {
      var j :| 0 <= j < h && s.stack[j] == a;
      assert Reaches(g, s.stack[j], s.stack[h]);
      ReachesTrans(g, s.stack[i], a, v);
    }
  }

  lemma PoppedPairMutual(g: Graph, s: State, open: set<Node>, h: nat, x: Node, y: Node)
    requires h < |s.stack| && StackReaches(g, s) && Anchored(g, s, open + {s.stack[h]})
    requires forall i :: 0 <= i < |s.stack| ==> OnStack(s, s.stack[i])
    requires forall z :: z in open ==> z in s.stack[..h]
    requires x in s.stack[h..] && y in s.stack[h..]
    ensures Mutual(g, x, y)
  {
    var i :| h <= i < |s.stack| && s.stack[i] == x;
    var j :| h <= j < |s.stack| && s.stack[j] == y;
    PoppedReachV(g, s, open, h, i);
    PoppedReachV(g, s, open, h, j);
    ReachesTrans(g, x, s.stack[h], y);
    ReachesTrans(g, y, s.stack[h], x);
  }

  ghost function Emitted(s: State): set<Node> {
    set x | x in s.meta && !s.meta[x].onStack
  }

  lemma EmittedIsClosed(g: Graph, s: State)
    requires EmittedOnce(s) && ComponentsInOrder(g, s.sccs)
    ensures ClosedUnderEdges(g, Emitted(s))
  {
    forall x, y | x in Emitted(s) && Edge(g, x, y) ensures y in Emitted(s) {
      assert InSomeScc(s.sccs, x);
      var k :| 0 <= k < |s.sccs| && x in s.sccs[k];
      assert PointsBack(g, s.sccs, k);
      var l :| 0 <= l < |s.sccs[..k + 1]| && y in s.sccs[..k + 1][l];
      assert y in s.sccs[l];
      assert InSomeScc(s.sccs, y);
    }
  }

  lemma ReachedIsPopped(g: Graph, s: State, h: nat, x: Node, y: Node)
    requires h <= |s.stack| && ClosedUnderEdges(g, Emitted(s)) && Sealed(g, s, h)
    requires forall i :: 0 <= i < |s.stack| ==> OnStack(s, s.stack[i])
    requires x in s.stack[h..] && Mutual(g, x, y)
    ensures y in s.stack[h..]
  {
    var all := Emitted(s) + set z | z in s.stack[h..];
    assert ClosedUnderEdges(g, all);
    ReachesStaysIn(g, all, x, y);
    if y in Emitted(s) {
      ReachesStaysIn(g, Emitted(s), y, x);
    }
  }

  lemma PoppedIsComponent(g: Graph, s: State, open: set<Node>, h: nat)
    requires h < |s.stack| && StackReaches(g, s) && Anchored(g, s, open + {s.stack[h]})
    requires forall i :: 0 <= i < |s.stack| ==> OnStack(s, s.stack[i])
    requires forall z :: z in open ==> z in s.stack[..h]
    requires ClosedUnderEdges(g, Emitted(s)) && Sealed(g, s, h)
    ensures IsComponent(g, Reversed(s.stack[h..]))
  {
    var c := s.stack[h..];
    forall x, y | x in c ensures y in c <==> Mutual(g, x, y) {
      if y in c {
        PoppedPairMutual(g, s, open, h, x, y);
      }
      if Mutual(g, x, y) {
        ReachedIsPopped(g, s, h, x, y);
      }
    }
  }

  lemma PoppedPointsBack(g: Graph, s: State, h: nat)
    requires h <= |s.stack| && EmittedOnce(s) && Sealed(g, s, h)
    ensures PointsBack(g, Emit(s, h).sccs, |s.sccs|)
  {
    var sccs := Emit(s, h).sccs;
    var n := |s.sccs|;
    assert sccs[..n + 1] == sccs;
    forall x, y | x in sccs[n] && Edge(g, x, y) ensures InSomeScc(sccs, y) {
      assert x in s.stack[h..];
      if y in s.stack[h..] {
        assert y in sccs[n];
      } else {
        assert InSomeScc(s.sccs, y);
        var k :| 0 <= k < n && y in s.sccs[k];
        assert y in sccs[k];
      }
    }
  }

  lemma AppendKeepsOrder(g: Graph, sccs: seq<seq<Node>>, c: seq<Node>)
    requires ComponentsInOrder(g, sccs) && IsComponent(g, c) && PointsBack(g, sccs + [c], |sccs|)
    ensures ComponentsInOrder(g, sccs + [c])
  {
    var r := sccs + [c];
    forall k | 0 <= k < |r| ensures IsComponent(g, r[k]) && PointsBack(g, r, k) {
      if k < |sccs| {
        assert IsComponent(g, sccs[k]) && PointsBack(g, sccs, k);
        assert r[..k + 1] == sccs[..k + 1];
      }
    }
  }

  lemma EmitKeepsStack(g: Graph, s: State, h: nat)
    requires h <= |s.stack| && StackOrdered(s) && Numbered(g, s)
    ensures Numbered(g, Emit(s, h)) && StackOrdered(Emit(s, h))
  {
    var t := Emit(s, h);
    forall i | 0 <= i < h ensures OnStack(t, t.stack[i]) {
      assert forall j :: h <= j < |s.stack| ==> s.stack[j] != s.stack[i];
    }
    forall x | OnStack(t, x) ensures x in t.stack {
      StackSuffix(s, h, x);
    }
  }

  lemma EmitKeepsBefore(before: State, s: State)
    requires StackOrdered(before) && StackOrdered(s) && Keeps(before, s)
    ensures Keeps(before, Emit(s, |before.stack|)) && Emit(s, |before.stack|).stack == before.stack
  {
    var h := |before.stack|;
    forall x | x in before.meta ensures x !in s.stack[h..] {
      forall i | h <= i < |s.stack| ensures s.stack[i] != x {
        NewOnStackIsNew(before, s, i);
      }
    }
  }

  lemma EmitKeepsAnchored(g: Graph, before: State, t: State, open: set<Node>)
    requires Anchored(g, before, open) && Keeps(before, t) && t.stack == before.stack
    requires StackOrdered(before) && StackOrdered(t)
    ensures Anchored(g, t, open)
  {
    forall y | OnStack(t, y) ensures HasAnchor(g, t, open, y) {
      assert y in before.stack;
      assert HasAnchor(g, before, open, y);
      var a :| Anchors(g, before, open, y, a);
      assert Anchors(g, t, open, y, a);
    }
  }

  lemma EmitCollects(s: State, h: nat, x: Node)
    requires StackOrdered(s) && h < |s.stack|
    requires InSomeScc(s.sccs, x) <==> x in s.meta && !s.meta[x].onStack
    ensures InSomeScc(Emit(s, h).sccs, x) <==> x in s.meta && !Emit(s, h).meta[x].onStack
    ensures InSomeScc(s.sccs, x) ==> x !in s.stack
  {
    var t := Emit(s, h);
    var n := |s.sccs|;
    assert forall k :: 0 <= k < n ==> t.sccs[k] == s.sccs[k];
    assert t.sccs[n] == Reversed(s.stack[h..]);
    assert InSomeScc(t.sccs, x) <==> InSomeScc(s.sccs, x) || x in t.sccs[n];
    assert x in s.stack[h..] ==> x in s.stack;
  }

  lemma EmitKeepsEmittedOnce(s: State, h: nat)
    requires StackOrdered(s) && EmittedOnce(s) && h < |s.stack|
    ensures EmittedOnce(Emit(s, h))
  {
    var t := Emit(s, h);
    var c := Reversed(s.stack[h..]);
    forall x ensures InSomeScc(t.sccs, x) <==> x in t.meta && !t.meta[x].onStack {
      EmitCollects(s, h, x);
    }
    assert Distinct(c) by {
      forall i, j | 0 <= i < j < |c| ensures c[i] != c[j] {
        assert c[i] == s.stack[|s.stack| - 1 - i] && c[j] == s.stack[|s.stack| - 1 - j];
      }
    }
    forall k, l, x | 0 <= k < l < |t.sccs| && x in t.sccs[k] ensures x !in t.sccs[l] {
      assert t.sccs[k] == s.sccs[k];
      assert InSomeScc(s.sccs, x);
      EmitCollects(s, h, x);
    }
  }

  lemma EmitConnected(g: Graph, before: State, s: State, v: Node)
    requires StackOrdered(s) && v in g && Exploring(g, before, s, v, |g[v]|)
    requires s.meta[v].lowlink == s.meta[v].index
    requires var t := Emit(s, |before.stack|); StackOrdered(t) && Keeps(before, t) && t.stack == before.stack
    ensures Connected(g, before, Emit(s, |before.stack|), v)
  {
    var h := |before.stack|;
    assert s.stack[h..][0] == v;
  }

  lemma EmitKeepsSccs(g: Graph, s: State, open: set<Node>, h: nat)
    requires StackOrdered(s) && h < |s.stack| && StackReaches(g, s) && Anchored(g, s, open + {s.stack[h]})
    requires EmittedOnce(s) && ComponentsInOrder(g, s.sccs) && Sealed(g, s, h)
    requires forall z :: z in open ==> z in s.stack[..h]
    ensures EmittedOnce(Emit(s, h)) && ComponentsInOrder(g, Emit(s, h).sccs)
  {
    EmittedIsClosed(g, s);
    PoppedIsComponent(g, s, open, h);
    PoppedPointsBack(g, s, h);
    AppendKeepsOrder(g, s.sccs, Reversed(s.stack[h..]));
    EmitKeepsEmittedOnce(s, h);
  }

  lemma EmitKeepsRest(g: Graph, before: State, s: State, open: set<Node>)
    requires StackOrdered(before) && StackReaches(g, before) && Anchored(g, before, open)
    requires StackOrdered(s) && Numbered(g, s) && NoFinishedToWhite(g, s, open) && Keeps(before, s)
    ensures var t := Emit(s, |before.stack|);
            && Numbered(g, t) && StackOrdered(t) && StackReaches(g, t) && Anchored(g, t, open)
            && NoFinishedToWhite(g, t, open) && Keeps(before, t) && t.stack == before.stack
  {
    var t := Emit(s, |before.stack|);
    EmitKeepsStack(g, s, |before.stack|);
    EmitKeepsBefore(before, s);
    EmitKeepsAnchored(g, before, t, open);
    assert t.meta.Keys == s.meta.Keys;
  }

  // v is the oldest node it reaches on the stack: everything from v up is one component.
  lemma EmitKeepsInv(g: Graph, before: State, s: State, open: set<Node>, v: Node)
    requires Numbered(g, before) && StackOrdered(before) && StackReaches(g, before) && Anchored(g, before, open)
    requires Inv(g, s, open + {v}) && v in g
    requires Exploring(g, before, s, v, |g[v]|)
    requires s.meta[v].lowlink == s.meta[v].index
    ensures var t := Emit(s, |before.stack|);
            Inv(g, t, open) && Connected(g, before, t, v)
  {
    var h := |before.stack|;
    assert s.stack[h] == v && s.stack[..h] == before.stack;
    LeaveNoFinishedToWhite(g, before, s, open, v);
    LowBoundIncludesV(g, before, s, v);
    CompleteIsSealed(g, before, s, open, v);
    EmitKeepsSccs(g, s, open, h);
    EmitKeepsRest(g, before, s, open);
    EmitConnected(g, before, s, v);
  }
}
