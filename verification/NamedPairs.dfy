/**
 * scripts/check-bc-cycles.ts: when the printed cycles name every offending pair, as the script's
 * header promises.
 *
 * An offending pair is an import from u to w where w imports u back, directly or through others.
 * The report names it if some printed cycle steps from u to w.
 */
module NamedPairs {
  import opened ImportGraph
  import opened Sequences
  import opened BcCycles

  ghost predicate Steps(c: seq<Node>, u: Node, w: Node) {
    exists i, j :: 0 <= i && j == i + 1 && j < |c| && c[i] == u && c[j] == w
  }

  ghost predicate Named(cycles: seq<seq<Node>>, u: Node, w: Node) {
    exists k :: 0 <= k < |cycles| && Steps(cycles[k], u, w)
  }

  // Every offending pair within the component of r is named.
  ghost predicate NamesPairsAround(g: Graph, cycles: seq<seq<Node>>, r: Node) {
    forall u, w :: Edge(g, u, w) && Mutual(g, r, u) && Mutual(g, r, w) ==> Named(cycles, u, w)
  }

  ghost predicate NamesEveryPair(g: Graph, cycles: seq<seq<Node>>) {
    forall u, w :: Edge(g, u, w) && Mutual(g, u, w) ==> Named(cycles, u, w)
  }

  // The keys, each once, in some order.
  ghost predicate Lists(keys: seq<Node>, g: Graph) {
    Distinct(keys) && forall x :: x in keys <==> x in g
  }

  ghost predicate SimpleWalk(g: Graph, p: seq<Node>, x: Node, y: Node) {
    WalkFromTo(g, p, x, y) && Distinct(p)
  }

  ghost predicate OneSimpleWalk(g: Graph, x: Node, y: Node) {
    exists p :: SimpleWalk(g, p, x, y) && forall q :: SimpleWalk(g, q, x, y) ==> q == p
  }

  // No two contexts in the component of r are joined by two different simple walks.
  ghost predicate SingleWalksAround(g: Graph, r: Node) {
    forall x, y :: Mutual(g, r, x) && Mutual(g, r, y) ==> OneSimpleWalk(g, x, y)
  }

  // ---------- Simple walks ----------

  lemma {:induction false} Shortened(g: Graph, p: seq<Node>, x: Node, y: Node) returns (q: seq<Node>)
    requires WalkFromTo(g, p, x, y)
    ensures SimpleWalk(g, q, x, y)
    decreases |p|
  {
    if Distinct(p) {
      q := p;
    } else {
      var i, j :| 0 <= i < j < |p| && p[i] == p[j];
      SubWalk(g, p, 0, i);
      SubWalk(g, p, j, |p| - 1);
      JoinWalks(g, p[0..i + 1], p[j..|p| - 1 + 1]);
      q := Shortened(g, p[0..i + 1] + p[j..|p| - 1 + 1][1..], x, y);
    }
  }

  lemma SomeSimpleWalk(g: Graph, x: Node, y: Node) returns (p: seq<Node>)
    requires Reaches(g, x, y)
    ensures SimpleWalk(g, p, x, y)
  {
    var q :| WalkFromTo(g, q, x, y);
    p := Shortened(g, q, x, y);
  }

  lemma MutualTrans(g: Graph, x: Node, y: Node, z: Node)
    requires Mutual(g, x, y) && Mutual(g, y, z)
    ensures Mutual(g, x, z) && Mutual(g, z, x)
  {
    ReachesTrans(g, x, y, z);
    ReachesTrans(g, z, y, x);
  }

  // A walk between two nodes of a component does not leave it.
  lemma WalkInComponent(g: Graph, p: seq<Node>, r: Node, i: nat)
    requires IsWalk(g, p) && Mutual(g, r, p[0]) && Mutual(g, r, p[|p| - 1]) && i < |p|
    ensures Mutual(g, r, p[i])
  {
    SubWalk(g, p, 0, i);
    SubWalk(g, p, i, |p| - 1);
    ReachesTrans(g, r, p[0], p[i]);
    ReachesTrans(g, p[i], p[|p| - 1], r);
  }

  // ---------- Single walks: everything is named ----------

  // The closed walk c, started behind step i instead.
  ghost function Rotated(c: seq<Node>, i: nat): seq<Node>
    requires i + 1 < |c|
  {
    c[i + 1..|c| - 1] + c[..i + 1]
  }

  lemma RotatedIsSimple(g: Graph, c: seq<Node>, i: nat)
    requires IsSimpleCycle(g, c) && i + 1 < |c|
    ensures SimpleWalk(g, Rotated(c, i), c[i + 1], c[i])
  {
    var n := |c| - 1;
    var r := Rotated(c, i);
    forall a, b | 0 <= a && b == a + 1 && b < n ensures Edge(g, r[a], r[b]) {
      if b == n - 1 - i {
        assert r[b] == c[0] == c[n] && r[a] == c[n - 1] && Edge(g, c[n - 1], c[n]);
      } else if b < n - 1 - i {
        assert Edge(g, c[i + 1 + a], c[i + 1 + b]);
      } else {
        assert Edge(g, c[a - (n - 1 - i)], c[b - (n - 1 - i)]);
      }
    }
    assert forall a :: 0 <= a < |r| ==> r[a] == c[..n][if a < n - 1 - i then i + 1 + a else a - (n - 1 - i)];
    assert r[0] == c[i + 1] && r[|r| - 1] == c[i];
  }

  // If the last step of c is step i of z and both run the same way round, c takes every step of z.
  lemma SameStepsAround(c: seq<Node>, z: seq<Node>, i: nat, u: Node, w: Node)
    requires i + 1 < |z| && |c| >= 2 && c[..|c| - 1] == Rotated(z, i) && c[|c| - 1] == z[i + 1]
    requires z[0] == z[|z| - 1] && u == z[|z| - 2] && w == z[0]
    ensures Steps(c, u, w)
  {
    var n := |z| - 1;
    assert forall a :: 0 <= a < n ==> c[a] == Rotated(z, i)[a];
    if i + 1 == n {
      assert c[n - 1] == z[n - 1] && c[n] == z[n];
    } else {
      var k := n - 1 - i;
      assert c[k] == z[0] && c[k - 1] == z[n - 1];
    }
  }

  lemma ClosingEdgeCycle(g: Graph, cycles: seq<seq<Node>>, u: Node, w: Node) returns (k: nat)
    requires AllSimpleCycles(g, cycles) && Closes(cycles, u, w)
    ensures k < |cycles| && EndsWith(cycles[k], u, w) && SimpleWalk(g, cycles[k][..|cycles[k]| - 1], w, u)
  {
    k :| 0 <= k < |cycles| && EndsWith(cycles[k], u, w);
    var c := cycles[k];
    assert IsSimpleCycle(g, c);
    SubWalk(g, c, 0, |c| - 2);
    assert c[0..|c| - 2 + 1] == c[..|c| - 1];
  }

  lemma ClosedByEdge(g: Graph, p: seq<Node>, u: Node, w: Node)
    requires SimpleWalk(g, p, w, u) && Edge(g, u, w)
    ensures IsSimpleCycle(g, p + [w])
  {
    assert (p + [w])[..|p|] == p;
  }

  lemma SameWalk(g: Graph, x: Node, y: Node, p: seq<Node>, q: seq<Node>)
    requires OneSimpleWalk(g, x, y) && SimpleWalk(g, p, x, y) && SimpleWalk(g, q, x, y)
    ensures p == q
  {
  }

  // The cycle through an offending pair is the only one, and one of its steps closes a report.
  lemma SingleWalksNamePairs(g: Graph, s: Search, r: Node, u: Node, w: Node)
    requires Inv(g, s) && (forall x :: x in g ==> x in s.visited) && SingleWalksAround(g, r)
    requires Edge(g, u, w) && Mutual(g, r, u) && Mutual(g, r, w)
    ensures Named(s.cycles, u, w)
  {
    hide StackIsPath, ClosesOnlyBack, FinishedInOrder, Reaches, Edge, OneSimpleWalk, Closes, Steps, IsWalk;
    MutualTrans(g, w, r, u);
    var p := SomeSimpleWalk(g, w, u);
    var z := p + [w];
    ClosedByEdge(g, p, u, w);
    EveryCycleIsHit(g, s, z);
    var i, j :| 0 <= i && j == i + 1 && j < |z| && Closes(s.cycles, z[i], z[j]);
    var k := ClosingEdgeCycle(g, s.cycles, z[i], z[j]);
    RotatedIsSimple(g, z, i);
    WalkInComponent(g, z, r, i);
    WalkInComponent(g, z, r, j);
    SameWalk(g, z[j], z[i], s.cycles[k][..|s.cycles[k]| - 1], Rotated(z, i));
    SameStepsAround(s.cycles[k], z, i, u, w);
  }

  // ---------- Two walks: something is not named ----------

  // Where the search entered each node: the stack right after.
  type Tree = map<Node, seq<Node>>

  // The step goes one level down the tree, or back up.
  ghost predicate OnTree(t: Tree, u: Node, w: Node) {
    u in t && w in t && (t[w] == t[u] + [w] || w in t[u])
  }

  ghost predicate Placed(s: Search, t: Tree) {
    && (forall x :: x in t <==> x in s.visiting || x in s.visited)
    && (forall i :: 0 <= i < |s.stack| ==> s.stack[i] in t && t[s.stack[i]] == s.stack[..i + 1])
    && (forall u, w :: Named(s.cycles, u, w) ==> OnTree(t, u, w))
  }

  ghost predicate Extends(t: Tree, r: Tree) {
    forall x :: x in t ==> x in r && r[x] == t[x]
  }

  lemma StackStepOnTree(s: Search, t: Tree, k: nat, i: nat)
    requires Placed(s, t) && k + i < |s.stack|
    ensures OnTree(t, s.stack[k + i], (s.stack[k..] + [s.stack[k]])[i + 1])
  {
    var stack := s.stack[..k + i + 1];
    assert t[s.stack[k + i]] == stack;
    if k + i + 1 < |s.stack| {
      assert s.stack[..k + i + 2] == stack + [s.stack[k + i + 1]];
    } else {
      assert stack[k] == s.stack[k];
    }
  }

  // A slice of the stack closed by a step back follows the tree.
  lemma ReportOnTree(s: Search, t: Tree, node: Node, k: nat)
    requires Placed(s, t) && k < |s.stack| && s.stack[k] == node
    ensures Placed(s.(cycles := s.cycles + [s.stack[k..] + [node]]), t)
  {
    var c := s.stack[k..] + [node];
    var more := s.cycles + [c];
    forall u, w | Named(more, u, w) ensures OnTree(t, u, w) {
      var m :| 0 <= m < |more| && Steps(more[m], u, w);
      if m < |s.cycles| {
        assert Steps(s.cycles[m], u, w);
      } else {
        var i, j :| 0 <= i && j == i + 1 && j < |c| && c[i] == u && c[j] == w;
        StackStepOnTree(s, t, k, i);
      }
    }
  }

  lemma EnterOnTree(s: Search, t: Tree, node: Node)
    requires Placed(s, t) && node !in t
    ensures Placed(Search(s.visiting + {node}, s.visited, s.stack + [node], s.cycles), t[node := s.stack + [node]])
  {
    var r := t[node := s.stack + [node]];
    var stack := s.stack + [node];
    forall i | 0 <= i < |stack| ensures stack[i] in r && r[stack[i]] == stack[..i + 1] {
      if i < |s.stack| {
        assert stack[i] == s.stack[i] && stack[..i + 1] == s.stack[..i + 1];
      } else {
        assert stack[..i + 1] == stack;
      }
    }
    forall u, w | Named(s.cycles, u, w) ensures OnTree(r, u, w) {
      assert OnTree(t, u, w);
    }
  }

  lemma LeaveOnTree(s: Search, d: Search, r: Tree, node: Node)
    requires Placed(d, r) && d.stack == s.stack + [node] && d.visiting == s.visiting + {node}
    ensures Placed(Search(s.visiting, d.visited + [node], s.stack, d.cycles), r)
  {
    forall i | 0 <= i < |s.stack| ensures s.stack[i] in r && r[s.stack[i]] == s.stack[..i + 1] {
      assert d.stack[i] == s.stack[i] && d.stack[..i + 1] == s.stack[..i + 1];
    }
  }

  lemma PlacedMeans(g: Graph, s: Search, t: Tree, node: Node)
    requires Inv(g, s) && Placed(s, t)
    ensures node in t <==> node in s.visiting || node in s.visited
    ensures node in s.visiting ==> IndexOf(s.stack, node) >= 0
  {
  }

  // One call of dfs: every step of every report goes down the tree or back up.
  lemma {:induction false} VisitPlaces(g: Graph, s: Search, node: Node, t: Tree) returns (r: Tree)
    requires node in Contexts(g) && Inv(g, s) && TopImports(g, s, node) && Placed(s, t)
    ensures Placed(Visit(g, s, node), r) && Extends(t, r)
    ensures node !in t ==> node in r && r[node] == s.stack + [node]
    decreases Todo(g, s), 0
  {
    hide Inv, Placed;
    r := t;
    PlacedMeans(g, s, t, node);
    if node in s.visited {
    } else if node in s.visiting {
      ReportOnTree(s, t, node, IndexOf(s.stack, node));
    } else {
      var e := Search(s.visiting + {node}, s.visited, s.stack + [node], s.cycles);
      assert node in Todo(g, s) && node !in Todo(g, e);
      EnterKeepsInv(g, s, node);
      EnterOnTree(s, t, node);
      r := VisitAllPlaces(g, e, Imports(g, node), t[node := s.stack + [node]]);
      var d := VisitAll(g, e, Imports(g, node));
      EnterNode(g, s, node, d);
      LeaveOnTree(s, d, r, node);
    }
  }

  lemma {:induction false} VisitAllPlaces(g: Graph, s: Search, nodes: seq<Node>, t: Tree) returns (r: Tree)
    requires forall n :: n in nodes ==> n in Contexts(g) && TopImports(g, s, n)
    requires Inv(g, s) && Placed(s, t)
    ensures Placed(VisitAll(g, s, nodes), r) && Extends(t, r)
    decreases Todo(g, s), 1 + |nodes|
  {
    hide Inv, Placed;
    r := t;
    if nodes != [] {
      var n := |nodes| - 1;
      var m := VisitAll(g, s, nodes[..n]);
      assert Todo(g, m) <= Todo(g, s);
      VisitAllKeepsInv(g, s, nodes[..n]);
      r := VisitAllPlaces(g, s, nodes[..n], t);
      r := VisitPlaces(g, m, nodes[n], r);
    }
  }

  lemma {:induction false} VisitAllJoins(g: Graph, s: Search, a: seq<Node>, b: seq<Node>)
    requires forall n :: n in a + b ==> n in Contexts(g)
    ensures (forall n :: n in a ==> n in Contexts(g)) && (forall n :: n in b ==> n in Contexts(g))
    ensures VisitAll(g, s, a + b) == VisitAll(g, VisitAll(g, s, a), b)
    decreases |b|
  {
    assert forall n :: n in a || n in b ==> n in a + b;
    if b == [] {
      assert a + b == a;
    } else {
      var n := |b| - 1;
      assert (a + b)[..|a + b| - 1] == a + b[..n];
      VisitAllJoins(g, s, a, b[..n]);
    }
  }

  // The tree of a run that starts at x.
  lemma TreeFrom(g: Graph, x: Node, rest: seq<Node>) returns (t: Tree)
    requires Lists([x] + rest, g)
    ensures x in t && t[x] == [x]
    ensures forall u, w :: Named(VisitAll(g, FRESH, [x] + rest).cycles, u, w) ==> OnTree(t, u, w)
  {
    hide Inv, Placed, Visit, VisitAll;
    var keys := [x] + rest;
    assert x in keys && forall n :: n in rest ==> n in keys;
    FreshPlaced(g);
    VisitAllJoins(g, FRESH, [x], rest);
    VisitOne(g, FRESH, x);
    VisitKeepsInv(g, FRESH, x);
    t := VisitPlaces(g, FRESH, x, map[]);
    assert [] + [x] == [x];
    t := VisitAllPlaces(g, Visit(g, FRESH, x), rest, t);
    PlacedSteps(VisitAll(g, FRESH, keys), t);
  }

  lemma FreshPlaced(g: Graph)
    ensures Inv(g, FRESH) && Placed(FRESH, map[])
  {
  }

  lemma PlacedSteps(s: Search, t: Tree)
    requires Placed(s, t)
    ensures forall u, w :: Named(s.cycles, u, w) ==> OnTree(t, u, w)
  {
  }

  // A simple walk down from the root along tree steps never goes back up.
  lemma {:induction false} WalkFollowsTree(t: Tree, p: seq<Node>, i: nat)
    requires Distinct(p) && i < |p| && p[0] in t && t[p[0]] == [p[0]]
    requires forall a, b :: 0 <= a && b == a + 1 && b < |p| ==> OnTree(t, p[a], p[b])
    ensures p[i] in t && t[p[i]] == p[..i + 1]
  {
    if i > 0 {
      WalkFollowsTree(t, p, i - 1);
      assert OnTree(t, p[i - 1], p[i]);
      assert p[..i + 1] == p[..i] + [p[i]];
    }
  }

  lemma {:induction false} ListKeys(keys: set<Node>) returns (l: seq<Node>)
    ensures Distinct(l) && forall x :: x in l <==> x in keys
    decreases keys
  {
    l := [];
    if x :| x in keys {
      var rest := ListKeys(keys - {x});
      l := [x] + rest;
    }
  }

  // If every run names every offending pair around r, no two simple walks join the same contexts.
  lemma NamedPairsSingleWalks(g: Graph, r: Node, x: Node, y: Node)
    requires forall keys :: Lists(keys, g) ==> NamesPairsAround(g, VisitAll(g, FRESH, keys).cycles, r)
    requires Mutual(g, r, x) && Mutual(g, r, y)
    ensures OneSimpleWalk(g, x, y)
  {
    MutualTrans(g, x, r, y);
    var p := SomeSimpleWalk(g, x, y);
    var rest := ListKeys(g.Keys - {x});
    assert Lists([x] + rest, g);
    var t := TreeFrom(g, x, rest);
    forall q | SimpleWalk(g, q, x, y) ensures q == p {
      PairsOnTree(g, VisitAll(g, FRESH, [x] + rest).cycles, r, t, p);
      PairsOnTree(g, VisitAll(g, FRESH, [x] + rest).cycles, r, t, q);
      WalkFollowsTree(t, p, |p| - 1);
      WalkFollowsTree(t, q, |q| - 1);
      assert p[..|p| - 1 + 1] == p && q[..|q| - 1 + 1] == q;
    }
  }

  lemma PairsOnTree(g: Graph, cycles: seq<seq<Node>>, r: Node, t: Tree, p: seq<Node>)
    requires NamesPairsAround(g, cycles, r) && IsWalk(g, p) && Mutual(g, r, p[0]) && Mutual(g, r, p[|p| - 1])
    requires forall u, w :: Named(cycles, u, w) ==> OnTree(t, u, w)
    ensures forall a, b :: 0 <= a && b == a + 1 && b < |p| ==> OnTree(t, p[a], p[b])
  {
    forall a, b | 0 <= a && b == a + 1 && b < |p| ensures OnTree(t, p[a], p[b]) {
      WalkInComponent(g, p, r, a);
      WalkInComponent(g, p, r, b);
      assert Named(cycles, p[a], p[b]);
    }
  }

  // ---------- The header's promise ----------

  // Within one component: every order of the keys leads to a report naming all its offending pairs
  // exactly if no two of its contexts are joined by more than one simple walk.
  lemma ComponentNamedIff(g: Graph, r: Node)
    ensures (forall keys :: Lists(keys, g) ==> NamesPairsAround(g, VisitAll(g, FRESH, keys).cycles, r)) <==>
            SingleWalksAround(g, r)
  {
    if SingleWalksAround(g, r) {
      forall keys | Lists(keys, g) ensures NamesPairsAround(g, VisitAll(g, FRESH, keys).cycles, r) {
        var s := VisitAll(g, FRESH, keys);
        FinishedRun(g, keys);
        forall u, w | Edge(g, u, w) && Mutual(g, r, u) && Mutual(g, r, w) ensures Named(s.cycles, u, w) {
          SingleWalksNamePairs(g, s, r, u, w);
        }
      }
    }
    if forall keys :: Lists(keys, g) ==> NamesPairsAround(g, VisitAll(g, FRESH, keys).cycles, r) {
      forall x, y | Mutual(g, r, x) && Mutual(g, r, y) ensures OneSimpleWalk(g, x, y) {
        NamedPairsSingleWalks(g, r, x, y);
      }
    }
  }

  // The output names every offending pair, in whatever order the contexts come, exactly if any two
  // contexts that import each other, however indirectly, are joined by one simple walk each way.
  lemma EveryPairNamedIff(g: Graph)
    ensures (forall keys :: Lists(keys, g) ==> NamesEveryPair(g, VisitAll(g, FRESH, keys).cycles)) <==>
            (forall x, y :: Mutual(g, x, y) ==> OneSimpleWalk(g, x, y))
  {
    if forall x, y :: Mutual(g, x, y) ==> OneSimpleWalk(g, x, y) {
      forall keys | Lists(keys, g) ensures NamesEveryPair(g, VisitAll(g, FRESH, keys).cycles) {
        var s := VisitAll(g, FRESH, keys);
        forall u, w | Edge(g, u, w) && Mutual(g, u, w) ensures Named(s.cycles, u, w) {
          AroundFromAll(g, u);
          ComponentNamedIff(g, u);
          ReachesSelf(g, u);
          assert NamesPairsAround(g, s.cycles, u);
        }
      }
    }
    if forall keys :: Lists(keys, g) ==> NamesEveryPair(g, VisitAll(g, FRESH, keys).cycles) {
      forall x, y | Mutual(g, x, y) ensures OneSimpleWalk(g, x, y) {
        forall keys | Lists(keys, g) ensures NamesPairsAround(g, VisitAll(g, FRESH, keys).cycles, x) {
          PairsAround(g, VisitAll(g, FRESH, keys).cycles, x);
        }
        ComponentNamedIff(g, x);
        MutualTrans(g, x, y, x);
      }
    }
  }

  lemma AroundFromAll(g: Graph, r: Node)
    requires forall x, y :: Mutual(g, x, y) ==> OneSimpleWalk(g, x, y)
    ensures SingleWalksAround(g, r)
  {
    forall x, y | Mutual(g, r, x) && Mutual(g, r, y) ensures OneSimpleWalk(g, x, y) {
      MutualTrans(g, x, r, y);
    }
  }

  lemma PairsAround(g: Graph, cycles: seq<seq<Node>>, r: Node)
    requires NamesEveryPair(g, cycles)
    ensures NamesPairsAround(g, cycles, r)
  {
    forall u, w | Edge(g, u, w) && Mutual(g, r, u) && Mutual(g, r, w) ensures Named(cycles, u, w) {
      MutualTrans(g, u, r, w);
    }
  }

  // Two contexts that import each other directly always stand side by side in some report.
  lemma MutualImportsNamed(g: Graph, s: Search, u: Node, w: Node)
    requires Inv(g, s) && (forall x :: x in g ==> x in s.visited) && Edge(g, u, w) && Edge(g, w, u)
    ensures Named(s.cycles, u, w) || Named(s.cycles, w, u)
  {
    assert IsClosedWalk(g, [u, w, u]);
    EveryCycleIsHit(g, s, [u, w, u]);
    var i, j :| 0 <= i && j == i + 1 && j < 3 && Closes(s.cycles, [u, w, u][i], [u, w, u][j]);
    var k :| 0 <= k < |s.cycles| && EndsWith(s.cycles[k], [u, w, u][i], [u, w, u][j]);
    assert Steps(s.cycles[k], [u, w, u][i], [u, w, u][j]);
  }
}
