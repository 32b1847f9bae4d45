/**
 * scripts/check-bc-cycles.ts: the depth-first search that extracts concrete cycles between
 * bounded contexts from its stack.
 *
 * A context that is imported but imports nothing is not a key of the graph; the search treats it
 * as a node without successors. A JavaScript Set iterates in insertion order, so `visited` is kept
 * here as the duplicate-free sequence of finished nodes.
 */
module BcCycles {
  import opened ImportGraph
  import opened Sequences

  datatype Search = Search(visiting: set<Node>, visited: seq<Node>, stack: seq<Node>, cycles: seq<seq<Node>>)

  const FRESH := Search({}, [], [], [])

  ghost predicate Arrow(g: Graph, x: Node, y: Node) {
    x in g && y in g[x]
  }

  function Imports(g: Graph, node: Node): seq<Node> {
    if node in g then g[node] else []
  }

  ghost function Contexts(g: Graph): set<Node> {
    g.Keys + set x, y | x in g && y in g[x] :: y
  }

  function IndexOf(stack: seq<Node>, node: Node): (k: int)
    ensures k == -1 ==> node !in stack
    ensures k != -1 ==> 0 <= k < |stack| && stack[k] == node && node !in stack[..k]
  {
    if stack == [] then -1
    else if stack[0] == node then 0
    else
      var k := IndexOf(stack[1..], node);
      if k == -1 then -1
      else
        assert stack[..k + 1] == [stack[0]] + stack[1..][..k];
        k + 1
  }

  // ---------- The search as a function of its state ----------

  ghost function Todo(g: Graph, s: Search): set<Node> {
    Contexts(g) - s.visiting - set x | x in s.visited
  }

  // dfs(node), from state s.
  ghost function Visit(g: Graph, s: Search, node: Node): (r: Search)
    requires node in Contexts(g)
    ensures r.visiting == s.visiting && r.stack == s.stack && s.visited <= r.visited && s.cycles <= r.cycles
    decreases Todo(g, s), 0
  {
    if node in s.visited then s
    else if node in s.visiting then
      var k := IndexOf(s.stack, node);
      if k >= 0 then s.(cycles := s.cycles + [s.stack[k..] + [node]]) else s
    else
      var e := Search(s.visiting + {node}, s.visited, s.stack + [node], s.cycles);
      assert node in Todo(g, s) && node !in Todo(g, e);
      var d := VisitAll(g, e, Imports(g, node));
      assert d.stack[..|d.stack| - 1] == s.stack;
      Search(d.visiting - {node}, d.visited + [node], d.stack[..|d.stack| - 1], d.cycles)
  }

  // dfs on each of the nodes in turn.
  ghost function VisitAll(g: Graph, s: Search, nodes: seq<Node>): (r: Search)
    requires forall n :: n in nodes ==> n in Contexts(g)
    ensures r.visiting == s.visiting && r.stack == s.stack && s.visited <= r.visited && s.cycles <= r.cycles
    decreases Todo(g, s), 1 + |nodes|
  {
    if nodes == [] then s else
      var n := |nodes| - 1;
      var m := VisitAll(g, s, nodes[..n]);
      assert Todo(g, m) <= Todo(g, s);
      Visit(g, m, nodes[n])
  }

  // ---------- What holds at every step ----------

  ghost predicate EndsWith(c: seq<Node>, u: Node, w: Node) {
    |c| >= 2 && c[|c| - 2] == u && c[|c| - 1] == w
  }

  // Some reported cycle takes the edge from u back to w as its last step.
  ghost predicate Closes(cycles: seq<seq<Node>>, u: Node, w: Node) {
    exists k :: 0 <= k < |cycles| && EndsWith(cycles[k], u, w)
  }

  // A closed walk along real edges whose nodes are distinct but for the end.
  ghost predicate IsSimpleCycle(g: Graph, c: seq<Node>) {
    IsClosedWalk(g, c) && Distinct(c[..|c| - 1])
  }

  // `visiting` is the set of the stack, and the stack is a path without repeats.
  ghost predicate StackIsPath(g: Graph, s: Search) {
    && (forall x :: x in s.visiting <==> x in s.stack)
    && Distinct(s.stack)
    && (forall i, j :: 0 <= i && j == i + 1 && j < |s.stack| ==> Arrow(g, s.stack[i], s.stack[j]))
  }

  // A finished node's successors finished before it, unless the edge closes a reported cycle.
  ghost predicate FinishedInOrder(g: Graph, s: Search) {
    && Distinct(s.visited)
    && (forall x :: x in s.visited ==> x !in s.visiting)
    && (forall k, y :: 0 <= k < |s.visited| && Arrow(g, s.visited[k], y) ==>
          y in s.visited[..k] || Closes(s.cycles, s.visited[k], y))
  }

  ghost predicate AllSimpleCycles(g: Graph, cycles: seq<seq<Node>>) {
    forall k :: 0 <= k < |cycles| ==> IsSimpleCycle(g, cycles[k])
  }

  // u is on the stack no lower than w, or finished before w.
  ghost predicate NotAfter(s: Search, u: Node, w: Node) {
    || (exists i, j :: 0 <= j <= i < |s.stack| && s.stack[i] == u && s.stack[j] == w)
    || (exists k :: 0 <= k < |s.visited| && s.visited[k] == u && w !in s.visited[..k])
  }

  // Only edges to a node that has not finished before close reported cycles.
  ghost predicate ClosesOnlyBack(s: Search) {
    forall u, w {:trigger NotAfter(s, u, w)} :: Closes(s.cycles, u, w) ==> NotAfter(s, u, w)
  }

  ghost predicate Inv(g: Graph, s: Search) {
    StackIsPath(g, s) && FinishedInOrder(g, s) && AllSimpleCycles(g, s.cycles) && ClosesOnlyBack(s)
  }

  // The stack's top node, if any, imports the given node.
  ghost predicate TopImports(g: Graph, s: Search, node: Node) {
    |s.stack| > 0 ==> Arrow(g, s.stack[|s.stack| - 1], node)
  }

  // The node has finished, or the edge to it from the top of the stack closes a reported cycle.
  ghost predicate Settled(s: Search, node: Node) {
    node in s.visited || (|s.stack| > 0 && Closes(s.cycles, s.stack[|s.stack| - 1], node))
  }

  lemma ClosesMore(cycles: seq<seq<Node>>, more: seq<seq<Node>>, u: Node, w: Node)
    requires cycles <= more && Closes(cycles, u, w)
    ensures Closes(more, u, w)
  {
    var k :| 0 <= k < |cycles| && EndsWith(cycles[k], u, w);
    assert more[k] == cycles[k];
  }

  lemma SettledLater(s: Search, t: Search, node: Node)
    requires Settled(s, node) && s.visited <= t.visited && s.cycles <= t.cycles && s.stack == t.stack
    ensures Settled(t, node)
  {
    if node !in s.visited {
      ClosesMore(s.cycles, t.cycles, s.stack[|s.stack| - 1], node);
    }
  }

  // Meeting a node of the stack: the guard on indexOf holds, and the slice is a simple cycle.
  lemma BackEdge(g: Graph, s: Search, node: Node)
    requires Inv(g, s) && node in s.visiting && TopImports(g, s, node)
    ensures var k := IndexOf(s.stack, node);
            k >= 0 && IsSimpleCycle(g, s.stack[k..] + [node])
  {
    var k := IndexOf(s.stack, node);
    var c := s.stack[k..] + [node];
    forall i | 0 <= i < |c| ensures c[i] in g {
      CycleArrow(g, s, node, k, if i == |c| - 1 then 0 else i);
    }
    forall i, j | 0 <= i && j == i + 1 && j < |c| ensures Edge(g, c[i], c[j]) {
      CycleArrow(g, s, node, k, i);
    }
    assert c[..|c| - 1] == s.stack[k..];
    assert Distinct(c[..|c| - 1]);
  }

  lemma CycleArrow(g: Graph, s: Search, node: Node, k: nat, i: nat)
    requires StackIsPath(g, s) && TopImports(g, s, node) && k < |s.stack| && i < |s.stack| - k
    ensures Arrow(g, (s.stack[k..] + [node])[i], (s.stack[k..] + [node])[i + 1])
  {
    if k + i + 1 < |s.stack| {
      assert Arrow(g, s.stack[k + i], s.stack[k + i + 1]);
    }
  }

  lemma EnterKeepsInv(g: Graph, s: Search, node: Node)
    requires Inv(g, s) && TopImports(g, s, node) && node !in s.visited && node !in s.visiting
    ensures Inv(g, Search(s.visiting + {node}, s.visited, s.stack + [node], s.cycles))
  {
    var r := Search(s.visiting + {node}, s.visited, s.stack + [node], s.cycles);
    forall u, w | Closes(r.cycles, u, w) ensures NotAfter(r, u, w) {
      assert NotAfter(s, u, w);
      if i, j :| 0 <= j <= i < |s.stack| && s.stack[i] == u && s.stack[j] == w {
        assert r.stack[i] == u && r.stack[j] == w;
      }
    }
  }

  lemma LeaveKeepsInv(g: Graph, s: Search, d: Search, node: Node)
    requires Inv(g, d) && StackIsPath(g, s) && d.stack == s.stack + [node] && node !in s.stack
    requires d.visiting == s.visiting + {node}
    requires forall n :: n in Imports(g, node) ==> Settled(d, n)
    ensures Inv(g, Search(s.visiting, d.visited + [node], s.stack, d.cycles))
  {
    var r := Search(s.visiting, d.visited + [node], s.stack, d.cycles);
    var n := |d.visited|;
    assert node in d.visiting;
    LeaveKeepsClosesOnlyBack(s, d, r, node);
    forall k, y | 0 <= k < |r.visited| && Arrow(g, r.visited[k], y)
      ensures y in r.visited[..k] || Closes(r.cycles, r.visited[k], y)
    {
      if k < n {
        assert r.visited[..k] == d.visited[..k];
        assert Arrow(g, d.visited[k], y);
      } else {
        assert r.visited[..k] == d.visited;
        assert Settled(d, y);
      }
    }
  }

  lemma LeaveKeepsClosesOnlyBack(s: Search, d: Search, r: Search, node: Node)
    requires ClosesOnlyBack(d) && d.stack == s.stack + [node] && Distinct(d.stack)
    requires forall x :: x in d.stack ==> x !in d.visited
    requires r == Search(s.visiting, d.visited + [node], s.stack, d.cycles)
    ensures ClosesOnlyBack(r)
  {
    var n := |d.visited|;
    forall u, w | Closes(r.cycles, u, w) ensures NotAfter(r, u, w) {
      assert NotAfter(d, u, w);
      if i, j :| 0 <= j <= i < |d.stack| && d.stack[i] == u && d.stack[j] == w {
        if i < |s.stack| {
          assert s.stack[i] == u && s.stack[j] == w;
        } else {
          assert r.visited[n] == u && r.visited[..n] == d.visited;
        }
      } else {
        var k :| 0 <= k < n && d.visited[k] == u && w !in d.visited[..k];
        assert r.visited[k] == u && r.visited[..k] == d.visited[..k];
      }
    }
  }

  // One call of dfs: the invariant holds throughout and the node is settled afterwards.
  lemma {:induction false} VisitKeepsInv(g: Graph, s: Search, node: Node)
    requires node in Contexts(g) && Inv(g, s) && TopImports(g, s, node)
    ensures Inv(g, Visit(g, s, node)) && Settled(Visit(g, s, node), node)
    decreases Todo(g, s), 0
  {
    var r := Visit(g, s, node);
    if node in s.visited {
    } else if node in s.visiting {
      BackEdge(g, s, node);
      VisitBackEdge(g, s, node);
    } else {
      var e := Search(s.visiting + {node}, s.visited, s.stack + [node], s.cycles);
      assert node in Todo(g, s) && node !in Todo(g, e);
      EnterKeepsInv(g, s, node);
      VisitAllKeepsInv(g, e, Imports(g, node));
      var d := VisitAll(g, e, Imports(g, node));
      assert d.stack[..|d.stack| - 1] == s.stack;
      LeaveKeepsInv(g, s, d, node);
      assert d.visiting - {node} == s.visiting;
    }
  }

  lemma VisitBackEdge(g: Graph, s: Search, node: Node)
    requires node in Contexts(g) && Inv(g, s) && node !in s.visited && node in s.visiting && TopImports(g, s, node)
    requires IndexOf(s.stack, node) >= 0 && IsSimpleCycle(g, s.stack[IndexOf(s.stack, node)..] + [node])
    ensures Inv(g, Visit(g, s, node)) && Settled(Visit(g, s, node), node)
  {
    var c := s.stack[IndexOf(s.stack, node)..] + [node];
    var r := Visit(g, s, node);
    assert r == s.(cycles := s.cycles + [c]);
    forall k, y | 0 <= k < |r.visited| && Arrow(g, r.visited[k], y)
      ensures y in r.visited[..k] || Closes(r.cycles, r.visited[k], y)
    {
      if y !in r.visited[..k] {
        ClosesMore(s.cycles, r.cycles, r.visited[k], y);
      }
    }
    assert r.cycles[|s.cycles|] == c;
    var h := |s.stack| - 1;
    forall u, w | Closes(r.cycles, u, w) ensures NotAfter(r, u, w) {
      if Closes(s.cycles, u, w) {
        assert NotAfter(s, u, w);
      } else {
        assert u == c[|c| - 2] == s.stack[h] && w == node == s.stack[IndexOf(s.stack, node)];
      }
    }
  }

  lemma {:induction false} VisitAllKeepsInv(g: Graph, s: Search, nodes: seq<Node>)
    requires forall n :: n in nodes ==> n in Contexts(g) && TopImports(g, s, n)
    requires Inv(g, s)
    ensures Inv(g, VisitAll(g, s, nodes))
    ensures forall n :: n in nodes ==> Settled(VisitAll(g, s, nodes), n)
    decreases Todo(g, s), 1 + |nodes|
  {
    hide Inv, Settled;
    if nodes != [] {
      var n := |nodes| - 1;
      var m := VisitAll(g, s, nodes[..n]);
      assert Todo(g, m) <= Todo(g, s);
      VisitAllKeepsInv(g, s, nodes[..n]);
      VisitKeepsInv(g, m, nodes[n]);
      var r := VisitAll(g, s, nodes);
      forall x | x in nodes ensures Settled(r, x) {
        if x in nodes[..n] {
          SettledLater(m, r, x);
        }
      }
    }
  }

  // ---------- What a finished search has found ----------

  // Every directed cycle of the graph has an edge that closes a reported cycle.
  lemma EveryCycleIsHit(g: Graph, s: Search, w: seq<Node>)
    requires FinishedInOrder(g, s) && IsClosedWalk(g, w) && forall x :: x in g ==> x in s.visited
    ensures exists i, j :: 0 <= i && j == i + 1 && j < |w| && Closes(s.cycles, w[i], w[j])
  {
    if forall i, j :: 0 <= i && j == i + 1 && j < |w| ==> !Closes(s.cycles, w[i], w[j]) {
      assert w[0] in s.visited;
      var k :| 0 <= k < |s.visited| && s.visited[k] == w[0];
      var l := FinishesEarlier(g, s, w, k, |w| - 1);
    }
  }

  // Along a walk without closing edges, each node finished before the one in front of it.
  lemma {:induction false} FinishesEarlier(g: Graph, s: Search, w: seq<Node>, k: nat, i: nat) returns (l: nat)
    requires FinishedInOrder(g, s) && IsWalk(g, w)
    requires k < |s.visited| && s.visited[k] == w[0] && i < |w|
    requires forall a, b :: 0 <= a && b == a + 1 && b < |w| ==> !Closes(s.cycles, w[a], w[b])
    ensures l <= k - i && s.visited[l] == w[i]
  {
    l := k;
    if i > 0 {
      var m := FinishesEarlier(g, s, w, k, i - 1);
      assert Edge(g, w[i - 1], w[i]) && Arrow(g, s.visited[m], w[i]);
      l :| 0 <= l < m && s.visited[l] == w[i];
    }
  }

  // Precisely the edges that do not lead to a context finished earlier close a reported cycle.
  lemma ClosesIffNotFinishedEarlier(g: Graph, s: Search, k: nat, y: Node)
    requires Inv(g, s) && s.stack == [] && k < |s.visited| && Arrow(g, s.visited[k], y)
    ensures Closes(s.cycles, s.visited[k], y) <==> y !in s.visited[..k]
  {
    if Closes(s.cycles, s.visited[k], y) {
      assert NotAfter(s, s.visited[k], y);
    }
  }

  lemma CycleNodesMutual(g: Graph, c: seq<Node>, x: Node, y: Node)
    requires IsClosedWalk(g, c) && x in c && y in c
    ensures Mutual(g, x, y)
  {
    var i :| 0 <= i < |c| && c[i] == x;
    var j :| 0 <= j < |c| && c[j] == y;
    ClosedWalkIsMutual(g, c, i, j);
  }

  // A context on some cycle has a reported cycle inside its strongly connected component.
  lemma ComponentHasReportedCycle(g: Graph, s: Search, x: Node)
    requires Inv(g, s) && OnCycle(g, x) && forall y :: y in g ==> y in s.visited
    ensures exists k :: 0 <= k < |s.cycles| && forall y :: y in s.cycles[k] ==> Mutual(g, x, y)
  {
    OnCycleIffClosedWalk(g, x);
    var w :| IsClosedWalk(g, w) && w[0] == x;
    EveryCycleIsHit(g, s, w);
    var i, j :| 0 <= i && j == i + 1 && j < |w| && Closes(s.cycles, w[i], w[j]);
    var k :| 0 <= k < |s.cycles| && EndsWith(s.cycles[k], w[i], w[j]);
    var c := s.cycles[k];
    assert IsSimpleCycle(g, c);
    forall y | y in c ensures Mutual(g, x, y) {
      CycleNodesMutual(g, w, x, w[j]);
      CycleNodesMutual(g, c, w[j], y);
      ReachesTrans(g, x, w[j], y);
      ReachesTrans(g, y, w[j], x);
    }
  }

  // Nothing is reported exactly if there is no cycle to report.
  lemma NoReportIffAcyclic(g: Graph, s: Search)
    requires Inv(g, s) && forall y :: y in g ==> y in s.visited
    ensures s.cycles == [] <==> Acyclic(g)
  {
    if s.cycles != [] {
      assert IsSimpleCycle(g, s.cycles[0]);
    }
    forall w | IsClosedWalk(g, w) ensures s.cycles != [] {
      EveryCycleIsHit(g, s, w);
    }
  }

  // The whole driver loop: every key is finished, and nothing is left on the stack.
  lemma FinishedRun(g: Graph, keys: seq<Node>)
    requires forall x :: x in keys <==> x in g
    ensures Inv(g, VisitAll(g, FRESH, keys)) && forall x :: x in g ==> x in VisitAll(g, FRESH, keys).visited
  {
    var s := VisitAll(g, FRESH, keys);
    VisitAllKeepsInv(g, FRESH, keys);
    forall x | x in g ensures x in s.visited {
      assert Settled(s, x);
    }
  }

  ghost function Triangle(a: Node, b: Node, c: Node): Graph {
    map[a := [b, c], b := [a], c := [b]]
  }

  // The header promises that every offending pair is named. Here c imports b, which imports c through
  // a, and no reported cycle names c: starting from a, the only report is a, b, a.
  lemma NotEveryPairIsNamed(a: Node, b: Node, c: Node)
    requires a != b && b != c && a != c
    ensures var g := Triangle(a, b, c);
            Edge(g, c, b) && Mutual(g, c, b) && VisitAll(g, FRESH, [a, b, c]).cycles == [[a, b, a]]
  {
    var g := Triangle(a, b, c);
    TriangleIsCyclic(a, b, c);
    TriangleFromA(a, b, c);
    VisitTwo(g, FRESH, a, b);
    assert [a, b, c][..2] == [a, b];
  }

  lemma TriangleIsCyclic(a: Node, b: Node, c: Node)
    requires a != b && b != c && a != c
    ensures Edge(Triangle(a, b, c), c, b) && Mutual(Triangle(a, b, c), c, b)
  {
    var g := Triangle(a, b, c);
    assert Edge(g, c, b) && Edge(g, b, a) && Edge(g, a, c);
    ReachesEdge(g, c, b);
    ReachesEdge(g, b, a);
    ReachesEdge(g, a, c);
    ReachesTrans(g, b, a, c);
  }

  lemma TriangleFromA(a: Node, b: Node, c: Node)
    requires a != b && b != c && a != c
    ensures Visit(Triangle(a, b, c), FRESH, a) == Search({}, [b, c, a], [], [[a, b, a]])
  {
    var g := Triangle(a, b, c);
    VisitsBThenC(g, a, b, c);
    VisitTwo(g, Search({a}, [], [a], []), b, c);
    var leftC := Search({a}, [b, c], [a], [[a, b, a]]);
    assert FRESH.visiting + {a} == {a} && FRESH.stack + [a] == [a];
    EnterNode(g, FRESH, a, leftC);
  }

  lemma VisitsBThenC(g: Graph, a: Node, b: Node, c: Node)
    requires a != b && b != c && a != c && g == Triangle(a, b, c)
    ensures Visit(g, Search({a}, [], [a], []), b) == Search({a}, [b], [a], [[a, b, a]])
    ensures Visit(g, Search({a}, [b], [a], [[a, b, a]]), c) == Search({a}, [b, c], [a], [[a, b, a]])
  {
    var atB := Search({a, b}, [], [a, b], []);
    assert IndexOf(atB.stack, a) == 0 && atB.stack[0..] + [a] == [a, b, a];
    VisitOne(g, atB, a);
    assert {a} + {b} == {a, b} && [a] + [b] == [a, b];
    EnterNode(g, Search({a}, [], [a], []), b, Search({a, b}, [], [a, b], [[a, b, a]]));
    var atC := Search({a, c}, [b], [a, c], [[a, b, a]]);
    VisitOne(g, atC, b);
    assert {a} + {c} == {a, c} && [a] + [c] == [a, c];
    EnterNode(g, Search({a}, [b], [a], [[a, b, a]]), c, atC);
  }

  lemma VisitOne(g: Graph, s: Search, x: Node)
    requires x in Contexts(g)
    ensures VisitAll(g, s, [x]) == Visit(g, s, x)
  {
    assert [x][..0] == [];
    assert VisitAll(g, s, []) == s;
  }

  lemma VisitTwo(g: Graph, s: Search, x: Node, y: Node)
    requires x in Contexts(g) && y in Contexts(g)
    ensures VisitAll(g, s, [x, y]) == Visit(g, Visit(g, s, x), y)
  {
    assert [x, y][..1] == [x];
    VisitOne(g, s, x);
  }

  // dfs on a new node, given what the loop over its imports makes of the state.
  lemma EnterNode(g: Graph, s: Search, node: Node, d: Search)
    requires node in Contexts(g) && node !in s.visited && node !in s.visiting
    requires d == VisitAll(g, Search(s.visiting + {node}, s.visited, s.stack + [node], s.cycles), Imports(g, node))
    ensures Visit(g, s, node) == Search(s.visiting, d.visited + [node], s.stack, d.cycles)
  {
    assert s.visiting + {node} - {node} == s.visiting;
    assert (s.stack + [node])[..|s.stack|] == s.stack;
  }

  lemma ImportsAreContexts(g: Graph, node: Node)
    ensures forall n :: n in Imports(g, node) ==> n in Contexts(g)
  {
  }

  // ---------- The search as the script performs it ----------

  class CycleSearch {
    const graph: Graph
    var visiting: set<Node>
    var visited: seq<Node>
    var stack: seq<Node>
    var cycles: seq<seq<Node>>

    ghost function Current(): Search
      reads this
    {
      Search(visiting, visited, stack, cycles)
    }

    constructor (graph: Graph)
      ensures this.graph == graph && Current() == FRESH
    {
      this.graph := graph;
      visiting, visited, stack, cycles := {}, [], [], [];
    }

    method Dfs(node: Node)
      requires node in Contexts(graph)
      modifies this
      ensures Current() == Visit(graph, old(Current()), node)
      decreases Todo(graph, Current())
    {
      if node in visited {
        return;
      }
      if node in visiting {
        var idx := IndexOf(stack, node);
        if idx >= 0 {
          cycles := cycles + [stack[idx..] + [node]];
        }
        return;
      }
      ghost var s := Current();
      visiting := visiting + {node};
      stack := stack + [node];
      ghost var e := Current();
      assert node in Todo(graph, s) && node !in Todo(graph, e);
      var nexts := Imports(graph, node);
      ImportsAreContexts(graph, node);
      for i := 0 to |nexts|
        invariant Current() == VisitAll(graph, e, nexts[..i])
      {
        assert nexts[..i + 1][..i] == nexts[..i];
        Dfs(nexts[i]);
      }
      assert nexts[..|nexts|] == nexts;
      stack := stack[..|stack| - 1];
      visiting := visiting - {node};
      visited := visited + [node];
    }

    // `keys` lists the keys of the graph in the order the driver loop visits them.
    method Run(keys: seq<Node>)
      requires Current() == FRESH
      requires forall x :: x in keys <==> x in graph
      modifies this
      ensures Current() == VisitAll(graph, FRESH, keys)
      ensures visiting == {} && stack == []
      ensures AllSimpleCycles(graph, cycles)
      ensures cycles == [] <==> Acyclic(graph)
    {
      for i := 0 to |keys|
        invariant Current() == VisitAll(graph, FRESH, keys[..i])
      {
        assert keys[..i + 1][..i] == keys[..i];
        Dfs(keys[i]);
      }
      assert keys[..|keys|] == keys;
      FinishedRun(graph, keys);
      NoReportIffAcyclic(graph, Current());
    }
  }
}
