/**
 * Directed import graphs, walks in them and reachability.
 *
 * A graph maps each file (or bounded context) to the list of things it imports, in the order a
 * `Set` is iterated. An import may name something that is not a key of the graph; only edges
 * between keys count for walks.
 */
module ImportGraph {

  // A file path or context name. The analyses only compare nodes for equality.
  type Node(==, !new)

  type Graph = map<Node, seq<Node>>

  ghost predicate Edge(g: Graph, x: Node, y: Node) {
    x in g && y in g && y in g[x]
  }

  // A non-empty walk, given as the sequence of its nodes.
  ghost predicate IsWalk(g: Graph, p: seq<Node>) {
    && |p| > 0
    && (forall i :: 0 <= i < |p| ==> p[i] in g)
    && (forall i, j :: 0 <= i && j == i + 1 && j < |p| ==> Edge(g, p[i], p[j]))
  }

  ghost predicate WalkFromTo(g: Graph, p: seq<Node>, x: Node, y: Node) {
    IsWalk(g, p) && p[0] == x && p[|p| - 1] == y
  }

  // y can be reached from x by zero or more edges between keys.
  ghost predicate Reaches(g: Graph, x: Node, y: Node) {
    exists p :: WalkFromTo(g, p, x, y)
  }

  ghost predicate Mutual(g: Graph, x: Node, y: Node) {
    Reaches(g, x, y) && Reaches(g, y, x)
  }

  // A closed walk takes at least one edge and comes back to where it started.
  ghost predicate IsClosedWalk(g: Graph, c: seq<Node>) {
    |c| >= 2 && IsWalk(g, c) && c[0] == c[|c| - 1]
  }

  // x lies on a directed cycle (a self edge is one).
  ghost predicate OnCycle(g: Graph, x: Node) {
    exists y :: Edge(g, x, y) && Reaches(g, y, x)
  }

  ghost predicate Acyclic(g: Graph) {
    forall c :: !IsClosedWalk(g, c)
  }

  ghost predicate ClosedUnderEdges(g: Graph, s: set<Node>) {
    forall x, y :: x in s && Edge(g, x, y) ==> y in s
  }

  lemma ReachesSelf(g: Graph, x: Node)
    requires x in g
    ensures Reaches(g, x, x)
  {
    assert WalkFromTo(g, [x], x, x);
  }

  lemma ReachesEdge(g: Graph, x: Node, y: Node)
    requires Edge(g, x, y)
    ensures Reaches(g, x, y)
  {
    assert WalkFromTo(g, [x, y], x, y);
  }

  lemma JoinWalks(g: Graph, p: seq<Node>, q: seq<Node>)
    requires IsWalk(g, p) && IsWalk(g, q) && p[|p| - 1] == q[0]
    ensures WalkFromTo(g, p + q[1..], p[0], q[|q| - 1])
  {
    var r := p + q[1..];
    forall i, j | 0 <= i && j == i + 1 && j < |r| ensures Edge(g, r[i], r[j]) {
      if j >= |p| {
        assert r[j] == q[j - |p| + 1] && r[i] == q[i - |p| + 1];
      }
    }
  }

  lemma ReachesTrans(g: Graph, x: Node, y: Node, z: Node)
    requires Reaches(g, x, y) && Reaches(g, y, z)
    ensures Reaches(g, x, z)
  {
    var p :| WalkFromTo(g, p, x, y);
    var q :| WalkFromTo(g, q, y, z);
    JoinWalks(g, p, q);
  }

  // A set closed under edges keeps every walk that starts in it.
  lemma {:induction false} WalkStaysIn(g: Graph, s: set<Node>, p: seq<Node>, k: nat)
    requires IsWalk(g, p) && ClosedUnderEdges(g, s) && p[0] in s && k < |p|
    ensures p[k] in s
  {
    if k > 0 {
      WalkStaysIn(g, s, p, k - 1);
      assert Edge(g, p[k - 1], p[k]);
    }
  }

  lemma ReachesStaysIn(g: Graph, s: set<Node>, x: Node, y: Node)
    requires ClosedUnderEdges(g, s) && x in s && Reaches(g, x, y)
    ensures y in s
  {
    var p :| WalkFromTo(g, p, x, y);
    WalkStaysIn(g, s, p, |p| - 1);
  }

  lemma SubWalk(g: Graph, p: seq<Node>, i: nat, j: nat)
    requires IsWalk(g, p) && i <= j < |p|
    ensures WalkFromTo(g, p[i..j + 1], p[i], p[j]) && Reaches(g, p[i], p[j])
  {
    var r := p[i..j + 1];
    forall a, b | 0 <= a && b == a + 1 && b < |r| ensures Edge(g, r[a], r[b]) {
      assert r[a] == p[i + a] && r[b] == p[i + b];
    }
    assert WalkFromTo(g, r, p[i], p[j]);
  }

  // All nodes of a closed walk reach one another.
  lemma ClosedWalkIsMutual(g: Graph, c: seq<Node>, i: nat, j: nat)
    requires IsClosedWalk(g, c) && i < |c| && j < |c|
    ensures Mutual(g, c[i], c[j])
  {
    SubWalk(g, c, i, |c| - 1);
    SubWalk(g, c, 0, i);
    SubWalk(g, c, j, |c| - 1);
    SubWalk(g, c, 0, j);
    ReachesTrans(g, c[i], c[0], c[j]);
    ReachesTrans(g, c[j], c[0], c[i]);
  }

  // A node is on a cycle exactly if some closed walk visits it.
  lemma OnCycleIffClosedWalk(g: Graph, x: Node)
    ensures OnCycle(g, x) <==> exists c :: IsClosedWalk(g, c) && c[0] == x
  {
    if OnCycle(g, x) {
      var y :| Edge(g, x, y) && Reaches(g, y, x);
      var p :| WalkFromTo(g, p, y, x);
      assert IsWalk(g, [x, y]);
      JoinWalks(g, [x, y], p);
      assert IsClosedWalk(g, [x, y] + p[1..]);
    }
    if exists c :: IsClosedWalk(g, c) && c[0] == x {
      var c :| IsClosedWalk(g, c) && c[0] == x;
      SubWalk(g, c, 1, |c| - 1);
      assert Edge(g, c[0], c[1]);
    }
  }

  // Two different nodes that reach one another are both on a cycle.
  lemma MutualPairOnCycle(g: Graph, x: Node, y: Node)
    requires Mutual(g, x, y) && x != y
    ensures OnCycle(g, x)
  {
    var p :| WalkFromTo(g, p, x, y);
    SubWalk(g, p, 1, |p| - 1);
    assert Edge(g, x, p[1]);
    ReachesTrans(g, p[1], y, x);
  }
}
