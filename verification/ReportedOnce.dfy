/**
 * scripts/check-bc-cycles.ts: every import that leads back to the stack adds one cycle to the report,
 * not more.
 */
module ReportedOnce {
  import opened ImportGraph
  import opened Sequences
  import opened BcCycles

  // No context lists an import twice, as Sets do not.
  ghost predicate ListsOnce(g: Graph) {
    forall x :: x in g ==> Distinct(g[x])
  }

  // No two cycles end with the same import.
  ghost predicate ClosersApart(cycles: seq<seq<Node>>) {
    forall k, l, u, w :: 0 <= k < l < |cycles| && EndsWith(cycles[k], u, w) ==> !EndsWith(cycles[l], u, w)
  }

  // Only contexts that have been entered close cycles.
  ghost predicate ClosersMet(s: Search) {
    forall u, w :: Closes(s.cycles, u, w) ==> u in s.visited || u in s.visiting
  }

  // What has been closed since: imports of the stack's top to one of the nodes, and imports of contexts
  // entered since.
  ghost predicate ClosedSince(s: Search, r: Search, nodes: seq<Node>) {
    forall u, w :: Closes(r.cycles, u, w) && !Closes(s.cycles, u, w) ==>
      || (|s.stack| > 0 && u == s.stack[|s.stack| - 1] && w in nodes)
      || (u !in s.visited && u !in s.visiting)
  }

  // The imports from the stack's top to these nodes have closed nothing yet.
  ghost predicate NotYetClosed(s: Search, nodes: seq<Node>) {
    |s.stack| > 0 ==> Distinct(nodes) && forall n :: n in nodes ==> !Closes(s.cycles, s.stack[|s.stack| - 1], n)
  }

  lemma ClosesOneMore(cycles: seq<seq<Node>>, c: seq<Node>, u: Node, w: Node)
    ensures Closes(cycles + [c], u, w) <==> Closes(cycles, u, w) || EndsWith(c, u, w)
  {
    var more := cycles + [c];
    assert more[|cycles|] == c && forall k :: 0 <= k < |cycles| ==> more[k] == cycles[k];
  }

  lemma BackEdgeApart(g: Graph, s: Search, node: Node)
    requires Inv(g, s) && TopImports(g, s, node) && node in Contexts(g) && node !in s.visited && node in s.visiting
    requires ClosersApart(s.cycles) && ClosersMet(s) && NotYetClosed(s, [node])
    ensures var r := Visit(g, s, node);
            ClosersApart(r.cycles) && ClosersMet(r) && ClosedSince(s, r, [node])
  {
    BackEdge(g, s, node);
    StackIsEntered(g, s);
    var top := s.stack[|s.stack| - 1];
    var c := s.stack[IndexOf(s.stack, node)..] + [node];
    assert c[|c| - 2] == top && c[|c| - 1] == node && node in [node];
    EndsOfCycle(c);
    hide Inv, EndsWith, IsSimpleCycle, TopImports, IndexOf;
    forall u, w ensures Closes(s.cycles + [c], u, w) <==> Closes(s.cycles, u, w) || EndsWith(c, u, w) {
      ClosesOneMore(s.cycles, c, u, w);
    }
    forall k, u, w | 0 <= k < |s.cycles| && EndsWith(s.cycles[k], u, w) ensures !EndsWith(c, u, w) {
      assert Closes(s.cycles, u, w);
    }
  }

  lemma EndsOfCycle(c: seq<Node>)
    requires |c| >= 2
    ensures forall u, w :: EndsWith(c, u, w) <==> u == c[|c| - 2] && w == c[|c| - 1]
  {
  }

  lemma {:induction false} VisitApart(g: Graph, s: Search, node: Node)
    requires node in Contexts(g) && Inv(g, s) && TopImports(g, s, node) && ListsOnce(g)
    requires ClosersApart(s.cycles) && ClosersMet(s) && NotYetClosed(s, [node])
    ensures var r := Visit(g, s, node);
            ClosersApart(r.cycles) && ClosersMet(r) && ClosedSince(s, r, [node])
    decreases Todo(g, s), 0
  {
    hide Inv, ClosersApart;
    if node in s.visited {
    } else if node in s.visiting {
      BackEdgeApart(g, s, node);
    } else {
      var e := Search(s.visiting + {node}, s.visited, s.stack + [node], s.cycles);
      assert node in Todo(g, s) && node !in Todo(g, e);
      EnterKeepsInv(g, s, node);
      VisitAllApart(g, e, Imports(g, node));
      EnterNode(g, s, node, VisitAll(g, e, Imports(g, node)));
    }
  }

  lemma {:induction false} VisitAllApart(g: Graph, s: Search, nodes: seq<Node>)
    requires forall n :: n in nodes ==> n in Contexts(g) && TopImports(g, s, n)
    requires Inv(g, s) && ListsOnce(g) && ClosersApart(s.cycles) && ClosersMet(s) && NotYetClosed(s, nodes)
    ensures var r := VisitAll(g, s, nodes);
            ClosersApart(r.cycles) && ClosersMet(r) && ClosedSince(s, r, nodes)
    decreases Todo(g, s), 1 + |nodes|
  {
    NothingSince(s, nodes);
    hide Inv, ClosersApart, ClosersMet, NotYetClosed, ClosedSince;
    if nodes != [] {
      var n := |nodes| - 1;
      var m := VisitAll(g, s, nodes[..n]);
      assert Todo(g, m) <= Todo(g, s);
      VisitAllKeepsInv(g, s, nodes[..n]);
      NotYetClosedBefore(s, nodes);
      VisitAllApart(g, s, nodes[..n]);
      StackIsEntered(g, s);
      NotYetClosedNext(s, m, nodes);
      VisitApart(g, m, nodes[n]);
      ClosedSinceBoth(s, m, VisitAll(g, s, nodes), nodes);
    }
  }

  lemma NothingSince(s: Search, nodes: seq<Node>)
    ensures ClosedSince(s, s, nodes)
  {
  }

  lemma NotYetClosedBefore(s: Search, nodes: seq<Node>)
    requires NotYetClosed(s, nodes) && nodes != []
    ensures NotYetClosed(s, nodes[..|nodes| - 1])
  {
    var before := nodes[..|nodes| - 1];
    assert forall k :: 0 <= k < |before| ==> before[k] == nodes[k];
    assert forall n :: n in before ==> n in nodes;
  }

  lemma NotYetClosedNext(s: Search, m: Search, nodes: seq<Node>)
    requires NotYetClosed(s, nodes) && nodes != [] && ClosedSince(s, m, nodes[..|nodes| - 1]) && m.stack == s.stack
    requires |s.stack| > 0 ==> s.stack[|s.stack| - 1] in s.visiting
    ensures NotYetClosed(m, [nodes[|nodes| - 1]])
  {
    var n := |nodes| - 1;
    assert nodes[n] in nodes;
    if |s.stack| > 0 {
      assert nodes[n] !in nodes[..n];
    }
  }

  lemma ClosedSinceBoth(s: Search, m: Search, r: Search, nodes: seq<Node>)
    requires nodes != [] && ClosedSince(s, m, nodes[..|nodes| - 1]) && ClosedSince(m, r, [nodes[|nodes| - 1]])
    requires m.stack == s.stack && m.visiting == s.visiting && s.visited <= m.visited
    ensures ClosedSince(s, r, nodes)
  {
    var n := |nodes| - 1;
    assert nodes == nodes[..n] + [nodes[n]];
    hide Closes;
  }

  lemma StackIsEntered(g: Graph, s: Search)
    requires Inv(g, s)
    ensures |s.stack| > 0 ==> s.stack[|s.stack| - 1] in s.visiting
  {
  }

  // Every import that closes a reported cycle closes exactly one.
  lemma EachCloserReportedOnce(g: Graph, keys: seq<Node>)
    requires ListsOnce(g) && forall x :: x in keys <==> x in g
    ensures ClosersApart(VisitAll(g, FRESH, keys).cycles)
  {
    VisitAllApart(g, FRESH, keys);
  }
}
