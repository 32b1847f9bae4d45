/**
 * Both cycle detectors on one graph: scripts/lint-no-cyclic-imports.ts finds components,
 * scripts/check-bc-cycles.ts finds concrete cycles, and they find trouble in the same places.
 */
module DetectorAgreement {
  import opened ImportGraph
  import TarjanState
  import Lint = NoCyclicImports
  import Bc = BcCycles

  // A reported cycle stays inside one component.
  lemma ReportedCycleInOneComponent(g: Graph, sccs: seq<seq<Node>>, s: Bc.Search, c: seq<Node>)
    requires Lint.IsDecomposition(g, sccs) && Bc.Inv(g, s) && c in s.cycles
    ensures exists k :: 0 <= k < |sccs| && forall y :: y in c ==> y in sccs[k]
  {
    assert Bc.IsSimpleCycle(g, c);
    assert TarjanState.InSomeScc(sccs, c[0]);
    var k :| 0 <= k < |sccs| && c[0] in sccs[k];
    forall y | y in c ensures y in sccs[k] {
      Bc.CycleNodesMutual(g, c, c[0], y);
    }
  }

  // Tarjan counts a component as an issue exactly if the search reports a cycle inside it.
  lemma IssueIffReportedCycle(g: Graph, sccs: seq<seq<Node>>, s: Bc.Search, k: nat)
    requires Lint.IsDecomposition(g, sccs) && k < |sccs|
    requires Bc.Inv(g, s) && forall y :: y in g ==> y in s.visited
    ensures (|sccs[k]| > 1 || Edge(g, sccs[k][0], sccs[k][0])) <==>
            exists j :: 0 <= j < |s.cycles| && forall y :: y in s.cycles[j] ==> y in sccs[k]
  {
    var x := sccs[k][0];
    Lint.OnCycleIffReported(g, sccs, k, x);
    if OnCycle(g, x) {
      Bc.ComponentHasReportedCycle(g, s, x);
      var j :| 0 <= j < |s.cycles| && forall y :: y in s.cycles[j] ==> Mutual(g, x, y);
      assert forall y :: y in s.cycles[j] ==> y in sccs[k];
    }
    if j :| 0 <= j < |s.cycles| && forall y :: y in s.cycles[j] ==> y in sccs[k] {
      ReportedMeansIssue(g, sccs, s, k, s.cycles[j]);
    }
  }

  lemma ReportedMeansIssue(g: Graph, sccs: seq<seq<Node>>, s: Bc.Search, k: nat, c: seq<Node>)
    requires Lint.IsDecomposition(g, sccs) && k < |sccs|
    requires Bc.Inv(g, s) && c in s.cycles && forall y :: y in c ==> y in sccs[k]
    ensures |sccs[k]| > 1 || Edge(g, sccs[k][0], sccs[k][0])
  {
    assert Bc.IsSimpleCycle(g, c) && c[0] in sccs[k];
    OnCycleIffClosedWalk(g, c[0]);
    Lint.OnCycleIffReported(g, sccs, k, c[0]);
  }

  // Running both: the lint counts no issue exactly if the search reports no cycle.
  method RunBoth(graph: Graph, keys: seq<Node>) returns (totalIssues: nat, cycles: seq<seq<Node>>)
    requires forall x :: x in keys <==> x in graph
    ensures totalIssues == 0 <==> cycles == []
    ensures totalIssues == 0 <==> Acyclic(graph)
  {
    var lint := new Lint.Tarjan(graph);
    lint.Run(keys);
    var reported, selfLoops, total := lint.CountIssues(keys);
    var search := new Bc.CycleSearch(graph);
    search.Run(keys);
    totalIssues, cycles := total, search.cycles;
  }
}
