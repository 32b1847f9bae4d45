/**
 * scripts/lint-no-cyclic-imports.ts: Tarjan's strongly connected components of the import graph,
 * and the issue count the lint reports.
 */
module NoCyclicImports {
  import opened ImportGraph
  import opened Sequences
  import opened TarjanState

  // ---------- What the components mean ----------

  // Every key is in exactly one component, once.
  ghost predicate IsPartition(g: Graph, sccs: seq<seq<Node>>) {
    && (forall x :: x in g <==> InSomeScc(sccs, x))
    && (forall k :: 0 <= k < |sccs| ==> |sccs[k]| > 0 && Distinct(sccs[k]))
    && (forall k, l, x :: 0 <= k < l < |sccs| && x in sccs[k] ==> x !in sccs[l])
  }

  // Two nodes share a component exactly if each reaches the other.
  ghost predicate SameSccIffMutual(g: Graph, sccs: seq<seq<Node>>) {
    forall k, x, y :: 0 <= k < |sccs| && x in sccs[k] ==> (y in sccs[k] <==> Mutual(g, x, y))
  }

  // An edge between different components leads to the one emitted earlier.
  ghost predicate ReverseTopological(g: Graph, sccs: seq<seq<Node>>) {
    forall k, l, x, y :: 0 <= k < |sccs| && 0 <= l < |sccs| && x in sccs[k] && y in sccs[l] && Edge(g, x, y) ==> l <= k
  }

  ghost predicate IsDecomposition(g: Graph, sccs: seq<seq<Node>>) {
    IsPartition(g, sccs) && SameSccIffMutual(g, sccs) && ReverseTopological(g, sccs)
  }

  // Once no call is open the stack is empty, and the invariant says all there is to say.
  lemma FinishedRun(g: Graph, s: State)
    requires Inv(g, s, {}) && s.meta.Keys == g.Keys
    ensures s.stack == [] && IsDecomposition(g, s.sccs)
  {
    forall x | x in g ensures !s.meta[x].onStack {
      assert !HasAnchor(g, s, {}, x);
    }
    assert |s.stack| > 0 ==> OnStack(s, s.stack[0]);
    forall k, x, y | 0 <= k < |s.sccs| && x in s.sccs[k] ensures y in s.sccs[k] <==> Mutual(g, x, y) {
      assert IsComponent(g, s.sccs[k]);
    }
    forall k, l, x, y | 0 <= k < |s.sccs| && 0 <= l < |s.sccs| && x in s.sccs[k] && y in s.sccs[l] && Edge(g, x, y)
      ensures l <= k
    {
      assert PointsBack(g, s.sccs, k);
      var m :| 0 <= m < |s.sccs[..k + 1]| && y in s.sccs[..k + 1][m];
      assert y in s.sccs[m];
    }
  }

  // ---------- The algorithm ----------

  class Tarjan {
    const graph: Graph
    var meta: map<Node, Meta>
    var stack: seq<Node>
    var sccs: seq<seq<Node>>
    var nextIndex: nat

    ghost function Current(): State
      reads this
    {
      State(meta, stack, sccs, nextIndex)
    }

    constructor (graph: Graph)
      ensures this.graph == graph && Current() == INITIAL
    {
      this.graph := graph;
      meta, stack, sccs, nextIndex := map[], [], [], 0;
    }

    method Push(v: Node)
      modifies this
      ensures Current() == Enter(old(Current()), v)
    {
      meta := meta[v := Meta(nextIndex, nextIndex, true)];
      nextIndex := nextIndex + 1;
      stack := stack + [v];
    }

    method SetLowlink(v: Node, low: nat)
      requires v in meta
      modifies this
      ensures Current() == Lower(old(Current()), v, low)
    {
      meta := meta[v := meta[v].(lowlink := low)];
    }

    // `open` are the nodes whose calls are still running.
    method StrongConnect(v: Node, ghost open: set<Node>)
      requires Inv(graph, Current(), open)
      requires v in graph && v !in meta
      requires forall x :: x in open ==> Reaches(graph, x, v)
      modifies this
      ensures Inv(graph, Current(), open)
      ensures Connected(graph, old(Current()), Current(), v)
      decreases graph.Keys - meta.Keys
    {
      hide StackReaches, Anchored, NoFinishedToWhite, EmittedOnce, ComponentsInOrder;
      hide StackOrdered, ImportsDone, LowBound, LowWitness, Reaches, Edge;
      ghost var before := Current();
      EnterKeepsInv(graph, before, open, v);
      Push(v);

      var imports := graph[v];
      for i := 0 to |imports|
        invariant Inv(graph, Current(), open + {v})
        invariant Exploring(graph, before, Current(), v, i)
      {
        var w := imports[i];
        ghost var mid := Current();
        if w !in graph {
          SkipKeepsExploring(graph, before, mid, v, i);
        } else if w !in meta {
          OpenCallsReach(graph, open, v, w);
          StrongConnect(w, open + {v});
          ghost var after := Current();
          var low := Min(meta[v].lowlink, meta[w].lowlink);
          TreeEdgeKeepsExploring(graph, before, mid, after, v, i);
          LowerKeepsInv(graph, after, open + {v}, v, low);
          SetLowlink(v, low);
        } else if meta[w].onStack {
          var low := Min(meta[v].lowlink, meta[w].index);
          BackEdgeKeepsExploring(graph, before, mid, v, i);
          LowerKeepsInv(graph, mid, open + {v}, v, low);
          SetLowlink(v, low);
        } else {
          SkipKeepsExploring(graph, before, mid, v, i);
        }
      }

      ghost var last := Current();
      if meta[v].lowlink == meta[v].index {
        EmitKeepsInv(graph, before, last, open, v);
        assert stack[|before.stack|] == v;
        PopComponent(v, |before.stack|);
      } else {
        LeaveKeepsInv(graph, before, last, open, v);
      }
    }

    method Pop() returns (w: Node)
      requires |stack| > 0 && stack[|stack| - 1] in meta
      modifies `stack, `meta
      ensures w == old(stack)[|old(stack)| - 1] && stack == old(stack)[..|old(stack)| - 1]
      ensures meta == old(meta)[w := old(meta)[w].(onStack := false)]
    {
      w := stack[|stack| - 1];
      stack := stack[..|stack| - 1];
      meta := meta[w := meta[w].(onStack := false)];
    }

    // Pops the stack down to v, which is at height h, into a new component.
    method PopComponent(v: Node, ghost h: nat)
      requires StackOrdered(Current()) && h < |stack| && stack[h] == v
      modifies this
      ensures Current() == Emit(old(Current()), h)
    {
      hide StackOrdered, Emit;
      ghost var s := Current();
      var scc: seq<Node> := [];
      EmitNothing(s);
      while true
        invariant h < |stack| <= |s.stack| && stack == s.stack[..|stack|]
        invariant meta == Emit(s, |stack|).meta && scc == Reversed(s.stack[|stack|..])
        invariant sccs == s.sccs && nextIndex == s.nextIndex
        decreases |stack|
      {
        EmitOneMore(s, |stack| - 1, h);
        var w := Pop();
        scc := scc + [w];
        if w == v {
          break;
        }
      }
      EmitShape(s, h);
      sccs := sccs + [scc];
    }

    // `keys` lists the keys of the graph in the order the driver loop visits them.
    method Run(keys: seq<Node>)
      requires Current() == INITIAL
      requires forall x :: x in keys <==> x in graph
      modifies this
      ensures stack == [] && IsDecomposition(graph, sccs)
    {
      InvAtStart(graph);
      hide Numbered, StackReaches, StackOrdered, Anchored, NoFinishedToWhite, EmittedOnce, ComponentsInOrder, LowBound;
      hide LowWitness, IsDecomposition;
      for i := 0 to |keys|
        invariant Inv(graph, Current(), {})
        invariant forall j :: 0 <= j < i ==> keys[j] in meta
      {
        if keys[i] !in meta {
          StrongConnect(keys[i], {});
        }
      }
      OnlyKeysVisited(graph, Current());
      FinishedRun(graph, Current());
    }

    // The lint's count: components of more than one file, plus files that import themselves.
    method CountIssues(keys: seq<Node>) returns (cycles: seq<seq<Node>>, selfLoops: seq<Node>, totalIssues: nat)
      requires IsDecomposition(graph, sccs)
      requires forall x :: x in keys <==> x in graph
      ensures cycles == Nontrivial(sccs) && selfLoops == SelfImporters(graph, keys)
      ensures |cycles| == |set k | 0 <= k < |sccs| && |sccs[k]| > 1|
      ensures |selfLoops| == |set k | 0 <= k < |keys| && keys[k] in graph[keys[k]]|
      ensures totalIssues == |cycles| + |selfLoops|
      ensures totalIssues == 0 <==> Acyclic(graph)
    {
      hide IsDecomposition, Acyclic, Nontrivial, SelfImporters;
      NothingOfNothing(graph);
      cycles := [];
      for i := 0 to |sccs|
        invariant cycles == Nontrivial(sccs[..i])
      {
        NontrivialStep(sccs, i);
        if |sccs[i]| > 1 {
          cycles := cycles + [sccs[i]];
        }
      }
      assert sccs[..|sccs|] == sccs;
      selfLoops := [];
      for i := 0 to |keys|
        invariant selfLoops == SelfImporters(graph, keys[..i])
      {
        SelfImportersStep(graph, keys, i);
        if keys[i] in graph[keys[i]] {
          selfLoops := selfLoops + [keys[i]];
        }
      }
      assert keys[..|keys|] == keys;
      totalIssues := |cycles| + |selfLoops|;
      NoIssuesIffAcyclic(graph, sccs, keys);
      NontrivialCounted(sccs);
      SelfImportersCounted(graph, keys);
    }
  }

  predicate HasSeveral(c: seq<Node>) {
    |c| > 1
  }

  // The components of more than one node, in order.
  ghost function Nontrivial(sccs: seq<seq<Node>>): (r: seq<seq<Node>>)
    ensures forall c :: c in r <==> c in sccs && |c| > 1
  {
    Filtered(sccs, HasSeveral)
  }

  // The keys that import themselves, in order.
  ghost function SelfImporters(g: Graph, keys: seq<Node>): (r: seq<Node>)
    ensures forall x :: x in r <==> x in keys && Edge(g, x, x)
  {
    Filtered(keys, x => Edge(g, x, x))
  }

  lemma NontrivialStep(sccs: seq<seq<Node>>, i: nat)
    requires i < |sccs|
    ensures Nontrivial(sccs[..i + 1]) == Nontrivial(sccs[..i]) + if |sccs[i]| > 1 then [sccs[i]] else []
  {
    FilteredOneMore(sccs, HasSeveral, i);
  }

  lemma SelfImportersStep(g: Graph, keys: seq<Node>, i: nat)
    requires i < |keys|
    ensures SelfImporters(g, keys[..i + 1])
         == SelfImporters(g, keys[..i]) + if Edge(g, keys[i], keys[i]) then [keys[i]] else []
  {
    FilteredOneMore(keys, x => Edge(g, x, x), i);
  }

  lemma NontrivialCounted(sccs: seq<seq<Node>>)
    ensures |Nontrivial(sccs)| == |set k | 0 <= k < |sccs| && |sccs[k]| > 1|
  {
    var at := FilteredCount(sccs, HasSeveral);
    assert at == set k | 0 <= k < |sccs| && |sccs[k]| > 1;
  }

  lemma SelfImportersCounted(g: Graph, keys: seq<Node>)
    requires forall x :: x in keys ==> x in g
    ensures |SelfImporters(g, keys)| == |set k | 0 <= k < |keys| && keys[k] in g[keys[k]]|
  {
    var at := FilteredCount(keys, x => Edge(g, x, x));
    assert at == set k | 0 <= k < |keys| && keys[k] in g[keys[k]];
  }

  lemma NothingOfNothing(g: Graph)
    ensures Nontrivial([]) == [] && SelfImporters(g, []) == []
  {
  }

  // A file lies on an import cycle exactly if its component has another file or it imports itself.
  lemma OnCycleIffReported(g: Graph, sccs: seq<seq<Node>>, k: nat, x: Node)
    requires IsDecomposition(g, sccs) && k < |sccs| && x in sccs[k]
    ensures OnCycle(g, x) <==> |sccs[k]| > 1 || Edge(g, x, x)
  {
    if |sccs[k]| > 1 {
      assert sccs[k][0] != sccs[k][1];
      var y := if sccs[k][0] == x then sccs[k][1] else sccs[k][0];
      assert y in sccs[k];
      MutualPairOnCycle(g, x, y);
    } else {
      assert forall y :: y in sccs[k] ==> y == x;
      assert InSomeScc(sccs, x);
      if OnCycle(g, x) {
        var y :| Edge(g, x, y) && Reaches(g, y, x);
        ReachesEdge(g, x, y);
        assert Mutual(g, x, y);
      }
      if Edge(g, x, x) {
        ReachesSelf(g, x);
      }
    }
  }

  lemma NoIssuesIffAcyclic(g: Graph, sccs: seq<seq<Node>>, keys: seq<Node>)
    requires IsDecomposition(g, sccs)
    requires forall x :: x in keys <==> x in g
    ensures Nontrivial(sccs) == [] && SelfImporters(g, keys) == [] <==> Acyclic(g)
  {
    forall c | IsClosedWalk(g, c) ensures Nontrivial(sccs) != [] || SelfImporters(g, keys) != [] {
      OnCycleIffClosedWalk(g, c[0]);
      assert InSomeScc(sccs, c[0]);
      var k :| 0 <= k < |sccs| && c[0] in sccs[k];
      OnCycleIffReported(g, sccs, k, c[0]);
      assert sccs[k] in Nontrivial(sccs) || c[0] in SelfImporters(g, keys);
    }
    if Nontrivial(sccs) != [] {
      var c := Nontrivial(sccs)[0];
      assert c in Nontrivial(sccs);
      var k :| 0 <= k < |sccs| && sccs[k] == c;
      OnCycleIffReported(g, sccs, k, c[0]);
      OnCycleIffClosedWalk(g, c[0]);
    }
    if SelfImporters(g, keys) != [] {
      var x := SelfImporters(g, keys)[0];
      assert x in SelfImporters(g, keys);
      ReachesSelf(g, x);
      OnCycleIffClosedWalk(g, x);
    }
  }

  lemma InvAtStart(g: Graph)
    ensures Inv(g, INITIAL, {})
  {
  }

  lemma OnlyKeysVisited(g: Graph, s: State)
    requires Inv(g, s, {})
    ensures s.meta.Keys <= g.Keys
  {
  }

  lemma OpenCallsReach(g: Graph, open: set<Node>, v: Node, w: Node)
    requires Edge(g, v, w) && forall x :: x in open ==> Reaches(g, x, v)
    ensures forall x :: x in open + {v} ==> Reaches(g, x, w)
  {
    ReachesEdge(g, v, w);
    forall x | x in open ensures Reaches(g, x, w) {
      ReachesTrans(g, x, v, w);
    }
  }
}
