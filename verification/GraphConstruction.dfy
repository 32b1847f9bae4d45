/**
 * scripts/lint-no-cyclic-imports.ts: building the import graph from what each file's two import
 * patterns match, and what dropping a file's imports of itself means for the lint.
 */
module GraphConstruction {
  import opened ImportGraph
  import opened ResolvedImports
  import opened Results
  import opened Sequences
  import TarjanState
  import opened NoCyclicImports

  // What the matches of a file's from-imports and of its bare imports resolve to.
  datatype Matches = Matches(from: seq<Option<Node>>, bare: seq<Option<Node>>)

  // The file's dependencies in the order in which they are found, each once and never the file itself.
  ghost function Deps(file: Node, specs: seq<Option<Node>>): (deps: seq<Node>)
    ensures Distinct(deps)
    ensures forall y :: y in deps <==> y != file && Some(y) in specs
  {
    if specs == [] then [] else
      var n := |specs| - 1;
      assert specs == specs[..n] + [specs[n]];
      var deps := Deps(file, specs[..n]);
      if specs[n].Some? && specs[n].value != file && specs[n].value !in deps then deps + [specs[n].value] else deps
  }

  // Both files are among the specs, and x is met first.
  ghost predicate FoundBefore(specs: seq<Option<Node>>, x: Node, y: Node) {
    exists i :: 0 <= i < |specs| && specs[i] == Some(x) && Some(y) !in specs[..i + 1] && Some(y) in specs
  }

  lemma {:induction false} DepsInOrder(file: Node, specs: seq<Option<Node>>, i: nat, j: nat)
    requires i < j < |Deps(file, specs)|
    ensures FoundBefore(specs, Deps(file, specs)[i], Deps(file, specs)[j])
    decreases |specs|
  {
    var n := |specs| - 1;
    var deps, before := Deps(file, specs), Deps(file, specs[..n]);
    assert specs == specs[..n] + [specs[n]];
    if j < |before| {
      DepsInOrder(file, specs[..n], i, j);
      var k :| 0 <= k < n && specs[k] == Some(deps[i]) && Some(deps[j]) !in specs[..n][..k + 1];
      assert specs[..n][..k + 1] == specs[..k + 1];
    } else {
      assert deps[i] in before;
      var k :| 0 <= k < n && specs[k] == Some(deps[i]);
      assert deps[j] !in before && deps[j] == specs[n].value && specs[n].value != file;
      assert forall m :: 0 <= m < k + 1 ==> specs[..k + 1][m] == specs[..n][m];
    }
  }

  // The graph maps each scanned file to the other files its from-imports or its bare imports name, each
  // once, in the order of their first match; all from-imports are matched before any bare import.
  ghost predicate IsScan(found: map<Node, Matches>, graph: Graph) {
    && graph.Keys == found.Keys
    && (forall f, y :: f in found ==>
          (y in graph[f] <==> y != f && (Some(y) in found[f].from || Some(y) in found[f].bare)))
    && (forall f, i, j :: f in found && 0 <= i < j < |graph[f]| ==>
          graph[f][i] != graph[f][j] && FoundBefore(found[f].from + found[f].bare, graph[f][i], graph[f][j]))
  }

  ghost function AllMatches(found: map<Node, Matches>): Imports {
    map f | f in found :: found[f].from + found[f].bare
  }

  // The graph the lint builds.
  ghost function Built(imports: Imports): Graph {
    map f | f in imports :: Deps(f, imports[f])
  }

  // The graph of all imports between scanned files, imports of the file itself included.
  ghost function Unfiltered(imports: Imports): Graph {
    map f | f in imports :: Resolved(imports[f])
  }

  lemma OneSpecMore(file: Node, specs: seq<Option<Node>>, resolved: Option<Node>)
    ensures var deps := Deps(file, specs);
            Deps(file, specs + [resolved]) ==
              if resolved.Some? && resolved.value != file && resolved.value !in deps then deps + [resolved.value]
              else deps
  {
    assert (specs + [resolved])[..|specs|] == specs;
  }

  // One of the two matching loops.
  method AddDeps(file: Node, specs: seq<Option<Node>>, deps0: seq<Node>, ghost before: seq<Option<Node>>)
    returns (deps: seq<Node>)
    requires deps0 == Deps(file, before)
    ensures deps == Deps(file, before + specs)
  {
    hide Deps;
    deps := deps0;
    assert before + specs[..0] == before;
    for i := 0 to |specs|
      invariant deps == Deps(file, before + specs[..i])
    {
      assert before + specs[..i + 1] == before + specs[..i] + [specs[i]];
      OneSpecMore(file, before + specs[..i], specs[i]);
      var resolved := specs[i];
      if resolved.Some? && resolved.value != file && resolved.value !in deps {
        deps := deps + [resolved.value];
      }
    }
    assert specs[..|specs|] == specs;
  }

  // `files` is what the directory walk yields; it reads all of them.
  method Build(files: seq<Node>, found: map<Node, Matches>) returns (graph: Graph)
    requires forall f :: f in files <==> f in found
    ensures graph == Built(AllMatches(found))
    ensures IsScan(found, graph)
  {
    hide IsScan;
    graph := map[];
    ghost var imports := AllMatches(found);
    for i := 0 to |files|
      invariant graph.Keys == set f | f in files[..i]
      invariant forall f :: f in graph ==> f in found && graph[f] == Built(imports)[f]
    {
      hide Deps;
      var file := files[i];
      assert files[..i + 1] == files[..i] + [file] && file in files;
      var deps := AddDeps(file, found[file].from, [], []);
      assert [] + found[file].from == found[file].from;
      deps := AddDeps(file, found[file].bare, deps, found[file].from);
      graph := graph[file := deps];
    }
    assert files[..|files|] == files;
    BuiltMeans(found);
  }

  lemma BuiltMeans(found: map<Node, Matches>)
    ensures IsScan(found, Built(AllMatches(found)))
  {
    var graph := Built(AllMatches(found));
    forall f, i, j | f in found && 0 <= i < j < |graph[f]|
      ensures graph[f][i] != graph[f][j] && FoundBefore(found[f].from + found[f].bare, graph[f][i], graph[f][j])
    {
      DepsInOrder(f, found[f].from + found[f].bare, i, j);
    }
  }

  lemma EdgeUnlessSelf(imports: Imports, x: Node, y: Node)
    ensures Edge(Built(imports), x, y) <==> Edge(Unfiltered(imports), x, y) && x != y
  {
  }

  // Imports of the file itself lead nowhere new.
  lemma ReachesAlike(imports: Imports, x: Node, y: Node)
    ensures Reaches(Built(imports), x, y) <==> Reaches(Unfiltered(imports), x, y)
  {
    if p :| WalkFromTo(Unfiltered(imports), p, x, y) {
      WalkWithoutLoops(imports, p, |p| - 1);
    }
    if p :| WalkFromTo(Built(imports), p, x, y) {
      forall i, j | 0 <= i && j == i + 1 && j < |p| ensures Edge(Unfiltered(imports), p[i], p[j]) {
        EdgeUnlessSelf(imports, p[i], p[j]);
      }
      assert WalkFromTo(Unfiltered(imports), p, x, y);
    }
  }

  lemma {:induction false} WalkWithoutLoops(imports: Imports, p: seq<Node>, i: nat)
    requires IsWalk(Unfiltered(imports), p) && i < |p|
    ensures Reaches(Built(imports), p[0], p[i])
  {
    if i == 0 {
      ReachesSelf(Built(imports), p[0]);
    } else {
      WalkWithoutLoops(imports, p, i - 1);
      assert Edge(Unfiltered(imports), p[i - 1], p[i]);
      if p[i - 1] != p[i] {
        EdgeUnlessSelf(imports, p[i - 1], p[i]);
        ReachesEdge(Built(imports), p[i - 1], p[i]);
        ReachesTrans(Built(imports), p[0], p[i - 1], p[i]);
      }
    }
  }

  // The second half of the lint's count is always empty.
  lemma NoSelfImportersFound(imports: Imports, keys: seq<Node>)
    ensures SelfImporters(Built(imports), keys) == []
  {
    hide SelfImporters, Built;
    var found := SelfImporters(Built(imports), keys);
    SomeElement(found);
    if x :| x in found {
      EdgeUnlessSelf(imports, x, x);
      assert false;
    }
  }

  // A file, whether it imports itself or not, counts exactly if it is on a cycle with another file.
  lemma CountsIffWithOther(imports: Imports, sccs: seq<seq<Node>>, k: nat, x: Node)
    requires IsDecomposition(Built(imports), sccs) && k < |sccs| && x in sccs[k]
    ensures |sccs[k]| > 1 <==> exists y :: y != x && Mutual(Unfiltered(imports), x, y)
  {
    var g := Built(imports);
    forall y ensures Mutual(g, x, y) <==> Mutual(Unfiltered(imports), x, y) {
      ReachesAlike(imports, x, y);
      ReachesAlike(imports, y, x);
    }
    if |sccs[k]| > 1 {
      assert sccs[k][0] != sccs[k][1];
      var y := if sccs[k][0] == x then sccs[k][1] else sccs[k][0];
      assert y in sccs[k] && Mutual(g, x, y);
    }
    if y :| y != x && Mutual(Unfiltered(imports), x, y) {
      var i, j :| 0 <= i < |sccs[k]| && 0 <= j < |sccs[k]| && sccs[k][i] == x && sccs[k][j] == y;
      assert i != j;
    }
  }

  // g has the scanned files as its nodes and their from-imports and bare imports as its edges, those of
  // the file itself included.
  ghost predicate IsImportGraph(g: Graph, found: map<Node, Matches>) {
    && g.Keys == found.Keys
    && (forall x, y :: x in found && y in found ==>
          (y in g[x] <==> Some(y) in found[x].from || Some(y) in found[x].bare))
  }

  lemma AllScanned(found: map<Node, Matches>, graph: Graph)
    requires IsScan(found, graph)
    ensures graph.Keys == found.Keys
  {
  }

  lemma SameReach(g: Graph, h: Graph, x: Node, y: Node)
    requires g.Keys == h.Keys && forall a, b :: Edge(g, a, b) <==> Edge(h, a, b)
    ensures Reaches(g, x, y) <==> Reaches(h, x, y)
  {
    if p :| WalkFromTo(g, p, x, y) {
      assert WalkFromTo(h, p, x, y);
    }
    if p :| WalkFromTo(h, p, x, y) {
      assert WalkFromTo(g, p, x, y);
    }
  }

  // From the matches to the count: only cycles through different files are issues.
  method Lint(files: seq<Node>, found: map<Node, Matches>, ghost g: Graph) returns (totalIssues: nat)
    requires (forall f :: f in files <==> f in found) && IsImportGraph(g, found)
    ensures totalIssues == 0 <==> forall x, y :: Mutual(g, x, y) ==> x == y
  {
    hide IsDecomposition, Mutual, IsScan, Built, Unfiltered, IsImportGraph;
    var graph := Build(files, found);
    AllScanned(found, graph);
    var tarjan := new Tarjan(graph);
    tarjan.Run(files);
    var cycles, selfLoops, total := tarjan.CountIssues(files);
    totalIssues := total;
    var imports := AllMatches(found);
    NoSelfImportersFound(imports, files);
    NoIssueIffApart(imports, tarjan.sccs);
    SameMutual(g, found);
  }

  lemma SameMutual(g: Graph, found: map<Node, Matches>)
    requires IsImportGraph(g, found)
    ensures forall x, y :: Mutual(g, x, y) <==> Mutual(Unfiltered(AllMatches(found)), x, y)
  {
    var h := Unfiltered(AllMatches(found));
    forall x, y ensures Mutual(g, x, y) <==> Mutual(h, x, y) {
      SameReach(g, h, x, y);
      SameReach(g, h, y, x);
    }
  }

  lemma NoIssueIffApart(imports: Imports, sccs: seq<seq<Node>>)
    requires IsDecomposition(Built(imports), sccs)
    ensures Nontrivial(sccs) == [] <==> forall x, y :: Mutual(Unfiltered(imports), x, y) ==> x == y
  {
    forall x, y | Mutual(Unfiltered(imports), x, y) && x != y ensures Nontrivial(sccs) != [] {
      var p :| WalkFromTo(Unfiltered(imports), p, x, y);
      assert x in Built(imports) && TarjanState.InSomeScc(sccs, x);
      var k :| 0 <= k < |sccs| && x in sccs[k];
      CountsIffWithOther(imports, sccs, k, x);
      assert sccs[k] in Nontrivial(sccs);
    }
    if Nontrivial(sccs) != [] {
      var c := Nontrivial(sccs)[0];
      assert c in Nontrivial(sccs);
      var k :| 0 <= k < |sccs| && sccs[k] == c;
      CountsIffWithOther(imports, sccs, k, c[0]);
    }
  }

  // The header says that a file importing itself fails. A file that imports nothing else does not.
  lemma SelfImportPasses(file: Node)
    ensures var imports := map[file := [Some(file)]];
            SelfImporters(Unfiltered(imports), [file]) == [file] && Acyclic(Built(imports))
  {
    var imports := map[file := [Some(file)]];
    assert Edge(Unfiltered(imports), file, file);
    assert [file][..0] == [] && SelfImporters(Unfiltered(imports), []) == [];
    forall c ensures !IsClosedWalk(Built(imports), c) {
      if IsClosedWalk(Built(imports), c) {
        assert Edge(Built(imports), c[0], c[1]);
        EdgeUnlessSelf(imports, c[0], c[1]);
      }
    }
  }
}
