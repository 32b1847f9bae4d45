/** What scanning the source files finds: for every file read, what its import specifiers resolve to. */
module ResolvedImports {
  import opened ImportGraph
  import opened Results

  // None for packages and unresolved paths. Files that are not keys have not been read.
  type Imports = map<Node, seq<Option<Node>>>

  ghost predicate ImportsFile(imports: Imports, x: Node, y: Node) {
    x in imports && Some(y) in imports[x]
  }

  // The specifiers that resolve, in order.
  function Resolved(specs: seq<Option<Node>>): (files: seq<Node>)
    ensures forall y :: y in files <==> Some(y) in specs
  {
    if specs == [] then [] else
      assert specs == [specs[0]] + specs[1..];
      (if specs[0].Some? then [specs[0].value] else []) + Resolved(specs[1..])
  }

  // The graph of all imports, with an entry for every file that is read or imported.
  ghost function FileGraph(imports: Imports): (g: Graph)
    ensures forall x, y :: Edge(g, x, y) <==> ImportsFile(imports, x, y)
  {
    var targets := set x, y | x in imports && y in Resolved(imports[x]) :: y;
    map x | x in imports.Keys + targets :: if x in imports then Resolved(imports[x]) else []
  }
}
