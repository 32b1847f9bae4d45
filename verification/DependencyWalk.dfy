/**
 * scripts/_walk-bc-deps.ts: which files a bounded context's routes and compositions reach through
 * imports, and which of its files are dead.
 *
 * `imports` has an entry for every file that can be read. Reading any other file throws.
 */
module DependencyWalk {
  import opened ImportGraph
  import opened ResolvedImports
  import opened Results
  import opened Sequences

  // The file is a seed, or some chain of imports leads to it from one.
  ghost predicate Reached(imports: Imports, seeds: seq<Node>, file: Node) {
    file in seeds || exists s :: s in seeds && Reaches(FileGraph(imports), s, file)
  }

  ghost predicate ClosedUnderImports(imports: Imports, s: set<Node>) {
    forall x, y :: x in s && ImportsFile(imports, x, y) ==> y in s
  }

  lemma ImportReached(imports: Imports, seeds: seq<Node>, x: Node, y: Node)
    requires Reached(imports, seeds, x) && ImportsFile(imports, x, y)
    ensures Reached(imports, seeds, y)
  {
    var g := FileGraph(imports);
    assert Edge(g, x, y);
    ReachesEdge(g, x, y);
    if x !in seeds {
      var s :| s in seeds && Reaches(g, s, x);
      ReachesTrans(g, s, x, y);
    }
  }

  // Every closed set with the seeds in it holds all that is reached.
  lemma ReachedIsLeast(imports: Imports, seeds: seq<Node>, s: set<Node>, file: Node)
    requires ClosedUnderImports(imports, s) && (forall x :: x in seeds ==> x in s)
    requires Reached(imports, seeds, file)
    ensures file in s
  {
    if file !in seeds {
      var seed :| seed in seeds && Reaches(FileGraph(imports), seed, file);
      ReachesStaysIn(FileGraph(imports), s, seed, file);
    }
  }

  // What the work list still owes: seeds and imports of visited files are visited or queued.
  ghost predicate Pending(imports: Imports, seeds: seq<Node>, visited: set<Node>, queue: seq<Node>) {
    && visited <= imports.Keys
    && (forall x :: x in seeds ==> x in visited || x in queue)
    && (forall x, y :: x in visited && ImportsFile(imports, x, y) ==> y in visited || y in queue)
    && (forall x :: x in visited || x in queue ==> Reached(imports, seeds, x))
  }

  lemma PendingAtStart(imports: Imports, seeds: seq<Node>)
    ensures Pending(imports, seeds, {}, seeds)
  {
  }

  lemma PendingVisit(imports: Imports, seeds: seq<Node>, visited: set<Node>, before: seq<Node>, after: seq<Node>)
    requires Pending(imports, seeds, visited, before) && |before| > 0
    requires before[0] in visited || before[0] in imports
    requires forall x :: x in before[1..] ==> x in after
    requires forall x :: x in after ==> x in before[1..] || ImportsFile(imports, before[0], x)
    requires before[0] !in visited ==>
      forall y :: ImportsFile(imports, before[0], y) ==> y in visited + {before[0]} || y in after
    ensures Pending(imports, seeds, visited + {before[0]}, after)
  {
    hide Reached, ImportsFile;
    assert before == [before[0]] + before[1..];
    forall x | x in after ensures Reached(imports, seeds, x) {
      if x !in before[1..] {
        ImportReached(imports, seeds, before[0], x);
      }
    }
  }

  lemma PendingBounds(imports: Imports, seeds: seq<Node>, visited: set<Node>, queue: seq<Node>)
    requires Pending(imports, seeds, visited, queue)
    ensures visited <= imports.Keys && (|queue| > 0 ==> Reached(imports, seeds, queue[0]))
  {
  }

  lemma PendingAtEnd(imports: Imports, seeds: seq<Node>, visited: set<Node>)
    requires Pending(imports, seeds, visited, [])
    ensures visited <= imports.Keys
    ensures forall x :: x in visited <==> Reached(imports, seeds, x)
  {
    forall x | Reached(imports, seeds, x) ensures x in visited {
      ReachedIsLeast(imports, seeds, visited, x);
    }
  }

  // The files reached from the seeds, or the unreadable file the walk stopped at.
  method Reachable(imports: Imports, seeds: seq<Node>) returns (r: Result<set<Node>, Node>)
    ensures r.Success? ==> forall x :: x in r.value <==> Reached(imports, seeds, x)
    ensures r.Success? ==> r.value <= imports.Keys
    ensures r.Failure? ==> Reached(imports, seeds, r.error) && r.error !in imports
  {
    hide Pending, Reached;
    var visited: set<Node> := {};
    var queue := seeds;
    PendingAtStart(imports, seeds);
    while |queue| > 0
      invariant Pending(imports, seeds, visited, queue)
      decreases imports.Keys - visited, |queue|
    {
      ghost var before := queue;
      PendingBounds(imports, seeds, visited, queue);
      var file := queue[0];
      queue := queue[1..];
      if file in visited {
        PendingVisit(imports, seeds, visited, before, queue);
        assert visited + {file} == visited;
        continue;
      }
      if file !in imports {
        return Failure(file);
      }
      ghost var seen := visited;
      visited := visited + {file};
      queue := Enqueue(imports, file, visited, queue);
      PendingVisit(imports, seeds, seen, before, queue);
    }
    PendingAtEnd(imports, seeds, visited);
    r := Success(visited);
  }

  // The inner loop: queues the resolved imports of a file that are not visited yet.
  method Enqueue(imports: Imports, file: Node, visited: set<Node>, rest: seq<Node>) returns (queue: seq<Node>)
    requires file in imports
    ensures rest <= queue
    ensures forall x :: x in queue[|rest|..] ==> ImportsFile(imports, file, x) && x !in visited
    ensures forall x :: ImportsFile(imports, file, x) ==> x in visited || x in queue[|rest|..]
  {
    queue := rest;
    var specs := imports[file];
    for i := 0 to |specs|
      invariant rest <= queue
      invariant forall x :: x in queue[|rest|..] <==> Some(x) in specs[..i] && x !in visited
    {
      assert specs[..i + 1] == specs[..i] + [specs[i]];
      var target := specs[i];
      if target.Some? && target.value !in visited {
        assert (queue + [target.value])[|rest|..] == queue[|rest|..] + [target.value];
        queue := queue + [target.value];
      }
    }
    assert specs[..|specs|] == specs;
  }

  datatype Report = NoSeeds | Unreadable(file: Node) | Dead(files: seq<Node>)

  // `files` lists the files of the bounded context; isSeed picks its routes and compositions.
  method ReportDead(imports: Imports, files: seq<Node>, isSeed: Node -> bool) returns (report: Report)
    ensures report == NoSeeds <==> forall f :: f in files ==> !isSeed(f)
    ensures report.Dead? ==>
              report.files == Filtered(files, f => !Reached(imports, Filtered(files, isSeed), f))
    ensures report.Unreadable? ==>
              report.file !in imports && Reached(imports, Filtered(files, isSeed), report.file)
  {
    var seeds := [];
    for i := 0 to |files|
      invariant seeds == Filtered(files[..i], isSeed)
    {
      FilteredOneMore(files, isSeed, i);
      if isSeed(files[i]) {
        seeds := seeds + [files[i]];
      }
    }
    assert files[..|files|] == files;
    if |seeds| == 0 {
      return NoSeeds;
    }
    assert seeds[0] in seeds;
    var live := Reachable(imports, seeds);
    if live.Failure? {
      return Unreadable(live.error);
    }
    var dead := [];
    ghost var isDead := f => f !in live.value;
    for i := 0 to |files|
      invariant dead == Filtered(files[..i], isDead)
    {
      FilteredOneMore(files, isDead, i);
      if files[i] !in live.value {
        dead := dead + [files[i]];
      }
    }
    assert files[..|files|] == files;
    FilteredAlike(files, isDead, f => !Reached(imports, seeds, f));
    report := Dead(dead);
  }
}
