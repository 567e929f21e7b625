/** `build_dependency_graph`: the history is unpacked commit by commit, and
    for each changed file of each commit the commit node, the file node and
    the edge between them are written to a graph object. */
module Visualizer {
  import opened Wrappers
  import opened History
  import opened Diff
  import opened Labels
  import opened Graph
  import opened Assembly

  /** Builds the graph for a history (`None`: the `git log` call failed),
      with `changesOf` standing for `git show --name-only` of a commit and
      `diffOf` for `git diff <hash>^!` of one file (`None`: that call
      failed). A record without exactly three fields raises the unpacking
      error, and no graph is returned. */
  method BuildDependencyGraph(history: Option<seq<string>>, changesOf: string -> Option<seq<string>>,
                              diffOf: (string, string) -> Option<seq<string>>)
    returns (r: Result<Digraph, UnpackError>)
    ensures ParseCommits(GetCommitHistory(history)).Failure? ==>
      r == Failure(ParseCommits(GetCommitHistory(history)).error)
    ensures ParseCommits(GetCommitHistory(history)).Success? ==>
      r.Success? && fresh(r.value) &&
      r.value.State() == Assemble(ParseCommits(GetCommitHistory(history)).value, changesOf, diffOf)
    ensures GetCommitHistory(history) == [] ==> r.Success? && r.value.nodes == map[] && r.value.edges == []
    ensures r.Success? ==> forall e :: e in r.value.edges ==> e.0 in r.value.nodes && e.1 in r.value.nodes
  {
    var commits := GetCommitHistory(history);
    var graph := new Digraph();
    if commits == [] {
      return Success(graph);
    }
    ghost var done: seq<Commit> := [];
    var k := 0;
    while k < |commits|
      invariant 0 <= k <= |commits|
      invariant ParseCommits(commits[..k]) == Success(done)
      invariant fresh(graph)
      invariant graph.State() == Assemble(done, changesOf, diffOf)
    {
      ParseCommitsStep(commits, k, done);
      var c: Commit;
      match Unpack(commits[k]) {
        case Failure(e) =>
          return Failure(e);
        case Success(commit) =>
          c := commit;
      }
      var changes := ChangedFiles(changesOf, c.hash);
      AddChanges(graph, c, changes, diffOf);
      AssembleStep(done, c, changesOf, diffOf);
      done := done + [c];
      k := k + 1;
    }
    assert commits[..k] == commits;
    NoOrphanEdges(done, changesOf, diffOf);
    return Success(graph);
  }

  /** The inner loop of `build_dependency_graph` for one commit: for each
      changed file, in order, the commit node, the file node labelled with
      the file's classified diff, and the edge. */
  method AddChanges(graph: Digraph, c: Commit, changes: seq<string>, diffOf: (string, string) -> Option<seq<string>>)
    modifies graph
    ensures graph.State() == AddCommit(old(graph.State()), c, changes, diffOf)
  {
    ghost var before := graph.State();
    for j := 0 to |changes|
      invariant graph.State() == AddCommit(before, c, changes[..j], diffOf)
    {
      var file := changes[j];
      var diff := DiffLines(diffOf, c.hash, file);
      graph.AddNode(c.hash, CommitLabel(c), Box);
      var additions, deletions := ClassifyDiff(diff);
      graph.AddNode(file, FileLabel(file, additions, deletions), Ellipse);
      graph.AddEdge(c.hash, file);
      assert changes[..j + 1][..j] == changes[..j];
    }
    assert changes[..|changes|] == changes;
  }

  /** Every edge joins a commit node to a file node: its tail is the hash of
      a commit with a non-empty change list and its head a changed file, and
      both are node keys. */
  lemma NoOrphanEdges(cs: seq<Commit>, changesOf: string -> Option<seq<string>>,
                      diffOf: (string, string) -> Option<seq<string>>)
    ensures forall e :: e in Assemble(cs, changesOf, diffOf).edges ==>
      e.0 in CommitKeys(cs, changesOf) && e.1 in FileKeys(cs, changesOf) &&
      e.0 in Assemble(cs, changesOf, diffOf).nodes && e.1 in Assemble(cs, changesOf, diffOf).nodes
  {
    AssembleEdges(EmptyGraph, cs, changesOf, diffOf);
    AssembleKeys(EmptyGraph, cs, changesOf, diffOf);
    forall e | e in Assemble(cs, changesOf, diffOf).edges
      ensures e.0 in CommitKeys(cs, changesOf) && e.1 in FileKeys(cs, changesOf)
    {
      ExpectedEdgesMembership(cs, changesOf, e);
      var i :| 0 <= i < |cs| && e.0 == cs[i].hash && e.1 in ChangedFiles(changesOf, cs[i].hash);
      CommitKeysMembership(cs, changesOf, e.0);
      FileKeysMembership(cs, changesOf, e.1);
    }
  }

  /** Every edge is a commit of the history paired with a file of its change
      list, every such pair is an edge, and there is exactly one edge per
      change-list entry. */
  lemma EdgesFromHistory(cs: seq<Commit>, changesOf: string -> Option<seq<string>>,
                         diffOf: (string, string) -> Option<seq<string>>, e: Edge)
    ensures e in Assemble(cs, changesOf, diffOf).edges <==>
      exists i :: 0 <= i < |cs| && e.0 == cs[i].hash && e.1 in ChangedFiles(changesOf, cs[i].hash)
    ensures |Assemble(cs, changesOf, diffOf).edges| == TotalChanges(cs, changesOf)
  {
    AssembleEdges(EmptyGraph, cs, changesOf, diffOf);
    ExpectedEdgesMembership(cs, changesOf, e);
    ExpectedEdgesCount(cs, changesOf);
  }

  /** The node keys are exactly the hashes of the commits with a non-empty
      change list and the files in those change lists. */
  lemma NodeKeys(cs: seq<Commit>, changesOf: string -> Option<seq<string>>,
                 diffOf: (string, string) -> Option<seq<string>>, k: string)
    ensures k in Assemble(cs, changesOf, diffOf).nodes <==>
      exists i :: 0 <= i < |cs| && ChangedFiles(changesOf, cs[i].hash) != [] &&
                  (k == cs[i].hash || k in ChangedFiles(changesOf, cs[i].hash))
  {
    AssembleKeys(EmptyGraph, cs, changesOf, diffOf);
    CommitKeysMembership(cs, changesOf, k);
    FileKeysMembership(cs, changesOf, k);
    if exists i :: 0 <= i < |cs| && k in ChangedFiles(changesOf, cs[i].hash) {
      var i :| 0 <= i < |cs| && k in ChangedFiles(changesOf, cs[i].hash);
      assert ChangedFiles(changesOf, cs[i].hash) != [];
    }
  }

  /** No node stands alone: every node key is an end of some edge. */
  lemma NoIsolatedNodes(cs: seq<Commit>, changesOf: string -> Option<seq<string>>,
                        diffOf: (string, string) -> Option<seq<string>>, k: string)
    requires k in Assemble(cs, changesOf, diffOf).nodes
    ensures exists e :: e in Assemble(cs, changesOf, diffOf).edges && (e.0 == k || e.1 == k)
  {
    NodeKeys(cs, changesOf, diffOf, k);
    var i :| 0 <= i < |cs| && ChangedFiles(changesOf, cs[i].hash) != [] &&
             (k == cs[i].hash || k in ChangedFiles(changesOf, cs[i].hash));
    var files := ChangedFiles(changesOf, cs[i].hash);
    var f := if k in files then k else files[0];
    EdgesFromHistory(cs, changesOf, diffOf, (cs[i].hash, f));
  }

  /** A commit hash that names no changed file is a node exactly when some
      commit with that hash has a non-empty change list, and that node is a
      box. */
  lemma CommitNodeRegistered(cs: seq<Commit>, changesOf: string -> Option<seq<string>>,
                             diffOf: (string, string) -> Option<seq<string>>, h: string)
    requires forall i :: 0 <= i < |cs| ==> h !in ChangedFiles(changesOf, cs[i].hash)
    ensures h in Assemble(cs, changesOf, diffOf).nodes <==>
      exists i :: 0 <= i < |cs| && cs[i].hash == h && ChangedFiles(changesOf, cs[i].hash) != []
    ensures h in Assemble(cs, changesOf, diffOf).nodes ==> Assemble(cs, changesOf, diffOf).nodes[h].shape == Box
  {
    FileKeysMembership(cs, changesOf, h);
    CommitKeysMembership(cs, changesOf, h);
    AssembleKeys(EmptyGraph, cs, changesOf, diffOf);
    NodeShapes(EmptyGraph, cs, changesOf, diffOf, h);
  }

  /** Two commits touch the same path, the newer one first in history order:
      the path's node shows the older commit's diff, processed last. */
  lemma OverwriteScenario(newer: Commit, older: Commit, path: string, changesOf: string -> Option<seq<string>>,
                          diffOf: (string, string) -> Option<seq<string>>)
    requires path in ChangedFiles(changesOf, newer.hash) && path in ChangedFiles(changesOf, older.hash)
    requires path != newer.hash && path != older.hash
    ensures path in Assemble([newer, older], changesOf, diffOf).nodes
    ensures var diff := DiffLines(diffOf, older.hash, path);
      Assemble([newer, older], changesOf, diffOf).nodes[path] ==
      NodeEntry(FileLabel(path, Additions(diff), Deletions(diff)), Ellipse)
  {
    var cs := [newer, older];
    CommitKeysMembership(cs, changesOf, path);
    FileNodeLastWrite(EmptyGraph, cs, changesOf, diffOf, 1, path);
  }
}
