/** The specification of `build_dependency_graph`: the graph that
    `build_dependency_graph` produces for a parsed history, written as a fold
    over the commits and, inside each commit, over its changed files; and the
    properties of that fold. */
module Assembly {
  import opened Wrappers
  import opened History
  import opened Diff
  import opened Labels
  import opened Graph

  /** `get_file_changes` for one commit: the changed files, or none when the
      git call failed. */
  function ChangedFiles(changesOf: string -> Option<seq<string>>, hash: string): seq<string>
  {
    changesOf(hash).GetOr([])
  }

  /** `get_detailed_diff` for one file of one commit: the diff lines, or none
      when the git call failed. */
  function DiffLines(diffOf: (string, string) -> Option<seq<string>>, hash: string, file: string): seq<string>
  {
    diffOf(hash, file).GetOr([])
  }

  /** The entry written for a commit node. */
  function CommitEntry(c: Commit): NodeEntry
  {
    NodeEntry(CommitLabel(c), Box)
  }

  /** The entry written for the node of a file changed by commit `c`. */
  function FileEntry(c: Commit, file: string, diffOf: (string, string) -> Option<seq<string>>): NodeEntry
  {
    var diff := DiffLines(diffOf, c.hash, file);
    NodeEntry(FileLabel(file, Additions(diff), Deletions(diff)), Ellipse)
  }

  /** One pass of the inner loop: the commit node, the file node, then the
      edge between them. */
  function Register(g: GraphState, c: Commit, file: string, diffOf: (string, string) -> Option<seq<string>>): GraphState
  {
    GraphState(g.nodes[c.hash := CommitEntry(c)][file := FileEntry(c, file, diffOf)], g.edges + [(c.hash, file)])
  }

  /** The inner loop over the files changed by one commit, in order. */
  function AddCommit(g: GraphState, c: Commit, files: seq<string>, diffOf: (string, string) -> Option<seq<string>>): GraphState
    decreases |files|
  {
    if files == [] then g
    else Register(AddCommit(g, c, files[..|files| - 1], diffOf), c, files[|files| - 1], diffOf)
  }

  /** The outer loop over the commits, in history order, from graph `g`. */
  function AssembleFrom(g: GraphState, cs: seq<Commit>, changesOf: string -> Option<seq<string>>,
                        diffOf: (string, string) -> Option<seq<string>>): GraphState
    decreases |cs|
  {
    if cs == [] then g
    else
      var c := cs[|cs| - 1];
      AddCommit(AssembleFrom(g, cs[..|cs| - 1], changesOf, diffOf), c, ChangedFiles(changesOf, c.hash), diffOf)
  }

  /** The graph built for a parsed history. */
  function Assemble(cs: seq<Commit>, changesOf: string -> Option<seq<string>>,
                    diffOf: (string, string) -> Option<seq<string>>): GraphState
  {
    AssembleFrom(EmptyGraph, cs, changesOf, diffOf)
  }

  /** One more commit at the end of the history: its inner loop runs on the
      graph built so far. */
  lemma AssembleStep(cs: seq<Commit>, c: Commit, changesOf: string -> Option<seq<string>>,
                     diffOf: (string, string) -> Option<seq<string>>)
    ensures Assemble(cs + [c], changesOf, diffOf) ==
      AddCommit(Assemble(cs, changesOf, diffOf), c, ChangedFiles(changesOf, c.hash), diffOf)
  {
    assert (cs + [c])[..|cs|] == cs;
  }

  // Reference definitions, independent of the order of node writes.

  /** One edge from commit `c` to each of `files`, in order. */
  function EdgesOf(c: Commit, files: seq<string>): seq<Edge>
  {
    seq(|files|, i requires 0 <= i < |files| => (c.hash, files[i]))
  }

  /** The edges of every commit, in history order. */
  function ExpectedEdges(cs: seq<Commit>, changesOf: string -> Option<seq<string>>): seq<Edge>
    decreases |cs|
  {
    if cs == [] then []
    else
      var c := cs[|cs| - 1];
      ExpectedEdges(cs[..|cs| - 1], changesOf) + EdgesOf(c, ChangedFiles(changesOf, c.hash))
  }

  /** The number of changed files summed over the history. */
  function TotalChanges(cs: seq<Commit>, changesOf: string -> Option<seq<string>>): nat
    decreases |cs|
  {
    if cs == [] then 0
    else TotalChanges(cs[..|cs| - 1], changesOf) + |ChangedFiles(changesOf, cs[|cs| - 1].hash)|
  }

  /** The hashes of the commits whose change lists are non-empty. */
  function CommitKeys(cs: seq<Commit>, changesOf: string -> Option<seq<string>>): set<string>
    decreases |cs|
  {
    if cs == [] then {}
    else
      var c := cs[|cs| - 1];
      CommitKeys(cs[..|cs| - 1], changesOf) + if ChangedFiles(changesOf, c.hash) == [] then {} else {c.hash}
  }

  /** Every file in some change list. */
  function FileKeys(cs: seq<Commit>, changesOf: string -> Option<seq<string>>): set<string>
    decreases |cs|
  {
    if cs == [] then {}
    else
      var c := cs[|cs| - 1];
      FileKeys(cs[..|cs| - 1], changesOf) + set f | f in ChangedFiles(changesOf, c.hash)
  }

  // The inner loop.

  /** What the inner loop does for one commit: it appends one edge per file,
      in order; it registers the commit key (when there is a file) and every
      file key; the commit node carries the commit's entry, every file node
      the entry computed for that file; every other key keeps its entry. */
  lemma AddCommitEffect(g: GraphState, c: Commit, files: seq<string>,
                        diffOf: (string, string) -> Option<seq<string>>)
    ensures AddCommit(g, c, files, diffOf).edges == g.edges + EdgesOf(c, files)
    ensures AddCommit(g, c, files, diffOf).nodes.Keys ==
      g.nodes.Keys + (if files == [] then {} else {c.hash}) + (set f | f in files)
    ensures forall k :: k in g.nodes && k != c.hash && k !in files ==>
      AddCommit(g, c, files, diffOf).nodes[k] == g.nodes[k]
    ensures files != [] && c.hash !in files ==> AddCommit(g, c, files, diffOf).nodes[c.hash] == CommitEntry(c)
    ensures forall f :: f in files && f != c.hash ==> AddCommit(g, c, files, diffOf).nodes[f] == FileEntry(c, f, diffOf)
  {
    AddCommitEdges(g, c, files, diffOf);
    AddCommitKeys(g, c, files, diffOf);
    AddCommitEntries(g, c, files, diffOf);
  }

  lemma {:induction false} AddCommitEdges(g: GraphState, c: Commit, files: seq<string>,
                                          diffOf: (string, string) -> Option<seq<string>>)
    ensures AddCommit(g, c, files, diffOf).edges == g.edges + EdgesOf(c, files)
    decreases |files|
  {
    if files != [] {
      var n := |files| - 1;
      AddCommitEdges(g, c, files[..n], diffOf);
      assert EdgesOf(c, files) == EdgesOf(c, files[..n]) + [(c.hash, files[n])];
    }
  }

  lemma {:induction false} AddCommitKeys(g: GraphState, c: Commit, files: seq<string>,
                                         diffOf: (string, string) -> Option<seq<string>>)
    ensures AddCommit(g, c, files, diffOf).nodes.Keys ==
      g.nodes.Keys + (if files == [] then {} else {c.hash}) + (set f | f in files)
    decreases |files|
  {
    if files != [] {
      var n := |files| - 1;
      var prefix, last := files[..n], files[n];
      AddCommitKeys(g, c, prefix, diffOf);
      assert files == prefix + [last];
      assert (set f | f in files) == (set f | f in prefix) + {last};
    }
  }

  lemma {:induction false} AddCommitEntries(g: GraphState, c: Commit, files: seq<string>,
                                            diffOf: (string, string) -> Option<seq<string>>)
    ensures forall k :: k in g.nodes && k != c.hash && k !in files ==>
      k in AddCommit(g, c, files, diffOf).nodes && AddCommit(g, c, files, diffOf).nodes[k] == g.nodes[k]
    ensures files != [] && c.hash !in files ==>
      c.hash in AddCommit(g, c, files, diffOf).nodes && AddCommit(g, c, files, diffOf).nodes[c.hash] == CommitEntry(c)
    ensures forall f :: f in files && f != c.hash ==>
      f in AddCommit(g, c, files, diffOf).nodes && AddCommit(g, c, files, diffOf).nodes[f] == FileEntry(c, f, diffOf)
    decreases |files|
  {
    if files != [] {
      var n := |files| - 1;
      var prefix, last := files[..n], files[n];
      AddCommitEntries(g, c, prefix, diffOf);
      assert files == prefix + [last];
      var before := AddCommit(g, c, prefix, diffOf);
      assert AddCommit(g, c, files, diffOf).nodes ==
        before.nodes[c.hash := CommitEntry(c)][last := FileEntry(c, last, diffOf)];
    }
  }

  // The outer loop.

  /** Processing a history in two parts is processing the first part and
      then continuing from its graph with the second. */
  lemma {:induction false} AssembleAppend(g: GraphState, cs1: seq<Commit>, cs2: seq<Commit>,
                                          changesOf: string -> Option<seq<string>>,
                                          diffOf: (string, string) -> Option<seq<string>>)
    ensures AssembleFrom(g, cs1 + cs2, changesOf, diffOf) ==
      AssembleFrom(AssembleFrom(g, cs1, changesOf, diffOf), cs2, changesOf, diffOf)
    decreases |cs2|
  {
    if cs2 == [] {
      assert cs1 + cs2 == cs1;
    } else {
      var n := |cs2| - 1;
      AssembleAppend(g, cs1, cs2[..n], changesOf, diffOf);
      assert (cs1 + cs2)[..|cs1 + cs2| - 1] == cs1 + cs2[..n];
      assert (cs1 + cs2)[|cs1 + cs2| - 1] == cs2[n];
    }
  }

  /** A commit whose change lookup failed or came back empty adds no node
      and no edge, and the commits after it are processed as if it were
      not there. */
  lemma SkippedCommit(g: GraphState, cs1: seq<Commit>, c: Commit, cs2: seq<Commit>,
                      changesOf: string -> Option<seq<string>>,
                      diffOf: (string, string) -> Option<seq<string>>)
    requires ChangedFiles(changesOf, c.hash) == []
    ensures AssembleFrom(g, cs1 + [c] + cs2, changesOf, diffOf) == AssembleFrom(g, cs1 + cs2, changesOf, diffOf)
  {
    AssembleAppend(g, cs1 + [c], cs2, changesOf, diffOf);
    AssembleAppend(g, cs1, cs2, changesOf, diffOf);
    assert (cs1 + [c])[..|cs1|] == cs1;
  }

  /** The edges are appended, never changed: the final edge list is the
      starting one followed by each commit's edges, in history order then
      change-list order. */
  lemma {:induction false} AssembleEdges(g: GraphState, cs: seq<Commit>, changesOf: string -> Option<seq<string>>,
                                         diffOf: (string, string) -> Option<seq<string>>)
    ensures AssembleFrom(g, cs, changesOf, diffOf).edges == g.edges + ExpectedEdges(cs, changesOf)
    decreases |cs|
  {
    if cs != [] {
      var n := |cs| - 1;
      AssembleEdges(g, cs[..n], changesOf, diffOf);
      AddCommitEffect(AssembleFrom(g, cs[..n], changesOf, diffOf), cs[n], ChangedFiles(changesOf, cs[n].hash), diffOf);
    }
  }

  /** The node keys are the starting keys, the hashes of the commits with a
      non-empty change list and the changed files. */
  lemma {:induction false} AssembleKeys(g: GraphState, cs: seq<Commit>, changesOf: string -> Option<seq<string>>,
                                        diffOf: (string, string) -> Option<seq<string>>)
    ensures AssembleFrom(g, cs, changesOf, diffOf).nodes.Keys ==
      g.nodes.Keys + CommitKeys(cs, changesOf) + FileKeys(cs, changesOf)
    decreases |cs|
  {
    if cs != [] {
      var n := |cs| - 1;
      AssembleKeys(g, cs[..n], changesOf, diffOf);
      AddCommitEffect(AssembleFrom(g, cs[..n], changesOf, diffOf), cs[n], ChangedFiles(changesOf, cs[n].hash), diffOf);
    }
  }

  /** A key that no commit writes keeps its entry. */
  lemma {:induction false} AssembleUntouched(g: GraphState, cs: seq<Commit>, changesOf: string -> Option<seq<string>>,
                                             diffOf: (string, string) -> Option<seq<string>>, k: string)
    requires k in g.nodes && k !in CommitKeys(cs, changesOf) && k !in FileKeys(cs, changesOf)
    ensures k in AssembleFrom(g, cs, changesOf, diffOf).nodes
    ensures AssembleFrom(g, cs, changesOf, diffOf).nodes[k] == g.nodes[k]
    decreases |cs|
  {
    if cs != [] {
      var n := |cs| - 1;
      AssembleUntouched(g, cs[..n], changesOf, diffOf, k);
      AddCommitEffect(AssembleFrom(g, cs[..n], changesOf, diffOf), cs[n], ChangedFiles(changesOf, cs[n].hash), diffOf);
    }
  }

  /** Last write wins for files: a file node that is not also a commit key
      carries the entry computed for the last commit, in history order, whose
      change list contains the file. */
  lemma {:induction false} FileNodeLastWrite(g: GraphState, cs: seq<Commit>, changesOf: string -> Option<seq<string>>,
                                             diffOf: (string, string) -> Option<seq<string>>, i: nat, f: string)
    requires i < |cs| && f in ChangedFiles(changesOf, cs[i].hash)
    requires forall j :: i < j < |cs| ==> f !in ChangedFiles(changesOf, cs[j].hash)
    requires f !in CommitKeys(cs, changesOf)
    ensures f in AssembleFrom(g, cs, changesOf, diffOf).nodes
    ensures AssembleFrom(g, cs, changesOf, diffOf).nodes[f] == FileEntry(cs[i], f, diffOf)
    decreases |cs|
  {
    var n := |cs| - 1;
    var prefix, c := cs[..n], cs[n];
    var files := ChangedFiles(changesOf, c.hash);
    var before := AssembleFrom(g, prefix, changesOf, diffOf);
    assert f != c.hash || files == [];
    if i < n {
      assert forall j :: i < j < n ==> prefix[j] == cs[j];
      FileNodeLastWrite(g, prefix, changesOf, diffOf, i, f);
      assert f !in files;
      AddCommitEntries(before, c, files, diffOf);
    } else {
      AddCommitEntries(before, c, files, diffOf);
    }
  }

  /** Last write wins for commits: the node of a commit hash that is not also
      a changed file carries the entry of the last commit with that hash and
      a non-empty change list. */
  lemma {:induction false} CommitNodeLastWrite(g: GraphState, cs: seq<Commit>, changesOf: string -> Option<seq<string>>,
                                               diffOf: (string, string) -> Option<seq<string>>, i: nat)
    requires i < |cs| && ChangedFiles(changesOf, cs[i].hash) != []
    requires forall j :: i < j < |cs| && cs[j].hash == cs[i].hash ==> ChangedFiles(changesOf, cs[j].hash) == []
    requires cs[i].hash !in FileKeys(cs, changesOf)
    ensures cs[i].hash in AssembleFrom(g, cs, changesOf, diffOf).nodes
    ensures AssembleFrom(g, cs, changesOf, diffOf).nodes[cs[i].hash] == CommitEntry(cs[i])
    decreases |cs|
  {
    var n := |cs| - 1;
    var prefix, c := cs[..n], cs[n];
    var files := ChangedFiles(changesOf, c.hash);
    var h := cs[i].hash;
    assert h !in files && h !in FileKeys(prefix, changesOf);
    AddCommitEffect(AssembleFrom(g, prefix, changesOf, diffOf), c, files, diffOf);
    if i < n {
      assert forall j :: i < j < n ==> prefix[j] == cs[j];
      CommitNodeLastWrite(g, prefix, changesOf, diffOf, i);
      assert files != [] ==> c.hash != h;
    }
  }

  /** A key written only as a commit key ends up a box, and a key written
      only as a file key ends up an ellipse. */
  lemma {:induction false} NodeShapes(g: GraphState, cs: seq<Commit>, changesOf: string -> Option<seq<string>>,
                                      diffOf: (string, string) -> Option<seq<string>>, k: string)
    ensures k in CommitKeys(cs, changesOf) && k !in FileKeys(cs, changesOf) ==>
      k in AssembleFrom(g, cs, changesOf, diffOf).nodes && AssembleFrom(g, cs, changesOf, diffOf).nodes[k].shape == Box
    ensures k in FileKeys(cs, changesOf) && k !in CommitKeys(cs, changesOf) ==>
      k in AssembleFrom(g, cs, changesOf, diffOf).nodes && AssembleFrom(g, cs, changesOf, diffOf).nodes[k].shape == Ellipse
    decreases |cs|
  {
    if cs != [] {
      var n := |cs| - 1;
      var prefix, c := cs[..n], cs[n];
      var files := ChangedFiles(changesOf, c.hash);
      NodeShapes(g, prefix, changesOf, diffOf, k);
      AddCommitEntries(AssembleFrom(g, prefix, changesOf, diffOf), c, files, diffOf);
    }
  }

  // The reference definitions.

  /** An edge is produced exactly for a commit of the history and a file of
      that commit's change list. */
  lemma {:induction false} ExpectedEdgesMembership(cs: seq<Commit>, changesOf: string -> Option<seq<string>>, e: Edge)
    ensures e in ExpectedEdges(cs, changesOf) <==>
      exists i :: 0 <= i < |cs| && e.0 == cs[i].hash && e.1 in ChangedFiles(changesOf, cs[i].hash)
    decreases |cs|
  {
    if cs != [] {
      var n := |cs| - 1;
      var prefix, c := cs[..n], cs[n];
      ExpectedEdgesMembership(prefix, changesOf, e);
      var files := ChangedFiles(changesOf, c.hash);
      if e in EdgesOf(c, files) {
        var k :| 0 <= k < |files| && EdgesOf(c, files)[k] == e;
        assert e.1 == files[k];
      }
      if exists i :: 0 <= i < |cs| && e.0 == cs[i].hash && e.1 in ChangedFiles(changesOf, cs[i].hash) {
        var i :| 0 <= i < |cs| && e.0 == cs[i].hash && e.1 in ChangedFiles(changesOf, cs[i].hash);
        if i == n {
          var k :| 0 <= k < |files| && files[k] == e.1;
          assert EdgesOf(c, files)[k] == e;
        } else {
          assert prefix[i] == cs[i];
        }
      }
    }
  }

  /** There is one edge per entry of every change list. */
  lemma {:induction false} ExpectedEdgesCount(cs: seq<Commit>, changesOf: string -> Option<seq<string>>)
    ensures |ExpectedEdges(cs, changesOf)| == TotalChanges(cs, changesOf)
    decreases |cs|
  {
    if cs != [] {
      ExpectedEdgesCount(cs[..|cs| - 1], changesOf);
    }
  }

  /** A commit key comes from a commit of the history whose change list is
      non-empty, and every such commit gives one. */
  lemma {:induction false} CommitKeysMembership(cs: seq<Commit>, changesOf: string -> Option<seq<string>>, h: string)
    ensures h in CommitKeys(cs, changesOf) <==>
      exists i :: 0 <= i < |cs| && cs[i].hash == h && ChangedFiles(changesOf, cs[i].hash) != []
    decreases |cs|
  {
    if cs != [] {
      var n := |cs| - 1;
      CommitKeysMembership(cs[..n], changesOf, h);
      if exists i :: 0 <= i < |cs| && cs[i].hash == h && ChangedFiles(changesOf, cs[i].hash) != [] {
        var i :| 0 <= i < |cs| && cs[i].hash == h && ChangedFiles(changesOf, cs[i].hash) != [];
        if i < n {
          assert cs[..n][i] == cs[i];
        }
      }
    }
  }

  /** A file key is a file of some commit's change list, and every such file
      is one. */
  lemma {:induction false} FileKeysMembership(cs: seq<Commit>, changesOf: string -> Option<seq<string>>, f: string)
    ensures f in FileKeys(cs, changesOf) <==>
      exists i :: 0 <= i < |cs| && f in ChangedFiles(changesOf, cs[i].hash)
    decreases |cs|
  {
    if cs != [] {
      var n := |cs| - 1;
      FileKeysMembership(cs[..n], changesOf, f);
      if exists i :: 0 <= i < |cs| && f in ChangedFiles(changesOf, cs[i].hash) {
        var i :| 0 <= i < |cs| && f in ChangedFiles(changesOf, cs[i].hash);
        if i < n {
          assert cs[..n][i] == cs[i];
        }
      }
    }
  }
}
