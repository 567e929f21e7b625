# Dependency graph visualizer: a Dafny model

This project models the core of a small tool that draws a graph of a file's
git history. For a tracked file, the tool lists every commit that touched it
(across all refs). It expands each commit to the files that commit changed and
fetches each file's diff. It then builds a directed graph with:

- one box node per commit, labelled with the short hash, date and summary;
- one ellipse node per changed file, labelled with the file's added and removed lines;
- one edge from each commit to each file it changed.

The graph is rendered to a PNG whose name is the requested output path with
its extension replaced.

The model covers `dependency_visualizer.py` in these modules:

- `Text` (`text.dfy`): the string operations the code relies on.
  - `str.split` on one character and `str.join`, with their round trips.
  - `startswith` and the slice `s[:7]`.
- `History` (`history.dfy`): what `get_commit_history` returns, and how the
  assembly loop unpacks each record into (hash, date, message).
  - A record without exactly three fields is the `ValueError` of the
    unpacking. It is modelled as an error result.
- `Diff` (`diff.dfy`): the loop that sorts diff lines into additions and
  deletions (a method). It is proved equal to two filter functions, and
  the lemmas about those filters give the classification rules.
- `Labels` (`labels.dfy`): the commit and file labels, with the Russian
  placeholders and headings of the source.
  - Both labels read back line by line into their parts.
- `Graph` (`graph.dfy`): the non-strict graphviz `Digraph` as a class.
  - A node map where the latest `node` call for a key wins.
  - An edge sequence that `edge` calls only append to (repeats are kept).
- `Assembly` (`assembly.dfy`): the specification of `build_dependency_graph`.
  It is a fold over the commits and, inside each commit, over its changed
  files, with the properties of that fold.
- `Visualizer` (`visualizer.dfy`): `build_dependency_graph` itself. It is a
  method with the source's two nested loops over a `Digraph` object, proved
  to produce the fold. Corollaries cover orphan edges, edge counts, node
  keys and last-write-wins labels.
- `OutputPath` (`output_path.dfy`): `os.path.splitext(output_path)[0] + ".png"`,
  for POSIX separators (`/`) and Windows separators (`\` and `/`); the
  separator set is the only difference between the two `splitext` variants.
- `Wrappers` (`wrappers.dfy`): `Option` and `Result`.

The three git calls are inputs to the model:

- the history as an `Option` of lines;
- a function from a commit hash to an `Option` of changed files;
- a function from (hash, file) to an `Option` of diff lines.

`None` is the `CalledProcessError` branch, which the code turns into an
empty list.

Where the code's behaviour is easy to misread, the model follows the code
as written:

- Edges are not deduplicated. The graph is a non-strict `Digraph`, and every
  `edge` call adds an edge statement.
- A commit whose change list is empty (or whose lookup failed) gets no node
  at all. The commit node is written inside the loop over changed files.
- The history is not always tolerated. A summary line containing `|`, or a
  history line with fewer than two `|`, makes the unpacking raise
  `ValueError`. No graph is returned then (`History.LineUnpacks`,
  `Visualizer.BuildDependencyGraph`).

## Model

| member | source | states |
|---|---|---|
| Text.SplitShape | dependency_visualizer.py:16 | `line.split('\|')` has one more field than the line has `\|` characters, and no field contains `\|` |
| Text.JoinSplit | dependency_visualizer.py:16 | joining the fields of a split line with the separator gives back the line |
| Text.SplitJoin | dependency_visualizer.py:86-87 | splitting a `"\n"`-join of single-line strings gives back exactly those strings |
| Text.Take | dependency_visualizer.py:72 | `hash[:7]` is a prefix of the hash, of length 7 or the whole hash when it is shorter |
| History.GetCommitHistory | dependency_visualizer.py:6-19 | a failed `git log` gives no records; otherwise there is one record per line, with `count('\|')+1` fields that join back to the line |
| History.Unpack | dependency_visualizer.py:64 | a record unpacks to (hash, date, message) exactly when it has three fields; fewer fields give "not enough values (got n)", more give "too many values" |
| History.LineRoundTrip | dependency_visualizer.py:12-16 | a commit whose fields contain no `\|` is recovered from its `%H\|%ad\|%s` history line |
| History.LineUnpacks | dependency_visualizer.py:64 | a history line unpacks exactly when it holds two `\|`; a third `\|` (e.g. in the summary) gives "too many values"; a line that unpacks is the formatted line of its commit |
| History.ParseCommitsSuccess | dependency_visualizer.py:64 | unpacking the whole history succeeds exactly when every record has three fields, and then keeps the records' order and fields |
| History.ParseCommitsFirstError | dependency_visualizer.py:64 | a failed unpacking reports the error of the first malformed record; all earlier records are well-formed |
| History.ParseCommitsPrefixFailure | dependency_visualizer.py:64 | once a prefix of the records fails, the whole history fails with the same error |
| Diff.ClassifyDiff | dependency_visualizer.py:76-83 | the `if`/`elif` loop returns exactly the added lines and exactly the removed lines of the diff, in order |
| Diff.Exclusive | dependency_visualizer.py:80-83 | no line is both an addition and a deletion, so the `elif` loses nothing |
| Diff.ClassifiedExactly | dependency_visualizer.py:79-83 | a line is among the additions iff it is in the diff and starts with `+` but not `+++`; the same holds for deletions with `-` and `---` |
| Diff.ClassesDisjoint | dependency_visualizer.py:79-83 | no line is in both lists |
| Diff.ClassifyAppend | dependency_visualizer.py:79-83 | classification keeps the diff's order: classifying a concatenation concatenates the classifications |
| Diff.ClassifiedLength | dependency_visualizer.py:79-83 | the two lists together are at most as long as the diff, and exactly as long iff every line is an addition or a deletion (headers and context are dropped) |
| Diff.ClassifyExample | dependency_visualizer.py:79-83 | `+++`/`---` headers and a context line are dropped; `+added line` and `-removed line` are kept |
| Labels.CommitLabelLines | dependency_visualizer.py:72 | the commit label starts with `hash[:7]`; for single-line hash and date its lines are the short hash, the date and the summary's lines |
| Labels.SummaryMarksEmpty | dependency_visualizer.py:86-87 | for lines that all start with the marker `+` (or `-`), the joined text equals the "none" placeholder iff the list is empty |
| Labels.SummaryLines | dependency_visualizer.py:86-87 | the joined text splits back into the lines, or into the placeholder alone when there are none |
| Labels.FileLabelLines | dependency_visualizer.py:86-89 | the file label reads back as the file name, "Добавлено:", the added lines or placeholder, an empty line, "Удалено:", and the removed lines or placeholder |
| Graph.Digraph.constructor | dependency_visualizer.py:55 | a new graph has no nodes and no edges |
| Graph.Digraph.AddNode | dependency_visualizer.py:73 | `node` sets the key's label and shape; every other key keeps its entry; edges are untouched |
| Graph.Digraph.AddEdge | dependency_visualizer.py:91 | `edge` appends one edge, duplicates kept; nodes are untouched |
| Assembly.AddCommitEffect | dependency_visualizer.py:67-91 | one commit's loop appends one edge per changed file in order, registers the commit key and the file keys, writes the commit and file entries, and leaves other keys alone |
| Assembly.AddCommitEdges | dependency_visualizer.py:91 | one commit's loop appends exactly (hash, f) for each changed file f, in order |
| Assembly.AddCommitKeys | dependency_visualizer.py:73-90 | one commit's loop adds the commit key (when a file changed) and every changed file as keys, and nothing else |
| Assembly.AddCommitEntries | dependency_visualizer.py:73-90 | after one commit's loop the commit node has the commit's box entry, each file node the ellipse entry for its diff, and every other key its old entry |
| Assembly.AssembleStep | dependency_visualizer.py:64-91 | one more commit runs its inner loop on the graph built so far |
| Assembly.AssembleAppend | dependency_visualizer.py:64-91 | processing a history in two parts is processing the first part and continuing from its graph with the second |
| Assembly.SkippedCommit | dependency_visualizer.py:65-67 | a commit whose change lookup failed or is empty adds no node and no edge, and later commits are processed as if it were absent |
| Assembly.AssembleEdges | dependency_visualizer.py:64-91 | edges are only appended: the final list is the initial one followed by each commit's edges, in history then change-list order |
| Assembly.AssembleKeys | dependency_visualizer.py:64-90 | the node keys are the initial keys, the hashes of commits with non-empty change lists, and the changed files |
| Assembly.AssembleUntouched | dependency_visualizer.py:73-90 | a key that no commit writes keeps its previous entry |
| Assembly.FileNodeLastWrite | dependency_visualizer.py:90 | a file node carries the entry computed for the last commit, in history order, whose change list contains it |
| Assembly.CommitNodeLastWrite | dependency_visualizer.py:73 | a commit node carries the box entry of the last commit with that hash and a non-empty change list |
| Assembly.NodeShapes | dependency_visualizer.py:73-90 | a key written only as a commit is a box; a key written only as a file is an ellipse |
| Assembly.ExpectedEdgesMembership | dependency_visualizer.py:91 | an edge (c, f) exists iff c is the hash of a history commit and f is in that commit's change list |
| Assembly.ExpectedEdgesCount | dependency_visualizer.py:91 | there is one edge per change-list entry: the edge count is the sum of the change-list lengths |
| Assembly.CommitKeysMembership | dependency_visualizer.py:65-73 | a commit key is the hash of a history commit with a non-empty change list, and every such hash is one |
| Assembly.FileKeysMembership | dependency_visualizer.py:67-90 | a file key is a file of some commit's change list, and every such file is one |
| Visualizer.BuildDependencyGraph | dependency_visualizer.py:50-93 | returns the unpacking error of the first malformed record; otherwise a fresh graph equal to the fold over the history; an empty history gives no nodes and no edges; no edge is orphaned |
| Visualizer.AddChanges | dependency_visualizer.py:67-91 | the inner loop writes the commit node, the file node with its classified diff and the edge, for each changed file in order |
| Visualizer.NoOrphanEdges | dependency_visualizer.py:64-91 | every edge goes from a commit key with a non-empty change list to a changed file, and both ends are nodes |
| Visualizer.EdgesFromHistory | dependency_visualizer.py:64-91 | the edges are exactly the (commit, changed file) pairs of the history; their number is the sum of the change-list lengths |
| Visualizer.NodeKeys | dependency_visualizer.py:64-90 | a key is a node iff it is the hash or a changed file of a commit with a non-empty change list |
| Visualizer.NoIsolatedNodes | dependency_visualizer.py:64-91 | every node is an end of some edge |
| Visualizer.CommitNodeRegistered | dependency_visualizer.py:65-73 | for a hash that is no changed file of any commit: the hash is a node iff some commit with that hash has a non-empty change list, and that node is a box |
| Visualizer.OverwriteScenario | dependency_visualizer.py:90 | when the newer and then the older commit touch a path that is neither commit's hash, the path's label shows the older (last processed) commit's diff |
| OutputPath.LastIndexOf | dependency_visualizer.py:99 | the `rfind` used by `splitext` gives the last index holding one of the characters, or -1 |
| OutputPath.StripExtension | dependency_visualizer.py:99 | the base is a prefix of the path; what is removed is one extension (a dot, then neither dots nor separators); the stem before it is not all dots |
| OutputPath.ExtensionRemoved | dependency_visualizer.py:99 | a final component with a dot that has a non-dot before it in the component loses its extension |
| OutputPath.NoDotUnchanged | dependency_visualizer.py:99-103 | a path whose final component has no dot is unchanged, and the image is the path plus `.png` |
| OutputPath.ReplacesExtension | dependency_visualizer.py:99-103 | `out.svg` is rendered to `out.png` |
| OutputPath.ReplacesLastExtensionOnly | dependency_visualizer.py:99-103 | `a.tar.gz` is rendered to `a.tar.png` |
| OutputPath.KeepsLeadingDot | dependency_visualizer.py:99-103 | `.dot` has no extension and is rendered to `.dot.png` |
| OutputPath.IgnoresDirectoryDots | dependency_visualizer.py:99-103 | a dot in a directory name is not an extension, with POSIX or Windows separators |

## Left out

- The `git log`, `git show` and `git diff` process invocations and their argument lists (dependency_visualizer.py:11-14, 26-29, 41-44). They are external processes. The model takes their results as inputs, with `None` for a failed call.
- Splitting process output into lines. The outputs come in as lines. The full set of line boundaries of Python's `splitlines` and the `strip()` of the diff output (line 45) are not modelled.
- The `print` diagnostics. They are logging only.
- The graphviz font and direction attributes, the graph comment, the image format setting and the rendering itself (lines 55, 58, 100-102). They are a foreign library producing an image.
- The `.encode('utf-8').decode('utf-8')` of the labels (lines 73, 90). It is the identity on text.
- `main`, argument parsing and the change to the `PATH` environment variable (lines 105-118). This is command-line plumbing.
- The tests in test_dependency_visualizer.py. They drive a real repository at a fixed path and check only types and that the output file exists.
- Visualizer.BuildDependencyGraph: on an unpacking error, Python has already mutated the graph for the earlier commits before raising. The model returns only the error, because the raised exception makes that partial graph unreachable.
- Assembly.FileNodeLastWrite: requires that the file name is not also a commit key. When a commit hash and a file name coincide, the final entry depends on how the two kinds of writes interleave.
- Assembly.CommitNodeLastWrite: requires that the commit hash is not also a changed file name, for the same reason.
- Visualizer.CommitNodeRegistered: requires that the hash is not also a changed file name. When a file name equals a commit hash, the file write at line 90 can leave that key an ellipse.
- Visualizer.OverwriteScenario: requires that the path is neither commit's hash, for the same reason.
- Visualizer.BuildDependencyGraph: each git call either succeeds or fails with a non-zero exit. A call can also produce output that is not valid UTF-8, for example a diff of a cp1251 text file. The strict decoding at lines 13, 28 and 43 then raises `UnicodeDecodeError`. The `except` clauses catch only `CalledProcessError`, so that error aborts `build_dependency_graph`. The model has no such outcome, so it promises a graph in a case where the source raises.
- Graph.Digraph.AddEdge: endpoints are stored as raw names. When graphviz writes an `edge` statement, it reads an endpoint as `node:port:compass`, but it quotes a `node` name whole. A changed file whose path contains `:` therefore gets an edge to a different node in the rendered graph. Visualizer.NoOrphanEdges and Visualizer.NoIsolatedNodes describe the recorded calls, not that rendering.
