/** The node labels: the commit box shows the short hash, the date and the
    summary; the file ellipse shows the file name and its added and removed
    lines, with a fixed placeholder for an empty list. */
module Labels {
  import opened Text
  import opened History

  const NoAdditions: string := "Нет добавленных строк"
  const NoDeletions: string := "Нет удаленных строк"
  const AddedHeading: string := "Добавлено:"
  const RemovedHeading: string := "Удалено:"

  /** The label of a commit node: the first seven characters of the hash,
      the date and the summary, one per line. */
  function CommitLabel(c: Commit): string
  {
    Take(c.hash, 7) + "\n" + c.date + "\n" + c.message
  }

  /** `"\n".join(lines) if lines else placeholder`. */
  function Summary(lines: seq<string>, placeholder: string): string
  {
    if lines == [] then placeholder else Join(lines, "\n")
  }

  /** The label of a file node: the file name, the added lines and the
      removed lines under their headings. */
  function FileLabel(file: string, additions: seq<string>, deletions: seq<string>): string
  {
    file + "\n" + AddedHeading + "\n" + Summary(additions, NoAdditions) +
    "\n\n" + RemovedHeading + "\n" + Summary(deletions, NoDeletions)
  }

  /** A prefix of a string free of `c` is free of `c`. */
  lemma PrefixFree(s: string, t: string, c: char)
    requires t <= s && c !in s
    ensures c !in t
  {
  }

  /** The commit label starts with the short hash, and when the hash and the
      date are single lines its lines are the short hash, the date and the
      lines of the summary. */
  lemma CommitLabelLines(c: Commit)
    ensures Take(c.hash, 7) <= CommitLabel(c)
    ensures '\n' !in c.hash && '\n' !in c.date ==>
      Split(CommitLabel(c), '\n') == [Take(c.hash, 7), c.date] + Split(c.message, '\n')
  {
    var short := Take(c.hash, 7);
    if '\n' !in c.hash && '\n' !in c.date {
      PrefixFree(c.hash, short, '\n');
      ThreeLines(short, c.date, c.message);
    }
  }

  /** Two single lines followed by a text. */
  lemma ThreeLines(x: string, y: string, z: string)
    requires '\n' !in x && '\n' !in y
    ensures Split(x + "\n" + y + "\n" + z, '\n') == [x, y] + Split(z, '\n')
  {
    assert x + "\n" + y + "\n" + z == x + ['\n'] + (y + ['\n'] + z);
    SplitAround(x, y + ['\n'] + z, '\n');
    SplitAround(y, z, '\n');
    SplitNoSep(x, '\n');
    SplitNoSep(y, '\n');
  }

  /** A joined non-empty list starts with the first character of its first
      element. */
  lemma JoinHead(lines: seq<string>, sep: string)
    requires lines != [] && lines[0] != []
    ensures Join(lines, sep) != [] && Join(lines, sep)[0] == lines[0][0]
  {
  }

  /** When every line starts with `marker` and the placeholder does not, the
      summary equals the placeholder exactly when there are no lines. */
  lemma SummaryMarksEmpty(lines: seq<string>, placeholder: string, marker: char)
    requires forall i :: 0 <= i < |lines| ==> lines[i] != [] && lines[i][0] == marker
    requires placeholder != [] && placeholder[0] != marker
    ensures Summary(lines, placeholder) == placeholder <==> lines == []
  {
    if lines != [] {
      JoinHead(lines, "\n");
    }
  }

  /** The lines of a summary are the summarised lines, or the placeholder
      alone. */
  lemma SummaryLines(lines: seq<string>, placeholder: string)
    requires forall i :: 0 <= i < |lines| ==> '\n' !in lines[i]
    requires '\n' !in placeholder
    ensures Split(Summary(lines, placeholder), '\n') == if lines == [] then [placeholder] else lines
  {
    if lines == [] {
      SplitNoSep(placeholder, '\n');
    } else {
      SplitJoin(lines, '\n');
    }
  }

  /** When the file name and the diff lines are single lines, the file label
      reads back line by line as: the file name, the additions heading, the
      added lines (or the placeholder), an empty line, the deletions heading
      and the removed lines (or the placeholder). */
  lemma FileLabelLines(file: string, additions: seq<string>, deletions: seq<string>)
    requires '\n' !in file
    requires forall i :: 0 <= i < |additions| ==> '\n' !in additions[i]
    requires forall i :: 0 <= i < |deletions| ==> '\n' !in deletions[i]
    ensures Split(FileLabel(file, additions, deletions), '\n') ==
      [file, AddedHeading] + (if additions == [] then [NoAdditions] else additions) +
      ["", RemovedHeading] + (if deletions == [] then [NoDeletions] else deletions)
  {
    HeadingsAreSingleLines();
    SummaryLines(additions, NoAdditions);
    SummaryLines(deletions, NoDeletions);
    LabelLines(file, AddedHeading, Summary(additions, NoAdditions), RemovedHeading, Summary(deletions, NoDeletions));
  }

  /** The layout of a file label, for any name, headings and summaries. */
  lemma LabelLines(f: string, h1: string, a: string, h2: string, d: string)
    requires '\n' !in f && '\n' !in h1 && '\n' !in h2
    ensures Split(f + "\n" + h1 + "\n" + a + "\n\n" + h2 + "\n" + d, '\n') ==
      [f, h1] + Split(a, '\n') + ["", h2] + Split(d, '\n')
  {
    var nl := '\n';
    var tail := [] + [nl] + (h2 + [nl] + d);
    var z := a + [nl] + tail;
    var text := f + "\n" + h1 + "\n" + a + "\n\n" + h2 + "\n" + d;
    assert text == f + "\n" + h1 + "\n" + z by {
      assert "\n\n" == [nl] + [nl];
    }
    ThreeLines(f, h1, z);
    SplitAround(a, tail, nl);
    assert Split(tail, nl) == ["", h2] + Split(d, nl) by {
      ThreeLines([], h2, d);
      assert [] + "\n" + h2 + "\n" + d == tail;
    }
  }

  /** The headings and placeholders are single lines. */
  lemma HeadingsAreSingleLines()
    ensures '\n' !in AddedHeading && '\n' !in RemovedHeading
    ensures '\n' !in NoAdditions && '\n' !in NoDeletions
  {
  }
}
