/** Classification of the lines of `git diff <hash>^! -- <file>` into added
    and removed lines. */
module Diff {
  import opened Text

  /** An added line: starts with `+` but is not the `+++` file header. */
  predicate IsAddition(line: string)
  {
    StartsWith(line, "+") && !StartsWith(line, "+++")
  }

  /** A removed line: starts with `-` but is not the `---` file header. */
  predicate IsDeletion(line: string)
  {
    StartsWith(line, "-") && !StartsWith(line, "---")
  }

  /** The added lines of a diff, in their original order. */
  function Additions(diff: seq<string>): seq<string>
    decreases |diff|
  {
    if diff == [] then []
    else
      var last := diff[|diff| - 1];
      Additions(diff[..|diff| - 1]) + if IsAddition(last) then [last] else []
  }

  /** The removed lines of a diff, in their original order. */
  function Deletions(diff: seq<string>): seq<string>
    decreases |diff|
  {
    if diff == [] then []
    else
      var last := diff[|diff| - 1];
      Deletions(diff[..|diff| - 1]) + if IsDeletion(last) then [last] else []
  }

  /** The loop of `build_dependency_graph` that sorts the diff lines into
      `additions` and `deletions` (an `if` on additions, an `elif` on
      deletions, everything else dropped). */
  method ClassifyDiff(diff: seq<string>) returns (additions: seq<string>, deletions: seq<string>)
    ensures additions == Additions(diff)
    ensures deletions == Deletions(diff)
  {
    additions, deletions := [], [];
    for i := 0 to |diff|
      invariant additions == Additions(diff[..i])
      invariant deletions == Deletions(diff[..i])
    {
      var line := diff[i];
      assert diff[..i + 1][..i] == diff[..i];
      Exclusive(line);
      if StartsWith(line, "+") && !StartsWith(line, "+++") {
        additions := additions + [line];
      } else if StartsWith(line, "-") && !StartsWith(line, "---") {
        deletions := deletions + [line];
      }
    }
    assert diff[..|diff|] == diff;
  }

  /** A line is never both an addition and a deletion. */
  lemma Exclusive(line: string)
    ensures !(IsAddition(line) && IsDeletion(line))
  {
    if StartsWith(line, "+") {
      assert line[0] == '+';
    }
  }

  /** The additions are exactly the added lines of the diff, and the
      deletions exactly its removed lines. */
  lemma {:induction false} ClassifiedExactly(diff: seq<string>, x: string)
    ensures x in Additions(diff) <==> x in diff && IsAddition(x)
    ensures x in Deletions(diff) <==> x in diff && IsDeletion(x)
    decreases |diff|
  {
    if diff != [] {
      var n := |diff| - 1;
      ClassifiedExactly(diff[..n], x);
      assert diff == diff[..n] + [diff[n]];
    }
  }

  /** No line ends up in both lists. */
  lemma ClassesDisjoint(diff: seq<string>, x: string)
    ensures !(x in Additions(diff) && x in Deletions(diff))
  {
    ClassifiedExactly(diff, x);
    Exclusive(x);
  }

  /** Classification keeps the order of the diff: classifying two pieces one
      after the other is classifying their concatenation. */
  lemma {:induction false} ClassifyAppend(a: seq<string>, b: seq<string>)
    ensures Additions(a + b) == Additions(a) + Additions(b)
    ensures Deletions(a + b) == Deletions(a) + Deletions(b)
    decreases |b|
  {
    if b == [] {
      assert a + b == a;
    } else {
      var n := |b| - 1;
      ClassifyAppend(a, b[..n]);
      assert (a + b)[..|a + b| - 1] == a + b[..n];
      assert (a + b)[|a + b| - 1] == b[n];
    }
  }

  /** Headers and context lines are dropped: the two lists together are no
      longer than the diff, and exactly as long when every line is an
      addition or a deletion. */
  lemma {:induction false} ClassifiedLength(diff: seq<string>)
    ensures |Additions(diff)| + |Deletions(diff)| <= |diff|
    ensures |Additions(diff)| + |Deletions(diff)| == |diff| <==>
      forall i :: 0 <= i < |diff| ==> IsAddition(diff[i]) || IsDeletion(diff[i])
    decreases |diff|
  {
    if diff != [] {
      var n := |diff| - 1;
      var prefix := diff[..n];
      ClassifiedLength(prefix);
      Exclusive(diff[n]);
      assert forall i :: 0 <= i < n ==> diff[i] == prefix[i];
    }
  }

  /** Headers, an added line, a removed line and a context line. */
  lemma ClassifyExample()
    ensures Additions(["+++ a/f", "---b/f", "+added line", "-removed line", " context"]) == ["+added line"]
    ensures Deletions(["+++ a/f", "---b/f", "+added line", "-removed line", " context"]) == ["-removed line"]
  {
    var d := ["+++ a/f", "---b/f", "+added line", "-removed line", " context"];
    assert !IsAddition(d[0]) && !IsDeletion(d[0]) by { assert "+++" <= d[0]; }
    assert !IsAddition(d[1]) && !IsDeletion(d[1]) by { assert "---" <= d[1]; }
    assert IsAddition(d[2]) && !IsDeletion(d[2]) by { assert d[2][1] == 'a'; }
    assert IsDeletion(d[3]) && !IsAddition(d[3]) by { assert d[3][1] == 'r'; }
    assert !IsAddition(d[4]) && !IsDeletion(d[4]);
    assert d[..1] == [d[0]] && d[..2] == d[..1] + [d[1]] && d[..3] == d[..2] + [d[2]];
    assert d[..4] == d[..3] + [d[3]] && d == d[..4] + [d[4]];
    assert Additions(d[..1]) == [] && Deletions(d[..1]) == [];
    assert Additions(d[..2]) == [] && Deletions(d[..2]) == [];
    assert Additions(d[..3]) == [d[2]] && Deletions(d[..3]) == [];
    assert Additions(d[..4]) == [d[2]] && Deletions(d[..4]) == [d[3]];
  }
}
