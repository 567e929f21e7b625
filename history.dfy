/** What `get_commit_history` returns: the lines of
    `git log --pretty=format:%H|%ad|%s` turned into records, and the three-way
    unpacking of each record done by the loop of `build_dependency_graph`. */
module History {
  import opened Wrappers
  import opened Text

  /** One line of the history: hash, ISO date and summary line. */
  datatype Commit = Commit(hash: string, date: string, message: string)

  /** The `ValueError` raised by `for commit_hash, commit_date, commit_message
      in commits` when a record does not have exactly three fields. */
  datatype UnpackError =
    | NotEnoughValues(got: nat)   // "not enough values to unpack (expected 3, got n)"
    | TooManyValues               // "too many values to unpack (expected 3)"

  /** The field separator of the pretty format. */
  const FieldSeparator: char := '|'

  /** The line git prints for a commit under `--pretty=format:%H|%ad|%s`. */
  function FormatLine(c: Commit): string
  {
    c.hash + [FieldSeparator] + c.date + [FieldSeparator] + c.message
  }

  /** `get_commit_history`: every history line split on `|`, or no records at
      all when the git call failed. The lines are git's output already split
      at line ends. */
  function GetCommitHistory(output: Option<seq<string>>): (records: seq<seq<string>>)
    ensures output.None? ==> records == []
    ensures output.Some? ==> |records| == |output.value|
    ensures output.Some? ==> forall i :: 0 <= i < |records| ==>
      |records[i]| == Count(output.value[i], FieldSeparator) + 1 &&
      Join(records[i], [FieldSeparator]) == output.value[i]
  {
    match output
    case None => []
    case Some(lines) =>
      JoinSplitAll(lines);
      seq(|lines|, i requires 0 <= i < |lines| => Split(lines[i], FieldSeparator))
  }

  lemma JoinSplitAll(lines: seq<string>)
    ensures forall i :: 0 <= i < |lines| ==>
      |Split(lines[i], FieldSeparator)| == Count(lines[i], FieldSeparator) + 1 &&
      Join(Split(lines[i], FieldSeparator), [FieldSeparator]) == lines[i]
  {
    forall i | 0 <= i < |lines|
      ensures |Split(lines[i], FieldSeparator)| == Count(lines[i], FieldSeparator) + 1
      ensures Join(Split(lines[i], FieldSeparator), [FieldSeparator]) == lines[i]
    {
      JoinSplit(lines[i], FieldSeparator);
      SplitShape(lines[i], FieldSeparator);
    }
  }

  /** Unpacking one record into (hash, date, message). */
  function Unpack(fields: seq<string>): (r: Result<Commit, UnpackError>)
    ensures r.Success? <==> |fields| == 3
    ensures r.Success? ==> [r.value.hash, r.value.date, r.value.message] == fields
    ensures |fields| < 3 ==> r == Failure(NotEnoughValues(|fields|))
    ensures |fields| > 3 ==> r == Failure(TooManyValues)
  {
    if |fields| < 3 then Failure(NotEnoughValues(|fields|))
    else if |fields| > 3 then Failure(TooManyValues)
    else Success(Commit(fields[0], fields[1], fields[2]))
  }

  /** The records unpacked in history order; the first malformed record
      decides the error. */
  function ParseCommits(records: seq<seq<string>>): Result<seq<Commit>, UnpackError>
    decreases |records|
  {
    if records == [] then Success([])
    else
      match ParseCommits(records[..|records| - 1])
      case Failure(e) => Failure(e)
      case Success(cs) =>
        match Unpack(records[|records| - 1])
        case Failure(e) => Failure(e)
        case Success(c) => Success(cs + [c])
  }

  /** A commit whose fields are free of `|` survives the round trip through
      its history line. */
  lemma LineRoundTrip(c: Commit)
    requires FieldSeparator !in c.hash && FieldSeparator !in c.date && FieldSeparator !in c.message
    ensures Unpack(Split(FormatLine(c), FieldSeparator)) == Success(c)
  {
    SplitNoSep(c.hash, FieldSeparator);
    SplitNoSep(c.date, FieldSeparator);
    SplitNoSep(c.message, FieldSeparator);
    SplitAround(c.hash + [FieldSeparator] + c.date, c.message, FieldSeparator);
    SplitAround(c.hash, c.date, FieldSeparator);
  }

  /** A history line unpacks exactly when it holds two separators, and then
      it is the line of the commit it unpacks to: a summary containing `|`
      makes the line fail with `TooManyValues`. */
  lemma LineUnpacks(line: string)
    ensures Unpack(Split(line, FieldSeparator)).Success? <==> Count(line, FieldSeparator) == 2
    ensures Count(line, FieldSeparator) > 2 ==> Unpack(Split(line, FieldSeparator)) == Failure(TooManyValues)
    ensures Unpack(Split(line, FieldSeparator)).Success? ==>
      var c := Unpack(Split(line, FieldSeparator)).value;
      FormatLine(c) == line &&
      FieldSeparator !in c.hash && FieldSeparator !in c.date && FieldSeparator !in c.message
  {
    var parts := Split(line, FieldSeparator);
    SplitShape(line, FieldSeparator);
    if |parts| == 3 {
      JoinSplit(line, FieldSeparator);
      JoinThree(parts);
      assert parts == [parts[0], parts[1], parts[2]];
    }
  }

  lemma JoinThree(parts: seq<string>)
    requires |parts| == 3
    ensures Join(parts, [FieldSeparator]) ==
      parts[0] + [FieldSeparator] + parts[1] + [FieldSeparator] + parts[2]
  {
    var sep := [FieldSeparator];
    assert parts[1..][1..] == [parts[2]];
    assert Join(parts[1..][1..], sep) == parts[2];
    assert Join(parts[1..], sep) == parts[1] + sep + parts[2];
    assert Join(parts, sep) == parts[0] + sep + (parts[1] + sep + parts[2]);
  }

  /** Parsing succeeds exactly when every record has three fields, and then
      keeps the records' order and fields. */
  lemma {:induction false} ParseCommitsSuccess(records: seq<seq<string>>)
    ensures ParseCommits(records).Success? <==> forall i :: 0 <= i < |records| ==> |records[i]| == 3
    ensures ParseCommits(records).Success? ==>
      var cs := ParseCommits(records).value;
      |cs| == |records| &&
      forall i :: 0 <= i < |records| ==> [cs[i].hash, cs[i].date, cs[i].message] == records[i]
    decreases |records|
  {
    if records != [] {
      var n := |records| - 1;
      var prefix := records[..n];
      ParseCommitsSuccess(prefix);
      assert forall i :: 0 <= i < n ==> records[i] == prefix[i];
    }
  }

  /** A failed parse reports the error of the first malformed record. */
  lemma {:induction false} ParseCommitsFirstError(records: seq<seq<string>>)
    requires ParseCommits(records).Failure?
    ensures exists k :: 0 <= k < |records| && Unpack(records[k]) == Failure(ParseCommits(records).error) &&
                        (forall i :: 0 <= i < k ==> |records[i]| == 3)
    decreases |records|
  {
    var n := |records| - 1;
    var prefix := records[..n];
    assert forall i :: 0 <= i < n ==> records[i] == prefix[i];
    if ParseCommits(prefix).Failure? {
      ParseCommitsFirstError(prefix);
      var k :| 0 <= k < n && Unpack(prefix[k]) == Failure(ParseCommits(prefix).error) &&
        forall i :: 0 <= i < k ==> |prefix[i]| == 3;
      assert Unpack(records[k]) == Failure(ParseCommits(records).error);
    } else {
      ParseCommitsSuccess(prefix);
      assert Unpack(records[n]) == Failure(ParseCommits(records).error);
    }
  }

  /** Once a prefix of the records fails to parse, the whole list fails with
      the same error. */
  lemma {:induction false} ParseCommitsPrefixFailure(records: seq<seq<string>>, k: nat)
    requires k <= |records| && ParseCommits(records[..k]).Failure?
    ensures ParseCommits(records) == ParseCommits(records[..k])
    decreases |records| - k
  {
    if k < |records| {
      var n := |records| - 1;
      assert records[..n][..k] == records[..k];
      ParseCommitsPrefixFailure(records[..n], k);
    } else {
      assert records[..k] == records;
    }
  }

  /** One more record: it either extends the parsed commits or decides the
      error of the whole list. */
  lemma ParseCommitsStep(records: seq<seq<string>>, k: nat, done: seq<Commit>)
    requires k < |records| && ParseCommits(records[..k]) == Success(done)
    ensures Unpack(records[k]).Success? ==> ParseCommits(records[..k + 1]) == Success(done + [Unpack(records[k]).value])
    ensures Unpack(records[k]).Failure? ==> ParseCommits(records) == Failure(Unpack(records[k]).error)
  {
    assert records[..k + 1][..k] == records[..k];
    if Unpack(records[k]).Failure? {
      ParseCommitsPrefixFailure(records, k + 1);
    }
  }
}
