/**
 * The error aggregator: after all rows are converted, the issues collected
 * in row order are folded into one error record per run of issues on the
 * same line, their codes joined by `-&-`. The records are what the error CSV
 * (columns `LINE_NUM`, `ERROR_MSG`) holds.
 */
module ErrorAggregator {
  import opened RowProcessor

  /** One row of the error CSV. */
  datatype ErrorRecord = ErrorRecord(lineNum: int, errorMsg: string)

  /** What joins two codes of the same line in `ERROR_MSG`. */
  const SEPARATOR: string := "-&-"

  /** The codes of some issues, in order. */
  function Codes(issues: seq<Issue>): (codes: seq<string>)
    ensures |codes| == |issues|
    ensures forall i | 0 <= i < |issues| :: codes[i] == issues[i].code
  {
    seq(|issues|, i requires 0 <= i < |issues| => issues[i].code)
  }

  /** `parts[0] + sep + parts[1] + sep + ... + parts[|parts| - 1]`. */
  function JoinWith(parts: seq<string>, sep: string): string
    requires |parts| >= 1
  {
    if |parts| == 1 then parts[0] else parts[0] + sep + JoinWith(parts[1..], sep)
  }

  /** Joining one more part appends the separator and that part. */
  lemma {:induction false} JoinWithSnoc(parts: seq<string>, p: string, sep: string)
    requires |parts| >= 1
    ensures JoinWith(parts + [p], sep) == JoinWith(parts, sep) + sep + p
  {
    if |parts| == 1 {
      assert (parts + [p])[1..] == [p];
    } else {
      assert (parts + [p])[1..] == parts[1..] + [p];
      JoinWithSnoc(parts[1..], p, sep);
    }
  }

  /** The number of issues at the front of `issues` that are on line `row`. */
  function RunLength(issues: seq<Issue>, row: int): (n: nat)
    ensures n <= |issues|
    ensures forall k | 0 <= k < n :: issues[k].row == row
    ensures n < |issues| ==> issues[n].row != row
  {
    if issues == [] || issues[0].row != row then 0 else 1 + RunLength(issues[1..], row)
  }

  lemma {:induction false} RunLengthAppend(a: seq<Issue>, b: seq<Issue>, row: int)
    ensures RunLength(a + b, row) ==
      if RunLength(a, row) < |a| then RunLength(a, row) else |a| + RunLength(b, row)
  {
    if a == [] {
      assert a + b == b;
    } else if a[0].row == row {
      assert (a + b)[1..] == a[1..] + b;
      RunLengthAppend(a[1..], b, row);
    }
  }

  /**
   * The reference grouping: one record per maximal run of consecutive issues
   * on the same line, holding that line and the run's codes joined in order.
   */
  function Group(issues: seq<Issue>): (records: seq<ErrorRecord>)
    ensures |records| <= |issues|
    ensures records == [] <==> issues == []
    decreases |issues|
  {
    if issues == [] then []
    else
      var n := RunLength(issues, issues[0].row);
      [ErrorRecord(issues[0].row, JoinWith(Codes(issues[..n]), SEPARATOR))] + Group(issues[n..])
  }

  /** The last record is on the line of the last issue. */
  lemma {:induction false} GroupLastRow(issues: seq<Issue>)
    requires issues != []
    ensures Group(issues)[|Group(issues)| - 1].lineNum == issues[|issues| - 1].row
    decreases |issues|
  {
    var n := RunLength(issues, issues[0].row);
    if n < |issues| {
      GroupLastRow(issues[n..]);
    }
  }

  /** The record one more issue produces, given the records so far. */
  function AddIssue(g: seq<ErrorRecord>, e: Issue): seq<ErrorRecord> {
    if g != [] && g[|g| - 1].lineNum == e.row
    then g[..|g| - 1] + [ErrorRecord(e.row, g[|g| - 1].errorMsg + SEPARATOR + e.code)]
    else g + [ErrorRecord(e.row, e.code)]
  }

  /**
   * One more issue either extends the last record's message, when it is on
   * the same line, or opens a new record.
   */
  lemma {:induction false} GroupSnoc(issues: seq<Issue>, e: Issue)
    ensures Group(issues + [e]) == AddIssue(Group(issues), e)
    decreases |issues|
  {
    if issues == [] {
      assert issues + [e] == [e];
      assert Codes([e]) == [e.code];
    } else {
      var n := RunLength(issues, issues[0].row);
      if n < |issues| {
        GroupSnocLaterRun(issues, e);
      } else {
        GroupSnocOneRun(issues, e);
      }
    }
  }

  /** `GroupSnoc` when the issues span several runs: the first record stays, the rest grows. */
  lemma {:induction false} GroupSnocLaterRun(issues: seq<Issue>, e: Issue)
    requires issues != [] && RunLength(issues, issues[0].row) < |issues|
    ensures Group(issues + [e]) == AddIssue(Group(issues), e)
    decreases |issues|, 0
  {
    var r := issues[0].row;
    var n := RunLength(issues, r);
    var first := ErrorRecord(r, JoinWith(Codes(issues[..n]), SEPARATOR));
    var rest := issues[n..];
    assert Group(issues + [e]) == [first] + Group(rest + [e]) by {
      RunLengthAppend(issues, [e], r);
      assert (issues + [e])[0].row == r;
      assert (issues + [e])[..n] == issues[..n];
      assert (issues + [e])[n..] == rest + [e];
    }
    GroupSnoc(rest, e);
    AddIssueBehindFirst(first, Group(rest), e);
  }

  /** Adding an issue behind a non-empty list of records leaves the first record alone. */
  lemma AddIssueBehindFirst(first: ErrorRecord, g: seq<ErrorRecord>, e: Issue)
    requires g != []
    ensures AddIssue([first] + g, e) == [first] + AddIssue(g, e)
  {
    assert ([first] + g)[|g|] == g[|g| - 1];
    assert ([first] + g)[..|g|] == [first] + g[..|g| - 1];
  }

  /** `GroupSnoc` when the issues form one run: one record, extended or followed by a new one. */
  lemma {:induction false} GroupSnocOneRun(issues: seq<Issue>, e: Issue)
    requires issues != [] && RunLength(issues, issues[0].row) == |issues|
    ensures Group(issues + [e]) == AddIssue(Group(issues), e)
  {
    var r := issues[0].row;
    var n := |issues|;
    RunLengthAppend(issues, [e], r);
    assert (issues + [e])[0].row == r;
    assert issues[..n] == issues;
    assert Group(issues) == [ErrorRecord(r, JoinWith(Codes(issues), SEPARATOR))] by {
      assert issues[n..] == [];
    }
    if e.row == r {
      assert RunLength([e], r) == 1;
      assert (issues + [e])[..n + 1] == issues + [e];
      assert (issues + [e])[n + 1..] == [];
      assert Codes(issues + [e]) == Codes(issues) + [e.code];
      JoinWithSnoc(Codes(issues), e.code, SEPARATOR);
    } else {
      assert RunLength([e], r) == 0;
      assert (issues + [e])[..n] == issues;
      assert (issues + [e])[n..] == [e];
      assert Codes([e]) == [e.code];
    }
  }

  /** Issues in the order the converter finds them: line numbers never go down. */
  ghost predicate InLineOrder(issues: seq<Issue>) {
    forall i, j | 0 <= i < j < |issues| :: issues[i].row <= issues[j].row
  }

  /** The issues on line `row`, in order. */
  function OnLine(issues: seq<Issue>, row: int): (found: seq<Issue>)
    ensures |found| <= |issues|
    ensures forall i | 0 <= i < |found| :: found[i].row == row
  {
    if issues == [] then []
    else (if issues[0].row == row then [issues[0]] else []) + OnLine(issues[1..], row)
  }

  lemma {:induction false} OnLineAppend(a: seq<Issue>, b: seq<Issue>, row: int)
    ensures OnLine(a + b, row) == OnLine(a, row) + OnLine(b, row)
  {
    if a == [] {
      assert a + b == b;
    } else {
      assert (a + b)[0] == a[0];
      assert (a + b)[1..] == a[1..] + b;
      OnLineAppend(a[1..], b, row);
    }
  }

  /** Filtering keeps everything when every issue is on the line, and nothing when none is. */
  lemma {:induction false} OnLineAllOrNone(issues: seq<Issue>, row: int)
    ensures (forall i | 0 <= i < |issues| :: issues[i].row == row) ==> OnLine(issues, row) == issues
    ensures (forall i | 0 <= i < |issues| :: issues[i].row != row) ==> OnLine(issues, row) == []
  {
    if issues != [] {
      OnLineAllOrNone(issues[1..], row);
      assert [issues[0]] + issues[1..] == issues;
    }
  }

  lemma OnLineAll(issues: seq<Issue>, row: int)
    requires forall i | 0 <= i < |issues| :: issues[i].row == row
    ensures OnLine(issues, row) == issues
  {
    OnLineAllOrNone(issues, row);
  }

  lemma OnLineNone(issues: seq<Issue>, row: int)
    requires forall i | 0 <= i < |issues| :: issues[i].row != row
    ensures OnLine(issues, row) == []
  {
    OnLineAllOrNone(issues, row);
  }

  /** A line with filtered issues has an issue among the unfiltered ones. */
  lemma OnLineFound(issues: seq<Issue>, row: int)
    requires OnLine(issues, row) != []
    ensures exists i | 0 <= i < |issues| :: issues[i].row == row
  {
    OnLineAllOrNone(issues, row);
  }

  /** Every record is for a line at or above any bound on the issues' lines. */
  lemma {:induction false} GroupLinesAtLeast(issues: seq<Issue>, lo: int)
    requires forall i | 0 <= i < |issues| :: issues[i].row >= lo
    ensures forall k | 0 <= k < |Group(issues)| :: Group(issues)[k].lineNum >= lo
    decreases |issues|
  {
    if issues != [] {
      var n := RunLength(issues, issues[0].row);
      var rest := issues[n..];
      assert forall i | 0 <= i < |rest| :: rest[i] == issues[n + i];
      GroupLinesAtLeast(rest, lo);
      assert Group(issues)[1..] == Group(rest);
    }
  }

  /** The first record and the records of the issues after the first run. */
  lemma GroupUnfold(issues: seq<Issue>)
    requires issues != []
    ensures var n := RunLength(issues, issues[0].row);
      && 1 <= n
      && Group(issues)[0] == ErrorRecord(issues[0].row, JoinWith(Codes(issues[..n]), SEPARATOR))
      && Group(issues)[1..] == Group(issues[n..])
      && |Group(issues)| == 1 + |Group(issues[n..])|
  {
  }

  /** Every issue's line has a record. */
  lemma {:induction false} IssuesHaveRecords(issues: seq<Issue>)
    ensures forall i | 0 <= i < |issues| ::
      exists k | 0 <= k < |Group(issues)| :: Group(issues)[k].lineNum == issues[i].row
    decreases |issues|
  {
    if issues != [] {
      var n := RunLength(issues, issues[0].row);
      var rest := issues[n..];
      var g := Group(issues);
      GroupUnfold(issues);
      IssuesHaveRecords(rest);
      forall i | 0 <= i < |issues|
        ensures exists k | 0 <= k < |g| :: g[k].lineNum == issues[i].row
      {
        if i < n {
          assert g[0].lineNum == issues[i].row;
        } else {
          assert rest[i - n] == issues[i];
          var k :| 0 <= k < |Group(rest)| && Group(rest)[k].lineNum == rest[i - n].row;
          assert g[k + 1] == Group(rest)[k];
        }
      }
    }
  }

  /** Some record is on `line`. */
  ghost predicate Reported(records: seq<ErrorRecord>, line: int) {
    exists k | 0 <= k < |records| :: records[k].lineNum == line
  }

  /** The line of issue `i` has a record. */
  lemma IssueReported(issues: seq<Issue>, i: int)
    requires 0 <= i < |issues|
    ensures Reported(Group(issues), issues[i].row)
  {
    IssuesHaveRecords(issues);
  }

  /** A line with issues has a record. */
  lemma LineReported(issues: seq<Issue>, line: int)
    requires OnLine(issues, line) != []
    ensures Reported(Group(issues), line)
  {
    OnLineFound(issues, line);
    var i :| 0 <= i < |issues| && issues[i].row == line;
    IssueReported(issues, i);
  }

  /** Every record's line has an issue. */
  lemma {:induction false} RecordsHaveIssues(issues: seq<Issue>)
    ensures forall k | 0 <= k < |Group(issues)| ::
      exists i | 0 <= i < |issues| :: issues[i].row == Group(issues)[k].lineNum
    decreases |issues|
  {
    if issues != [] {
      var n := RunLength(issues, issues[0].row);
      var rest := issues[n..];
      var g := Group(issues);
      GroupUnfold(issues);
      RecordsHaveIssues(rest);
      forall k | 0 <= k < |g|
        ensures exists i | 0 <= i < |issues| :: issues[i].row == g[k].lineNum
      {
        if k == 0 {
          assert issues[0].row == g[0].lineNum;
        } else {
          assert g[k] == Group(rest)[k - 1];
          var i :| 0 <= i < |rest| && rest[i].row == Group(rest)[k - 1].lineNum;
          assert issues[n + i].row == g[k].lineNum;
        }
      }
    } else {
      assert Group(issues) == [];
    }
  }

  /** Neighbouring records are never for the same line. */
  lemma {:induction false} GroupNeighboursDiffer(issues: seq<Issue>)
    ensures var g := Group(issues);
      forall k | 0 <= k < |g| - 1 :: g[k].lineNum != g[k + 1].lineNum
    decreases |issues|
  {
    if issues != [] {
      var n := RunLength(issues, issues[0].row);
      var rest := issues[n..];
      var g := Group(issues);
      GroupNeighboursDiffer(rest);
      assert g[1..] == Group(rest);
      if rest != [] {
        assert g[1].lineNum == rest[0].row;
      }
    }
  }

  /** For issues in line order, the records are in strictly increasing line order. */
  lemma {:induction false} GroupLinesIncrease(issues: seq<Issue>)
    requires InLineOrder(issues)
    ensures var g := Group(issues);
      forall k, l | 0 <= k < l < |g| :: g[k].lineNum < g[l].lineNum
    decreases |issues|
  {
    if issues != [] {
      var r := issues[0].row;
      var n := RunLength(issues, r);
      var rest := issues[n..];
      GroupUnfold(issues);
      RestAboveRun(issues);
      GroupLinesIncrease(rest);
      GroupLinesAtLeast(rest, r + 1);
      ConsIncreasing(Group(issues)[0], Group(rest));
      assert Group(issues) == [Group(issues)[0]] + Group(rest);
    } else {
      assert Group(issues) == [];
    }
  }

  /** A record below all the lines of an increasing list keeps it increasing when put in front. */
  lemma ConsIncreasing(first: ErrorRecord, g: seq<ErrorRecord>)
    requires forall k, l | 0 <= k < l < |g| :: g[k].lineNum < g[l].lineNum
    requires forall k | 0 <= k < |g| :: g[k].lineNum > first.lineNum
    ensures var h := [first] + g;
      forall k, l | 0 <= k < l < |h| :: h[k].lineNum < h[l].lineNum
  {
    var h := [first] + g;
    forall k, l | 0 <= k < l < |h| ensures h[k].lineNum < h[l].lineNum {
      assert h[l] == g[l - 1];
      if k > 0 {
        assert h[k] == g[k - 1];
      }
    }
  }

  /**
   * For issues in line order, each record holds every code of its line, in
   * the order found.
   */
  lemma {:induction false} GroupCollectsLines(issues: seq<Issue>)
    requires InLineOrder(issues)
    ensures var g := Group(issues);
      forall k | 0 <= k < |g| :: OnLine(issues, g[k].lineNum) != []
        && g[k].errorMsg == JoinWith(Codes(OnLine(issues, g[k].lineNum)), SEPARATOR)
    decreases |issues|
  {
    if issues != [] {
      var r := issues[0].row;
      var n := RunLength(issues, r);
      var rest := issues[n..];
      var g := Group(issues);
      GroupUnfold(issues);
      RestAboveRun(issues);
      GroupCollectsLines(rest);
      GroupLinesAtLeast(rest, r + 1);
      forall k | 0 <= k < |g|
        ensures OnLine(issues, g[k].lineNum) != []
        ensures g[k].errorMsg == JoinWith(Codes(OnLine(issues, g[k].lineNum)), SEPARATOR)
      {
        if k == 0 {
          OnFirstLine(issues);
        } else {
          assert g[k] == Group(rest)[k - 1];
          OnLaterLine(issues, g[k].lineNum);
        }
      }
    } else {
      assert Group(issues) == [];
    }
  }

  /** Record `k` collects the codes of all the issues on its line. */
  lemma RecordCollects(issues: seq<Issue>, k: int)
    requires InLineOrder(issues) && 0 <= k < |Group(issues)|
    ensures OnLine(issues, Group(issues)[k].lineNum) != []
    ensures Group(issues)[k].errorMsg == JoinWith(Codes(OnLine(issues, Group(issues)[k].lineNum)), SEPARATOR)
  {
    GroupCollectsLines(issues);
  }

  /** In line order, the issues on the first line are exactly the first run. */
  lemma OnFirstLine(issues: seq<Issue>)
    requires issues != [] && InLineOrder(issues)
    ensures OnLine(issues, issues[0].row) == issues[..RunLength(issues, issues[0].row)]
  {
    RestAboveRun(issues);
    OnLineOfRun(issues, issues[0].row);
  }

  /** When no issue after the leading run on line `r` is on line `r`, that run is all of line `r`. */
  lemma {:induction false} OnLineOfRun(issues: seq<Issue>, r: int)
    requires forall i | RunLength(issues, r) <= i < |issues| :: issues[i].row != r
    ensures OnLine(issues, r) == issues[..RunLength(issues, r)]
    decreases |issues|
  {
    if issues != [] {
      if issues[0].row == r {
        var tail := issues[1..];
        forall i | RunLength(tail, r) <= i < |tail| ensures tail[i].row != r {
          assert tail[i] == issues[i + 1];
        }
        OnLineOfRun(tail, r);
        assert issues[..RunLength(issues, r)] == [issues[0]] + tail[..RunLength(tail, r)];
      } else {
        OnLineNone(issues, r);
      }
    }
  }

  /** The issues on any other line all come after the first run. */
  lemma OnLaterLine(issues: seq<Issue>, x: int)
    requires issues != [] && x != issues[0].row
    ensures OnLine(issues, x) == OnLine(issues[RunLength(issues, issues[0].row)..], x)
  {
    var n := RunLength(issues, issues[0].row);
    var run, rest := issues[..n], issues[n..];
    assert issues == run + rest;
    OnLineAppend(run, rest, x);
    OnLineNone(run, x);
    assert OnLine(issues, x) == [] + OnLine(rest, x);
  }

  /** In line order, the issues after the first run are all on later lines. */
  lemma RestAboveRun(issues: seq<Issue>)
    requires issues != [] && InLineOrder(issues)
    ensures var n := RunLength(issues, issues[0].row);
      && InLineOrder(issues[n..])
      && forall i | n <= i < |issues| :: issues[i].row > issues[0].row
  {
    var n := RunLength(issues, issues[0].row);
    forall i | n <= i < |issues| ensures issues[i].row > issues[0].row {
      assert issues[0].row <= issues[n].row <= issues[i].row;
    }
  }

  /** The aggregation of issues on lines 2 and 3: line 2's codes are joined, line 3's stands alone. */
  lemma TwoLinesExample()
    ensures Group([Issue(2, "A"), Issue(2, "B"), Issue(3, "C")])
      == [ErrorRecord(2, "A-&-B"), ErrorRecord(3, "C")]
  {
    var issues := [Issue(2, "A"), Issue(2, "B"), Issue(3, "C")];
    var last := [Issue(3, "C")];
    assert issues[1..] == [Issue(2, "B")] + last && issues[1..][1..] == last;
    assert RunLength(last, 2) == 0;
    assert issues[..2] == [Issue(2, "A"), Issue(2, "B")] && issues[2..] == last;
    assert Codes(issues[..2]) == ["A", "B"] && ["A", "B"][1..] == ["B"];
    assert JoinWith(["A", "B"], SEPARATOR) == "A-&-B";
    assert last[..1] == last && last[1..] == [] && Codes(last) == ["C"];
    assert Group(last) == [ErrorRecord(3, "C")];
  }

  /**
   * The aggregator starts with an open record for line 0 and an empty
   * message, so issues on line 0 at the very front are added to that record
   * after an empty first code. Line numbers from the converter start at 2,
   * where this makes no difference.
   */
  function Primed(issues: seq<Issue>): (primed: seq<Issue>)
    ensures issues == [] || issues[0].row != 0 ==> primed == issues
  {
    if issues != [] && issues[0].row == 0 then [Issue(0, "")] + issues else issues
  }

  /**
   * The loop over `errorsFound`: `rowKey` and `test` hold the open record,
   * which is written out when an issue on another line arrives (except before
   * the first issue) and after the last issue.
   */
  method AggregateErrors(errorsFound: seq<Issue>) returns (csvRecords: seq<ErrorRecord>)
    ensures csvRecords == Group(Primed(errorsFound))
  {
    var rowKey := 0;
    var test := "";
    var iteration := 0;
    csvRecords := [];

    for k := 0 to |errorsFound|
      invariant iteration == k
      invariant k == 0 ==> rowKey == 0 && test == "" && csvRecords == []
      invariant 0 < k < |errorsFound| ==>
        csvRecords + [ErrorRecord(rowKey, test)] == Group(Primed(errorsFound[..k]))
      invariant 0 < k == |errorsFound| ==> csvRecords == Group(Primed(errorsFound[..k]))
    {
      var error := errorsFound[k];
      if error.row != rowKey {
        if iteration != 0 {
          NewLine(errorsFound, k, csvRecords, rowKey, test);
          csvRecords := csvRecords + [ErrorRecord(rowKey, test)];
        } else {
          FirstIssue(errorsFound);
        }
        test := error.code;
        rowKey := error.row;
      } else {
        if iteration != 0 {
          SameLine(errorsFound, k, csvRecords, rowKey, test);
        } else {
          FirstIssue(errorsFound);
        }
        test := test + SEPARATOR + error.code;
      }
      iteration := iteration + 1;
      if iteration >= |errorsFound| {
        csvRecords := csvRecords + [ErrorRecord(rowKey, test)];
      }
    }
    assert errorsFound[..|errorsFound|] == errorsFound;
    if |errorsFound| == 0 {
      assert Primed(errorsFound) == [];
    }
  }

  /** The open record after the first issue: a line-0 issue is joined to the empty sentinel. */
  lemma FirstIssue(issues: seq<Issue>)
    requires issues != []
    ensures Group(Primed(issues[..1])) ==
      if issues[0].row == 0 then [ErrorRecord(0, "" + SEPARATOR + issues[0].code)]
      else [ErrorRecord(issues[0].row, issues[0].code)]
  {
    AggregateStep(issues, 0);
  }

  /** With `done` written out and `(rowKey, test)` open, an issue on the open line extends its message. */
  lemma SameLine(issues: seq<Issue>, k: nat, done: seq<ErrorRecord>, rowKey: int, test: string)
    requires 0 < k < |issues| && issues[k].row == rowKey
    requires done + [ErrorRecord(rowKey, test)] == Group(Primed(issues[..k]))
    ensures Group(Primed(issues[..k + 1])) == done + [ErrorRecord(rowKey, test + SEPARATOR + issues[k].code)]
  {
    var g := done + [ErrorRecord(rowKey, test)];
    AggregateStep(issues, k);
    assert g[|g| - 1] == ErrorRecord(rowKey, test) && g[..|g| - 1] == done;
  }

  /** With `done` written out and `(rowKey, test)` open, an issue on another line closes the open record and opens its own. */
  lemma NewLine(issues: seq<Issue>, k: nat, done: seq<ErrorRecord>, rowKey: int, test: string)
    requires 0 < k < |issues| && issues[k].row != rowKey
    requires done + [ErrorRecord(rowKey, test)] == Group(Primed(issues[..k]))
    ensures Group(Primed(issues[..k + 1])) == (done + [ErrorRecord(rowKey, test)]) + [ErrorRecord(issues[k].row, issues[k].code)]
  {
    var g := done + [ErrorRecord(rowKey, test)];
    AggregateStep(issues, k);
    assert g[|g| - 1] == ErrorRecord(rowKey, test);
  }

  /** How the reference grouping of a primed prefix grows by one issue. */
  lemma AggregateStep(issues: seq<Issue>, k: nat)
    requires k < |issues|
    ensures k == 0 ==> (
      Group(Primed(issues[..1])) ==
        if issues[0].row == 0 then [ErrorRecord(0, "" + SEPARATOR + issues[0].code)]
        else [ErrorRecord(issues[0].row, issues[0].code)])
    ensures k > 0 ==> (
      var g := Group(Primed(issues[..k]));
      && g != [] && g[|g| - 1].lineNum == issues[k - 1].row
      && Group(Primed(issues[..k + 1])) == AddIssue(g, issues[k]))
  {
    if k == 0 {
      var e := issues[0];
      assert issues[..1] == [e];
      if e.row == 0 {
        assert Primed([e]) == [Issue(0, "")] + [e];
        GroupSnoc([Issue(0, "")], e);
        assert Codes([Issue(0, "")]) == [""];
      } else {
        GroupSnoc([], e);
        assert [] + [e] == [e];
      }
    } else {
      var p := issues[..k];
      assert issues[..k + 1] == p + [issues[k]];
      assert Primed(p + [issues[k]]) == Primed(p) + [issues[k]];
      assert Primed(p)[|Primed(p)| - 1] == issues[k - 1];
      GroupLastRow(Primed(p));
      GroupSnoc(Primed(p), issues[k]);
    }
  }
}
