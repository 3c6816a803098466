/**
 * `ProcessFile`: one detected CSV file, from the processed-name check to the
 * two outputs. The file's lines, its name without directory and extension
 * and the two output directories are parameters; what would be written is
 * returned as an `Outcome` instead of being written.
 */
module Pipeline {
  import opened Wrappers
  import opened RecordParser
  import opened FieldRules
  import opened RowProcessor
  import opened ErrorAggregator
  import opened FileRegistry

  const FIELD_SEPARATOR: char := ','

  /** A data row needs the id, first, middle, last and phone fields. */
  const MIN_FIELDS: nat := 5

  /** A file the converter would create: its path and the records it holds. */
  datatype Artifact<T> = Artifact(path: string, contents: seq<T>)

  /** What processing one CSV file amounts to. */
  datatype Outcome =
      /** The name was already processed: nothing is converted and the CSV is deleted. */
    | AlreadyProcessed
      /** Data row `row` has fewer than five fields: indexing it fails and nothing is written. */
    | RowTooShort(row: int)
      /** The JSON array of users, and the error CSV when at least one issue was found. */
    | Converted(json: Artifact<User>, errors: Option<Artifact<ErrorRecord>>)

  /** A data row after the split: its line number and its fields. */
  datatype DataRow = DataRow(number: int, fields: seq<string>)

  function Fields(line: string): (parts: seq<string>)
    ensures |parts| >= 1
  {
    Split(line, FIELD_SEPARATOR)
  }

  /** Rows with every field the row processor reads. */
  ghost predicate Complete(rows: seq<DataRow>) {
    forall i | 0 <= i < |rows| :: |rows[i].fields| >= MIN_FIELDS
  }

  /**
   * The split rows among the first `k` lines: the header (line 1) is
   * skipped, line `n` (at index `n - 1`) becomes row `n`, and a line with
   * fewer than five fields stops the loop with its number.
   */
  function SplitRows(lines: seq<string>, k: nat): (r: Result<seq<DataRow>, int>)
    requires k <= |lines|
    ensures r.Success? ==> Complete(r.value)
  {
    if k <= 1 then Success([])
    else
      match SplitRows(lines, k - 1)
      case Failure(row) => Failure(row)
      case Success(rows) =>
        var parts := Fields(lines[k - 1]);
        if |parts| < MIN_FIELDS then Failure(k)
        else Success(rows + [DataRow(k, parts)])
  }

  /** `allUsers`: one user per row, in order. */
  function Users(rows: seq<DataRow>): (users: seq<User>)
    requires Complete(rows)
    ensures |users| == |rows|
  {
    seq(|rows|, i requires 0 <= i < |rows| && Complete(rows) => RowUser(rows[i].fields))
  }

  /** The issues of each row, one block per row. */
  function Blocks(rows: seq<DataRow>): (blocks: seq<seq<Issue>>)
    requires Complete(rows)
    ensures |blocks| == |rows|
  {
    if rows == [] then []
    else
      var last := rows[|rows| - 1];
      Blocks(rows[..|rows| - 1]) + [RowIssues(last.fields, last.number)]
  }

  /** The blocks one after the other. */
  function Concat(blocks: seq<seq<Issue>>): seq<Issue> {
    if blocks == [] then [] else Concat(blocks[..|blocks| - 1]) + blocks[|blocks| - 1]
  }

  /** `errorsFound`: each row's issues, row after row. */
  function Issues(rows: seq<DataRow>): seq<Issue>
    requires Complete(rows)
  {
    Concat(Blocks(rows))
  }

  /** Once a row has stopped the loop, later lines change nothing. */
  lemma {:induction false} FailureSticks(lines: seq<string>, k: nat, n: nat)
    requires k <= n <= |lines|
    requires SplitRows(lines, k).Failure?
    ensures SplitRows(lines, n) == SplitRows(lines, k)
    decreases n
  {
    if k < n {
      FailureSticks(lines, k, n - 1);
    }
  }

  /** One more complete row adds its user and its issues at the end. */
  lemma RowsSnoc(rows: seq<DataRow>, number: int, parts: seq<string>)
    requires Complete(rows) && |parts| >= MIN_FIELDS
    ensures Complete(rows + [DataRow(number, parts)])
    ensures Users(rows + [DataRow(number, parts)]) == Users(rows) + [RowUser(parts)]
    ensures Issues(rows + [DataRow(number, parts)]) == Issues(rows) + RowIssues(parts, number)
  {
    assert (rows + [DataRow(number, parts)])[..|rows|] == rows;
  }

  /**
   * The loop over `lines` with its `iter` counter; `iter++ == 0` skips the
   * header, so the first data row is numbered 2.
   */
  method ConvertRows(lines: seq<string>) returns (result: Result<(seq<User>, seq<Issue>), int>)
    ensures SplitRows(lines, |lines|).Failure? ==> result == Failure(SplitRows(lines, |lines|).error)
    ensures SplitRows(lines, |lines|).Success? ==>
      var rows := SplitRows(lines, |lines|).value;
      result == Success((Users(rows), Issues(rows)))
  {
    var allUsers: seq<User> := [];
    var errorsFound: seq<Issue> := [];
    var iter := 0;
    ghost var rows: seq<DataRow> := [];
    for k := 0 to |lines|
      invariant iter == k
      invariant SplitRows(lines, k) == Success(rows) && Complete(rows)
      invariant allUsers == Users(rows)
      invariant errorsFound == Issues(rows)
    {
      var line := lines[k];
      var isHeader := iter == 0;
      iter := iter + 1;
      if isHeader {
        continue;
      }
      var lineParts := Fields(line);
      if |lineParts| < MIN_FIELDS {
        ShortLineStops(lines, k, iter, rows);
        return Failure(iter);
      }
      var loopUser, issues := ProcessRow(lineParts, iter);
      SplitStep(lines, k, iter, rows);
      RowsSnoc(rows, iter, lineParts);
      allUsers := allUsers + [loopUser];
      errorsFound := errorsFound + issues;
      rows := rows + [DataRow(iter, lineParts)];
    }
    result := Success((allUsers, errorsFound));
  }

  /** A data line with fewer than five fields stops the loop with its number. */
  lemma ShortLineStops(lines: seq<string>, k: nat, number: int, rows: seq<DataRow>)
    requires 1 <= k < |lines| && number == k + 1 && SplitRows(lines, k) == Success(rows)
    requires |Fields(lines[k])| < MIN_FIELDS
    ensures SplitRows(lines, |lines|) == Failure(number)
  {
    assert SplitRows(lines, k + 1) == Failure(number);
    FailureSticks(lines, k + 1, |lines|);
  }

  /** A complete data line after a successful split extends the rows by one. */
  lemma SplitStep(lines: seq<string>, k: nat, number: int, rows: seq<DataRow>)
    requires 1 <= k < |lines| && number == k + 1 && SplitRows(lines, k) == Success(rows)
    requires |Fields(lines[k])| >= MIN_FIELDS
    ensures SplitRows(lines, k + 1) == Success(rows + [DataRow(number, Fields(lines[k]))])
  {
  }

  /** The outcome of processing `filename` when `names` have been processed before. */
  function FileOutcome(names: seq<string>, jsonOutputPath: string, errorOutputPath: string,
                       filename: string, lines: seq<string>): (o: Outcome)
    ensures o == AlreadyProcessed <==> filename in names
    ensures o.Converted? ==> o.json.path == jsonOutputPath + filename + ".json"
    ensures o.Converted? && o.errors.Some? ==> o.errors.value.path == errorOutputPath + filename + ".csv"
  {
    if filename in names then AlreadyProcessed
    else
      match SplitRows(lines, |lines|)
      case Failure(row) => RowTooShort(row)
      case Success(rows) =>
        Converted(
          Artifact(jsonOutputPath + filename + ".json", Users(rows)),
          if |Issues(rows)| > 0 then Some(Artifact(errorOutputPath + filename + ".csv", Group(Issues(rows))))
          else None)
  }

  /**
   * Processing one file: the name is recorded before the conversion starts,
   * so a file whose conversion fails is not converted again either.
   */
  method ProcessFile(registry: ProcessedFiles, jsonOutputPath: string, errorOutputPath: string,
                     filename: string, lines: seq<string>) returns (outcome: Outcome)
    requires registry.Valid()
    modifies registry
    ensures registry.Valid()
    ensures registry.names == Registered(old(registry.names), filename)
    ensures outcome == FileOutcome(old(registry.names), jsonOutputPath, errorOutputPath, filename, lines)
  {
    var admitted := registry.Admit(filename);
    if !admitted {
      return AlreadyProcessed;
    }
    var converted := ConvertRows(lines);
    if converted.Failure? {
      return RowTooShort(converted.error);
    }
    var (allUsers, errorsFound) := converted.value;
    var json := Artifact(jsonOutputPath + filename + ".json", allUsers);
    if |errorsFound| > 0 {
      IssuesInLineOrder(lines, |lines|);
      var csvRecords := AggregateErrors(errorsFound);
      outcome := Converted(json, Some(Artifact(errorOutputPath + filename + ".csv", csvRecords)));
    } else {
      outcome := Converted(json, None);
    }
  }

  /** The loop stops exactly at the first data row with fewer than five fields. */
  lemma {:induction false} ConvertedOrStopped(lines: seq<string>, k: nat)
    requires k <= |lines|
    ensures SplitRows(lines, k).Success? <==>
      forall j | 1 <= j < k :: |Fields(lines[j])| >= MIN_FIELDS
    ensures SplitRows(lines, k).Failure? ==>
      var row := SplitRows(lines, k).error;
      && 2 <= row <= k
      && |Fields(lines[row - 1])| < MIN_FIELDS
      && forall j | 1 <= j < row - 1 :: |Fields(lines[j])| >= MIN_FIELDS
    decreases k
  {
    if k > 1 {
      ConvertedOrStopped(lines, k - 1);
    }
  }

  /** Every data line becomes one row, numbered by its line, in file order. */
  lemma {:induction false} RowsFollowLines(lines: seq<string>, k: nat)
    requires k <= |lines|
    requires SplitRows(lines, k).Success?
    ensures var rows := SplitRows(lines, k).value;
      && |rows| == (if k == 0 then 0 else k - 1)
      && forall i | 0 <= i < |rows| :: rows[i] == DataRow(i + 2, Fields(lines[i + 1]))
    decreases k
  {
    if k > 1 {
      RowsFollowLines(lines, k - 1);
    }
  }

  /** Every data line gives one user, in file order, built from that line's fields. */
  lemma ConvertedUsers(lines: seq<string>, rows: seq<DataRow>)
    requires SplitRows(lines, |lines|) == Success(rows)
    ensures |Users(rows)| == (if |lines| == 0 then 0 else |lines| - 1)
    ensures forall j | 1 <= j < |lines| ::
      |Fields(lines[j])| >= MIN_FIELDS && Users(rows)[j - 1] == RowUser(Fields(lines[j]))
  {
    RowsFollowLines(lines, |lines|);
    forall j | 1 <= j < |lines|
      ensures |Fields(lines[j])| >= MIN_FIELDS && Users(rows)[j - 1] == RowUser(Fields(lines[j]))
    {
      assert rows[j - 1] == DataRow(j + 1, Fields(lines[j]));
    }
  }

  lemma RowsNumbered(lines: seq<string>, k: nat, rows: seq<DataRow>)
    requires k <= |lines|
    requires SplitRows(lines, k) == Success(rows)
    ensures |rows| == (if k == 0 then 0 else k - 1)
    ensures NumberedFrom(rows, 2)
  {
    RowsFollowLines(lines, k);
  }

  /** Rows numbered `lo`, `lo + 1`, ... in order. */
  ghost predicate NumberedFrom(rows: seq<DataRow>, lo: int) {
    forall i | 0 <= i < |rows| :: rows[i].number == lo + i
  }

  /** Block `i` holds only issues on line `lo + i`. */
  ghost predicate OnConsecutiveLines(blocks: seq<seq<Issue>>, lo: int) {
    forall i, j | 0 <= i < |blocks| && 0 <= j < |blocks[i]| :: blocks[i][j].row == lo + i
  }

  lemma BlocksOnRowLines(rows: seq<DataRow>, lo: int)
    requires Complete(rows) && NumberedFrom(rows, lo)
    ensures OnConsecutiveLines(Blocks(rows), lo)
  {
    forall i | 0 <= i < |rows|
      ensures forall j | 0 <= j < |Blocks(rows)[i]| :: Blocks(rows)[i][j].row == lo + i
    {
      BlockAt(rows, i);
      ProcessRowLine(rows[i].fields, rows[i].number);
    }
  }

  /** Blocks on consecutive lines concatenate to issues in line order, within those lines. */
  lemma {:induction false} ConcatInLineOrder(blocks: seq<seq<Issue>>, lo: int)
    requires OnConsecutiveLines(blocks, lo)
    ensures var issues := Concat(blocks);
      && InLineOrder(issues)
      && forall i | 0 <= i < |issues| :: lo <= issues[i].row < lo + |blocks|
    decreases |blocks|
  {
    if blocks != [] {
      var init := blocks[..|blocks| - 1];
      ConcatInLineOrder(init, lo);
      AppendInLineOrder(Concat(init), blocks[|blocks| - 1], lo, lo + |init|);
    }
  }

  /** The issues on line `line` are the block of that line. */
  lemma BlockOnItsLine(blocks: seq<seq<Issue>>, lo: int, line: int)
    requires OnConsecutiveLines(blocks, lo) && lo <= line < lo + |blocks|
    ensures OnLine(Concat(blocks), line) == blocks[line - lo]
  {
    ConcatOnLine(blocks, lo);
    assert OnLine(Concat(blocks), lo + (line - lo)) == blocks[line - lo];
  }

  /** Issues on lines below `mid`, in line order, followed by issues all on line `mid`. */
  lemma AppendInLineOrder(before: seq<Issue>, added: seq<Issue>, lo: int, mid: int)
    requires lo <= mid && InLineOrder(before)
    requires forall i | 0 <= i < |before| :: lo <= before[i].row < mid
    requires forall i | 0 <= i < |added| :: added[i].row == mid
    ensures InLineOrder(before + added)
    ensures forall i | 0 <= i < |before + added| :: lo <= (before + added)[i].row < mid + 1
  {
    var issues := before + added;
    forall i, j | 0 <= i < j < |issues| ensures issues[i].row <= issues[j].row {
      if j >= |before| {
        assert issues[j] == added[j - |before|];
        if i >= |before| {
          assert issues[i] == added[i - |before|];
        }
      }
    }
    forall i | 0 <= i < |issues| ensures lo <= issues[i].row < mid + 1 {
      if i >= |before| {
        assert issues[i] == added[i - |before|];
      }
    }
  }

  /** In blocks on consecutive lines, the issues of line `lo + i` are block `i`. */
  lemma {:induction false} ConcatOnLine(blocks: seq<seq<Issue>>, lo: int)
    requires OnConsecutiveLines(blocks, lo)
    ensures forall i | 0 <= i < |blocks| :: OnLine(Concat(blocks), lo + i) == blocks[i]
    decreases |blocks|
  {
    if blocks != [] {
      var init := blocks[..|blocks| - 1];
      var last := blocks[|blocks| - 1];
      assert blocks == init + [last];
      ConcatOnLine(init, lo);
      forall i | 0 <= i < |blocks| ensures OnLine(Concat(blocks), lo + i) == blocks[i] {
        if i < |init| {
          EarlierBlockOnLine(init, last, lo, i);
        } else {
          LastBlockOnLine(init, last, lo);
        }
      }
    }
  }

  /** A block added on the next line leaves the issues of earlier lines as they were. */
  lemma EarlierBlockOnLine(init: seq<seq<Issue>>, last: seq<Issue>, lo: int, i: int)
    requires 0 <= i < |init| && OnLine(Concat(init), lo + i) == init[i]
    requires forall j | 0 <= j < |last| :: last[j].row == lo + |init|
    ensures OnLine(Concat(init + [last]), lo + i) == init[i]
  {
    assert (init + [last])[..|init|] == init;
    OnLineAppend(Concat(init), last, lo + i);
    OnLineNone(last, lo + i);
  }

  /** The issues of the line of a block added after blocks on consecutive lines are that block. */
  lemma LastBlockOnLine(init: seq<seq<Issue>>, last: seq<Issue>, lo: int)
    requires OnConsecutiveLines(init, lo)
    requires forall j | 0 <= j < |last| :: last[j].row == lo + |init|
    ensures OnLine(Concat(init + [last]), lo + |init|) == last
  {
    assert (init + [last])[..|init|] == init;
    ConcatInLineOrder(init, lo);
    OnLineAppend(Concat(init), last, lo + |init|);
    OnLineNone(Concat(init), lo + |init|);
    OnLineAll(last, lo + |init|);
  }

  /** The issues are numbered by line, from 2 up to the last line, and come in line order. */
  lemma IssuesInLineOrder(lines: seq<string>, k: nat)
    requires k <= |lines|
    requires SplitRows(lines, k).Success?
    ensures var issues := Issues(SplitRows(lines, k).value);
      && InLineOrder(issues)
      && forall i | 0 <= i < |issues| :: 2 <= issues[i].row <= k
  {
    var rows := SplitRows(lines, k).value;
    RowsFollowLines(lines, k);
    BlocksOnRowLines(rows, 2);
    ConcatInLineOrder(Blocks(rows), 2);
  }

  /** The issues of line `row` are exactly those the row processor reports for that line. */
  lemma IssuesOfLine(lines: seq<string>, k: nat, rows: seq<DataRow>, row: int)
    requires k <= |lines| && 2 <= row <= k
    requires SplitRows(lines, k) == Success(rows)
    ensures |Fields(lines[row - 1])| >= MIN_FIELDS
    ensures OnLine(Issues(rows), row) == RowIssues(Fields(lines[row - 1]), row)
  {
    RowsNumbered(lines, k, rows);
    RowOfLine(lines, k, rows, row);
    IssuesOfRow(rows, row, Fields(lines[row - 1]));
  }

  /** On rows numbered from 2, the issues of line `row` are the report on the row with that number. */
  lemma IssuesOfRow(rows: seq<DataRow>, row: int, fields: seq<string>)
    requires Complete(rows) && NumberedFrom(rows, 2) && 2 <= row < 2 + |rows|
    requires rows[row - 2] == DataRow(row, fields)
    ensures |fields| >= MIN_FIELDS
    ensures OnLine(Issues(rows), row) == RowIssues(fields, row)
  {
    LineIsBlock(rows, 2, row);
    BlockAt(rows, row - 2);
  }

  /** On rows numbered from `lo`, the issues of a row's line are the block of that row. */
  lemma LineIsBlock(rows: seq<DataRow>, lo: int, line: int)
    requires Complete(rows) && NumberedFrom(rows, lo) && lo <= line < lo + |rows|
    ensures OnLine(Issues(rows), line) == Blocks(rows)[line - lo]
  {
    BlocksOnRowLines(rows, lo);
    BlockOnItsLine(Blocks(rows), lo, line);
  }

  lemma BlockOfLine(lines: seq<string>, k: nat, rows: seq<DataRow>, row: int)
    requires k <= |lines| && 2 <= row <= k
    requires SplitRows(lines, k) == Success(rows)
    ensures |rows| == k - 1
    ensures |Fields(lines[row - 1])| >= MIN_FIELDS
    ensures Blocks(rows)[row - 2] == RowIssues(Fields(lines[row - 1]), row)
  {
    RowOfLine(lines, k, rows, row);
    BlockAt(rows, row - 2);
  }

  /** Line `row` becomes row `row - 2` of the split. */
  lemma RowOfLine(lines: seq<string>, k: nat, rows: seq<DataRow>, row: int)
    requires k <= |lines| && 2 <= row <= k
    requires SplitRows(lines, k) == Success(rows)
    ensures |rows| == k - 1
    ensures rows[row - 2] == DataRow(row, Fields(lines[row - 1]))
  {
    RowsFollowLines(lines, k);
  }

  /** Block `i` is the row processor's report on row `i`. */
  lemma {:induction false} BlockAt(rows: seq<DataRow>, i: int)
    requires Complete(rows) && 0 <= i < |rows|
    ensures Blocks(rows)[i] == RowIssues(rows[i].fields, rows[i].number)
    decreases |rows|
  {
    if i < |rows| - 1 {
      BlockAt(rows[..|rows| - 1], i);
    }
  }

  /** The error file lists each line at most once, in increasing line order. */
  lemma ErrorLinesIncrease(blocks: seq<seq<Issue>>, lo: int)
    requires OnConsecutiveLines(blocks, lo)
    ensures var g := Group(Concat(blocks));
      forall k, l | 0 <= k < l < |g| :: g[k].lineNum < g[l].lineNum
  {
    ConcatInLineOrder(blocks, lo);
    GroupLinesIncrease(Concat(blocks));
  }

  /**
   * Each record of the error file names a row with at least one issue, and
   * its message is the codes of that row's issues joined by `-&-`, in the
   * order the row processor reports them.
   */
  lemma ErrorMessages(blocks: seq<seq<Issue>>, lo: int)
    requires OnConsecutiveLines(blocks, lo)
    ensures var g := Group(Concat(blocks));
      forall k | 0 <= k < |g| ::
        && lo <= g[k].lineNum < lo + |blocks|
        && blocks[g[k].lineNum - lo] != []
        && g[k].errorMsg == JoinWith(Codes(blocks[g[k].lineNum - lo]), SEPARATOR)
  {
    var g := Group(Concat(blocks));
    forall k | 0 <= k < |g|
      ensures && lo <= g[k].lineNum < lo + |blocks|
              && blocks[g[k].lineNum - lo] != []
              && g[k].errorMsg == JoinWith(Codes(blocks[g[k].lineNum - lo]), SEPARATOR)
    {
      RecordMessage(blocks, lo, k);
    }
  }

  /** Record `k` of the error file carries the codes of the block of its line. */
  lemma RecordMessage(blocks: seq<seq<Issue>>, lo: int, k: int)
    requires OnConsecutiveLines(blocks, lo) && 0 <= k < |Group(Concat(blocks))|
    ensures lo <= Group(Concat(blocks))[k].lineNum < lo + |blocks|
    ensures blocks[Group(Concat(blocks))[k].lineNum - lo] != []
    ensures Group(Concat(blocks))[k].errorMsg
      == JoinWith(Codes(blocks[Group(Concat(blocks))[k].lineNum - lo]), SEPARATOR)
  {
    var issues := Concat(blocks);
    RecordLineInRange(blocks, lo, k);
    ConcatInLineOrder(blocks, lo);
    RecordCollects(issues, k);
    BlockOnItsLine(blocks, lo, Group(issues)[k].lineNum);
  }

  /** Every record of the error file is on the line of one of the rows. */
  lemma RecordLineInRange(blocks: seq<seq<Issue>>, lo: int, k: int)
    requires OnConsecutiveLines(blocks, lo) && 0 <= k < |Group(Concat(blocks))|
    ensures lo <= Group(Concat(blocks))[k].lineNum < lo + |blocks|
  {
    var issues := Concat(blocks);
    ConcatInLineOrder(blocks, lo);
    RecordsHaveIssues(issues);
    var i :| 0 <= i < |issues| && issues[i].row == Group(issues)[k].lineNum;
  }

  /** Every row with an issue has its record in the error file. */
  lemma ErrorLinesCovered(blocks: seq<seq<Issue>>, lo: int)
    requires OnConsecutiveLines(blocks, lo)
    ensures forall i | 0 <= i < |blocks| && blocks[i] != [] :: Reported(Group(Concat(blocks)), lo + i)
  {
    forall i | 0 <= i < |blocks| && blocks[i] != []
      ensures Reported(Group(Concat(blocks)), lo + i)
    {
      RowReported(blocks, lo, i);
    }
  }

  lemma RowReported(blocks: seq<seq<Issue>>, lo: int, i: int)
    requires OnConsecutiveLines(blocks, lo)
    requires 0 <= i < |blocks| && blocks[i] != []
    ensures Reported(Group(Concat(blocks)), lo + i)
  {
    RowOnItsLine(blocks, lo, i);
    LineReported(Concat(blocks), lo + i);
  }

  /** The issues on the line of row `i` are the block of row `i`. */
  lemma RowOnItsLine(blocks: seq<seq<Issue>>, lo: int, i: int)
    requires OnConsecutiveLines(blocks, lo) && 0 <= i < |blocks|
    ensures OnLine(Concat(blocks), lo + i) == blocks[i]
  {
    ConcatOnLine(blocks, lo);
  }

  /** Concatenated blocks are empty exactly when every block is. */
  lemma {:induction false} ConcatEmpty(blocks: seq<seq<Issue>>)
    ensures Concat(blocks) == [] <==> forall i | 0 <= i < |blocks| :: blocks[i] == []
    decreases |blocks|
  {
    if blocks != [] {
      ConcatEmpty(blocks[..|blocks| - 1]);
    }
  }

  /**
   * The blocks behind the error file: one per data line, in file order, the
   * block of line `n` holding only issues on line `n` (`BlockOfLine` says
   * which issues).
   */
  lemma LineBlocks(lines: seq<string>, rows: seq<DataRow>)
    requires SplitRows(lines, |lines|) == Success(rows)
    ensures |Blocks(rows)| == (if |lines| == 0 then 0 else |lines| - 1)
    ensures OnConsecutiveLines(Blocks(rows), 2)
  {
    RowsNumbered(lines, |lines|, rows);
    BlocksOnRowLines(rows, 2);
  }

  /**
   * A new file whose rows are all complete is converted: the JSON file holds
   * the users, and the error file is written exactly when some row has an
   * issue, holding the grouped issues of all rows.
   */
  lemma NewFileConverted(names: seq<string>, jsonOutputPath: string, errorOutputPath: string,
                         filename: string, lines: seq<string>, rows: seq<DataRow>)
    requires filename !in names && SplitRows(lines, |lines|) == Success(rows)
    ensures FileOutcome(names, jsonOutputPath, errorOutputPath, filename, lines)
      == Converted(
           Artifact(jsonOutputPath + filename + ".json", Users(rows)),
           FileOutcome(names, jsonOutputPath, errorOutputPath, filename, lines).errors)
    ensures FileOutcome(names, jsonOutputPath, errorOutputPath, filename, lines).errors.None?
      <==> forall i | 0 <= i < |Blocks(rows)| :: Blocks(rows)[i] == []
    ensures FileOutcome(names, jsonOutputPath, errorOutputPath, filename, lines).errors.Some? ==>
      FileOutcome(names, jsonOutputPath, errorOutputPath, filename, lines).errors.value
        == Artifact(errorOutputPath + filename + ".csv", Group(Concat(Blocks(rows))))
  {
    ErrorFileIffIssues(names, jsonOutputPath, errorOutputPath, filename, lines, rows);
    NoIssuesExactly(rows);
  }

  /** No issue is found exactly when every row's block is empty. */
  lemma NoIssuesExactly(rows: seq<DataRow>)
    requires Complete(rows)
    ensures Concat(Blocks(rows)) == [] <==> forall i | 0 <= i < |Blocks(rows)| :: Blocks(rows)[i] == []
  {
    ConcatEmpty(Blocks(rows));
  }

  lemma ErrorFileIffIssues(names: seq<string>, jsonOutputPath: string, errorOutputPath: string,
                           filename: string, lines: seq<string>, rows: seq<DataRow>)
    requires filename !in names && SplitRows(lines, |lines|) == Success(rows)
    ensures FileOutcome(names, jsonOutputPath, errorOutputPath, filename, lines).errors.None? <==> Issues(rows) == []
  {
  }
}
