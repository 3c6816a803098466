/**
 * Two files run through `ProcessFile` from end to end: a clean row that
 * reaches the JSON output unchanged with no error file, and a row with three
 * issues that become one record of the error file.
 */
module WorkedCases {
  import opened Wrappers
  import opened RecordParser
  import opened FieldRules
  import opened RowProcessor
  import opened ErrorAggregator
  import opened Pipeline

  /** The line splits into the five fields it was joined from. */
  lemma FieldsOf(fields: seq<string>, line: string)
    requires |fields| == 5
    requires forall i | 0 <= i < 5 :: FIELD_SEPARATOR !in fields[i]
    requires line == fields[0] + [','] + fields[1] + [','] + fields[2] + [','] + fields[3] + [','] + fields[4]
    ensures Fields(line) == fields
  {
    var sep := FIELD_SEPARATOR;
    assert fields[1..][1..][1..][1..] == [fields[4]];
    assert Join(fields[1..][1..][1..], sep) == fields[3] + [sep] + fields[4];
    assert Join(fields[1..][1..], sep) == fields[2] + [sep] + fields[3] + [sep] + fields[4];
    assert Join(fields[1..], sep) == fields[1] + [sep] + fields[2] + [sep] + fields[3] + [sep] + fields[4];
    assert Join(fields, sep) == line;
    SplitJoin(fields, sep);
  }

  /** A file of a header and one data line: the data line is row 2. */
  lemma OneDataLine(header: string, line: string)
    requires |Fields(line)| >= MIN_FIELDS
    ensures SplitRows([header, line], 2) == Success([DataRow(2, Fields(line))])
    ensures Users([DataRow(2, Fields(line))]) == [RowUser(Fields(line))]
    ensures Issues([DataRow(2, Fields(line))]) == RowIssues(Fields(line), 2)
  {
    var rows := [DataRow(2, Fields(line))];
    assert SplitRows([header, line], 1) == Success([]);
    assert [] + rows == rows;
    RowsSnoc([], 2, Fields(line));
    assert Issues([]) == [];
  }

  /**
   * A new file of a header and one data line gives that line's user, and an
   * error file exactly when the line has issues, holding their grouping.
   */
  lemma OneRowFile(names: seq<string>, jsonOutputPath: string, errorOutputPath: string,
                   filename: string, header: string, line: string)
    requires filename !in names && |Fields(line)| >= MIN_FIELDS
    ensures FileOutcome(names, jsonOutputPath, errorOutputPath, filename, [header, line])
      == Converted(
           Artifact(jsonOutputPath + filename + ".json", [RowUser(Fields(line))]),
           if RowIssues(Fields(line), 2) == [] then None
           else Some(Artifact(errorOutputPath + filename + ".csv", Group(RowIssues(Fields(line), 2)))))
  {
    OneDataLine(header, line);
  }

  lemma SevenDigitValue()
    ensures DigitsValue("1234567") == 1234567
  {
    assert DigitsValue("1") == 1;
    assert DigitsValue("12") == 12 by { assert "12"[..1] == "1"; }
    assert DigitsValue("123") == 123 by { assert "123"[..2] == "12"; }
    assert DigitsValue("1234") == 1234 by { assert "1234"[..3] == "123"; }
    assert DigitsValue("12345") == 12345 by { assert "12345"[..4] == "1234"; }
    assert DigitsValue("123456") == 123456 by { assert "123456"[..5] == "12345"; }
    assert "1234567"[..6] == "123456";
  }

  lemma EightDigitValue()
    ensures DigitsValue("12345678") == 12345678
  {
    SevenDigitValue();
    assert "12345678"[..7] == "1234567";
  }

  /**
   * A header and the line `12345678,Jane,,Doe,555-123-4567` give one user
   * with id 12345678, no `middle` key and the phone as written, and no error
   * file.
   */
  lemma CleanRowConverted(names: seq<string>, jsonOutputPath: string, errorOutputPath: string,
                          filename: string, header: string, line: string)
    requires filename !in names
    requires line == "12345678,Jane,,Doe,555-123-4567"
    ensures FileOutcome(names, jsonOutputPath, errorOutputPath, filename, [header, line])
      == Converted(
           Artifact(jsonOutputPath + filename + ".json",
                    [User(12345678, FullName("Jane", None, "Doe"), "555-123-4567")]),
           None)
  {
    var fields := ["12345678", "Jane", "", "Doe", "555-123-4567"];
    assert line == fields[0] + [','] + fields[1] + [','] + fields[2] + [','] + fields[3] + [','] + fields[4];
    FieldsOf(fields, line);
    OneRowFile(names, jsonOutputPath, errorOutputPath, filename, header, line);
    CleanFieldsValid(fields);
    CleanRowPassesUnchanged(fields);
    EightDigitValue();
  }

  lemma CleanFieldsValid(fields: seq<string>)
    requires fields == ["12345678", "Jane", "", "Doe", "555-123-4567"]
    ensures AllDigits(fields[0]) && PhoneShape(fields[4])
  {
    var id, phone := fields[0], fields[4];
    assert id == "12345678";
    assert forall i | 0 <= i < 8 :: IsAsciiDigit(id[i]);
    assert phone == "555-123-4567";
    assert forall i | 0 <= i < 12 :: if i == 3 || i == 7 then phone[i] == '-' else IsAsciiDigit(phone[i]);
  }

  lemma AllDigitsShortId(id: string)
    requires id == "1234567"
    ensures AllDigits(id)
  {
  }

  /** An all-digit id of the wrong length is reported only as not 8 digits, and keeps its value. */
  lemma DigitIdOfWrongLength(id: string)
    requires 1 <= |id| < ID_LENGTH && AllDigits(id)
    ensures IdChecks(id) == [IdNotEightDigits]
    ensures ParsedId(id) == DigitsValue(id)
  {
    DigitsHaveNoHyphen(id);
    ShortDigitsValue(id);
    assert !IsSign(id[0]) && !IsSign(id[|id| - 1]);
  }

  /**
   * A row with an all-digit id of the wrong length, empty first and middle
   * names, a valid last name and a phone of nine characters has exactly the
   * codes for the id length, the first name and the phone format.
   */
  lemma ShortIdRowChecks(fields: seq<string>)
    requires |fields| == 5 && 1 <= |fields[0]| < ID_LENGTH && AllDigits(fields[0])
    requires fields[1] == [] && fields[2] == [] && 1 <= |fields[3]| <= MAX_NAME_LENGTH && |fields[4]| == 9
    ensures RowChecks(fields) == [IdNotEightDigits, FirstEmpty, PhoneBadFormat]
    ensures RowUser(fields) == User(DigitsValue(fields[0]), FullName("", None, fields[3]), fields[4])
  {
    DigitIdOfWrongLength(fields[0]);
    assert FirstNameChecks(fields[1]) == [FirstEmpty];
    assert MiddleNameChecks(fields[2]) == [];
    assert LastNameChecks(fields[3]) == [];
    assert PhoneChecks(fields[4]) == [PhoneBadFormat];
  }

  /** The error message of the row `1234567,,,Doe,bad-phone`. */
  lemma ShortIdMessage(codes: seq<string>)
    requires codes == [Code(IdNotEightDigits), Code(FirstEmpty), Code(PhoneBadFormat)]
    ensures JoinWith(codes, SEPARATOR)
      == "INTERNAL_ID-is-not-8-digits" + "-&-" + "FIRST_NAME-cannot-be-empty" + "-&-" + "PHONE_NUM-not-formatted-correctly"
  {
    assert codes[1..][1..] == [codes[2]];
    assert JoinWith(codes[1..], SEPARATOR) == codes[1] + SEPARATOR + codes[2];
  }

  /** Three issues on one line make one record with their codes joined in order. */
  lemma GroupOneLine(issues: seq<Issue>)
    requires |issues| == 3 && issues[0].row == issues[1].row == issues[2].row
    ensures Group(issues) == [ErrorRecord(issues[0].row, JoinWith(Codes(issues), SEPARATOR))]
  {
    assert issues[1..][1..][1..] == [];
    assert RunLength(issues, issues[0].row) == 3;
    assert issues[..3] == issues && issues[3..] == [];
  }

  /**
   * A header and the line `1234567,,,Doe,bad-phone` give one user with id
   * 1234567, an empty first name and no `middle` key, and an error file with
   * the single record for line 2 holding its three codes joined by `-&-`.
   */
  lemma IssuesGroupedOnOneRecord(names: seq<string>, jsonOutputPath: string, errorOutputPath: string,
                                 filename: string, header: string, line: string)
    requires filename !in names
    requires line == "1234567,,,Doe,bad-phone"
    ensures FileOutcome(names, jsonOutputPath, errorOutputPath, filename, [header, line])
      == Converted(
           Artifact(jsonOutputPath + filename + ".json",
                    [User(1234567, FullName("", None, "Doe"), "bad-phone")]),
           Some(Artifact(errorOutputPath + filename + ".csv",
             [ErrorRecord(2, "INTERNAL_ID-is-not-8-digits" + "-&-" + "FIRST_NAME-cannot-be-empty"
                             + "-&-" + "PHONE_NUM-not-formatted-correctly")])))
  {
    var fields := ["1234567", "", "", "Doe", "bad-phone"];
    assert line == fields[0] + [','] + fields[1] + [','] + fields[2] + [','] + fields[3] + [','] + fields[4];
    FieldsOf(fields, line);
    OneRowFile(names, jsonOutputPath, errorOutputPath, filename, header, line);
    assert AllDigits(fields[0]) by { AllDigitsShortId(fields[0]); }
    ShortIdRowChecks(fields);
    SevenDigitValue();
    ShortIdRecord(fields);
  }

  /** The codes of the row `1234567,,,Doe,bad-phone` on line 2 make one error record. */
  lemma ShortIdRecord(fields: seq<string>)
    requires |fields| >= 5 && RowChecks(fields) == [IdNotEightDigits, FirstEmpty, PhoneBadFormat]
    ensures RowIssues(fields, 2) != []
    ensures Group(RowIssues(fields, 2))
      == [ErrorRecord(2, "INTERNAL_ID-is-not-8-digits" + "-&-" + "FIRST_NAME-cannot-be-empty"
                         + "-&-" + "PHONE_NUM-not-formatted-correctly")]
  {
    var issues := RowIssues(fields, 2);
    assert issues == Tag(2, [IdNotEightDigits, FirstEmpty, PhoneBadFormat]);
    assert issues == [Issue(2, Code(IdNotEightDigits)), Issue(2, Code(FirstEmpty)), Issue(2, Code(PhoneBadFormat))];
    GroupOneLine(issues);
    ShortIdMessage(Codes(issues));
  }
}
