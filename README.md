# CSVtoJSONExperience — a Dafny model of `ProcessFile`

CSVtoJSONExperience is a console program. It watches a directory for CSV
files of user records and converts each new file to JSON. Rows with invalid
fields are still converted. A second CSV, also named after the input file,
lists per line which checks failed. This project models `ProcessFile`, the
routine that handles one detected file, and proves what it produces.

The modules follow the stages of `ProcessFile`:

- `RecordParser`: `line.Split(",")`. There is no quoting. Splitting and
  joining are inverse to each other.
- `FieldRules`: the single-field tests.
  - Digits and signs.
  - `Int32.TryParse`, restricted to digits and one sign. A failed parse
    leaves 0 in the output variable.
  - Hyphen stripping and the 15-character truncation of names.
  - The phone pattern `^[0-9]{3}-[0-9]{3}-[0-9]{4}$`.
- `RowProcessor`: the body of the row loop, as the method `ProcessRow`.
  The `User` class (CSVtoJSONExperience/Program.cs:356-360) becomes the datatype `User`, with
  the `name` dictionary as `FullName`.
  - It runs the eleven field checks in their fixed order and truncates long
    names in place.
  - It builds the `User` for the JSON array, whose `middle` key is left out
    when the middle name is empty.
  - It is proved equal to the functions `RowIssues` and `RowUser`. Lemmas
    state when each issue code fires, the order of the codes and how names
    are output.
- `ErrorAggregator`: the loop that folds the collected issues into error
  records, as the method `AggregateErrors`.
  - Each record is a `LINE_NUM` and an `ERROR_MSG`. The message is the
    line's codes joined by `-&-`.
  - The loop is proved equal to the reference grouping `Group`. The
    grouping is proved to give one record per line with issues, in
    increasing line order, each holding all the codes of its line.
- `FileRegistry`: the list of processed names, as the class
  `ProcessedFiles`. A name is added before its file is converted, and a
  known name is turned away.
- `Pipeline`: `ProcessFile` itself, as a method.
  - The row loop (`ConvertRows`) skips the header and numbers data rows
    from 2 by their line.
  - It stops the file at the first row with fewer than five fields.
  - It returns the JSON artifact, plus the error artifact when at least one
    issue was found.
  - Lemmas connect the outputs back to the input lines, line by line.
- `WorkedCases`: two one-line files run through the whole pipeline.
  - A clean row gives its user and no error file.
  - A row with a short id, an empty first name and a malformed phone gives
    its user and one error record with the three codes in check order.

The file system is replaced by values. The input file is its sequence of
lines. The name without directory and extension is a parameter, and so are
the two output directories. What would be written is returned as an
`Outcome`: the path and the records of each file.

## Model

| member | source | states |
|---|---|---|
| RecordParser.Split | CSVtoJSONExperience/Program.cs:202 | a line always has at least one field, and no field contains the separator |
| RecordParser.JoinSplit | CSVtoJSONExperience/Program.cs:202 | splitting loses nothing: joining the fields with `,` gives the line back |
| RecordParser.SplitJoin | CSVtoJSONExperience/Program.cs:202 | fields free of `,` are recovered by splitting their join |
| RecordParser.FieldCount | CSVtoJSONExperience/Program.cs:202 | a line with k commas has k + 1 fields, empty ones included |
| FieldRules.TryParseInt32 | CSVtoJSONExperience/Program.cs:214 | a successful parse lies in the 32-bit signed range and the text has a digit |
| FieldRules.ParsedId | CSVtoJSONExperience/Program.cs:186-187 | the id is the parsed value, or 0 when the parse fails |
| FieldRules.EightDigitsParse | CSVtoJSONExperience/Program.cs:210-221 | eight ASCII digits parse to their decimal value, which is at least 0 and below 10^8 |
| FieldRules.RemoveHyphens | CSVtoJSONExperience/Program.cs:210 | the result has no `-`, is no longer than the input, keeps every other character and leaves hyphen-free text unchanged |
| FieldRules.RemoveHyphensAppend | CSVtoJSONExperience/Program.cs:210 | hyphen removal distributes over concatenation |
| FieldRules.InnerHyphenFailsParse | CSVtoJSONExperience/Program.cs:214 | a `-` strictly inside the text makes the parse fail and leaves 0 |
| FieldRules.TrailingMinusParses | CSVtoJSONExperience/Program.cs:214 | up to eight digits followed by `-` parse to the negated value of the digits |
| FieldRules.PhonePatternIsShape | CSVtoJSONExperience/Program.cs:267-268 | away from line feeds, the anchored pattern accepts exactly `DDD-DDD-DDDD` |
| FieldRules.Truncate | CSVtoJSONExperience/Program.cs:228-259 | the result is a prefix of the input with length min(length, 15) |
| RowProcessor.ProcessRow | CSVtoJSONExperience/Program.cs:198-291 | the loop body appends exactly `RowIssues` for the row and builds exactly `RowUser`; every issue carries the row's `iter` |
| RowProcessor.ProcessRowLine | CSVtoJSONExperience/Program.cs:205-271 | every issue of a row is on that row's line |
| RowProcessor.IdGuardsReport | CSVtoJSONExperience/Program.cs:206-221 | for any outcome of the four id tests, each id code is reported exactly when its test fires |
| RowProcessor.IdGuardsInOrder | CSVtoJSONExperience/Program.cs:206-221 | for any outcome of the four id tests, the id codes come in the order of the tests, each at most once |
| RowProcessor.IdChecksExactly | CSVtoJSONExperience/Program.cs:206-221 | empty id, not 8 characters without hyphens, failed parse and negative parse each give their code exactly when they hold, in that order |
| RowProcessor.FirstNameChecksExactly | CSVtoJSONExperience/Program.cs:224-231 | an empty first name and one longer than 15 each give their code exactly when they hold |
| RowProcessor.MiddleNameChecksExactly | CSVtoJSONExperience/Program.cs:237-244 | only a middle name longer than 15 is an issue |
| RowProcessor.LastNameChecksExactly | CSVtoJSONExperience/Program.cs:250-257 | an empty last name and one longer than 15 each give their code exactly when they hold |
| RowProcessor.PhoneChecksExactly | CSVtoJSONExperience/Program.cs:263-271 | an empty phone and a phone failing the pattern each give their code exactly when they hold |
| RowProcessor.RowChecksInCheckOrder | CSVtoJSONExperience/Program.cs:205-271 | a row's codes come in the fixed order id, first, middle, last, phone, each at most once |
| RowProcessor.RowBands | CSVtoJSONExperience/Program.cs:205-271 | a code of one field appears in the row exactly when that field's validator reports it |
| RowProcessor.RowChecksExactly | CSVtoJSONExperience/Program.cs:205-271 | all checks run: each of the eleven codes is reported exactly when its own condition holds |
| RowProcessor.CleanRowPassesUnchanged | CSVtoJSONExperience/Program.cs:205-291 | a row with an 8-digit id, names of valid length and a well-formed phone has no issue, and its fields reach the output unchanged |
| RowProcessor.LongNamesTruncated | CSVtoJSONExperience/Program.cs:228-260 | a name longer than 15 is reported and output as its first 15 characters; a shorter one is output unchanged |
| RowProcessor.EmptyNames | CSVtoJSONExperience/Program.cs:224-287 | `middle` is left out exactly when the middle name is empty, which is no issue; empty first and last names are issues but still output |
| RowProcessor.IdChecksQuirks | CSVtoJSONExperience/Program.cs:210-221 | the length test ignores hyphens; a failed parse gives id 0 and so never also reports a negative id; only a parsed negative value does |
| RowProcessor.EmptyIdIssues | CSVtoJSONExperience/Program.cs:206-217 | an empty id reports empty, not 8 digits and not an integer, first and in that order, and is output as 0 |
| RowProcessor.PhoneChecked | CSVtoJSONExperience/Program.cs:263-288 | the format code fires exactly when the pattern fails; an empty phone gets both phone codes; the phone is output unchanged |
| RowProcessor.HyphenatedIdIsNotAnInteger | CSVtoJSONExperience/Program.cs:210-217 | digits around one inner hyphen, eight digits in all, pass the length test but fail the parse: the only id code is not-an-integer and the id is 0 |
| RowProcessor.TrailingSignIdIsNegative | CSVtoJSONExperience/Program.cs:210-221 | eight digits followed by `-` (not all zero) report only not-positive, with the negated value as id |
| ErrorAggregator.JoinWithSnoc | CSVtoJSONExperience/Program.cs:328 | appending a code adds `-&-` and the code to the message |
| ErrorAggregator.Group | CSVtoJSONExperience/Program.cs:313-338 | reference grouping: no more records than issues, and none exactly when there are no issues |
| ErrorAggregator.GroupSnoc | CSVtoJSONExperience/Program.cs:315-329 | one more issue extends the last record when it is on the same line, else opens a new record |
| ErrorAggregator.GroupLastRow | CSVtoJSONExperience/Program.cs:319-325 | the last record is on the line of the last issue |
| ErrorAggregator.IssuesHaveRecords | CSVtoJSONExperience/Program.cs:313-337 | every issue's line has a record |
| ErrorAggregator.RecordsHaveIssues | CSVtoJSONExperience/Program.cs:313-337 | every record's line has an issue |
| ErrorAggregator.GroupNeighboursDiffer | CSVtoJSONExperience/Program.cs:315-325 | neighbouring records are never for the same line |
| ErrorAggregator.GroupLinesIncrease | CSVtoJSONExperience/Program.cs:313-337 | for issues in line order, record lines strictly increase, so each line has at most one record |
| ErrorAggregator.GroupCollectsLines | CSVtoJSONExperience/Program.cs:313-337 | for issues in line order, each record's message is all the codes of its line, joined by `-&-` in the order found |
| ErrorAggregator.TwoLinesExample | CSVtoJSONExperience/Program.cs:313-337 | issues A, B on line 2 and C on line 3 give records (2, "A-&-B") and (3, "C") |
| ErrorAggregator.Primed | CSVtoJSONExperience/Program.cs:306-317 | the `rowKey = 0` start changes nothing unless the first issue is on line 0 |
| ErrorAggregator.AggregateErrors | CSVtoJSONExperience/Program.cs:306-338 | the loop with `rowKey`, `test` and `iteration` produces exactly the reference grouping of the issues |
| ErrorAggregator.SameLine | CSVtoJSONExperience/Program.cs:326-329 | an issue on the open record's line extends its message |
| ErrorAggregator.NewLine | CSVtoJSONExperience/Program.cs:315-325 | an issue on another line closes the open record and opens its own |
| FileRegistry.Registered | CSVtoJSONExperience/Program.cs:160-172 | after a detection the name is known, earlier names are kept, and at most one name is added |
| FileRegistry.RegisteredStaysDistinct | CSVtoJSONExperience/Program.cs:160-170 | the list never holds a name twice |
| FileRegistry.RegisteredIdempotent | CSVtoJSONExperience/Program.cs:160-170 | detecting the same name again changes nothing |
| FileRegistry.RegisteredKeepsOthers | CSVtoJSONExperience/Program.cs:170 | registering one name leaves every other name's membership as it was |
| FileRegistry.ProcessedFiles.constructor | CSVtoJSONExperience/Program.cs:22 | the list starts empty |
| FileRegistry.ProcessedFiles.Admit | CSVtoJSONExperience/Program.cs:160-172 | a file is admitted exactly when its name was unknown, and its name is recorded either way |
| FileRegistry.AdmitTwice | CSVtoJSONExperience/Program.cs:160-172 | a second detection of the same name is turned away |
| Pipeline.SplitRows | CSVtoJSONExperience/Program.cs:192-202 | the rows of a file that has not stopped all have the five fields the validators read |
| Pipeline.Users | CSVtoJSONExperience/Program.cs:291 | one user per row |
| Pipeline.ConvertRows | CSVtoJSONExperience/Program.cs:187-292 | the row loop returns the users and issues of all rows, or the number of the first short row |
| Pipeline.ProcessFile | CSVtoJSONExperience/Program.cs:155-345 | the name is recorded before conversion, and the outcome is what `FileOutcome` describes |
| Pipeline.ConvertedOrStopped | CSVtoJSONExperience/Program.cs:192-202 | the file converts exactly when every data line has five fields; otherwise it stops at the first data line with fewer |
| Pipeline.RowsFollowLines | CSVtoJSONExperience/Program.cs:192-202 | data line n (the header is line 1) becomes row n, with that line's fields, in file order |
| Pipeline.ConvertedUsers | CSVtoJSONExperience/Program.cs:192-291 | the JSON array has one user per data line, in file order, built from that line |
| Pipeline.IssuesInLineOrder | CSVtoJSONExperience/Program.cs:187-221 | issues are numbered by line from 2 to the last line and never go down in line number |
| Pipeline.IssuesOfLine | CSVtoJSONExperience/Program.cs:192-271 | the issues of line n are exactly what the row processor reports for line n |
| Pipeline.ErrorLinesIncrease | CSVtoJSONExperience/Program.cs:301-338 | the error file lists each line at most once, in increasing line order |
| Pipeline.ErrorMessages | CSVtoJSONExperience/Program.cs:301-338 | each error record is for a data line with issues, and its message is that line's codes joined by `-&-` |
| Pipeline.ErrorLinesCovered | CSVtoJSONExperience/Program.cs:301-338 | every line with an issue has a record in the error file |
| Pipeline.LineBlocks | CSVtoJSONExperience/Program.cs:192-292 | there is one block of issues per data line, each on its own line |
| Pipeline.NewFileConverted | CSVtoJSONExperience/Program.cs:294-345 | a new file with complete rows gives the JSON of its users, and an error file exactly when some row has an issue, holding the grouped issues |
| Pipeline.ErrorFileIffIssues | CSVtoJSONExperience/Program.cs:301 | the error file is written exactly when the issue list is not empty |
| Pipeline.NoIssuesExactly | CSVtoJSONExperience/Program.cs:301 | no issue is found exactly when every row's issues are empty |
| FieldRules.MatchesPhonePattern | CSVtoJSONExperience/Program.cs:267-268 | the `DDD-DDD-DDDD` shape always matches, and a match has 12 characters (13 with a final line feed) with hyphens at positions 3 and 7 |
| RowProcessor.Code | CSVtoJSONExperience/Program.cs:205-271 | the eleven issue codes, as the literals the validators add |
| RowProcessor.CodeNamesOneCheck | CSVtoJSONExperience/Program.cs:205-271 | two checks have the same code exactly when they are the same check |
| RowProcessor.IdChecks | CSVtoJSONExperience/Program.cs:205-221 | the id has no issue exactly when it is non-empty, has 8 characters once hyphens are removed, parses and is not negative |
| RowProcessor.FirstNameChecks | CSVtoJSONExperience/Program.cs:223-234 | at most one code, and none exactly when the first name has 1 to 15 characters |
| RowProcessor.MiddleNameChecks | CSVtoJSONExperience/Program.cs:236-247 | no code exactly when the middle name has at most 15 characters; an empty one is not an issue |
| RowProcessor.LastNameChecks | CSVtoJSONExperience/Program.cs:249-260 | at most one code, and none exactly when the last name has 1 to 15 characters |
| RowProcessor.PhoneChecks | CSVtoJSONExperience/Program.cs:262-271 | no code exactly when the phone matches the pattern; an empty phone gets both codes |
| RowProcessor.RowIssues | CSVtoJSONExperience/Program.cs:205-271 | one issue per check that fires, and none exactly when no check fires |
| RowProcessor.RowUser | CSVtoJSONExperience/Program.cs:273-288 | the user holds the parsed id and the phone as written; each name is a prefix of at most 15 characters of its field, equal to it when the field is short enough; `middle` is left out exactly when the middle field is empty |
| Pipeline.FileOutcome | CSVtoJSONExperience/Program.cs:155-345 | a file is turned away exactly when its name was processed before; the JSON and error files are named after the input file in their directories |
| WorkedCases.FieldsOf | CSVtoJSONExperience/Program.cs:202 | a line made of five comma-free fields joined by commas splits back into those fields |
| WorkedCases.OneRowFile | CSVtoJSONExperience/Program.cs:155-345 | a new file of a header and one complete line gives that line's user as row 2, and an error file exactly when the line has issues |
| WorkedCases.CleanRowConverted | CSVtoJSONExperience/Program.cs:155-345 | `12345678,Jane,,Doe,555-123-4567` gives the user 12345678 Jane Doe with no `middle` key and the phone as written, and no error file |
| WorkedCases.DigitIdOfWrongLength | CSVtoJSONExperience/Program.cs:205-221 | an all-digit id shorter than 8 gets only the length code, and its integer value is still taken |
| WorkedCases.ShortIdRowChecks | CSVtoJSONExperience/Program.cs:205-271 | a short digit id, empty first and middle names, a valid last name and a 9-character phone give exactly the id-length, empty-first-name and phone codes, in that order |
| WorkedCases.GroupOneLine | CSVtoJSONExperience/Program.cs:313-337 | three issues on one line fold into one record whose message is their codes joined in order |
| WorkedCases.ShortIdMessage | CSVtoJSONExperience/Program.cs:324-328 | the message of those three codes is `INTERNAL_ID-is-not-8-digits-&-FIRST_NAME-cannot-be-empty-&-PHONE_NUM-not-formatted-correctly` |
| WorkedCases.ShortIdRecord | CSVtoJSONExperience/Program.cs:301-338 | the three codes of line 2 make the single error record for line 2 |
| WorkedCases.IssuesGroupedOnOneRecord | CSVtoJSONExperience/Program.cs:155-345 | `1234567,,,Doe,bad-phone` gives the user 1234567 with an empty first name and no `middle` key, and an error file of one record for line 2 with the three codes |

## Left out

- Console output (`WriteToConsole`), the directory watcher and command loop, and the console commands are not modelled.
- Reading the CSV and writing the JSON and error CSV are not modelled: the lines are a parameter and the files are returned as `Artifact` values. The JSON and CSV serializers are libraries whose output format is not part of this model.
- Deleting the input CSV (lines 164-166 and 348) is not modelled: it is I/O with no effect on the outputs.
- `Path.GetFileNameWithoutExtension` is not modelled: the file name is a parameter.
- Concurrency between watcher events is not modelled. Each call of `ProcessFile` runs alone against the registry.
- A short row throws an index exception out of `ProcessFile`. This becomes the explicit outcome `RowTooShort(row)`. The name stays registered because it was added at line 170, and nothing is written. How the caller reports the exception is not modelled.
- No other exception is modelled, for example an unreadable file or an unwritable output directory.
- FieldRules.TryParseInt32: under `NumberStyles.Any` .NET also accepts surrounding white space, parentheses, currency symbols, thousands separators, a decimal point with a zero fraction and exponents. The model accepts only ASCII digits with one optional leading or trailing `+`/`-`. An id using those other forms is reported as not an integer here, where .NET would parse it.
- FieldRules.Truncate: a string here is a sequence of Unicode scalar values, while C# `Length`, `Replace("-", "").Length` and `Substring(0, 15)` count UTF-16 code units. All length tests (`RowProcessor.IdChecks`, `FirstNameChecks`, `MiddleNameChecks` and `LastNameChecks`) and the 15-character cut therefore measure and truncate text outside the Basic Multilingual Plane differently. Eight U+1D49C letters are 16 code units and a long first name to .NET, but 8 characters here. `1234567` followed by one such letter is 9 code units and not 8 digits long to .NET, but 8 characters here. A name cut through a surrogate pair cannot be represented.
- Hyphens in ids are removed only for the length test. `1234-5678` has eight characters once hyphens are removed, so it passes that test. `Int32.TryParse` receives the raw text and rejects the inner hyphen, so the id is reported only as not an integer and output as 0 (`RowProcessor.HyphenatedIdIsNotAnInteger`).
- The code does not check that ids are unique, so neither does the model.
- The regular expression is modelled only for the pattern in use. `IgnoreCase` has no effect on a digits-and-hyphens pattern. `\d` and Unicode digits do not occur.
