/**
 * The row processor: the body of the converter's row loop. For one data row
 * it runs the eleven field checks in their fixed order, truncates long names
 * and builds the `User` that goes to the JSON output. A row's issues never
 * stop its `User` from being emitted.
 */
module RowProcessor {
  import opened Wrappers
  import opened FieldRules

  /** One validation issue: the 1-based line number (the header is line 1) and a code. */
  datatype Issue = Issue(row: int, code: string)

  /** The `name` dictionary; `middle` is `None` when the key is left out. */
  datatype FullName = FullName(first: string, middle: Option<string>, last: string)

  /** One output record of the JSON array. */
  datatype User = User(id: int, name: FullName, phone: string)

  /** The eleven field checks, one per issue code. */
  datatype Check =
    | IdEmpty | IdNotEightDigits | IdNotInteger | IdNotPositive
    | FirstEmpty | FirstTooLong
    | MiddleTooLong
    | LastEmpty | LastTooLong
    | PhoneEmpty | PhoneBadFormat

  function Code(c: Check): string {
    match c
    case IdEmpty => "INTERNAL_ID-cannot-be-empty"
    case IdNotEightDigits => "INTERNAL_ID-is-not-8-digits"
    case IdNotInteger => "INTERNAL_ID-is-not-an-integer"
    case IdNotPositive => "INTERNAL_ID-is-not-a-positive-integer"
    case FirstEmpty => "FIRST_NAME-cannot-be-empty"
    case FirstTooLong => "FIRST_NAME-is-longer-than-15-characters"
    case MiddleTooLong => "MIDDLE_NAME-is-longer-than-15-characters"
    case LastEmpty => "LAST_NAME-cannot-be-empty"
    case LastTooLong => "LAST_NAME-is-longer-than-15-characters"
    case PhoneEmpty => "PHONE_NUM-cannot-be-empty"
    case PhoneBadFormat => "PHONE_NUM-not-formatted-correctly"
  }

  /** Each code names exactly one check, so a message can be read back. */
  lemma CodeNamesOneCheck(c: Check, d: Check)
    ensures Code(c) == Code(d) <==> c == d
  {
    if Code(c) == Code(d) {
      assert Code(c)[..9] == Code(d)[..9];
      assert |Code(c)| == |Code(d)|;
    }
  }

  /** The order in which the checks run: id, first, middle, last, phone. */
  const CHECK_ORDER: seq<Check> := [
    IdEmpty, IdNotEightDigits, IdNotInteger, IdNotPositive,
    FirstEmpty, FirstTooLong,
    MiddleTooLong,
    LastEmpty, LastTooLong,
    PhoneEmpty, PhoneBadFormat
  ]

  /** The position of a check in `CHECK_ORDER`. */
  function Rank(c: Check): (k: nat)
    ensures k < |CHECK_ORDER| && CHECK_ORDER[k] == c
  {
    match c
    case IdEmpty => 0
    case IdNotEightDigits => 1
    case IdNotInteger => 2
    case IdNotPositive => 3
    case FirstEmpty => 4
    case FirstTooLong => 5
    case MiddleTooLong => 6
    case LastEmpty => 7
    case LastTooLong => 8
    case PhoneEmpty => 9
    case PhoneBadFormat => 10
  }

  function When(fires: bool, c: Check): seq<Check> {
    if fires then [c] else []
  }

  /** The id validator: lines 205-221 of the converter, in their order. */
  function IdChecks(id: string): (r: seq<Check>)
    ensures r == [] <==> 0 < |id| && |RemoveHyphens(id)| == ID_LENGTH && TryParseInt32(id).Some? && ParsedId(id) >= 0
  {
    When(|id| <= 0, IdEmpty)
    + When(|RemoveHyphens(id)| != ID_LENGTH, IdNotEightDigits)
    + When(TryParseInt32(id).None?, IdNotInteger)
    + When(ParsedId(id) < 0, IdNotPositive)
  }

  /** The first-name validator, on the field before truncation. */
  function FirstNameChecks(first: string): (r: seq<Check>)
    ensures |r| <= 1
    ensures r == [] <==> 0 < |first| <= MAX_NAME_LENGTH
  {
    When(|first| <= 0, FirstEmpty) + When(|first| > MAX_NAME_LENGTH, FirstTooLong)
  }

  /** The middle-name validator: an empty middle name is not an issue. */
  function MiddleNameChecks(middle: string): (r: seq<Check>)
    ensures r == [] <==> |middle| <= MAX_NAME_LENGTH
  {
    When(|middle| > MAX_NAME_LENGTH, MiddleTooLong)
  }

  /** The last-name validator, on the field before truncation. */
  function LastNameChecks(last: string): (r: seq<Check>)
    ensures |r| <= 1
    ensures r == [] <==> 0 < |last| <= MAX_NAME_LENGTH
  {
    When(|last| <= 0, LastEmpty) + When(|last| > MAX_NAME_LENGTH, LastTooLong)
  }

  /** The phone validator. */
  function PhoneChecks(phone: string): (r: seq<Check>)
    ensures r == [] <==> MatchesPhonePattern(phone)
    ensures |phone| == 0 ==> r == [PhoneEmpty, PhoneBadFormat]
  {
    When(|phone| <= 0, PhoneEmpty) + When(!MatchesPhonePattern(phone), PhoneBadFormat)
  }

  /** The checks that fire on a row, in the order the validators run. */
  function RowChecks(parts: seq<string>): seq<Check>
    requires |parts| >= 5
  {
    IdChecks(parts[0]) + FirstNameChecks(parts[1]) + MiddleNameChecks(parts[2])
    + LastNameChecks(parts[3]) + PhoneChecks(parts[4])
  }

  /** The issues of line `row` for the given checks. */
  function Tag(row: int, checks: seq<Check>): seq<Issue> {
    seq(|checks|, i requires 0 <= i < |checks| => Issue(row, Code(checks[i])))
  }

  lemma TagAppend(row: int, a: seq<Check>, b: seq<Check>)
    ensures Tag(row, a + b) == Tag(row, a) + Tag(row, b)
  {
  }

  /** The issues the row loop appends for one row. */
  function RowIssues(parts: seq<string>, row: int): (r: seq<Issue>)
    requires |parts| >= 5
    ensures |r| == |RowChecks(parts)|
    ensures r == [] <==> RowChecks(parts) == []
  {
    Tag(row, RowChecks(parts))
  }

  /** Every issue of a row is on that row's line. */
  lemma ProcessRowLine(parts: seq<string>, row: int)
    requires |parts| >= 5
    ensures forall i | 0 <= i < |RowIssues(parts, row)| :: RowIssues(parts, row)[i].row == row
  {
  }

  /** The `User` the row loop emits for one row. */
  function RowUser(parts: seq<string>): (u: User)
    requires |parts| >= 5
    ensures u.id == ParsedId(parts[0]) && u.phone == parts[4]
    ensures u.name.first <= parts[1] && |u.name.first| <= MAX_NAME_LENGTH
    ensures |parts[1]| <= MAX_NAME_LENGTH ==> u.name.first == parts[1]
    ensures u.name.middle.None? <==> parts[2] == []
    ensures u.name.middle.Some? ==> u.name.middle.value <= parts[2] && |u.name.middle.value| <= MAX_NAME_LENGTH
    ensures u.name.last <= parts[3] && |u.name.last| <= MAX_NAME_LENGTH
    ensures |parts[3]| <= MAX_NAME_LENGTH ==> u.name.last == parts[3]
  {
    User(
      ParsedId(parts[0]),
      FullName(
        Truncate(parts[1]),
        if |parts[2]| <= 0 then None else Some(Truncate(parts[2])),
        Truncate(parts[3])),
      parts[4])
  }

  /**
   * One iteration of the row loop after the split: the field validators in
   * order, in-place truncation of the name fields, and the `User`.
   */
  method ProcessRow(lineParts: seq<string>, iter: int) returns (user: User, issues: seq<Issue>)
    requires |lineParts| >= 5
    ensures issues == RowIssues(lineParts, iter)
    ensures user == RowUser(lineParts)
    ensures forall i | 0 <= i < |issues| :: issues[i].row == iter
  {
    var parts := lineParts;
    var showMiddleName := true;

    // id validation; a failed parse leaves 0 in the out variable
    issues := Tag(iter, IdChecks(parts[0]));
    var parsed := TryParseInt32(parts[0]);
    var id := if parsed.Some? then parsed.value else 0;

    // first name validation, then truncation in place
    issues := issues + Tag(iter, FirstNameChecks(parts[1]));
    if |parts[1]| > MAX_NAME_LENGTH {
      parts := parts[1 := parts[1][..MAX_NAME_LENGTH]];
    }

    // middle name validation; an empty middle name only hides the key
    if |parts[2]| <= 0 {
      showMiddleName := false;
    }
    issues := issues + Tag(iter, MiddleNameChecks(parts[2]));
    if |parts[2]| > MAX_NAME_LENGTH {
      parts := parts[2 := parts[2][..MAX_NAME_LENGTH]];
    }

    // last name validation
    issues := issues + Tag(iter, LastNameChecks(parts[3]));
    if |parts[3]| > MAX_NAME_LENGTH {
      parts := parts[3 := parts[3][..MAX_NAME_LENGTH]];
    }

    // phone validation
    issues := issues + Tag(iter, PhoneChecks(parts[4]));

    var name :=
      if showMiddleName then FullName(parts[1], Some(parts[2]), parts[3])
      else FullName(parts[1], None, parts[3]);
    user := User(id, name, parts[4]);

    TagAppend(iter, IdChecks(lineParts[0]), FirstNameChecks(lineParts[1]));
    TagAppend(iter, IdChecks(lineParts[0]) + FirstNameChecks(lineParts[1]), MiddleNameChecks(lineParts[2]));
    TagAppend(iter, IdChecks(lineParts[0]) + FirstNameChecks(lineParts[1]) + MiddleNameChecks(lineParts[2]),
      LastNameChecks(lineParts[3]));
    TagAppend(iter, IdChecks(lineParts[0]) + FirstNameChecks(lineParts[1]) + MiddleNameChecks(lineParts[2])
      + LastNameChecks(lineParts[3]), PhoneChecks(lineParts[4]));
  }

  /** Checks whose ranks grow strictly from left to right. */
  ghost predicate Ascending(checks: seq<Check>) {
    forall i, j | 0 <= i < j < |checks| :: Rank(checks[i]) < Rank(checks[j])
  }

  /** Checks whose ranks all lie in `lo..hi - 1`. */
  ghost predicate RanksWithin(checks: seq<Check>, lo: nat, hi: nat) {
    forall i | 0 <= i < |checks| :: lo <= Rank(checks[i]) < hi
  }

  lemma {:induction false} AscendingAppend(a: seq<Check>, b: seq<Check>, lo: nat, mid: nat, hi: nat)
    requires lo <= mid <= hi
    requires Ascending(a) && RanksWithin(a, lo, mid)
    requires Ascending(b) && RanksWithin(b, mid, hi)
    ensures Ascending(a + b) && RanksWithin(a + b, lo, hi)
  {
    forall i | 0 <= i < |a + b|
      ensures lo <= Rank((a + b)[i]) < hi
    {
      if i < |a| {
        assert (a + b)[i] == a[i];
      } else {
        assert (a + b)[i] == b[i - |a|];
      }
    }
    forall i, j | 0 <= i < j < |a + b|
      ensures Rank((a + b)[i]) < Rank((a + b)[j])
    {
      if j < |a| {
        assert (a + b)[i] == a[i] && (a + b)[j] == a[j];
      } else if i < |a| {
        assert (a + b)[i] == a[i] && (a + b)[j] == b[j - |a|];
      } else {
        assert (a + b)[i] == b[i - |a|] && (a + b)[j] == b[j - |a|];
      }
    }
  }

  lemma WhenPairAscending(b1: bool, c1: Check, b2: bool, c2: Check)
    requires Rank(c1) < Rank(c2)
    ensures Ascending(When(b1, c1) + When(b2, c2))
    ensures RanksWithin(When(b1, c1) + When(b2, c2), Rank(c1), Rank(c2) + 1)
    ensures (c1 in When(b1, c1) + When(b2, c2) <==> b1) && (c2 in When(b1, c1) + When(b2, c2) <==> b2)
  {
  }

  /** Under any guards, each of the four id checks is reported exactly when its guard holds. */
  lemma IdGuardsReport(b1: bool, b2: bool, b3: bool, b4: bool)
    ensures var chain := When(b1, IdEmpty) + When(b2, IdNotEightDigits) + When(b3, IdNotInteger) + When(b4, IdNotPositive);
      && (IdEmpty in chain <==> b1) && (IdNotEightDigits in chain <==> b2)
      && (IdNotInteger in chain <==> b3) && (IdNotPositive in chain <==> b4)
  {
  }

  /** Under any guards, the id checks are reported in rank order. */
  lemma IdGuardsInOrder(b1: bool, b2: bool, b3: bool, b4: bool)
    ensures Ascending(When(b1, IdEmpty) + When(b2, IdNotEightDigits) + When(b3, IdNotInteger) + When(b4, IdNotPositive))
    ensures RanksWithin(When(b1, IdEmpty) + When(b2, IdNotEightDigits) + When(b3, IdNotInteger) + When(b4, IdNotPositive), 0, 4)
  {
    WhenPairAscending(b1, IdEmpty, b2, IdNotEightDigits);
    AscendingAppend(When(b1, IdEmpty) + When(b2, IdNotEightDigits), When(b3, IdNotInteger), 0, 2, 3);
    AscendingAppend(When(b1, IdEmpty) + When(b2, IdNotEightDigits) + When(b3, IdNotInteger), When(b4, IdNotPositive), 0, 3, 4);
  }

  /** The id checks fire exactly on their conditions, in rank order, with ranks 0-3. */
  lemma IdChecksExactly(id: string)
    ensures IdEmpty in IdChecks(id) <==> |id| == 0
    ensures IdNotEightDigits in IdChecks(id) <==> |RemoveHyphens(id)| != ID_LENGTH
    ensures IdNotInteger in IdChecks(id) <==> TryParseInt32(id).None?
    ensures IdNotPositive in IdChecks(id) <==> ParsedId(id) < 0
    ensures Ascending(IdChecks(id)) && RanksWithin(IdChecks(id), 0, 4)
  {
    IdGuardsReport(|id| <= 0, |RemoveHyphens(id)| != ID_LENGTH, TryParseInt32(id).None?, ParsedId(id) < 0);
    IdGuardsInOrder(|id| <= 0, |RemoveHyphens(id)| != ID_LENGTH, TryParseInt32(id).None?, ParsedId(id) < 0);
  }

  lemma FirstNameChecksExactly(first: string)
    ensures FirstEmpty in FirstNameChecks(first) <==> |first| == 0
    ensures FirstTooLong in FirstNameChecks(first) <==> |first| > MAX_NAME_LENGTH
    ensures Ascending(FirstNameChecks(first)) && RanksWithin(FirstNameChecks(first), 4, 6)
  {
    WhenPairAscending(|first| <= 0, FirstEmpty, |first| > MAX_NAME_LENGTH, FirstTooLong);
  }

  lemma MiddleNameChecksExactly(middle: string)
    ensures MiddleTooLong in MiddleNameChecks(middle) <==> |middle| > MAX_NAME_LENGTH
    ensures Ascending(MiddleNameChecks(middle)) && RanksWithin(MiddleNameChecks(middle), 6, 7)
  {
  }

  lemma LastNameChecksExactly(last: string)
    ensures LastEmpty in LastNameChecks(last) <==> |last| == 0
    ensures LastTooLong in LastNameChecks(last) <==> |last| > MAX_NAME_LENGTH
    ensures Ascending(LastNameChecks(last)) && RanksWithin(LastNameChecks(last), 7, 9)
  {
    WhenPairAscending(|last| <= 0, LastEmpty, |last| > MAX_NAME_LENGTH, LastTooLong);
  }

  lemma PhoneChecksExactly(phone: string)
    ensures PhoneEmpty in PhoneChecks(phone) <==> |phone| == 0
    ensures PhoneBadFormat in PhoneChecks(phone) <==> !MatchesPhonePattern(phone)
    ensures Ascending(PhoneChecks(phone)) && RanksWithin(PhoneChecks(phone), 9, 11)
  {
    WhenPairAscending(|phone| <= 0, PhoneEmpty, !MatchesPhonePattern(phone), PhoneBadFormat);
  }

  /** In a list made of two rank bands, a check can only be found in the band that covers its rank. */
  lemma InOwnBand(a: seq<Check>, b: seq<Check>, lo: nat, mid: nat, hi: nat)
    requires RanksWithin(a, lo, mid) && RanksWithin(b, mid, hi)
    ensures forall c :: c in a + b <==> if Rank(c) < mid then c in a else c in b
  {
    forall c | c in a + b
      ensures if Rank(c) < mid then c in a else c in b
    {
      if c in a {
        var i :| 0 <= i < |a| && a[i] == c;
      } else {
        var i :| 0 <= i < |b| && b[i] == c;
      }
    }
  }

  /**
   * The validators run in a fixed order: the checks a row reports appear in
   * the order of `CHECK_ORDER` (id, first, middle, last, phone), each code at
   * most once.
   */
  lemma RowChecksInCheckOrder(parts: seq<string>)
    requires |parts| >= 5
    ensures Ascending(RowChecks(parts))
  {
    RowBands(parts);
  }

  /** The bands of the five validators, joined in order. */
  lemma RowBands(parts: seq<string>)
    requires |parts| >= 5
    ensures Ascending(RowChecks(parts)) && RanksWithin(RowChecks(parts), 0, 11)
    ensures forall c | Rank(c) < 4 :: c in RowChecks(parts) <==> c in IdChecks(parts[0])
    ensures forall c | 4 <= Rank(c) < 6 :: c in RowChecks(parts) <==> c in FirstNameChecks(parts[1])
    ensures forall c | Rank(c) == 6 :: c in RowChecks(parts) <==> c in MiddleNameChecks(parts[2])
    ensures forall c | 7 <= Rank(c) < 9 :: c in RowChecks(parts) <==> c in LastNameChecks(parts[3])
    ensures forall c | 9 <= Rank(c) :: c in RowChecks(parts) <==> c in PhoneChecks(parts[4])
  {
    var a, b, c, d, e := IdChecks(parts[0]), FirstNameChecks(parts[1]), MiddleNameChecks(parts[2]),
      LastNameChecks(parts[3]), PhoneChecks(parts[4]);
    IdChecksExactly(parts[0]);
    FirstNameChecksExactly(parts[1]);
    MiddleNameChecksExactly(parts[2]);
    LastNameChecksExactly(parts[3]);
    PhoneChecksExactly(parts[4]);
    AscendingAppend(a, b, 0, 4, 6);
    InOwnBand(a, b, 0, 4, 6);
    AscendingAppend(a + b, c, 0, 6, 7);
    InOwnBand(a + b, c, 0, 6, 7);
    AscendingAppend(a + b + c, d, 0, 7, 9);
    InOwnBand(a + b + c, d, 0, 7, 9);
    AscendingAppend(a + b + c + d, e, 0, 9, 11);
    InOwnBand(a + b + c + d, e, 0, 9, 11);
  }

  /**
   * Every check runs: each code is reported exactly when its own condition
   * holds, whatever the other fields and checks do.
   */
  lemma RowChecksExactly(parts: seq<string>)
    requires |parts| >= 5
    ensures IdEmpty in RowChecks(parts) <==> |parts[0]| == 0
    ensures IdNotEightDigits in RowChecks(parts) <==> |RemoveHyphens(parts[0])| != ID_LENGTH
    ensures IdNotInteger in RowChecks(parts) <==> TryParseInt32(parts[0]).None?
    ensures IdNotPositive in RowChecks(parts) <==> ParsedId(parts[0]) < 0
    ensures FirstEmpty in RowChecks(parts) <==> |parts[1]| == 0
    ensures FirstTooLong in RowChecks(parts) <==> |parts[1]| > MAX_NAME_LENGTH
    ensures MiddleTooLong in RowChecks(parts) <==> |parts[2]| > MAX_NAME_LENGTH
    ensures LastEmpty in RowChecks(parts) <==> |parts[3]| == 0
    ensures LastTooLong in RowChecks(parts) <==> |parts[3]| > MAX_NAME_LENGTH
    ensures PhoneEmpty in RowChecks(parts) <==> |parts[4]| == 0
    ensures PhoneBadFormat in RowChecks(parts) <==> !MatchesPhonePattern(parts[4])
  {
    RowBands(parts);
    IdChecksExactly(parts[0]);
    FirstNameChecksExactly(parts[1]);
    MiddleNameChecksExactly(parts[2]);
    LastNameChecksExactly(parts[3]);
    PhoneChecksExactly(parts[4]);
  }

  /**
   * A row with an eight-digit id, first and last names of 1 to 15 characters,
   * a middle name of at most 15 and a `DDD-DDD-DDDD` phone has no issue, and
   * its fields reach the output unchanged.
   */
  lemma CleanRowPassesUnchanged(parts: seq<string>)
    requires |parts| >= 5
    requires |parts[0]| == ID_LENGTH && AllDigits(parts[0])
    requires 1 <= |parts[1]| <= MAX_NAME_LENGTH
    requires |parts[2]| <= MAX_NAME_LENGTH
    requires 1 <= |parts[3]| <= MAX_NAME_LENGTH
    requires PhoneShape(parts[4])
    ensures RowChecks(parts) == [] && RowIssues(parts, 2) == []
    ensures RowUser(parts) ==
      User(DigitsValue(parts[0]),
           FullName(parts[1], if parts[2] == [] then None else Some(parts[2]), parts[3]),
           parts[4])
  {
    EightDigitsParse(parts[0]);
    assert '-' !in parts[0] by {
      forall i | 0 <= i < |parts[0]| ensures parts[0][i] != '-' {
        assert IsAsciiDigit(parts[0][i]);
      }
    }
  }

  /**
   * A name longer than 15 characters is reported with its own code and output
   * as its first 15 characters; a shorter one is output unchanged.
   */
  lemma LongNamesTruncated(parts: seq<string>)
    requires |parts| >= 5
    ensures FirstTooLong in RowChecks(parts) <==> |parts[1]| > MAX_NAME_LENGTH
    ensures MiddleTooLong in RowChecks(parts) <==> |parts[2]| > MAX_NAME_LENGTH
    ensures LastTooLong in RowChecks(parts) <==> |parts[3]| > MAX_NAME_LENGTH
    ensures RowUser(parts).name.first == if |parts[1]| > MAX_NAME_LENGTH then parts[1][..MAX_NAME_LENGTH] else parts[1]
    ensures |parts[2]| > 0 ==>
      RowUser(parts).name.middle == Some(if |parts[2]| > MAX_NAME_LENGTH then parts[2][..MAX_NAME_LENGTH] else parts[2])
    ensures RowUser(parts).name.last == if |parts[3]| > MAX_NAME_LENGTH then parts[3][..MAX_NAME_LENGTH] else parts[3]
  {
    RowChecksExactly(parts);
  }

  /**
   * The `middle` key is left out exactly when the middle-name field is empty,
   * which is not an issue; an empty first or last name is an issue but still
   * reaches the output, as the empty string.
   */
  lemma EmptyNames(parts: seq<string>)
    requires |parts| >= 5
    ensures RowUser(parts).name.middle.None? <==> parts[2] == []
    ensures parts[2] == [] ==> MiddleTooLong !in RowChecks(parts)
    ensures FirstEmpty in RowChecks(parts) <==> parts[1] == []
    ensures parts[1] == [] ==> RowUser(parts).name.first == []
    ensures LastEmpty in RowChecks(parts) <==> parts[3] == []
    ensures parts[3] == [] ==> RowUser(parts).name.last == []
  {
    RowChecksExactly(parts);
  }

  /**
   * The id checks: the length test counts characters once hyphens are removed;
   * a failed parse reports `INTERNAL_ID-is-not-an-integer` and yields id 0, so
   * it never also reports `INTERNAL_ID-is-not-a-positive-integer`, which only a
   * successfully parsed negative value reports.
   */
  lemma IdChecksQuirks(parts: seq<string>)
    requires |parts| >= 5
    ensures IdNotEightDigits in RowChecks(parts) <==> |RemoveHyphens(parts[0])| != ID_LENGTH
    ensures IdNotInteger in RowChecks(parts) <==> TryParseInt32(parts[0]).None?
    ensures IdNotInteger in RowChecks(parts) ==> IdNotPositive !in RowChecks(parts) && RowUser(parts).id == 0
    ensures IdNotPositive in RowChecks(parts) <==> TryParseInt32(parts[0]).Some? && TryParseInt32(parts[0]).value < 0
    ensures RowUser(parts).id == ParsedId(parts[0])
  {
    RowChecksExactly(parts);
  }

  /**
   * An empty id is reported as empty, as not 8 digits and as not an integer,
   * in that order and ahead of every other code, and is output as 0.
   */
  lemma EmptyIdIssues(parts: seq<string>)
    requires |parts| >= 5 && parts[0] == []
    ensures RowChecks(parts)[..3] == [IdEmpty, IdNotEightDigits, IdNotInteger]
    ensures IdNotPositive !in RowChecks(parts)
    ensures RowUser(parts).id == 0
  {
    var id := parts[0];
    assert TryParseInt32(id) == None;
    var a := IdChecks(id);
    assert a == [IdEmpty, IdNotEightDigits, IdNotInteger];
    var ab := a + FirstNameChecks(parts[1]);
    var abc := ab + MiddleNameChecks(parts[2]);
    var abcd := abc + LastNameChecks(parts[3]);
    assert RowChecks(parts) == abcd + PhoneChecks(parts[4]);
    assert ab[..3] == a;
    assert abc[..3] == ab[..3];
    assert abcd[..3] == abc[..3];
    assert RowChecks(parts)[..3] == abcd[..3];
    RowBands(parts);
  }

  /**
   * The phone is reported as badly formatted exactly when the pattern fails,
   * which away from line feeds means exactly when it is not `DDD-DDD-DDDD`; an
   * empty phone gets both phone codes; the phone is output unchanged.
   */
  lemma PhoneChecked(parts: seq<string>)
    requires |parts| >= 5
    ensures PhoneBadFormat in RowChecks(parts) <==> !MatchesPhonePattern(parts[4])
    ensures '\n' !in parts[4] ==> (PhoneBadFormat in RowChecks(parts) <==> !PhoneShape(parts[4]))
    ensures parts[4] == [] ==> PhoneEmpty in RowChecks(parts) && PhoneBadFormat in RowChecks(parts)
    ensures RowUser(parts).phone == parts[4]
  {
    RowChecksExactly(parts);
    if '\n' !in parts[4] {
      PhonePatternIsShape(parts[4]);
    }
  }

  /**
   * An id such as `1234-5678` passes the length test once its hyphen is
   * removed, but does not parse, so it is reported only as not an integer
   * and output as 0.
   */
  lemma HyphenatedIdIsNotAnInteger(a: string, b: string)
    requires 1 <= |a| && 1 <= |b| && |a| + |b| == ID_LENGTH
    requires AllDigits(a) && AllDigits(b)
    ensures IdChecks(a + "-" + b) == [IdNotInteger]
    ensures ParsedId(a + "-" + b) == 0
  {
    var s := a + "-" + b;
    DigitsHaveNoHyphen(a);
    DigitsHaveNoHyphen(b);
    RemoveHyphensAppend(a + "-", b);
    RemoveHyphensAppend(a, "-");
    assert RemoveHyphens("-") == [];
    assert RemoveHyphens(a + "-") == a;
    assert RemoveHyphens(s) == a + b;
    assert s[|a|] == '-';
    InnerHyphenFailsParse(s, |a|);
  }

  /**
   * A trailing minus sign is accepted by the parse: eight digits followed by
   * `-`, such as `12345678-`, pass the length and integer tests and, unless
   * all zero, are reported only as not positive, with the negated value.
   */
  lemma TrailingSignIdIsNegative(d: string)
    requires |d| == ID_LENGTH && AllDigits(d) && DigitsValue(d) > 0
    ensures IdChecks(d + "-") == [IdNotPositive]
    ensures ParsedId(d + "-") == -(DigitsValue(d) as int)
  {
    DigitsHaveNoHyphen(d);
    RemoveHyphensAppend(d, "-");
    assert RemoveHyphens("-") == [];
    TrailingMinusParses(d);
  }
}
