/** The database helper: the query timeout setting, the column name to
    column index mapping and the lookups built on it, integer parsing of a
    column's text, and the retry and row-limit policy of a query. Opening a
    connection and running a command are not modelled: each attempt's
    outcome (the rows the reader delivers and the exception raised, if any)
    is a parameter. */
module Database {
  import opened Text

  /** The timeout used when 0 is set. */
  const DEFAULT_SP_TIMEOUT_SEC := 30
  /** The smallest timeout kept. */
  const MIN_TIMEOUT_SEC := 10

  const INT32_MIN := -0x8000_0000
  const INT32_MAX := 0x7FFF_FFFF

  /** Why a lookup throws: Dictionary.Add on a name already present, a name
      missing from the map, or an index past the end of the row. */
  datatype DbError = DuplicateColumn(name: string) | InvalidColumnName(name: string) | IndexOutOfRange(index: int)

  datatype Result<T> = Success(value: T) | Failure(error: DbError)

  // ---------------------------------------------------------------------
  // TimeoutSeconds

  /** The value the TimeoutSeconds setter stores: 30 for 0, 10 for anything
      else below 10, the value itself otherwise. */
  function ClampTimeout(value: int): int {
    var v := if value == 0 then DEFAULT_SP_TIMEOUT_SEC else value;
    if v < MIN_TIMEOUT_SEC then MIN_TIMEOUT_SEC else v
  }

  /** A stored timeout is at least 10 seconds; values of 10 and more are
      kept, 0 means the default and any other smaller value means 10. */
  lemma ClampTimeoutCases(value: int)
    ensures ClampTimeout(value) >= MIN_TIMEOUT_SEC
    ensures value >= MIN_TIMEOUT_SEC ==> ClampTimeout(value) == value
    ensures value == 0 ==> ClampTimeout(value) == DEFAULT_SP_TIMEOUT_SEC
    ensures value != 0 && value < MIN_TIMEOUT_SEC ==> ClampTimeout(value) == MIN_TIMEOUT_SEC
  {
  }

  /** Setting the value read back from the property changes nothing. */
  lemma ClampTimeoutIdempotent(value: int)
    ensures ClampTimeout(ClampTimeout(value)) == ClampTimeout(value)
  {
  }

  // ---------------------------------------------------------------------
  // Column mapping and lookup

  predicate Distinct(columns: seq<string>) {
    forall i, j :: 0 <= i < j < |columns| ==> columns[i] != columns[j]
  }

  /** `columnMap` sends each of the columns, and nothing else, to its
      position. */
  ghost predicate IsColumnMapping(columnMap: map<string, int>, columns: seq<string>) {
    && (forall name :: name in columnMap <==> name in columns)
    && (forall i :: 0 <= i < |columns| ==> columns[i] in columnMap && columnMap[columns[i]] == i)
  }

  /** GetColumnValue(resultRow, columnMap, columnName): the row's text at the
      column's index. */
  function GetColumnValue(resultRow: seq<string>, columnMap: map<string, int>, columnName: string): Result<string> {
    if columnName !in columnMap then Failure(InvalidColumnName(columnName))
    else
      var columnIndex := columnMap[columnName];
      if 0 <= columnIndex < |resultRow| then Success(resultRow[columnIndex]) else Failure(IndexOutOfRange(columnIndex))
  }

  /** Looking a column up through the mapping of the row's columns gives
      the row's value in that column; a name that is not a column is
      reported as an invalid column name. */
  lemma ColumnValueRoundTrip(resultRow: seq<string>, columnMap: map<string, int>, columns: seq<string>, columnName: string)
    requires IsColumnMapping(columnMap, columns) && |columns| <= |resultRow|
    ensures forall i :: 0 <= i < |columns| && columns[i] == columnName ==>
              GetColumnValue(resultRow, columnMap, columnName) == Success(resultRow[i])
    ensures columnName !in columns ==> GetColumnValue(resultRow, columnMap, columnName) == Failure(InvalidColumnName(columnName))
  {
  }

  /** For distinct columns there is exactly one mapping. */
  lemma ColumnMappingUnique(a: map<string, int>, b: map<string, int>, columns: seq<string>)
    requires IsColumnMapping(a, columns) && IsColumnMapping(b, columns)
    ensures a == b
  {
    forall name | name in a ensures name in b && a[name] == b[name] {
      var i :| 0 <= i < |columns| && columns[i] == name;
    }
  }

  /** Repeated names have no mapping: a name cannot sit at two indexes. */
  lemma NoMappingWithDuplicates(columnMap: map<string, int>, columns: seq<string>)
    requires !Distinct(columns)
    ensures !IsColumnMapping(columnMap, columns)
  {
    var i, j :| 0 <= i < j < |columns| && columns[i] == columns[j];
  }

  // ---------------------------------------------------------------------
  // int.TryParse with NumberStyles.Integer

  /** The white space NumberStyles.AllowLeadingWhite and AllowTrailingWhite
      skip: U+0009 to U+000D and U+0020. */
  predicate IsNumberWhite(c: char) {
    c == ' ' || '\t' <= c <= '\r'
  }

  /** The text without leading and trailing number white space. */
  function TrimNumberWhite(s: string): (t: string)
    ensures |t| > 0 ==> !IsNumberWhite(t[0]) && !IsNumberWhite(t[|t| - 1])
    decreases |s|
  {
    if |s| > 0 && IsNumberWhite(s[0]) then TrimNumberWhite(s[1..])
    else if |s| > 0 && IsNumberWhite(s[|s| - 1]) then TrimNumberWhite(s[..|s| - 1])
    else s
  }

  /** `t` is `s[i..j]`, with only number white space before `i` and from `j` on. */
  predicate WhiteAround(s: string, t: string, i: int, j: int) {
    && 0 <= i <= j <= |s| && t == s[i..j]
    && (forall k :: 0 <= k < i ==> IsNumberWhite(s[k]))
    && (forall k :: j <= k < |s| ==> IsNumberWhite(s[k]))
  }

  lemma WhiteAroundCons(s: string, t: string, i: int, j: int)
    requires |s| > 0 && IsNumberWhite(s[0]) && WhiteAround(s[1..], t, i, j)
    ensures WhiteAround(s, t, i + 1, j + 1)
  {
    var rest := s[1..];
    assert t == s[i + 1..j + 1];
    forall k | 0 <= k < i + 1 ensures IsNumberWhite(s[k]) {
      if k > 0 { assert s[k] == rest[k - 1]; }
    }
    forall k | j + 1 <= k < |s| ensures IsNumberWhite(s[k]) {
      assert s[k] == rest[k - 1];
    }
  }

  lemma WhiteAroundSnoc(s: string, t: string, i: int, j: int)
    requires |s| > 0 && IsNumberWhite(s[|s| - 1]) && WhiteAround(s[..|s| - 1], t, i, j)
    ensures WhiteAround(s, t, i, j)
  {
    var init := s[..|s| - 1];
    assert t == s[i..j];
    forall k | 0 <= k < i ensures IsNumberWhite(s[k]) {
      assert s[k] == init[k];
    }
    forall k | j <= k < |s| ensures IsNumberWhite(s[k]) {
      if k < |init| { assert s[k] == init[k]; }
    }
  }

  /** The trimmed text is a slice of the text with only white space around it. */
  lemma {:induction false} TrimNumberWhiteSlice(s: string)
    ensures exists i, j :: WhiteAround(s, TrimNumberWhite(s), i, j)
    decreases |s|
  {
    var t := TrimNumberWhite(s);
    if |s| > 0 && IsNumberWhite(s[0]) {
      TrimNumberWhiteSlice(s[1..]);
      var i, j :| WhiteAround(s[1..], t, i, j);
      WhiteAroundCons(s, t, i, j);
    } else if |s| > 0 && IsNumberWhite(s[|s| - 1]) {
      TrimNumberWhiteSlice(s[..|s| - 1]);
      var i, j :| WhiteAround(s[..|s| - 1], t, i, j);
      WhiteAroundSnoc(s, t, i, j);
    } else {
      assert WhiteAround(s, t, 0, |s|);
    }
  }

  /** The trimmed text is empty exactly when the text is all white space. */
  lemma TrimNumberWhiteEmpty(s: string)
    ensures TrimNumberWhite(s) == "" <==> forall k :: 0 <= k < |s| ==> IsNumberWhite(s[k])
  {
    var t := TrimNumberWhite(s);
    TrimNumberWhiteSlice(s);
    var i, j :| WhiteAround(s, t, i, j);
    if t != "" {
      assert t[0] == s[i];
    }
  }

  predicate AllDigits(s: string) {
    forall i :: 0 <= i < |s| ==> IsDigit(s[i])
  }

  /** The decimal value of a run of digits. */
  function DigitsValue(digits: string): nat
    requires AllDigits(digits)
  {
    if |digits| == 0 then 0 else DigitsValue(digits[..|digits| - 1]) * 10 + DigitValue(digits[|digits| - 1])
  }

  /** The text without the '\0' characters it ends with. */
  function DropTrailingNulls(s: string): (u: string)
    ensures |u| <= |s| && u == s[..|u|]
    ensures |u| > 0 ==> u[|u| - 1] != '\0'
    ensures forall k :: |u| <= k < |s| ==> s[k] == '\0'
  {
    if |s| > 0 && s[|s| - 1] == '\0' then DropTrailingNulls(s[..|s| - 1]) else s
  }

  /** int.TryParse(s): optional white space, an optional '+' or '-', one or
      more ASCII digits, optional white space, with the value in the range
      of a 32-bit integer; '\0' characters at the very end are ignored, as
      .NET's number parser does. A null text is modelled as "" and fails. */
  function ParseInt32(s: string): (r: Option<int>)
    ensures r.Some? ==> INT32_MIN <= r.value <= INT32_MAX
  {
    ParseTrimmed(TrimNumberWhite(DropTrailingNulls(s)))
  }

  /** The text between the white space: an optional sign and the digits. */
  function ParseTrimmed(t: string): (r: Option<int>)
    ensures r.Some? ==> INT32_MIN <= r.value <= INT32_MAX
  {
    var negative := |t| > 0 && t[0] == '-';
    var digits := if |t| > 0 && (t[0] == '-' || t[0] == '+') then t[1..] else t;
    if |digits| == 0 || !AllDigits(digits) then None
    else
      var magnitude: int := DigitsValue(digits);
      var value := if negative then -magnitude else magnitude;
      if INT32_MIN <= value <= INT32_MAX then Some(value) else None
  }

  function DigitChar(d: nat): char
    requires d < 10
  {
    ('0' as int + d) as char
  }

  /** The decimal digits of a natural number, without leading zeros. */
  function Decimal(n: nat): string
    decreases n
  {
    if n < 10 then [DigitChar(n)] else Decimal(n / 10) + [DigitChar(n % 10)]
  }

  /** Int32.ToString() in the invariant culture. */
  function FormatInt32(value: int): string {
    if value < 0 then "-" + Decimal(-value) else Decimal(value)
  }

  lemma {:induction false} DecimalDigits(n: nat)
    ensures |Decimal(n)| > 0 && AllDigits(Decimal(n)) && DigitsValue(Decimal(n)) == n
    decreases n
  {
    if n >= 10 {
      DecimalDigits(n / 10);
      var d := Decimal(n);
      assert d[..|d| - 1] == Decimal(n / 10);
    }
  }

  /** A text with no white space at its ends is its own trimming. */
  lemma TrimNothing(s: string)
    requires |s| > 0 && !IsNumberWhite(s[0]) && !IsNumberWhite(s[|s| - 1])
    ensures TrimNumberWhite(s) == s
  {
  }

  /** The decimal text of an integer: an optional '-' and the digits of its
      magnitude, so it starts and ends with neither white space nor '\0'. */
  lemma FormatInt32Parts(value: int)
    ensures var text := FormatInt32(value);
            var magnitude: nat := if value < 0 then -value else value;
            && |text| > 0 && IsDigit(text[|text| - 1]) && !IsNumberWhite(text[0])
            && (value < 0 ==> text[0] == '-' && text[1..] == Decimal(magnitude))
            && (value >= 0 ==> text == Decimal(magnitude))
  {
    var magnitude: nat := if value < 0 then -value else value;
    DecimalDigits(magnitude);
    var text := FormatInt32(value);
    assert text[|text| - 1] == Decimal(magnitude)[|Decimal(magnitude)| - 1];
    if value < 0 {
      assert text[1..] == Decimal(magnitude);
    } else {
      assert text[0] == Decimal(magnitude)[0];
    }
  }

  /** The decimal text of an integer has nothing to trim. */
  lemma FormatInt32Untrimmed(value: int)
    ensures TrimNumberWhite(DropTrailingNulls(FormatInt32(value))) == FormatInt32(value)
  {
    var text := FormatInt32(value);
    FormatInt32Parts(value);
    assert text[|text| - 1] != '\0';
    assert DropTrailingNulls(text) == text;
    TrimNothing(text);
  }

  /** The sign and digits of the decimal text give back the integer. */
  lemma ParseTrimmedFormat(value: int)
    requires INT32_MIN <= value <= INT32_MAX
    ensures ParseTrimmed(FormatInt32(value)) == Some(value)
  {
    var magnitude: nat := if value < 0 then -value else value;
    var text := FormatInt32(value);
    FormatInt32Parts(value);
    DecimalDigits(magnitude);
    if value < 0 {
      assert text[1..] == Decimal(magnitude);
    } else {
      assert text[0] == Decimal(magnitude)[0];
    }
  }

  /** Parsing reads back every 32-bit integer from its decimal text. */
  lemma ParseFormatRoundTrip(value: int)
    requires INT32_MIN <= value <= INT32_MAX
    ensures ParseInt32(FormatInt32(value)) == Some(value)
  {
    FormatInt32Untrimmed(value);
    ParseTrimmedFormat(value);
  }

  /** A character other than '\0' in front is kept. */
  lemma {:induction false} DropTrailingNullsCons(c: char, s: string)
    requires c != '\0'
    ensures DropTrailingNulls([c] + s) == [c] + DropTrailingNulls(s)
    decreases |s|
  {
    if |s| > 0 && s[|s| - 1] == '\0' {
      assert ([c] + s)[..|s|] == [c] + s[..|s| - 1];
      DropTrailingNullsCons(c, s[..|s| - 1]);
    }
  }

  /** Leading white space does not change what is parsed. */
  lemma {:induction false} ParseIgnoresWhite(s: string, c: char)
    requires IsNumberWhite(c)
    ensures ParseInt32([c] + s) == ParseInt32(s)
  {
    DropTrailingNullsCons(c, s);
    assert ([c] + DropTrailingNulls(s))[1..] == DropTrailingNulls(s);
  }

  lemma {:induction false} TrimSnocWhite(s: string, c: char)
    requires IsNumberWhite(c)
    ensures TrimNumberWhite(s + [c]) == TrimNumberWhite(s)
    decreases |s|
  {
    if |s| == 0 {
      assert [c][1..] == [];
    } else if IsNumberWhite(s[0]) {
      assert (s + [c])[1..] == s[1..] + [c];
      TrimSnocWhite(s[1..], c);
    } else {
      assert (s + [c])[..|s|] == s;
    }
  }

  /** Trailing white space does not change what is parsed either, unless
      the text ends with '\0': the nulls are then no longer at the very end. */
  lemma ParseIgnoresTrailingWhite(s: string, c: char)
    requires IsNumberWhite(c) && (|s| == 0 || s[|s| - 1] != '\0')
    ensures ParseInt32(s + [c]) == ParseInt32(s)
  {
    assert DropTrailingNulls(s) == s;
    assert DropTrailingNulls(s + [c]) == s + [c];
    TrimSnocWhite(s, c);
  }

  /** '\0' characters at the end do not change what is parsed. */
  lemma ParseIgnoresTrailingNull(s: string)
    ensures ParseInt32(s + ['\0']) == ParseInt32(s)
  {
    assert (s + ['\0'])[..|s|] == s;
  }

  /** "12\0" parses as 12, but "12\0 " does not parse. */
  lemma TrailingNullThenWhite()
    ensures ParseInt32("12\0") == Some(12)
    ensures ParseInt32("12\0 ") == None
  {
    assert DropTrailingNulls("12\0") == "12" by {
      assert "12\0"[..2] == "12";
    }
    assert TrimNumberWhite("12") == "12";
    assert DigitsValue("12") == 12 by {
      assert "12"[..1] == "1";
      assert "1"[..0] == "";
    }
    assert DropTrailingNulls("12\0 ") == "12\0 ";
    assert TrimNumberWhite("12\0 ") == "12\0" by {
      assert "12\0 "[..3] == "12\0";
    }
    assert !IsDigit("12\0"[2]);
  }

  /** A result holds the value parsed from the text, and whether it was a
      valid number. */
  datatype IntValue = IntValue(value: int, validNumber: bool)

  /** GetColumnValue(resultRow, columnMap, columnName, defaultValue, out
      validNumber). */
  function GetColumnIntValue(resultRow: seq<string>, columnMap: map<string, int>, columnName: string, defaultValue: int)
    : Result<IntValue>
  {
    match GetColumnValue(resultRow, columnMap, columnName)
    case Failure(e) => Failure(e)
    case Success(valueText) =>
      match ParseInt32(valueText)
      case Some(value) => Success(IntValue(value, true))
      case None => Success(IntValue(defaultValue, false))
  }

  /** The integer lookup fails exactly where the text lookup does; it is a
      valid number exactly when the text parses, and otherwise the default. */
  lemma ColumnIntValueCases(resultRow: seq<string>, columnMap: map<string, int>, columnName: string, defaultValue: int)
    ensures var r := GetColumnIntValue(resultRow, columnMap, columnName, defaultValue);
            var text := GetColumnValue(resultRow, columnMap, columnName);
            && (r.Failure? <==> text.Failure?)
            && (text.Failure? ==> r.error == text.error)
            && (text.Success? ==> (r.value.validNumber <==> ParseInt32(text.value).Some?))
            && (text.Success? && r.value.validNumber ==> Some(r.value.value) == ParseInt32(text.value))
            && (text.Success? && !r.value.validNumber ==> r.value.value == defaultValue)
  {
  }

  /** A column holding the text of an integer reads back as that integer. */
  lemma ColumnIntValueRoundTrip(resultRow: seq<string>, columnMap: map<string, int>, columns: seq<string>,
                                i: nat, value: int, defaultValue: int)
    requires IsColumnMapping(columnMap, columns) && |columns| <= |resultRow| && i < |columns|
    requires INT32_MIN <= value <= INT32_MAX && resultRow[i] == FormatInt32(value)
    ensures GetColumnIntValue(resultRow, columnMap, columns[i], defaultValue) == Success(IntValue(value, true))
  {
    ColumnValueRoundTrip(resultRow, columnMap, columns, columns[i]);
    ParseFormatRoundTrip(value);
  }

  // ---------------------------------------------------------------------
  // GetQueryResults: the retry and row-limit policy

  /** A value the reader returns: DBNull, or a value with its ToString(). */
  datatype Cell = DbNull | Value(text: string)

  /** What one attempt meets: the rows the reader delivers, then the message
      of the exception raised after them (opening the connection, running
      the command or reading), if any. */
  datatype Attempt = Attempt(rows: seq<seq<Cell>>, failure: Option<string>)

  /** What a query does that can be observed: it opens a connection with the
      connection string and the command timeout, reports an error with the
      retry count left, and sleeps between attempts. */
  datatype Event = Connected(connectionString: string, commandTimeout: int)
                 | QueryFailed(message: string, retryCount: int)
                 | Slept(seconds: int)

  datatype QueryResult = QueryResult(success: bool, results: seq<seq<string>>, log: seq<Event>)

  /** The rows gathered when the reader stops, and whether it stopped
      because the row limit was reached. */
  datatype RowsRead = RowsRead(results: seq<seq<string>>, capped: bool)

  /** A null becomes the empty string; any other value its text. */
  function CellText(cell: Cell): string {
    match cell
    case DbNull => ""
    case Value(text) => text
  }

  function RowText(row: seq<Cell>): (r: seq<string>)
    ensures |r| == |row| && forall j :: 0 <= j < |row| ==> r[j] == CellText(row[j])
  {
    seq(|row|, j requires 0 <= j < |row| => CellText(row[j]))
  }

  function RowTexts(rows: seq<seq<Cell>>): (r: seq<seq<string>>)
    ensures |r| == |rows| && forall k :: 0 <= k < |rows| ==> r[k] == RowText(rows[k])
  {
    seq(|rows|, k requires 0 <= k < |rows| => RowText(rows[k]))
  }

  /** The loop over the reader from row `index` on: each row is added, and
      reading stops once a positive limit is reached. */
  function ReadFrom(results: seq<seq<string>>, rows: seq<seq<Cell>>, index: nat, maxRowsToReturn: int): RowsRead
    requires index <= |rows|
    decreases |rows| - index
  {
    if index == |rows| then RowsRead(results, false)
    else
      var added := results + [RowText(rows[index])];
      if maxRowsToReturn > 0 && |added| >= maxRowsToReturn then RowsRead(added, true)
      else ReadFrom(added, rows, index + 1, maxRowsToReturn)
  }

  lemma RowTextsCons(rows: seq<seq<Cell>>, i: nat, j: nat)
    requires i < j <= |rows|
    ensures RowTexts(rows[i..j]) == [RowText(rows[i])] + RowTexts(rows[i + 1..j])
  {
  }

  lemma RowTextsSuffixCons(rows: seq<seq<Cell>>, i: nat)
    requires i < |rows|
    ensures RowTexts(rows[i..]) == [RowText(rows[i])] + RowTexts(rows[i + 1..])
  {
    assert rows[i..] == rows[i..|rows|] && rows[i + 1..] == rows[i + 1..|rows|];
    RowTextsCons(rows, i, |rows|);
  }

  /** Starting below the limit, a reader that does not reach it adds all
      the rows, in order, after those gathered before. */
  lemma {:induction false} ReadFromAll(results: seq<seq<string>>, rows: seq<seq<Cell>>, index: nat, maxRowsToReturn: int)
    requires index <= |rows|
    requires maxRowsToReturn <= 0 || |results| < maxRowsToReturn
    ensures var r := ReadFrom(results, rows, index, maxRowsToReturn);
            !r.capped ==> r.results == results + RowTexts(rows[index..]) && (maxRowsToReturn <= 0 || |r.results| < maxRowsToReturn)
    decreases |rows| - index
  {
    if index < |rows| {
      var added := results + [RowText(rows[index])];
      if !(maxRowsToReturn > 0 && |added| >= maxRowsToReturn) {
        ReadFromAll(added, rows, index + 1, maxRowsToReturn);
        RowTextsSuffixCons(rows, index);
      }
    }
  }

  /** Starting below the limit, a reader that reaches it adds exactly as
      many rows as reach it, in order, after those gathered before. */
  lemma {:induction false} ReadFromCapped(results: seq<seq<string>>, rows: seq<seq<Cell>>, index: nat, maxRowsToReturn: int)
    requires index <= |rows|
    requires maxRowsToReturn <= 0 || |results| < maxRowsToReturn
    ensures var r := ReadFrom(results, rows, index, maxRowsToReturn);
            r.capped ==> && maxRowsToReturn > 0 && |r.results| == maxRowsToReturn
                         && index + maxRowsToReturn - |results| <= |rows|
                         && r.results == results + RowTexts(rows[index..index + maxRowsToReturn - |results|])
    decreases |rows| - index
  {
    if index < |rows| {
      var added := results + [RowText(rows[index])];
      if !(maxRowsToReturn > 0 && |added| >= maxRowsToReturn) {
        ReadFromCapped(added, rows, index + 1, maxRowsToReturn);
        if ReadFrom(added, rows, index + 1, maxRowsToReturn).capped {
          RowTextsCons(rows, index, index + 1 + maxRowsToReturn - |added|);
        }
      } else {
        RowTextsCons(rows, index, index + 1);
      }
    }
  }

  /** Starting below the limit, the reader adds the rows in order: all of
      them, staying below the limit, or exactly as many as reach it. Rows
      gathered before are kept. */
  lemma ReadFromRows(results: seq<seq<string>>, rows: seq<seq<Cell>>, index: nat, maxRowsToReturn: int)
    requires index <= |rows|
    requires maxRowsToReturn <= 0 || |results| < maxRowsToReturn
    ensures var r := ReadFrom(results, rows, index, maxRowsToReturn);
            && (!r.capped ==> r.results == results + RowTexts(rows[index..])
                              && (maxRowsToReturn <= 0 || |r.results| < maxRowsToReturn))
            && (r.capped ==> maxRowsToReturn > 0 && |r.results| == maxRowsToReturn
                             && index + maxRowsToReturn - |results| <= |rows|
                             && r.results == results + RowTexts(rows[index..index + maxRowsToReturn - |results|]))
  {
    ReadFromAll(results, rows, index, maxRowsToReturn);
    ReadFromCapped(results, rows, index, maxRowsToReturn);
  }

  /** The phrases that make retrying pointless: a failed login, an unknown
      object or column, or a denied permission. */
  const FATAL_PHRASES: seq<string> := ["Login failed", "Invalid object name", "Invalid column name", "permission was denied"]

  /** `phrase` occurs in `message` at or after `from`, ignoring case. */
  predicate MentionsFrom(message: string, phrase: string, from: nat)
    decreases |message| - from
  {
    from + |phrase| <= |message|
    && (OccursAt(FoldCase(message), FoldCase(phrase), from) || MentionsFrom(message, phrase, from + 1))
  }

  /** The message contains one of the phrases, ignoring case. */
  predicate MentionsAny(message: string, phrases: seq<string>)
    decreases |phrases|
  {
    |phrases| > 0 && (MentionsFrom(message, phrases[0], 0) || MentionsAny(message, phrases[1..]))
  }

  /** A failure message that makes retrying pointless. */
  predicate IsFatal(message: string) {
    MentionsAny(message, FATAL_PHRASES)
  }

  /** The scan finds the phrase exactly when IndexOf with
      StringComparison.OrdinalIgnoreCase does. */
  lemma {:induction false} MentionsFromIndexOf(message: string, phrase: string, from: nat)
    ensures MentionsFrom(message, phrase, from) <==> IndexOfFrom(FoldCase(message), FoldCase(phrase), from) >= 0
    decreases |message| - from
  {
    if from + |phrase| <= |message| && !OccursAt(FoldCase(message), FoldCase(phrase), from) {
      MentionsFromIndexOf(message, phrase, from + 1);
    }
  }

  /** IsFatal is the source's test: the message contains "Login failed",
      "Invalid object name", "Invalid column name" or "permission was
      denied", ignoring case. */
  lemma IsFatalMeans(message: string)
    ensures IsFatal(message) <==>
            || IndexOfIgnoreCase(message, "Login failed") >= 0
            || IndexOfIgnoreCase(message, "Invalid object name") >= 0
            || IndexOfIgnoreCase(message, "Invalid column name") >= 0
            || IndexOfIgnoreCase(message, "permission was denied") >= 0
  {
    var p := FATAL_PHRASES;
    MentionsFromIndexOf(message, p[0], 0);
    MentionsFromIndexOf(message, p[1], 0);
    MentionsFromIndexOf(message, p[2], 0);
    MentionsFromIndexOf(message, p[3], 0);
    assert p[1..][1..][1..][1..] == [];
  }

  /** The attempts from `attempt` on, with `retryCount` tries left: an
      attempt that reaches the row limit or raises nothing succeeds; a fatal
      failure ends the query; any other failure is reported, the query
      sleeps and tries again while tries are left. */
  function Retry(connectStr: string, timeoutSeconds: int, outcome: nat -> Attempt, isFatal: string -> bool, attempt: nat, retryCount: nat,
                 maxRowsToReturn: int, retryDelaySeconds: int, results: seq<seq<string>>, log: seq<Event>): QueryResult
    decreases retryCount
  {
    if retryCount == 0 then QueryResult(false, results, log)
    else
      var connected := log + [Connected(connectStr, timeoutSeconds)];
      var read := ReadFrom(results, outcome(attempt).rows, 0, maxRowsToReturn);
      if read.capped || outcome(attempt).failure.None? then QueryResult(true, read.results, connected)
      else
        var message := outcome(attempt).failure.value;
        var reported := connected + [QueryFailed(message, retryCount - 1)];
        if isFatal(message) then QueryResult(false, read.results, reported)
        else Retry(connectStr, timeoutSeconds, outcome, isFatal, attempt + 1, retryCount - 1, maxRowsToReturn, retryDelaySeconds,
                   read.results, reported + [Slept(retryDelaySeconds)])
  }

  function AtLeastOne(n: int): nat {
    if n < 1 then 1 else n
  }

  /** GetQueryResults(sqlQuery, out lstResults, callingFunction, retryCount,
      maxRowsToReturn, retryDelaySeconds), with `outcome(k)` what attempt
      `k` meets. */
  function QueryResults(connectStr: string, timeoutSeconds: int, outcome: nat -> Attempt, retryCount: int,
                        maxRowsToReturn: int, retryDelaySeconds: int): QueryResult
  {
    Retry(connectStr, timeoutSeconds, outcome, IsFatal, 0, AtLeastOne(retryCount), maxRowsToReturn, AtLeastOne(retryDelaySeconds), [], [])
  }

  /** How many connections a log shows. */
  function Connections(log: seq<Event>): nat {
    if |log| == 0 then 0 else Connections(log[..|log| - 1]) + (if log[|log| - 1].Connected? then 1 else 0)
  }

  lemma ConnectionsSnoc(log: seq<Event>, e: Event)
    ensures Connections(log + [e]) == Connections(log) + (if e.Connected? then 1 else 0)
  {
    assert (log + [e])[..|log|] == log;
  }

  /** Each round of retries opens one connection more, and never more than
      the tries left. */
  lemma {:induction false} RetryAttempts(connectStr: string, timeoutSeconds: int, outcome: nat -> Attempt, isFatal: string -> bool, attempt: nat,
                                         retryCount: nat, maxRowsToReturn: int, retryDelaySeconds: int,
                                         results: seq<seq<string>>, log: seq<Event>)
    requires retryCount >= 1
    ensures var r := Retry(connectStr, timeoutSeconds, outcome, isFatal, attempt, retryCount, maxRowsToReturn, retryDelaySeconds, results, log);
            Connections(log) + 1 <= Connections(r.log) <= Connections(log) + retryCount
    decreases retryCount
  {
    var connected := log + [Connected(connectStr, timeoutSeconds)];
    ConnectionsSnoc(log, Connected(connectStr, timeoutSeconds));
    var read := ReadFrom(results, outcome(attempt).rows, 0, maxRowsToReturn);
    if !(read.capped || outcome(attempt).failure.None?) {
      var message := outcome(attempt).failure.value;
      var reported := connected + [QueryFailed(message, retryCount - 1)];
      ConnectionsSnoc(connected, QueryFailed(message, retryCount - 1));
      if !isFatal(message) && retryCount > 1 {
        ConnectionsSnoc(reported, Slept(retryDelaySeconds));
        RetryAttempts(connectStr, timeoutSeconds, outcome, isFatal, attempt + 1, retryCount - 1, maxRowsToReturn, retryDelaySeconds,
                      read.results, reported + [Slept(retryDelaySeconds)]);
      }
    }
  }

  /** A query opens at least one connection and at most as many as the
      retry count, raised to 1. */
  lemma QueryAttempts(connectStr: string, timeoutSeconds: int, outcome: nat -> Attempt, retryCount: int,
                      maxRowsToReturn: int, retryDelaySeconds: int)
    ensures var r := QueryResults(connectStr, timeoutSeconds, outcome, retryCount, maxRowsToReturn, retryDelaySeconds);
            1 <= Connections(r.log) <= AtLeastOne(retryCount)
  {
    RetryAttempts(connectStr, timeoutSeconds, outcome, IsFatal, 0, AtLeastOne(retryCount), maxRowsToReturn,
                  AtLeastOne(retryDelaySeconds), [], []);
  }

  /** The rows of `count` attempts from `attempt` on, one after the other. */
  function AttemptRows(outcome: nat -> Attempt, attempt: nat, count: nat): seq<seq<string>>
    decreases count
  {
    if count == 0 then [] else RowTexts(outcome(attempt).rows) + AttemptRows(outcome, attempt + 1, count - 1)
  }

  lemma {:induction false} AttemptRowsSnoc(outcome: nat -> Attempt, attempt: nat, count: nat)
    ensures AttemptRows(outcome, attempt, count + 1) == AttemptRows(outcome, attempt, count) + RowTexts(outcome(attempt + count).rows)
    decreases count
  {
    if count > 0 {
      AttemptRowsSnoc(outcome, attempt + 1, count - 1);
    }
  }

  /** `n` rows stay below the limit (a limit of 0 or less means none). */
  predicate BelowLimit(n: int, maxRowsToReturn: int) {
    maxRowsToReturn <= 0 || n < maxRowsToReturn
  }

  /** A reader whose rows stay below the limit adds them all. */
  lemma ReadFromBelow(results: seq<seq<string>>, rows: seq<seq<Cell>>, maxRowsToReturn: int)
    requires BelowLimit(|results| + |rows|, maxRowsToReturn)
    ensures ReadFrom(results, rows, 0, maxRowsToReturn) == RowsRead(results + RowTexts(rows), false)
  {
    ReadFromRows(results, rows, 0, maxRowsToReturn);
    assert rows[0..] == rows;
  }

  /** A reader that starts below the limit and has rows enough to reach it
      stops there, with the first rows up to the limit. */
  lemma ReadFromReaches(results: seq<seq<string>>, rows: seq<seq<Cell>>, maxRowsToReturn: int)
    requires BelowLimit(|results|, maxRowsToReturn) && !BelowLimit(|results| + |rows|, maxRowsToReturn)
    ensures ReadFrom(results, rows, 0, maxRowsToReturn) == RowsRead((results + RowTexts(rows))[..maxRowsToReturn], true)
  {
    ReadFromRows(results, rows, 0, maxRowsToReturn);
    assert rows[0..] == rows;
    var r := ReadFrom(results, rows, 0, maxRowsToReturn);
    if r.capped {
      var m := maxRowsToReturn - |results|;
      assert RowTexts(rows[0..m]) == RowTexts(rows)[..m];
    }
  }

  /** When every try fails with a message that is not fatal and the rows
      read stay below the row limit, the query fails after using all its
      tries, and keeps the rows of every attempt. */
  lemma {:induction false} RetryExhausted(connectStr: string, timeoutSeconds: int, outcome: nat -> Attempt, isFatal: string -> bool, attempt: nat,
                                          retryCount: nat, maxRowsToReturn: int, retryDelaySeconds: int,
                                          results: seq<seq<string>>, log: seq<Event>)
    requires forall k :: attempt <= k < attempt + retryCount ==> outcome(k).failure.Some? && !isFatal(outcome(k).failure.value)
    requires BelowLimit(|results| + |AttemptRows(outcome, attempt, retryCount)|, maxRowsToReturn)
    ensures var r := Retry(connectStr, timeoutSeconds, outcome, isFatal, attempt, retryCount, maxRowsToReturn, retryDelaySeconds, results, log);
            && !r.success && Connections(r.log) == Connections(log) + retryCount
            && r.results == results + AttemptRows(outcome, attempt, retryCount)
    decreases retryCount
  {
    if retryCount > 0 {
      var rows := outcome(attempt).rows;
      var connected := log + [Connected(connectStr, timeoutSeconds)];
      ConnectionsSnoc(log, Connected(connectStr, timeoutSeconds));
      ReadFromBelow(results, rows, maxRowsToReturn);
      var read := ReadFrom(results, rows, 0, maxRowsToReturn);
      var message := outcome(attempt).failure.value;
      var reported := connected + [QueryFailed(message, retryCount - 1)];
      ConnectionsSnoc(connected, QueryFailed(message, retryCount - 1));
      ConnectionsSnoc(reported, Slept(retryDelaySeconds));
      RetryExhausted(connectStr, timeoutSeconds, outcome, isFatal, attempt + 1, retryCount - 1, maxRowsToReturn, retryDelaySeconds,
                     read.results, reported + [Slept(retryDelaySeconds)]);
      assert read.results + AttemptRows(outcome, attempt + 1, retryCount - 1)
          == results + AttemptRows(outcome, attempt, retryCount);
    }
  }

  /** GetQueryResults when every try fails without a fatal message and the
      row limit is never reached: it fails, having connected once per try,
      with the rows of all attempts. */
  lemma QueryExhausted(connectStr: string, timeoutSeconds: int, outcome: nat -> Attempt, retryCount: int,
                       maxRowsToReturn: int, retryDelaySeconds: int)
    requires forall k :: 0 <= k < AtLeastOne(retryCount) ==> outcome(k).failure.Some? && !IsFatal(outcome(k).failure.value)
    requires BelowLimit(|AttemptRows(outcome, 0, AtLeastOne(retryCount))|, maxRowsToReturn)
    ensures var r := QueryResults(connectStr, timeoutSeconds, outcome, retryCount, maxRowsToReturn, retryDelaySeconds);
            && !r.success && Connections(r.log) == AtLeastOne(retryCount)
            && r.results == AttemptRows(outcome, 0, AtLeastOne(retryCount))
  {
    RetryExhausted(connectStr, timeoutSeconds, outcome, IsFatal, 0, AtLeastOne(retryCount), maxRowsToReturn,
                   AtLeastOne(retryDelaySeconds), [], []);
  }

  /** After `k` tries that fail without a fatal message and stay below the
      row limit, a try that raises nothing or reaches the limit succeeds,
      with what it read after the rows of the failed tries, and the query
      has connected `k + 1` times. */
  lemma {:induction false} RetrySucceedsAfter(connectStr: string, timeoutSeconds: int, outcome: nat -> Attempt, isFatal: string -> bool,
                                              attempt: nat, retryCount: nat, maxRowsToReturn: int, retryDelaySeconds: int,
                                              results: seq<seq<string>>, log: seq<Event>, k: nat)
    requires k < retryCount
    requires forall j :: attempt <= j < attempt + k ==> outcome(j).failure.Some? && !isFatal(outcome(j).failure.value)
    requires BelowLimit(|results| + |AttemptRows(outcome, attempt, k)|, maxRowsToReturn)
    requires var read := ReadFrom(results + AttemptRows(outcome, attempt, k), outcome(attempt + k).rows, 0, maxRowsToReturn);
             read.capped || outcome(attempt + k).failure.None?
    ensures var r := Retry(connectStr, timeoutSeconds, outcome, isFatal, attempt, retryCount, maxRowsToReturn, retryDelaySeconds, results, log);
            && r.success && Connections(r.log) == Connections(log) + k + 1
            && r.results == ReadFrom(results + AttemptRows(outcome, attempt, k), outcome(attempt + k).rows, 0, maxRowsToReturn).results
    decreases k
  {
    var connected := log + [Connected(connectStr, timeoutSeconds)];
    ConnectionsSnoc(log, Connected(connectStr, timeoutSeconds));
    if k == 0 {
      assert results + AttemptRows(outcome, attempt, 0) == results;
    } else {
      var rows := outcome(attempt).rows;
      ReadFromBelow(results, rows, maxRowsToReturn);
      var read := ReadFrom(results, rows, 0, maxRowsToReturn);
      var message := outcome(attempt).failure.value;
      var reported := connected + [QueryFailed(message, retryCount - 1)];
      ConnectionsSnoc(connected, QueryFailed(message, retryCount - 1));
      ConnectionsSnoc(reported, Slept(retryDelaySeconds));
      assert read.results + AttemptRows(outcome, attempt + 1, k - 1) == results + AttemptRows(outcome, attempt, k);
      RetrySucceedsAfter(connectStr, timeoutSeconds, outcome, isFatal, attempt + 1, retryCount - 1, maxRowsToReturn, retryDelaySeconds,
                         read.results, reported + [Slept(retryDelaySeconds)], k - 1);
    }
  }

  /** GetQueryResults succeeds on try `k + 1` when the first `k` tries fail
      without a fatal message below the row limit and the next raises
      nothing or reaches the limit: it keeps the rows of every try, up to
      the limit, and has connected `k + 1` times. */
  lemma QuerySucceedsAfter(connectStr: string, timeoutSeconds: int, outcome: nat -> Attempt, retryCount: int,
                           maxRowsToReturn: int, retryDelaySeconds: int, k: nat)
    requires k < AtLeastOne(retryCount)
    requires forall j :: 0 <= j < k ==> outcome(j).failure.Some? && !IsFatal(outcome(j).failure.value)
    requires BelowLimit(|AttemptRows(outcome, 0, k)|, maxRowsToReturn)
    requires outcome(k).failure.None? || !BelowLimit(|AttemptRows(outcome, 0, k + 1)|, maxRowsToReturn)
    ensures var r := QueryResults(connectStr, timeoutSeconds, outcome, retryCount, maxRowsToReturn, retryDelaySeconds);
            var all := AttemptRows(outcome, 0, k + 1);
            && r.success && Connections(r.log) == k + 1
            && (BelowLimit(|all|, maxRowsToReturn) ==> r.results == all)
            && (!BelowLimit(|all|, maxRowsToReturn) ==> r.results == all[..maxRowsToReturn])
  {
    var failed := AttemptRows(outcome, 0, k);
    var rows := outcome(k).rows;
    AttemptRowsSnoc(outcome, 0, k);
    assert |AttemptRows(outcome, 0, k + 1)| == |failed| + |rows|;
    if BelowLimit(|failed| + |rows|, maxRowsToReturn) {
      ReadFromBelow([] + failed, rows, maxRowsToReturn);
    } else {
      ReadFromReaches([] + failed, rows, maxRowsToReturn);
    }
    assert [] + failed == failed;
    RetrySucceedsAfter(connectStr, timeoutSeconds, outcome, IsFatal, 0, AtLeastOne(retryCount), maxRowsToReturn,
                       AtLeastOne(retryDelaySeconds), [], [], k);
  }

  predicate FatalReported(isFatal: string -> bool, e: Event) {
    e.QueryFailed? && isFatal(e.message)
  }

  /** No event of the log reports a fatal failure. */
  predicate NoFatal(isFatal: string -> bool, log: seq<Event>) {
    forall i :: 0 <= i < |log| ==> !FatalReported(isFatal, log[i])
  }

  /** A reported fatal failure is the last event, and the query failed. */
  predicate EndsAtFatal(isFatal: string -> bool, r: QueryResult) {
    forall i :: 0 <= i < |r.log| && FatalReported(isFatal, r.log[i]) ==> i == |r.log| - 1 && !r.success
  }

  lemma NoFatalSnoc(isFatal: string -> bool, log: seq<Event>, e: Event)
    requires NoFatal(isFatal, log) && !FatalReported(isFatal, e)
    ensures NoFatal(isFatal, log + [e])
  {
    forall i | 0 <= i < |log| ensures !FatalReported(isFatal, (log + [e])[i]) {
      assert (log + [e])[i] == log[i];
    }
  }

  lemma NoFatalEndsAtFatal(isFatal: string -> bool, q: QueryResult)
    requires NoFatal(isFatal, q.log)
    ensures EndsAtFatal(isFatal, q)
  {
  }

  lemma EndsAtFatalReport(isFatal: string -> bool, log: seq<Event>, e: Event, results: seq<seq<string>>)
    requires NoFatal(isFatal, log)
    ensures EndsAtFatal(isFatal, QueryResult(false, results, log + [e]))
  {
    forall i | 0 <= i < |log| ensures !FatalReported(isFatal, (log + [e])[i]) {
      assert (log + [e])[i] == log[i];
    }
  }

  /** Nothing follows a fatal failure: it is the last event and the query
      fails. */
  lemma {:induction false} RetryStopsAtFatal(connectStr: string, timeoutSeconds: int, outcome: nat -> Attempt, isFatal: string -> bool, attempt: nat,
                                             retryCount: nat, maxRowsToReturn: int, retryDelaySeconds: int,
                                             results: seq<seq<string>>, log: seq<Event>)
    requires NoFatal(isFatal, log)
    ensures EndsAtFatal(isFatal, Retry(connectStr, timeoutSeconds, outcome, isFatal, attempt, retryCount, maxRowsToReturn, retryDelaySeconds, results, log))
    decreases retryCount
  {
    var r := Retry(connectStr, timeoutSeconds, outcome, isFatal, attempt, retryCount, maxRowsToReturn, retryDelaySeconds, results, log);
    if retryCount == 0 {
      assert r == QueryResult(false, results, log);
      NoFatalEndsAtFatal(isFatal, r);
    } else {
      var read := ReadFrom(results, outcome(attempt).rows, 0, maxRowsToReturn);
      var connected := log + [Connected(connectStr, timeoutSeconds)];
      NoFatalSnoc(isFatal, log, Connected(connectStr, timeoutSeconds));
      if read.capped || outcome(attempt).failure.None? {
        assert r == QueryResult(true, read.results, connected);
        NoFatalEndsAtFatal(isFatal, r);
      } else {
        var message := outcome(attempt).failure.value;
        var reported := connected + [QueryFailed(message, retryCount - 1)];
        if isFatal(message) {
          assert r == QueryResult(false, read.results, reported);
          EndsAtFatalReport(isFatal, connected, QueryFailed(message, retryCount - 1), read.results);
        } else {
          var next := reported + [Slept(retryDelaySeconds)];
          assert r == Retry(connectStr, timeoutSeconds, outcome, isFatal, attempt + 1, retryCount - 1, maxRowsToReturn, retryDelaySeconds,
                            read.results, next);
          NoFatalSnoc(isFatal, connected, QueryFailed(message, retryCount - 1));
          NoFatalSnoc(isFatal, reported, Slept(retryDelaySeconds));
          RetryStopsAtFatal(connectStr, timeoutSeconds, outcome, isFatal, attempt + 1, retryCount - 1, maxRowsToReturn, retryDelaySeconds,
                            read.results, next);
        }
      }
    }
  }

  /** GetQueryResults never goes on after a fatal failure. */
  lemma QueryStopsAtFatal(connectStr: string, timeoutSeconds: int, outcome: nat -> Attempt, retryCount: int,
                          maxRowsToReturn: int, retryDelaySeconds: int)
    ensures EndsAtFatal(IsFatal, QueryResults(connectStr, timeoutSeconds, outcome, retryCount, maxRowsToReturn, retryDelaySeconds))
  {
    RetryStopsAtFatal(connectStr, timeoutSeconds, outcome, IsFatal, 0, AtLeastOne(retryCount), maxRowsToReturn,
                      AtLeastOne(retryDelaySeconds), [], []);
  }

  /** Rows gathered in failed attempts are kept, and a positive row limit
      is never exceeded. */
  lemma {:induction false} RetryRows(connectStr: string, timeoutSeconds: int, outcome: nat -> Attempt, isFatal: string -> bool, attempt: nat,
                                     retryCount: nat, maxRowsToReturn: int, retryDelaySeconds: int,
                                     results: seq<seq<string>>, log: seq<Event>)
    requires maxRowsToReturn <= 0 || |results| < maxRowsToReturn
    ensures var r := Retry(connectStr, timeoutSeconds, outcome, isFatal, attempt, retryCount, maxRowsToReturn, retryDelaySeconds, results, log);
            && |results| <= |r.results| && r.results[..|results|] == results
            && (maxRowsToReturn > 0 ==> |r.results| <= maxRowsToReturn)
    decreases retryCount
  {
    if retryCount > 0 {
      var read := ReadFrom(results, outcome(attempt).rows, 0, maxRowsToReturn);
      ReadFromRows(results, outcome(attempt).rows, 0, maxRowsToReturn);
      assert read.results[..|results|] == results;
      if !(read.capped || outcome(attempt).failure.None?) {
        var message := outcome(attempt).failure.value;
        var reported := log + [Connected(connectStr, timeoutSeconds)] + [QueryFailed(message, retryCount - 1)];
        if !isFatal(message) {
          RetryRows(connectStr, timeoutSeconds, outcome, isFatal, attempt + 1, retryCount - 1, maxRowsToReturn, retryDelaySeconds,
                    read.results, reported + [Slept(retryDelaySeconds)]);
          var r := Retry(connectStr, timeoutSeconds, outcome, isFatal, attempt + 1, retryCount - 1, maxRowsToReturn, retryDelaySeconds,
                         read.results, reported + [Slept(retryDelaySeconds)]);
          assert r.results[..|results|] == r.results[..|read.results|][..|results|];
        }
      }
    }
  }

  /** A positive row limit caps the rows returned; the rows of a first
      attempt that fails, and is retried, stay at the front of the result. */
  lemma QueryRows(connectStr: string, timeoutSeconds: int, outcome: nat -> Attempt, retryCount: int,
                  maxRowsToReturn: int, retryDelaySeconds: int)
    ensures var r := QueryResults(connectStr, timeoutSeconds, outcome, retryCount, maxRowsToReturn, retryDelaySeconds);
            && (maxRowsToReturn > 0 ==> |r.results| <= maxRowsToReturn)
            && (var first := ReadFrom([], outcome(0).rows, 0, maxRowsToReturn);
                !first.capped && outcome(0).failure.Some? ==>
                  |RowTexts(outcome(0).rows)| <= |r.results| && r.results[..|outcome(0).rows|] == RowTexts(outcome(0).rows))
  {
    var retries := AtLeastOne(retryCount);
    var delay := AtLeastOne(retryDelaySeconds);
    RetryRows(connectStr, timeoutSeconds, outcome, IsFatal, 0, retries, maxRowsToReturn, delay, [], []);
    var first := ReadFrom([], outcome(0).rows, 0, maxRowsToReturn);
    ReadFromRows([], outcome(0).rows, 0, maxRowsToReturn);
    assert outcome(0).rows[0..] == outcome(0).rows;
    if !first.capped && outcome(0).failure.Some? {
      var message := outcome(0).failure.value;
      var reported := [Connected(connectStr, timeoutSeconds), QueryFailed(message, retries - 1)];
      assert [] + [Connected(connectStr, timeoutSeconds)] + [QueryFailed(message, retries - 1)] == reported;
      if !IsFatal(message) {
        RetryRows(connectStr, timeoutSeconds, outcome, IsFatal, 1, retries - 1, maxRowsToReturn, delay,
                  first.results, reported + [Slept(delay)]);
      }
    }
  }

  /** A first attempt that raises nothing succeeds at once, with its rows
      up to the limit. */
  lemma QueryCleanFirstAttempt(connectStr: string, timeoutSeconds: int, outcome: nat -> Attempt, retryCount: int,
                               maxRowsToReturn: int, retryDelaySeconds: int)
    requires outcome(0).failure.None?
    ensures var r := QueryResults(connectStr, timeoutSeconds, outcome, retryCount, maxRowsToReturn, retryDelaySeconds);
            var rows := outcome(0).rows;
            && r.success && r.log == [Connected(connectStr, timeoutSeconds)]
            && (maxRowsToReturn <= 0 || |rows| < maxRowsToReturn ==> r.results == RowTexts(rows))
            && (maxRowsToReturn > 0 && |rows| >= maxRowsToReturn ==> r.results == RowTexts(rows[..maxRowsToReturn]))
  {
    var rows := outcome(0).rows;
    ReadFromRows([], rows, 0, maxRowsToReturn);
    assert rows[0..] == rows;
    assert [] + [Connected(connectStr, timeoutSeconds)] == [Connected(connectStr, timeoutSeconds)];
    var read := ReadFrom([], rows, 0, maxRowsToReturn);
    if read.capped {
      assert rows[0..0 + maxRowsToReturn - 0] == rows[..maxRowsToReturn];
    }
  }

  /** The database helper's state: the connection string and the query
      timeout (0 until it is set). */
  class DBTools {
    var connectStr: string
    var timeoutSeconds: int

    constructor(connectionString: string)
      ensures connectStr == connectionString && timeoutSeconds == 0
    {
      connectStr := connectionString;
      timeoutSeconds := 0;
    }

    /** The TimeoutSeconds setter. */
    method SetTimeoutSeconds(value: int)
      modifies this
      ensures timeoutSeconds == ClampTimeout(value) && connectStr == old(connectStr)
    {
      var v := value;
      if v == 0 {
        v := DEFAULT_SP_TIMEOUT_SEC;
      }
      if v < MIN_TIMEOUT_SEC {
        v := MIN_TIMEOUT_SEC;
      }
      timeoutSeconds := v;
    }

    /** GetColumnMapping(columns): each column name to its index; a repeated
        name makes Dictionary.Add throw, at its second occurrence. */
    static method GetColumnMapping(columns: seq<string>) returns (r: Result<map<string, int>>)
      ensures r.Success? <==> Distinct(columns)
      ensures r.Success? ==> IsColumnMapping(r.value, columns)
      ensures r.Failure? ==> r.error.DuplicateColumn?
      ensures r.Failure? ==> exists i, j :: 0 <= i < j < |columns| && columns[i] == columns[j] == r.error.name
                                            && Distinct(columns[..j])
    {
      var columnMap: map<string, int> := map[];
      for i := 0 to |columns|
        invariant Distinct(columns[..i])
        invariant IsColumnMapping(columnMap, columns[..i])
      {
        if columns[i] in columnMap {
          var k := columnMap[columns[i]];
          assert columns[..i][k] == columns[i];
          assert !Distinct(columns) by {
            assert columns[k] == columns[i];
          }
          return Failure(DuplicateColumn(columns[i]));
        }
        assert columns[..i + 1] == columns[..i] + [columns[i]];
        columnMap := columnMap[columns[i] := i];
      }
      assert columns[..|columns|] == columns;
      return Success(columnMap);
    }

    /** The loop over one row's columns: DBNull becomes the empty string. */
    static method ReadRow(row: seq<Cell>) returns (lstCurrentRow: seq<string>)
      ensures lstCurrentRow == RowText(row)
    {
      lstCurrentRow := [];
      for columnIndex := 0 to |row|
        invariant lstCurrentRow == RowText(row[..columnIndex])
      {
        var value := row[columnIndex];
        if value.DbNull? {
          lstCurrentRow := lstCurrentRow + [""];
        } else {
          lstCurrentRow := lstCurrentRow + [value.text];
        }
      }
      assert row[..|row|] == row;
    }

    /** The loop over the reader's rows, stopping at a positive row limit
        counted over everything gathered so far. */
    static method ReadRows(results: seq<seq<string>>, rows: seq<seq<Cell>>, maxRowsToReturn: int)
      returns (lstResults: seq<seq<string>>, capped: bool)
      ensures RowsRead(lstResults, capped) == ReadFrom(results, rows, 0, maxRowsToReturn)
    {
      lstResults := results;
      for index := 0 to |rows|
        invariant ReadFrom(lstResults, rows, index, maxRowsToReturn) == ReadFrom(results, rows, 0, maxRowsToReturn)
      {
        var lstCurrentRow := ReadRow(rows[index]);
        lstResults := lstResults + [lstCurrentRow];
        if maxRowsToReturn > 0 && |lstResults| >= maxRowsToReturn {
          return lstResults, true;
        }
      }
      capped := false;
    }

    /** GetQueryResults: `outcome(k)` is what attempt `k` meets; the query
        text and the calling function only shape the messages. */
    method GetQueryResults(sqlQuery: string, callingFunction: string, retryCount: int, maxRowsToReturn: int,
                           retryDelaySeconds: int, outcome: nat -> Attempt)
      returns (success: bool, lstResults: seq<seq<string>>, log: seq<Event>)
      ensures QueryResult(success, lstResults, log)
              == QueryResults(connectStr, timeoutSeconds, outcome, retryCount, maxRowsToReturn, retryDelaySeconds)
    {
      var retries := retryCount;
      if retries < 1 {
        retries := 1;
      }
      var delay := retryDelaySeconds;
      if delay < 1 {
        delay := 1;
      }
      lstResults := [];
      log := [];
      var attempt := 0;
      while retries > 0
        invariant Retry(connectStr, timeoutSeconds, outcome, IsFatal, attempt, retries, maxRowsToReturn, delay, lstResults, log)
                  == QueryResults(connectStr, timeoutSeconds, outcome, retryCount, maxRowsToReturn, retryDelaySeconds)
        decreases retries
      {
        log := log + [Connected(connectStr, timeoutSeconds)];
        var current := outcome(attempt);
        var capped;
        lstResults, capped := ReadRows(lstResults, current.rows, maxRowsToReturn);
        if capped || current.failure.None? {
          return true, lstResults, log;
        }
        retries := retries - 1;
        log := log + [QueryFailed(current.failure.value, retries)];
        if IsFatal(current.failure.value) {
          return false, lstResults, log;
        }
        log := log + [Slept(delay)];
        attempt := attempt + 1;
      }
      success := false;
    }
  }
}
