/** clsStackTraceFormatter: turns the StackTrace text of an exception into a
    compact list of frames (innermost call last), plus the file where the
    exception occurred, and joins that list into one line or several.

    The three regular expressions of GetExceptionStackTraceData are written
    out as explicit matchers, each proved to agree with a predicate that
    states what the expression matches (leftmost match, greedy groups). */
module StackTraceFormatter {
  import opened Text

  const STACK_TRACE_TITLE := "Stack trace: "
  const STACK_CHAIN_SEPARATOR := "-:-"
  const FINAL_FILE_PREFIX := " in "
  const CODE_LINE_PREFIX := ":line "
  const EMPTY_STACK_TRACE := "Empty stack trace"

  // ---------------------------------------------------------------------
  // StringReader.ReadLine

  predicate IsLineBreak(c: char) {
    c == '\r' || c == '\n'
  }

  /** The first line break at or after `pos`, or the end of the text. */
  function LineEnd(text: string, pos: nat): (e: nat)
    requires pos <= |text|
    ensures pos <= e <= |text|
    decreases |text| - pos
  {
    if pos == |text| || IsLineBreak(text[pos]) then pos else LineEnd(text, pos + 1)
  }

  /** A line runs up to the first line break after its start, or to the end
      of the text. */
  lemma {:induction false} LineEndStopsAtBreak(text: string, pos: nat)
    requires pos <= |text|
    ensures forall i :: pos <= i < LineEnd(text, pos) ==> !IsLineBreak(text[i])
    ensures LineEnd(text, pos) < |text| ==> IsLineBreak(text[LineEnd(text, pos)])
    decreases |text| - pos
  {
    if pos < |text| && !IsLineBreak(text[pos]) {
      LineEndStopsAtBreak(text, pos + 1);
    }
  }

  /** Conversely, the first break after a run free of breaks ends the line. */
  lemma {:induction false} LineEndAt(text: string, pos: nat, e: nat)
    requires pos <= e <= |text|
    requires forall i :: pos <= i < e ==> !IsLineBreak(text[i])
    requires e == |text| || IsLineBreak(text[e])
    ensures LineEnd(text, pos) == e
    decreases e - pos
  {
    if pos < e {
      LineEndAt(text, pos + 1, e);
    }
  }

  /** Where the line after a break at `end` starts: "\r\n", "\r" and "\n"
      each end a line. */
  function NextLineStart(text: string, end: nat): (next: nat)
    requires end <= |text|
    ensures end == |text| ==> next == end
    ensures end < |text| ==> end < next <= |text|
  {
    if end == |text| then end
    else if text[end] == '\r' && end + 1 < |text| && text[end + 1] == '\n' then end + 2
    else end + 1
  }

  /** The lines ReadLine returns from `pos` on, until Peek() returns -1. */
  function LinesFrom(text: string, pos: nat): seq<string>
    requires pos <= |text|
    decreases |text| - pos
  {
    if pos == |text| then []
    else
      var end := LineEnd(text, pos);
      [text[pos..end]] + LinesFrom(text, NextLineStart(text, end))
  }

  predicate HasNoLineBreak(line: string) {
    forall i :: 0 <= i < |line| ==> !IsLineBreak(line[i])
  }

  /** No line holds a line break, and together the lines are no longer than
      the text they were read from. */
  lemma {:induction false} LinesHoldNoBreaks(text: string, pos: nat)
    requires pos <= |text|
    ensures forall k :: 0 <= k < |LinesFrom(text, pos)| ==> HasNoLineBreak(LinesFrom(text, pos)[k])
    ensures TotalLength(LinesFrom(text, pos)) <= |text| - pos
    decreases |text| - pos
  {
    if pos < |text| {
      var end := LineEnd(text, pos);
      var next := NextLineStart(text, end);
      LinesHoldNoBreaks(text, next);
      LineEndStopsAtBreak(text, pos);
      var line := text[pos..end];
      assert HasNoLineBreak(line) by {
        forall i | 0 <= i < |line| ensures !IsLineBreak(line[i]) {
          assert line[i] == text[pos + i];
        }
      }
      assert LinesFrom(text, pos) == [line] + LinesFrom(text, next);
    }
  }

  function TotalLength(lines: seq<string>): nat {
    if |lines| == 0 then 0 else |lines[0]| + TotalLength(lines[1..])
  }

  // ---------------------------------------------------------------------
  // Case-insensitive matching, as RegexOptions.IgnoreCase does it

  /** `pattern`, given in lower case, occurs at `i` ignoring case. */
  predicate OccursAtIgnoreCase(s: string, pattern: string, i: int) {
    0 <= i && i + |pattern| <= |s| && FoldCase(s[i..i + |pattern|]) == pattern
  }

  // ---------------------------------------------------------------------
  // The regular expression `at ([^(]+)\(`

  /** What the expression matches at `i`, with `name` as its group: "at "
      in any case, one or more characters other than '(', then '('. */
  predicate IsFunctionMatch(line: string, i: int, name: string) {
    && OccursAtIgnoreCase(line, "at ", i)
    && |name| > 0 && i + 3 + |name| < |line|
    && line[i + 3..i + 3 + |name|] == name
    && (forall t :: 0 <= t < |name| ==> name[t] != '(')
    && line[i + 3 + |name|] == '('
  }

  /** The group of a match at `i`: everything up to the next '('. */
  function FunctionMatchAt(line: string, i: nat): Option<string>
    requires i <= |line|
  {
    if !OccursAtIgnoreCase(line, "at ", i) then None
    else
      var j := IndexOfFrom(line, "(", i + 3);
      if j > i + 3 then Some(line[i + 3..j]) else None
  }

  /** The leftmost match at or after `from`. */
  function FunctionMatchFrom(line: string, from: nat): Option<string>
    requires from <= |line|
    decreases |line| - from
  {
    if from == |line| then None
    else if FunctionMatchAt(line, from).Some? then FunctionMatchAt(line, from)
    else FunctionMatchFrom(line, from + 1)
  }

  function FunctionMatch(line: string): Option<string> {
    FunctionMatchFrom(line, 0)
  }

  /** The group found at `i` is the one the expression matches there, and
      the expression matches nothing else there. */
  lemma FunctionMatchAtIsMatch(line: string, i: nat)
    requires i <= |line|
    ensures FunctionMatchAt(line, i).Some? ==> IsFunctionMatch(line, i, FunctionMatchAt(line, i).value)
    ensures forall name :: IsFunctionMatch(line, i, name) ==> FunctionMatchAt(line, i) == Some(name)
  {
    if OccursAtIgnoreCase(line, "at ", i) {
      var j := IndexOfFrom(line, "(", i + 3);
      if j > i + 3 {
        var name := line[i + 3..j];
        assert line[j] == '(' by { assert OccursAt(line, "(", j); }
        forall t | 0 <= t < |name| ensures name[t] != '(' {
          assert !OccursAt(line, "(", i + 3 + t);
        }
      }
      forall name | IsFunctionMatch(line, i, name) ensures FunctionMatchAt(line, i) == Some(name) {
        var e := i + 3 + |name|;
        assert OccursAt(line, "(", e) by { assert line[e..e + 1] == [line[e]]; }
        forall t | i + 3 <= t < e ensures !OccursAt(line, "(", t) {
          assert line[t] == name[t - i - 3];
        }
      }
    }
  }

  /** The expression matches nowhere in [from, to). */
  ghost predicate NoFunctionMatchBetween(line: string, from: int, to: int) {
    forall i, name :: from <= i < to ==> !IsFunctionMatch(line, i, name)
  }

  /** FunctionMatch finds the leftmost match of the expression and its
      group, and reports no match exactly when there is none. */
  lemma {:induction false} FunctionMatchIsLeftmost(line: string, from: nat)
    requires from <= |line|
    ensures FunctionMatchFrom(line, from).Some? ==>
      exists i :: from <= i < |line| && IsFunctionMatch(line, i, FunctionMatchFrom(line, from).value)
                  && NoFunctionMatchBetween(line, from, i)
    ensures FunctionMatchFrom(line, from).None? ==> NoFunctionMatchBetween(line, from, |line| + 1)
    decreases |line| - from
  {
    if from < |line| {
      FunctionMatchAtIsMatch(line, from);
      if FunctionMatchAt(line, from).Some? {
        assert IsFunctionMatch(line, from, FunctionMatchFrom(line, from).value);
        assert NoFunctionMatchBetween(line, from, from);
      } else {
        assert NoFunctionMatchBetween(line, from, from + 1);
        FunctionMatchIsLeftmost(line, from + 1);
        if FunctionMatchFrom(line, from + 1).Some? {
          var i :| from + 1 <= i < |line| && IsFunctionMatch(line, i, FunctionMatchFrom(line, from + 1).value)
                   && NoFunctionMatchBetween(line, from + 1, i);
          assert NoFunctionMatchBetween(line, from, i);
        }
      }
    }
  }

  // ---------------------------------------------------------------------
  // The regular expression `in .+\\(.+)`

  /** The last backslash before `end`, or -1. */
  function LastBackslashBefore(line: string, end: nat): (k: int)
    requires end <= |line|
    ensures -1 <= k < end
    ensures k >= 0 ==> line[k] == '\\'
    ensures forall t :: k < t < end && t >= 0 ==> line[t] != '\\'
    decreases end
  {
    if end == 0 then -1
    else if line[end - 1] == '\\' then end - 1
    else LastBackslashBefore(line, end - 1)
  }

  /** What the expression matches at `i` when its first `.+` ends at the
      backslash `k`: "in " in any case, at least one character, the
      backslash, at least one character. A line holds no newline, so `.`
      matches every character of it. */
  predicate IsFileMatch(line: string, i: int, k: int) {
    && OccursAtIgnoreCase(line, "in ", i)
    && i + 4 <= k < |line| - 1
    && line[k] == '\\'
  }

  /** The group of the leftmost match: the text after the last backslash
      that is not the last character, when "in " occurs before it. */
  function FileMatch(line: string): Option<string> {
    var i := IndexOf(FoldCase(line), "in ");
    var k := if |line| == 0 then -1 else LastBackslashBefore(line, |line| - 1);
    if i >= 0 && k >= i + 4 then Some(line[k + 1..]) else None
  }

  /** "in " at `i` ignoring case is an ordinal occurrence in the folded line. */
  lemma FoldedOccurrence(line: string, i: int)
    ensures OccursAtIgnoreCase(line, "in ", i) <==> OccursAt(FoldCase(line), "in ", i)
  {
    if 0 <= i && i + 3 <= |line| {
      assert FoldCase(line[i..i + 3]) == FoldCase(line)[i..i + 3];
    }
  }

  /** FileMatch returns the group of the leftmost match, with the first
      `.+` as long as possible, and no match exactly when the expression
      matches nowhere. The group is the rest of the line after that
      backslash. */
  lemma FileMatchIsLeftmostGreedy(line: string)
    ensures FileMatch(line).Some? ==>
      exists i, k :: && IsFileMatch(line, i, k) && FileMatch(line).value == line[k + 1..]
                     && (forall i', k' :: i' < i ==> !IsFileMatch(line, i', k'))
                     && (forall k' :: k < k' ==> !IsFileMatch(line, i, k'))
    ensures FileMatch(line).None? ==> forall i, k :: !IsFileMatch(line, i, k)
  {
    var i := IndexOf(FoldCase(line), "in ");
    var k := if |line| == 0 then -1 else LastBackslashBefore(line, |line| - 1);
    FoldedOccurrence(line, i);
    forall i', k' | IsFileMatch(line, i', k') ensures i >= 0 && i <= i' && k' <= k {
      FoldedOccurrence(line, i');
    }
    forall i' | i' < i ensures !OccursAtIgnoreCase(line, "in ", i') {
      FoldedOccurrence(line, i');
    }
    if FileMatch(line).Some? {
      assert IsFileMatch(line, i, k);
    }
  }

  // ---------------------------------------------------------------------
  // The regular expression `:line \d+`

  /** The end of the run of digits starting at `p`. */
  function DigitsEnd(s: string, p: nat): (e: nat)
    requires p <= |s|
    ensures p <= e <= |s|
    ensures forall t :: p <= t < e ==> IsDigit(s[t])
    ensures e < |s| ==> !IsDigit(s[e])
    decreases |s| - p
  {
    if p == |s| || !IsDigit(s[p]) then p else DigitsEnd(s, p + 1)
  }

  /** A match of the expression: where it starts and the text it covers. */
  datatype LineNumber = LineNumber(index: nat, value: string)

  /** The expression matches at `i`: ":line " in any case and a digit. */
  predicate IsLineMatchAt(s: string, i: int) {
    OccursAtIgnoreCase(s, CODE_LINE_PREFIX, i) && i + 6 < |s| && IsDigit(s[i + 6])
  }

  /** The leftmost match at or after `from`, with all the digits that follow. */
  function LineMatchFrom(s: string, from: nat): (m: Option<LineNumber>)
    requires from <= |s|
    ensures m.Some? ==> && from <= m.value.index && IsLineMatchAt(s, m.value.index)
                        && m.value.value == s[m.value.index..DigitsEnd(s, m.value.index + 6)]
                        && forall i :: from <= i < m.value.index ==> !IsLineMatchAt(s, i)
    ensures m.None? ==> forall i :: from <= i ==> !IsLineMatchAt(s, i)
    decreases |s| - from
  {
    if from == |s| then None
    else if IsLineMatchAt(s, from) then Some(LineNumber(from, s[from..DigitsEnd(s, from + 6)]))
    else LineMatchFrom(s, from + 1)
  }

  function LineMatch(s: string): Option<LineNumber> {
    LineMatchFrom(s, 0)
  }

  // ---------------------------------------------------------------------
  // TrimLinePrefix

  /** TrimLinePrefix(fileDescription, codeLinePrefix): the text before the
      first occurrence of the prefix when that is not at the start. The
      result is a prefix of the input: either the whole input, or a
      non-empty text that ends where the first occurrence begins. */
  function TrimLinePrefix(fileDescription: string, codeLinePrefix: string): (r: string)
    ensures StartsWith(fileDescription, r)
    ensures IndexOf(fileDescription, codeLinePrefix) <= 0 ==> r == fileDescription
    ensures r != fileDescription ==> 0 < |r| && IndexOf(fileDescription, codeLinePrefix) == |r|
  {
    var matchIndex := IndexOf(fileDescription, codeLinePrefix);
    if matchIndex > 0 then fileDescription[..matchIndex] else fileDescription
  }

  /** A trimmed description holds no occurrence of the prefix, unless it is
      the input itself; so trimming twice is trimming once. */
  lemma TrimLinePrefixIdempotent(fileDescription: string, codeLinePrefix: string)
    ensures var once := TrimLinePrefix(fileDescription, codeLinePrefix);
            && (once != fileDescription ==> !Contains(once, codeLinePrefix))
            && TrimLinePrefix(once, codeLinePrefix) == once
  {
    var m := IndexOf(fileDescription, codeLinePrefix);
    if m > 0 {
      NoOccurrenceBeforeFirst(fileDescription, codeLinePrefix, m);
    }
  }

  // ---------------------------------------------------------------------
  // One line of the stack trace

  /** The function name when `at …(` does not match: the text before " in "
      (found in the lower-cased line) when that is not at the start; when
      the line starts with " in ", the text before the first space from
      index 4 on; otherwise nothing. */
  function FallbackFunctionName(line: string): (name: string)
    ensures StartsWith(line, name)
  {
    var charIndex := IndexOf(FoldCase(line), FINAL_FILE_PREFIX);
    var charIndex2 := if charIndex == 0 then IndexOfFrom(line, " ", 4) else charIndex;
    var charIndex3 := if charIndex2 == 0 then |line| - 1 else charIndex2;
    if charIndex3 > 0 then line[..charIndex3] else ""
  }

  /** The fallback by cases. Its last test (a zero index after the search
      from index 4) can never hold, so a line is never cut before its last
      character. */
  lemma FallbackFunctionNameCases(line: string)
    ensures var c := IndexOf(FoldCase(line), FINAL_FILE_PREFIX);
            FallbackFunctionName(line)
            == if c > 0 then line[..c]
               else if c == -1 then ""
               else var space := IndexOfFrom(line, " ", 4);
                    if space == -1 then "" else line[..space]
  {
  }

  function FunctionName(line: string): string {
    match FunctionMatch(line)
    case Some(name) => name
    case None => FallbackFunctionName(line)
  }

  /** A file name with its ":line N" cut off. */
  function WithoutLineNumber(file: string): string {
    match LineMatch(file)
    case Some(m) => file[..m.index]
    case None => file
  }

  /** The frame's file is shown unless it is the final file, compared
      without ":line …" and ignoring case. */
  predicate ShowsFile(currentFunctionFile: string, finalFile: string) {
    && currentFunctionFile != ""
    && (finalFile == ""
        || !EqualsIgnoreCase(TrimLinePrefix(finalFile, CODE_LINE_PREFIX),
                             TrimLinePrefix(currentFunctionFile, CODE_LINE_PREFIX)))
  }

  /** The function name, then " in <file>" when the frame's file is shown. */
  function NameAndFile(line: string, finalFile: string): string {
    var currentFunctionFile := if FileMatch(line).Some? then FileMatch(line).value else "";
    if ShowsFile(currentFunctionFile, finalFile) then FunctionName(line) + FINAL_FILE_PREFIX + currentFunctionFile
    else FunctionName(line)
  }

  /** The description of a frame, given the final file as it stands after
      this line: the name and file, then the ":line N" text unless that
      already holds ":line ". */
  function Describe(line: string, finalFile: string): string {
    var withFile := NameAndFile(line, finalFile);
    var lineMatch := LineMatch(line);
    if lineMatch.Some? && !Contains(withFile, CODE_LINE_PREFIX) then withFile + lineMatch.value.value else withFile
  }

  /** The ":line N" text found in a line starts with the ':' itself. */
  lemma LineTextStartsWithColon(s: string)
    requires LineMatch(s).Some?
    ensures |LineMatch(s).value.value| > 6 && LineMatch(s).value.value[0] == ':'
  {
    var m := LineMatch(s).value;
    assert FoldCase(s[m.index..m.index + 6])[0] == Lower(s[m.index]);
  }

  /** The ":line N" text of the line is appended exactly when the line has
      one and the name and file do not already hold ":line "; nothing else
      is added to the name and file. */
  lemma DescribeAppendsLineNumber(line: string, finalFile: string)
    ensures var description := Describe(line, finalFile);
            var withFile := NameAndFile(line, finalFile);
      && StartsWith(description, withFile)
      && (description != withFile <==> LineMatch(line).Some? && !Contains(withFile, CODE_LINE_PREFIX))
      && (description != withFile ==> description == withFile + LineMatch(line).value.value)
  {
    var description := Describe(line, finalFile);
    var withFile := NameAndFile(line, finalFile);
    assert description[..|withFile|] == withFile;
    if LineMatch(line).Some? {
      LineTextStartsWithColon(line);
    }
  }

  /** A description starts with the function name, followed by
      " in <file>" exactly when the frame's file is shown; then the
      ":line N" text as DescribeAppendsLineNumber states. */
  lemma DescribeShape(line: string, finalFile: string)
    ensures var description := Describe(line, finalFile);
      && StartsWith(description, FunctionName(line))
      && (FileMatch(line).Some? ==>
           (ShowsFile(FileMatch(line).value, finalFile)
            <==> StartsWith(description, FunctionName(line) + FINAL_FILE_PREFIX + FileMatch(line).value)))
      && (FileMatch(line).None? ==> NameAndFile(line, finalFile) == FunctionName(line))
  {
    var name := FunctionName(line);
    var description := Describe(line, finalFile);
    var withFile := NameAndFile(line, finalFile);
    DescribeAppendsLineNumber(line, finalFile);
    assert StartsWith(withFile, name) by {
      assert withFile[..|name|] == name;
    }
    assert description[..|name|] == withFile[..|name|];
    if FileMatch(line).Some? {
      var shown := name + FINAL_FILE_PREFIX + FileMatch(line).value;
      if ShowsFile(FileMatch(line).value, finalFile) {
        assert description[..|shown|] == withFile[..|shown|];
      } else if StartsWith(description, shown) {
        // after the name comes ' ' in " in ", but only ':' when the line
        // number follows the name
        assert description[|name|] == shown[|name|];
        LineTextStartsWithColon(line);
        assert false;
      }
    }
  }

  /** What the loop over the lines carries: the descriptions so far and the
      final file. */
  datatype Scan = Scan(functions: seq<string>, finalFile: string)

  /** One pass of the loop: an empty line is skipped; otherwise the final
      file is set from the line's file if it is still empty, and the line's
      description is added. */
  function ScanLine(st: Scan, line: string): Scan {
    if line == "" then st
    else
      var finalFile := if FileMatch(line).Some? && |st.finalFile| == 0 then WithoutLineNumber(FileMatch(line).value)
                       else st.finalFile;
      Scan(st.functions + [Describe(line, finalFile)], finalFile)
  }

  /** The loop over all lines, in order. */
  function ScanAll(lines: seq<string>): Scan {
    if |lines| == 0 then Scan([], "") else ScanLine(ScanAll(lines[..|lines| - 1]), lines[|lines| - 1])
  }

  function Reversed<T>(s: seq<T>): (r: seq<T>)
    ensures |r| == |s| && forall i :: 0 <= i < |s| ==> r[i] == s[|s| - 1 - i]
  {
    if |s| == 0 then [] else [s[|s| - 1]] + Reversed(s[..|s| - 1])
  }

  /** GetExceptionStackTraceData(stackTraceText). */
  function StackTraceData(stackTraceText: string): seq<string> {
    if IsBlank(stackTraceText) then [EMPTY_STACK_TRACE]
    else
      var st := ScanAll(LinesFrom(stackTraceText, 0));
      Reversed(st.functions) + (if IsBlank(st.finalFile) then [] else [FINAL_FILE_PREFIX + st.finalFile])
  }

  // ---------------------------------------------------------------------
  // Properties of GetExceptionStackTraceData

  /** The lines that are not empty, in order. */
  function NonEmpty(lines: seq<string>): seq<string> {
    if |lines| == 0 then []
    else if lines[0] == "" then NonEmpty(lines[1..])
    else [lines[0]] + NonEmpty(lines[1..])
  }

  lemma {:induction false} NonEmptySnoc(lines: seq<string>, line: string)
    ensures NonEmpty(lines + [line]) == NonEmpty(lines) + (if line == "" then [] else [line])
    decreases |lines|
  {
    if |lines| == 0 {
      assert lines + [line] == [line];
    } else {
      assert (lines + [line])[1..] == lines[1..] + [line];
      NonEmptySnoc(lines[1..], line);
    }
  }

  /** The file a line sets as final file when none is set yet ("" for none). */
  function FileOf(line: string): string {
    match FileMatch(line)
    case Some(file) => WithoutLineNumber(file)
    case None => ""
  }

  /** The final file, read front to back: that of the first line whose
      file, cut before ":line N", is not empty. */
  function FirstFinalFile(lines: seq<string>): string {
    if |lines| == 0 then ""
    else if FileOf(lines[0]) != "" then FileOf(lines[0])
    else FirstFinalFile(lines[1..])
  }

  lemma {:induction false} FirstFinalFileSnoc(lines: seq<string>, line: string)
    ensures FirstFinalFile(lines + [line])
            == if FirstFinalFile(lines) != "" then FirstFinalFile(lines) else FileOf(line)
    decreases |lines|
  {
    if |lines| == 0 {
      assert lines + [line] == [line];
      assert FirstFinalFile([line]) == if FileOf(line) != "" then FileOf(line) else FirstFinalFile([]);
    } else {
      assert (lines + [line])[1..] == lines[1..] + [line];
      FirstFinalFileSnoc(lines[1..], line);
    }
  }

  /** Empty lines never set the final file. */
  lemma {:induction false} FirstFinalFileNonEmpty(lines: seq<string>)
    ensures FirstFinalFile(NonEmpty(lines)) == FirstFinalFile(lines)
    decreases |lines|
  {
    if |lines| > 0 {
      FirstFinalFileNonEmpty(lines[1..]);
      if lines[0] != "" {
        assert ([lines[0]] + NonEmpty(lines[1..]))[1..] == NonEmpty(lines[1..]);
      }
    }
  }

  /** Each description is that of its line, given the final file known
      once the line has been read. */
  predicate DescribesEach(functions: seq<string>, described: seq<string>, describe: (string, string) -> string) {
    && |functions| == |described|
    && forall j {:trigger functions[j]} :: 0 <= j < |functions| ==>
         functions[j] == describe(described[j], FirstFinalFile(described[..j + 1]))
  }

  lemma DescribesEachSnoc(functions: seq<string>, described: seq<string>, line: string, description: string,
                          describe: (string, string) -> string)
    requires DescribesEach(functions, described, describe)
    requires description == describe(line, FirstFinalFile(described + [line]))
    ensures DescribesEach(functions + [description], described + [line], describe)
  {
    var described' := described + [line];
    var functions' := functions + [description];
    assert described'[..|described'|] == described';
    forall j | 0 <= j < |functions'|
      ensures functions'[j] == describe(described'[j], FirstFinalFile(described'[..j + 1]))
    {
      if j < |functions| {
        assert described'[..j + 1] == described[..j + 1];
      }
    }
  }

  /** One non-empty line adds its description, given the final file as
      it stands after the line. */
  lemma ScanLineNonEmpty(st: Scan, line: string)
    requires line != ""
    ensures var finalFile := if st.finalFile != "" then st.finalFile else FileOf(line);
            ScanLine(st, line) == Scan(st.functions + [Describe(line, finalFile)], finalFile)
  {
  }

  /** The loop gives one description per non-empty line, in order: the
      description of that line given the final file known once it has
      been read. The final file is that of the first line that has one:
      once set, it is never overwritten. */
  lemma {:induction false} ScanAllDescribesEachLine(lines: seq<string>)
    ensures DescribesEach(ScanAll(lines).functions, NonEmpty(lines), Describe)
    ensures ScanAll(lines).finalFile == FirstFinalFile(lines)
    decreases |lines|
  {
    if |lines| > 0 {
      var init := lines[..|lines| - 1];
      assert lines == init + [lines[|lines| - 1]];
      ScanAllDescribesEachLine(init);
      ScanAllStep(init, lines[|lines| - 1]);
    }
  }

  /** One more line keeps what ScanAllDescribesEachLine states. */
  lemma ScanAllStep(init: seq<string>, line: string)
    requires DescribesEach(ScanAll(init).functions, NonEmpty(init), Describe)
    requires ScanAll(init).finalFile == FirstFinalFile(init)
    ensures DescribesEach(ScanAll(init + [line]).functions, NonEmpty(init + [line]), Describe)
    ensures ScanAll(init + [line]).finalFile == FirstFinalFile(init + [line])
  {
    var lines := init + [line];
    assert lines[..|lines| - 1] == init;
    assert ScanAll(lines) == ScanLine(ScanAll(init), line);
    NonEmptySnoc(init, line);
    FirstFinalFileSnoc(init, line);
    if FileMatch(line).None? {
      assert FileOf(line) == "";
    }
    if line != "" {
      ScanLineDescribes(init, line);
      assert NonEmpty(lines) == NonEmpty(init) + [line];
    } else {
      assert NonEmpty(lines) == NonEmpty(init);
    }
  }

  lemma ScanLineDescribes(init: seq<string>, line: string)
    requires line != ""
    requires DescribesEach(ScanAll(init).functions, NonEmpty(init), Describe)
    requires ScanAll(init).finalFile == FirstFinalFile(init)
    ensures DescribesEach(ScanLine(ScanAll(init), line).functions, NonEmpty(init) + [line], Describe)
  {
    NonEmptySnoc(init, line);
    FirstFinalFileSnoc(init, line);
    FirstFinalFileNonEmpty(init + [line]);
    ScanLineNonEmpty(ScanAll(init), line);
    var finalFile := FirstFinalFile(NonEmpty(init) + [line]);
    DescribesEachSnoc(ScanAll(init).functions, NonEmpty(init), line, Describe(line, finalFile), Describe);
  }

  /** A blank trace gives exactly the one entry "Empty stack trace". */
  lemma EmptyTraceData(stackTraceText: string)
    requires IsBlank(stackTraceText)
    ensures StackTraceData(stackTraceText) == [EMPTY_STACK_TRACE]
  {
  }

  /** Otherwise there is one entry per non-empty line, in reverse order:
      the line's description given the final file known once that line
      has been read; then " in <final file>" exactly when the final file
      is not blank. */
  lemma StackTraceDataEntries(stackTraceText: string)
    requires !IsBlank(stackTraceText)
    ensures var lines := NonEmpty(LinesFrom(stackTraceText, 0));
            var finalFile := FirstFinalFile(LinesFrom(stackTraceText, 0));
            var data := StackTraceData(stackTraceText);
            && |data| == |lines| + (if IsBlank(finalFile) then 0 else 1)
            && (forall k :: 0 <= k < |lines| ==>
                  data[k] == Describe(lines[|lines| - 1 - k], FirstFinalFile(lines[..|lines| - k])))
            && (!IsBlank(finalFile) ==> data[|data| - 1] == FINAL_FILE_PREFIX + finalFile)
  {
    var lines := LinesFrom(stackTraceText, 0);
    var st := ScanAll(lines);
    var extra := if IsBlank(st.finalFile) then [] else [FINAL_FILE_PREFIX + st.finalFile];
    assert StackTraceData(stackTraceText) == Reversed(st.functions) + extra;
    ScanAllDescribesEachLine(lines);
    ReversedDescriptions(st.functions, extra, NonEmpty(lines), Describe);
  }

  /** Descriptions read back to front, then `extra`: entry `k` describes
      the `k`-th line from the end. */
  lemma ReversedDescriptions(functions: seq<string>, extra: seq<string>, described: seq<string>,
                             describe: (string, string) -> string)
    requires DescribesEach(functions, described, describe)
    ensures var data := Reversed(functions) + extra;
            && |data| == |described| + |extra|
            && (forall k :: 0 <= k < |described| ==>
                  data[k] == describe(described[|described| - 1 - k], FirstFinalFile(described[..|described| - k])))
            && (|extra| > 0 ==> data[|data| - 1] == extra[|extra| - 1])
  {
    var data := Reversed(functions) + extra;
    forall k | 0 <= k < |described|
      ensures data[k] == describe(described[|described| - 1 - k], FirstFinalFile(described[..|described| - k]))
    {
      var j := |described| - 1 - k;
      ReversedAppendAt(functions, extra, k);
      assert functions[j] == describe(described[j], FirstFinalFile(described[..j + 1]));
    }
  }

  lemma ReversedAppendAt<T>(s: seq<T>, extra: seq<T>, k: nat)
    requires k < |s|
    ensures (Reversed(s) + extra)[k] == s[|s| - 1 - k]
  {
  }

  /** The descriptions are determined by the lines they describe. */
  lemma DescribesEachUnique(a: seq<string>, b: seq<string>, described: seq<string>,
                            describe: (string, string) -> string)
    requires DescribesEach(a, described, describe) && DescribesEach(b, described, describe)
    ensures a == b
  {
  }

  /** So descriptions that describe each non-empty line of a trace are,
      reversed, its data, followed by " in <final file>" when that is not
      blank. */
  lemma StackTraceDataOf(stackTraceText: string, functions: seq<string>)
    requires !IsBlank(stackTraceText)
    requires DescribesEach(functions, NonEmpty(LinesFrom(stackTraceText, 0)), Describe)
    ensures var finalFile := FirstFinalFile(LinesFrom(stackTraceText, 0));
            StackTraceData(stackTraceText)
            == Reversed(functions) + (if IsBlank(finalFile) then [] else [FINAL_FILE_PREFIX + finalFile])
  {
    var lines := LinesFrom(stackTraceText, 0);
    ScanAllDescribesEachLine(lines);
    DescribesEachUnique(ScanAll(lines).functions, functions, NonEmpty(lines), Describe);
  }

  // ---------------------------------------------------------------------
  // The imperative form

  /** List.Reverse, in place. */
  method Reverse<T>(a: array<T>)
    modifies a
    ensures a[..] == Reversed(old(a[..]))
  {
    var i := 0;
    while i < a.Length / 2
      invariant 0 <= i <= a.Length / 2
      invariant forall k :: 0 <= k < i ==> a[k] == old(a[a.Length - 1 - k]) && a[a.Length - 1 - k] == old(a[k])
      invariant forall k :: i <= k < a.Length - i ==> a[k] == old(a[k])
    {
      a[i], a[a.Length - 1 - i] := a[a.Length - 1 - i], a[i];
      i := i + 1;
    }
  }

  /** The body of GetExceptionStackTraceData's loop for one non-empty line:
      the line's description, and the final file after it. */
  method DescribeFrame(dataLine: string, finalFile: string) returns (functionDescription: string, newFinalFile: string)
    requires dataLine != ""
    ensures ScanLine(Scan([], finalFile), dataLine) == Scan([functionDescription], newFinalFile)
  {
    var currentFunction := "";
    var functionMatch := FunctionMatch(dataLine);
    var lineMatch := LineMatch(dataLine);
    var fileMatch := FileMatch(dataLine);
    var currentFunctionFile;
    newFinalFile := finalFile;
    if fileMatch.Some? {
      currentFunctionFile := fileMatch.value;
      if |newFinalFile| == 0 {
        var lineMatchFinalFile := LineMatch(currentFunctionFile);
        if lineMatchFinalFile.Some? {
          newFinalFile := currentFunctionFile[..lineMatchFinalFile.value.index];
        } else {
          newFinalFile := currentFunctionFile;
        }
      }
    } else {
      currentFunctionFile := "";
    }
    assert newFinalFile == ScanLine(Scan([], finalFile), dataLine).finalFile;

    if functionMatch.Some? {
      currentFunction := functionMatch.value;
    } else {
      FallbackFunctionNameCases(dataLine);
      // Look for " in "
      var charIndex := IndexOf(FoldCase(dataLine), FINAL_FILE_PREFIX);
      if charIndex == 0 {
        charIndex := IndexOfFrom(dataLine, " ", 4);
      }
      if charIndex == 0 {
        charIndex := |dataLine| - 1;
      }
      if charIndex > 0 {
        currentFunction := dataLine[..charIndex];
      }
    }

    assert currentFunction == FunctionName(dataLine);
    functionDescription := currentFunction;
    if currentFunctionFile != "" {
      if newFinalFile == "" || !EqualsIgnoreCase(TrimLinePrefix(newFinalFile, CODE_LINE_PREFIX),
                                                 TrimLinePrefix(currentFunctionFile, CODE_LINE_PREFIX)) {
        functionDescription := functionDescription + FINAL_FILE_PREFIX + currentFunctionFile;
      }
    }
    if lineMatch.Some? && !Contains(functionDescription, CODE_LINE_PREFIX) {
      functionDescription := functionDescription + lineMatch.value.value;
    }
  }

  lemma ScanAllSnoc(lines: seq<string>, line: string)
    ensures ScanAll(lines + [line]) == ScanLine(ScanAll(lines), line)
  {
    assert (lines + [line])[..|lines|] == lines;
  }

  /** A line's effect on the loop state does not depend on the descriptions
      already collected. */
  lemma ScanLineAppends(st: Scan, line: string, description: string, finalFile: string)
    requires line != ""
    requires ScanLine(Scan([], st.finalFile), line) == Scan([description], finalFile)
    ensures ScanLine(st, line) == Scan(st.functions + [description], finalFile)
  {
  }

  /** GetExceptionStackTraceData(stackTraceText), reading the text line by
      line as StringReader does. */
  method GetExceptionStackTraceData(stackTraceText: string) returns (stackTraceData: seq<string>)
    ensures stackTraceData == StackTraceData(stackTraceText)
  {
    if IsBlank(stackTraceText) {
      return [EMPTY_STACK_TRACE];
    }
    var lstFunctions: seq<string> := [];
    var finalFile := "";
    var position := 0;
    ghost var read: seq<string> := [];
    while position < |stackTraceText|
      invariant position <= |stackTraceText|
      invariant read + LinesFrom(stackTraceText, position) == LinesFrom(stackTraceText, 0)
      invariant Scan(lstFunctions, finalFile) == ScanAll(read)
      decreases |stackTraceText| - position
    {
      var lineEnd := LineEnd(stackTraceText, position);
      var dataLine := stackTraceText[position..lineEnd];
      position := NextLineStart(stackTraceText, lineEnd);
      ScanAllSnoc(read, dataLine);
      ghost var scanned := Scan(lstFunctions, finalFile);
      read := read + [dataLine];
      if dataLine == "" {
        continue;
      }
      var functionDescription;
      functionDescription, finalFile := DescribeFrame(dataLine, finalFile);
      ScanLineAppends(scanned, dataLine, functionDescription, finalFile);
      lstFunctions := lstFunctions + [functionDescription];
    }
    assert read == LinesFrom(stackTraceText, 0);

    var data := new string[|lstFunctions|](i requires 0 <= i < |lstFunctions| => lstFunctions[i]);
    assert data[..] == lstFunctions;
    Reverse(data);
    stackTraceData := data[..];
    if !IsBlank(finalFile) {
      stackTraceData := stackTraceData + [FINAL_FILE_PREFIX + finalFile];
    }
  }

  // ---------------------------------------------------------------------
  // Exceptions and the one-line form

  /** The parts of an exception the formatter reads: its Message, its
      StackTrace text ("" standing for null) and its InnerException. */
  datatype Fault = Fault(message: string, stackTrace: string, inner: Option<Fault>)

  /** The messages along the chain of inner exceptions, outermost first. */
  function InnerMessages(inner: Option<Fault>): seq<string>
    decreases inner
  {
    match inner
    case None => []
    case Some(f) => [f.message] + InnerMessages(f.inner)
  }

  /** Each item, preceded by "-:-". */
  function Chain(items: seq<string>): string {
    if |items| == 0 then "" else Chain(items[..|items| - 1]) + STACK_CHAIN_SEPARATOR + items[|items| - 1]
  }

  /** Piece `index` of the one-line form: the title before the first item,
      "-:-" before each later one. */
  function Piece(items: seq<string>, index: nat): string
    requires index < |items|
  {
    if index == 0 then STACK_TRACE_TITLE + items[0] else STACK_CHAIN_SEPARATOR + items[index]
  }

  /** The first `n` pieces, in order. */
  function Pieces(items: seq<string>, n: nat): string
    requires n <= |items|
  {
    if n == 0 then "" else Pieces(items, n - 1) + Piece(items, n - 1)
  }

  /** The last item is the final file, " in <file>". */
  predicate EndsWithFinalFile(items: seq<string>) {
    |items| > 0 && StartsWith(items[|items| - 1], FINAL_FILE_PREFIX)
  }

  /** The loop of GetExceptionStackTrace over the trace items: a last item
      that starts with " in " is appended as it is. */
  function SingleLine(items: seq<string>): string {
    if EndsWithFinalFile(items) then Pieces(items, |items| - 1) + items[|items| - 1]
    else Pieces(items, |items|)
  }

  /** GetExceptionStackTrace(ex, includeInnerExceptionMessages). */
  function StackTraceLine(ex: Fault, includeInnerExceptionMessages: bool): string {
    SingleLine(StackTraceData(ex.stackTrace))
    + (if includeInnerExceptionMessages then Chain(InnerMessages(ex.inner)) else "")
  }

  /** String.Join(separator, items). */
  function Join(items: seq<string>, separator: string): string {
    if |items| == 0 then ""
    else if |items| == 1 then items[0]
    else items[0] + separator + Join(items[1..], separator)
  }

  lemma {:induction false} JoinSnoc(items: seq<string>, item: string, separator: string)
    requires |items| > 0
    ensures Join(items + [item], separator) == Join(items, separator) + separator + item
    decreases |items|
  {
    if |items| == 1 {
      assert (items + [item])[1..] == [item];
    } else {
      assert (items + [item])[1..] == items[1..] + [item];
      JoinSnoc(items[1..], item, separator);
    }
  }

  /** Regrouping three concatenated strings, stated once so that the
      proofs below need not re-derive it inside their larger contexts. */
  lemma Associative(a: string, b: string, c: string)
    ensures a + b + c == a + (b + c)
  {
  }

  /** The first `n` pieces are "Stack trace: " and the first `n` items
      joined by "-:-". */
  lemma {:induction false} PiecesIsJoin(items: seq<string>, n: nat)
    requires 0 < n <= |items|
    ensures Pieces(items, n) == STACK_TRACE_TITLE + Join(items[..n], STACK_CHAIN_SEPARATOR)
  {
    if n == 1 {
      assert items[..1] == [items[0]];
      assert Pieces(items, 1) == "" + (STACK_TRACE_TITLE + items[0]);
    } else {
      var init := items[..n - 1];
      var last := items[n - 1];
      PiecesIsJoin(items, n - 1);
      assert items[..n] == init + [last];
      JoinSnoc(init, last, STACK_CHAIN_SEPARATOR);
      var joined := Join(init, STACK_CHAIN_SEPARATOR);
      calc {
        Pieces(items, n);
        (STACK_TRACE_TITLE + joined) + (STACK_CHAIN_SEPARATOR + last);
        { Associative(STACK_TRACE_TITLE, joined, STACK_CHAIN_SEPARATOR + last);
          Associative(joined, STACK_CHAIN_SEPARATOR, last); }
        STACK_TRACE_TITLE + (joined + STACK_CHAIN_SEPARATOR + last);
      }
    }
  }

  /** The one-line form is "Stack trace: " and the items joined by "-:-",
      except that a last item starting with " in " follows the item before
      it directly, and stands alone when it is the only item. */
  lemma SingleLineIsJoin(items: seq<string>)
    ensures var n := |items|;
      SingleLine(items)
      == if n == 0 then ""
         else if StartsWith(items[n - 1], FINAL_FILE_PREFIX) then
           if n == 1 then items[0]
           else STACK_TRACE_TITLE + Join(items[..n - 1], STACK_CHAIN_SEPARATOR) + items[n - 1]
         else STACK_TRACE_TITLE + Join(items, STACK_CHAIN_SEPARATOR)
  {
    var n := |items|;
    if n > 0 {
      if StartsWith(items[n - 1], FINAL_FILE_PREFIX) {
        if n == 1 {
          assert SingleLine(items) == "" + items[0];
        } else {
          PiecesIsJoin(items, n - 1);
        }
      } else {
        PiecesIsJoin(items, n);
        assert items[..n] == items;
      }
    }
  }

  /** A blank trace gives "Stack trace: Empty stack trace", then "-:-" and
      each inner exception's message when asked for. */
  lemma BlankStackTraceLine(ex: Fault, includeInnerExceptionMessages: bool)
    requires IsBlank(ex.stackTrace)
    ensures StackTraceLine(ex, includeInnerExceptionMessages)
            == STACK_TRACE_TITLE + EMPTY_STACK_TRACE
               + if includeInnerExceptionMessages then Chain(InnerMessages(ex.inner)) else ""
  {
    EmptyTraceData(ex.stackTrace);
    assert !StartsWith(EMPTY_STACK_TRACE, FINAL_FILE_PREFIX) by {
      assert EMPTY_STACK_TRACE[0] != FINAL_FILE_PREFIX[0];
    }
    SingleLineOfOne(EMPTY_STACK_TRACE);
  }

  /** A single item that is not the final file follows the title. */
  lemma SingleLineOfOne(item: string)
    requires !StartsWith(item, FINAL_FILE_PREFIX)
    ensures SingleLine([item]) == STACK_TRACE_TITLE + item
  {
    assert Pieces([item], 1) == "" + (STACK_TRACE_TITLE + item);
  }

  /** For a trace whose final file is known, the one line lists the frames
      outermost first, joined by "-:-", then " in " and the final file, then
      "-:-" and each inner exception's message when asked for. */
  lemma StackTraceLineShape(ex: Fault, includeInnerExceptionMessages: bool)
    requires !IsBlank(ex.stackTrace)
    requires !IsBlank(FirstFinalFile(LinesFrom(ex.stackTrace, 0)))
    ensures var lines := LinesFrom(ex.stackTrace, 0);
      StackTraceLine(ex, includeInnerExceptionMessages)
      == STACK_TRACE_TITLE + Join(Reversed(ScanAll(lines).functions), STACK_CHAIN_SEPARATOR)
         + FINAL_FILE_PREFIX + FirstFinalFile(lines)
         + if includeInnerExceptionMessages then Chain(InnerMessages(ex.inner)) else ""
  {
    var data := StackTraceData(ex.stackTrace);
    var lines := LinesFrom(ex.stackTrace, 0);
    ScanAllDescribesEachLine(lines);
    var frames := Reversed(ScanAll(lines).functions);
    var finalFile := FirstFinalFile(lines);
    // A known final file comes from a non-empty line, which has a description.
    FirstFinalFileNonEmpty(lines);
    assert |NonEmpty(lines)| > 0;
    var last := FINAL_FILE_PREFIX + finalFile;
    assert data == frames + [last];
    assert data[..|data| - 1] == frames;
    assert StartsWith(last, FINAL_FILE_PREFIX) by {
      assert last[..|FINAL_FILE_PREFIX|] == FINAL_FILE_PREFIX;
    }
    SingleLineIsJoin(data);
    Associative(STACK_TRACE_TITLE + Join(frames, STACK_CHAIN_SEPARATOR), FINAL_FILE_PREFIX, finalFile);
  }

  lemma ChainSnoc(items: seq<string>, item: string)
    ensures Chain(items + [item]) == Chain(items) + (STACK_CHAIN_SEPARATOR + item)
  {
    assert (items + [item])[..|items|] == items;
    Associative(Chain(items), STACK_CHAIN_SEPARATOR, item);
  }

  /** The loop of GetExceptionStackTrace over the trace items. */
  method AppendTraceItems(stackTraceData: seq<string>) returns (sbStackTrace: string)
    ensures sbStackTrace == SingleLine(stackTraceData)
  {
    sbStackTrace := "";
    for index := 0 to |stackTraceData|
      invariant sbStackTrace == Pieces(stackTraceData, index)
      invariant index == |stackTraceData| ==> !EndsWithFinalFile(stackTraceData)
    {
      var item := stackTraceData[index];
      if index == |stackTraceData| - 1 && StartsWith(item, FINAL_FILE_PREFIX) {
        sbStackTrace := sbStackTrace + item;
        return;
      }
      if index == 0 {
        sbStackTrace := sbStackTrace + (STACK_TRACE_TITLE + item);
      } else {
        sbStackTrace := sbStackTrace + (STACK_CHAIN_SEPARATOR + item);
      }
    }
  }

  /** The loop of GetExceptionStackTrace over the chain of inner
      exceptions: "-:-" and each one's message. */
  method AppendInnerMessages(sbStackTrace: string, inner: Option<Fault>) returns (text: string)
    ensures text == sbStackTrace + Chain(InnerMessages(inner))
  {
    text := sbStackTrace;
    ghost var read: seq<string> := [];
    var innerException := inner;
    while innerException.Some?
      invariant read + InnerMessages(innerException) == InnerMessages(inner)
      invariant text == sbStackTrace + Chain(read)
      decreases innerException
    {
      ChainSnoc(read, innerException.value.message);
      Associative(sbStackTrace, Chain(read), STACK_CHAIN_SEPARATOR + innerException.value.message);
      text := text + (STACK_CHAIN_SEPARATOR + innerException.value.message);
      read := read + [innerException.value.message];
      innerException := innerException.value.inner;
    }
    assert read == read + InnerMessages(innerException);
  }

  /** GetExceptionStackTrace(ex, includeInnerExceptionMessages). */
  method GetExceptionStackTrace(ex: Fault, includeInnerExceptionMessages: bool) returns (stackTrace: string)
    ensures stackTrace == StackTraceLine(ex, includeInnerExceptionMessages)
  {
    var stackTraceData := GetExceptionStackTraceData(ex.stackTrace);
    stackTrace := AppendTraceItems(stackTraceData);
    if !includeInnerExceptionMessages {
      return stackTrace;
    }
    stackTrace := AppendInnerMessages(stackTrace, ex.inner);
  }

  // ---------------------------------------------------------------------
  // The multi-line form

  /** Each trace item, indented by two spaces. */
  function Indented(items: seq<string>): seq<string> {
    if |items| == 0 then [] else Indented(items[..|items| - 1]) + ["  " + items[|items| - 1]]
  }

  /** For each inner exception, an empty line and its message. */
  function Paragraphs(messages: seq<string>): seq<string> {
    if |messages| == 0 then [] else Paragraphs(messages[..|messages| - 1]) + ["", messages[|messages| - 1]]
  }

  /** The lines GetExceptionStackTraceMultiLine writes. */
  function MultiLineLines(ex: Fault, includeInnerExceptionMessages: bool): seq<string> {
    [STACK_TRACE_TITLE] + Indented(StackTraceData(ex.stackTrace))
    + (if includeInnerExceptionMessages then Paragraphs(InnerMessages(ex.inner)) else [])
  }

  /** StringBuilder.AppendLine for each line in turn: the line, then the
      newline string (Environment.NewLine). */
  function TextLines(lines: seq<string>, newLine: string): string {
    if |lines| == 0 then "" else TextLines(lines[..|lines| - 1], newLine) + lines[|lines| - 1] + newLine
  }

  /** GetExceptionStackTraceMultiLine(ex, includeInnerExceptionMessages). */
  function StackTraceText(ex: Fault, includeInnerExceptionMessages: bool, newLine: string): string {
    TextLines(MultiLineLines(ex, includeInnerExceptionMessages), newLine)
  }

  lemma TextLinesSnoc(lines: seq<string>, line: string, newLine: string)
    ensures TextLines(lines + [line], newLine) == TextLines(lines, newLine) + (line + newLine)
  {
    assert (lines + [line])[..|lines|] == lines;
    Associative(TextLines(lines, newLine), line, newLine);
  }

  /** Writing two runs of lines one after the other. */
  lemma {:induction false} TextLinesAppend(a: seq<string>, b: seq<string>, newLine: string)
    ensures TextLines(a + b, newLine) == TextLines(a, newLine) + TextLines(b, newLine)
    decreases |b|
  {
    if |b| == 0 {
      assert a + b == a;
    } else {
      var init := b[..|b| - 1];
      var last := b[|b| - 1];
      assert a + b == (a + init) + [last];
      TextLinesAppend(a, init, newLine);
      TextLinesSnoc(a + init, last, newLine);
      TextLinesSnoc(init, last, newLine);
      Associative(TextLines(a, newLine), TextLines(init, newLine), last + newLine);
    }
  }

  /** The text of lines seen from the front: the first line, the newline,
      then the text of the others. */
  lemma {:induction false} TextLinesCons(line: string, rest: seq<string>, newLine: string)
    ensures TextLines([line] + rest, newLine) == line + newLine + TextLines(rest, newLine)
  {
    TextLinesAppend([line], rest, newLine);
    assert TextLines([line], newLine) == "" + line + newLine;
  }

  /** `s` ends, from index `d` on, with the text `t`. */
  predicate HasTailAt(s: string, d: nat, t: string) {
    d <= |s| && s[d..] == t
  }

  /** Where a line ends does not depend on text before the search start. */
  lemma {:induction false} LineEndShift(s: string, d: nat, t: string, pos: nat)
    requires HasTailAt(s, d, t) && pos <= |t|
    ensures LineEnd(s, d + pos) == d + LineEnd(t, pos)
    decreases |t| - pos
  {
    if pos < |t| && !IsLineBreak(t[pos]) {
      LineEndShift(s, d, t, pos + 1);
    }
  }

  lemma NextLineStartShift(s: string, d: nat, t: string, e: nat)
    requires HasTailAt(s, d, t) && e <= |t|
    ensures NextLineStart(s, d + e) == d + NextLineStart(t, e)
  {
    if e + 1 < |t| {
      assert s[d + e + 1] == t[e + 1];
    }
  }

  /** One step of reading: the line at `pos`, then the lines after it. */
  lemma LinesFromStep(text: string, pos: nat)
    requires pos < |text|
    ensures LinesFrom(text, pos)
      == [text[pos..LineEnd(text, pos)]] + LinesFrom(text, NextLineStart(text, LineEnd(text, pos)))
  {
  }

  lemma SliceShift(s: string, d: nat, t: string, i: nat, j: nat)
    requires HasTailAt(s, d, t) && i <= j <= |t|
    ensures s[d + i..d + j] == t[i..j]
  {
    assert forall k :: 0 <= k < j - i ==> s[d + i..d + j][k] == t[i..j][k];
  }

  /** The line at `d + pos` in `s` is the line at `pos` in its tail `t`, and
      the next line starts at the same place in both. */
  lemma FirstLineShift(s: string, d: nat, t: string, pos: nat)
    requires HasTailAt(s, d, t) && pos < |t|
    ensures s[d + pos..LineEnd(s, d + pos)] == t[pos..LineEnd(t, pos)]
    ensures NextLineStart(s, LineEnd(s, d + pos)) == d + NextLineStart(t, LineEnd(t, pos))
  {
    var e := LineEnd(t, pos);
    LineEndShift(s, d, t, pos);
    NextLineStartShift(s, d, t, e);
    SliceShift(s, d, t, pos, e);
  }

  /** Two texts read alike from two positions when their first lines agree
      and so do the lines after them. */
  lemma LinesFromCongruence(s: string, a: nat, t: string, b: nat)
    requires a < |s| && b < |t|
    requires s[a..LineEnd(s, a)] == t[b..LineEnd(t, b)]
    requires LinesFrom(s, NextLineStart(s, LineEnd(s, a))) == LinesFrom(t, NextLineStart(t, LineEnd(t, b)))
    ensures LinesFrom(s, a) == LinesFrom(t, b)
  {
    LinesFromStep(s, a);
    LinesFromStep(t, b);
  }

  /** Reading lines does not depend on text before the reading position. */
  lemma {:induction false} LinesFromShift(s: string, d: nat, t: string, pos: nat)
    requires HasTailAt(s, d, t) && pos <= |t|
    ensures LinesFrom(s, d + pos) == LinesFrom(t, pos)
    decreases |t| - pos
  {
    if pos < |t| {
      FirstLineShift(s, d, t, pos);
      LinesFromShift(s, d, t, NextLineStart(t, LineEnd(t, pos)));
      LinesFromCongruence(s, d + pos, t, pos);
    }
  }

  /** The first line of a text that starts with a line and a newline. */
  lemma FirstLine(line: string, newLine: string, rest: string)
    requires newLine == "\n" || newLine == "\r\n"
    requires HasNoLineBreak(line)
    ensures var text := line + newLine + rest;
      && LineEnd(text, 0) == |line|
      && text[0..|line|] == line
      && NextLineStart(text, |line|) == |line| + |newLine|
  {
    var text := line + newLine + rest;
    assert text[|line|] == newLine[0];
    if newLine == "\r\n" {
      assert text[|line| + 1] == '\n';
    }
    forall i | 0 <= i < |line| ensures !IsLineBreak(text[i]) {
      assert text[i] == line[i];
    }
    LineEndAt(text, 0, |line|);
    assert text[0..|line|] == line;
  }

  /** Reading a text that starts with a line and a newline gives that line,
      then whatever the rest of the text reads as. */
  lemma ReadFirstLine(line: string, newLine: string, rest: string)
    requires newLine == "\n" || newLine == "\r\n"
    requires HasNoLineBreak(line)
    ensures LinesFrom(line + newLine + rest, 0) == [line] + LinesFrom(rest, 0)
  {
    var text := line + newLine + rest;
    FirstLine(line, newLine, rest);
    assert HasTailAt(text, |line| + |newLine|, rest);
    LinesFromShift(text, |line| + |newLine|, rest, 0);
    LinesFromStep(text, 0);
  }

  /** Text made of lines, each followed by "\n" or by "\r\n", reads back
      line by line as those lines, provided none holds a line break. */
  lemma {:induction false} ReadBackTextLines(lines: seq<string>, newLine: string)
    requires newLine == "\n" || newLine == "\r\n"
    requires forall k :: 0 <= k < |lines| ==> HasNoLineBreak(lines[k])
    ensures LinesFrom(TextLines(lines, newLine), 0) == lines
    decreases |lines|
  {
    if |lines| > 0 {
      var line := lines[0];
      var rest := lines[1..];
      assert lines == [line] + rest;
      TextLinesCons(line, rest, newLine);
      ReadBackTextLines(rest, newLine);
      ReadFirstLine(line, newLine, TextLines(rest, newLine));
    }
  }

  // ---------------------------------------------------------------------
  // Every line of the multi-line form is a single line

  lemma SliceHasNoLineBreak(s: string, i: nat, j: nat)
    requires HasNoLineBreak(s) && i <= j <= |s|
    ensures HasNoLineBreak(s[i..j])
  {
    forall t | 0 <= t < j - i ensures !IsLineBreak(s[i..j][t]) {
      assert s[i..j][t] == s[i + t];
    }
  }

  lemma ConcatHasNoLineBreak(a: string, b: string)
    requires HasNoLineBreak(a) && HasNoLineBreak(b)
    ensures HasNoLineBreak(a + b)
  {
    forall t | 0 <= t < |a + b| ensures !IsLineBreak((a + b)[t]) {
      if t >= |a| {
        assert (a + b)[t] == b[t - |a|];
      }
    }
  }

  /** The function name of a line is a part of it. */
  lemma FunctionNameHasNoLineBreak(line: string)
    requires HasNoLineBreak(line)
    ensures HasNoLineBreak(FunctionName(line))
  {
    FunctionMatchIsLeftmost(line, 0);
    if FunctionMatch(line).Some? {
      var name := FunctionMatch(line).value;
      var i :| 0 <= i < |line| && IsFunctionMatch(line, i, name) && NoFunctionMatchBetween(line, 0, i);
      SliceHasNoLineBreak(line, i + 3, i + 3 + |name|);
    } else {
      var name := FallbackFunctionName(line);
      assert line[0..|name|] == name;
      SliceHasNoLineBreak(line, 0, |name|);
    }
  }

  /** The file of a line, with or without its ":line N", is a part of it, and
      so is the ":line N" text. */
  lemma FileOfHasNoLineBreak(line: string)
    requires HasNoLineBreak(line)
    ensures FileMatch(line).Some? ==> HasNoLineBreak(FileMatch(line).value)
    ensures HasNoLineBreak(FileOf(line))
    ensures LineMatch(line).Some? ==> HasNoLineBreak(LineMatch(line).value.value)
  {
    if FileMatch(line).Some? {
      var file := FileMatch(line).value;
      var k := LastBackslashBefore(line, |line| - 1);
      SliceHasNoLineBreak(line, k + 1, |line|);
      assert line[k + 1..|line|] == file;
      match LineMatch(file)
      case Some(m) =>
        SliceHasNoLineBreak(file, 0, m.index);
        assert file[0..m.index] == file[..m.index];
      case None =>
    }
    if LineMatch(line).Some? {
      var m := LineMatch(line).value;
      SliceHasNoLineBreak(line, m.index, DigitsEnd(line, m.index + 6));
    }
  }

  /** A description is made of parts of its line and of " in ". */
  lemma DescribeHasNoLineBreak(line: string, finalFile: string)
    requires HasNoLineBreak(line)
    ensures HasNoLineBreak(Describe(line, finalFile))
  {
    FunctionNameHasNoLineBreak(line);
    FileOfHasNoLineBreak(line);
    var name := FunctionName(line);
    var withFile := name;
    if FileMatch(line).Some? && ShowsFile(FileMatch(line).value, finalFile) {
      assert HasNoLineBreak(FINAL_FILE_PREFIX);
      ConcatHasNoLineBreak(name, FINAL_FILE_PREFIX);
      ConcatHasNoLineBreak(name + FINAL_FILE_PREFIX, FileMatch(line).value);
      withFile := name + FINAL_FILE_PREFIX + FileMatch(line).value;
    }
    if LineMatch(line).Some? {
      ConcatHasNoLineBreak(withFile, LineMatch(line).value.value);
    }
  }

  lemma {:induction false} ScanAllHasNoLineBreak(lines: seq<string>)
    requires forall k :: 0 <= k < |lines| ==> HasNoLineBreak(lines[k])
    ensures forall k :: 0 <= k < |ScanAll(lines).functions| ==> HasNoLineBreak(ScanAll(lines).functions[k])
    ensures HasNoLineBreak(ScanAll(lines).finalFile)
    decreases |lines|
  {
    if |lines| > 0 {
      var init := lines[..|lines| - 1];
      var line := lines[|lines| - 1];
      ScanAllHasNoLineBreak(init);
      if line != "" {
        var st := ScanLine(ScanAll(init), line);
        DescribeHasNoLineBreak(line, st.finalFile);
        FileOfHasNoLineBreak(line);
        if FileMatch(line).Some? && |ScanAll(init).finalFile| == 0 {
          assert st.finalFile == FileOf(line);
        }
      }
    }
  }

  /** Whatever the text, every trace item is a single line. */
  lemma TraceItemsHaveNoLineBreak(stackTraceText: string)
    ensures forall k :: 0 <= k < |StackTraceData(stackTraceText)| ==> HasNoLineBreak(StackTraceData(stackTraceText)[k])
  {
    if IsBlank(stackTraceText) {
      assert HasNoLineBreak(EMPTY_STACK_TRACE);
    } else {
      var lines := LinesFrom(stackTraceText, 0);
      LinesHoldNoBreaks(stackTraceText, 0);
      ScanAllHasNoLineBreak(lines);
      ScanEntriesHaveNoLineBreak(ScanAll(lines));
    }
  }

  lemma ScanEntriesHaveNoLineBreak(st: Scan)
    requires forall k :: 0 <= k < |st.functions| ==> HasNoLineBreak(st.functions[k])
    requires HasNoLineBreak(st.finalFile)
    ensures var data := Reversed(st.functions) + (if IsBlank(st.finalFile) then [] else [FINAL_FILE_PREFIX + st.finalFile]);
            forall k :: 0 <= k < |data| ==> HasNoLineBreak(data[k])
  {
    assert HasNoLineBreak(FINAL_FILE_PREFIX);
    ConcatHasNoLineBreak(FINAL_FILE_PREFIX, st.finalFile);
    var extra := if IsBlank(st.finalFile) then [] else [FINAL_FILE_PREFIX + st.finalFile];
    ReversedHasNoLineBreak(st.functions, extra);
  }

  lemma ReversedHasNoLineBreak(items: seq<string>, extra: seq<string>)
    requires forall k :: 0 <= k < |items| ==> HasNoLineBreak(items[k])
    requires forall k :: 0 <= k < |extra| ==> HasNoLineBreak(extra[k])
    ensures forall k :: 0 <= k < |Reversed(items) + extra| ==> HasNoLineBreak((Reversed(items) + extra)[k])
  {
    var data := Reversed(items) + extra;
    forall k | 0 <= k < |data| ensures HasNoLineBreak(data[k]) {
      if k < |items| {
        assert data[k] == items[|items| - 1 - k];
      } else {
        assert data[k] == extra[k - |items|];
      }
    }
  }

  lemma IndentedLinesHaveNoLineBreak(items: seq<string>)
    requires forall k :: 0 <= k < |items| ==> HasNoLineBreak(items[k])
    ensures forall k :: 0 <= k < |Indented(items)| ==> HasNoLineBreak(Indented(items)[k])
  {
    IndentedEntries(items);
    assert HasNoLineBreak("  ");
    forall k | 0 <= k < |items| ensures HasNoLineBreak(Indented(items)[k]) {
      ConcatHasNoLineBreak("  ", items[k]);
    }
  }

  lemma {:induction false} IndentedEntries(items: seq<string>)
    ensures |Indented(items)| == |items|
    ensures forall k :: 0 <= k < |items| ==> Indented(items)[k] == "  " + items[k]
    decreases |items|
  {
    if |items| > 0 {
      IndentedEntries(items[..|items| - 1]);
    }
  }

  /** The paragraphs are blank lines, each followed by a message. */
  lemma {:induction false} ParagraphsEntries(messages: seq<string>)
    ensures |Paragraphs(messages)| == 2 * |messages|
    ensures forall k :: 0 <= k < |messages| ==>
              Paragraphs(messages)[2 * k] == "" && Paragraphs(messages)[2 * k + 1] == messages[k]
    decreases |messages|
  {
    if |messages| > 0 {
      ParagraphsEntries(messages[..|messages| - 1]);
    }
  }

  lemma ParagraphLinesHaveNoLineBreak(messages: seq<string>)
    requires forall k :: 0 <= k < |messages| ==> HasNoLineBreak(messages[k])
    ensures forall j :: 0 <= j < |Paragraphs(messages)| ==> HasNoLineBreak(Paragraphs(messages)[j])
  {
    ParagraphsEntries(messages);
    forall j | 0 <= j < |Paragraphs(messages)| ensures HasNoLineBreak(Paragraphs(messages)[j]) {
      var k := j / 2;
      if j == 2 * k {
        assert Paragraphs(messages)[2 * k] == "";
      } else {
        assert Paragraphs(messages)[2 * k + 1] == messages[k];
      }
    }
  }

  lemma WrittenLinesHaveNoLineBreak(data: seq<string>, paragraphs: seq<string>)
    requires forall k :: 0 <= k < |data| ==> HasNoLineBreak(data[k])
    requires forall k :: 0 <= k < |paragraphs| ==> HasNoLineBreak(paragraphs[k])
    ensures var lines := [STACK_TRACE_TITLE] + Indented(data) + paragraphs;
            forall k :: 0 <= k < |lines| ==> HasNoLineBreak(lines[k])
  {
    IndentedLinesHaveNoLineBreak(data);
    assert HasNoLineBreak(STACK_TRACE_TITLE);
    var head := [STACK_TRACE_TITLE] + Indented(data);
    forall k | 0 <= k < |head| + |paragraphs| ensures HasNoLineBreak((head + paragraphs)[k]) {
      if k >= |head| {
        assert (head + paragraphs)[k] == paragraphs[k - |head|];
      } else if k > 0 {
        assert (head + paragraphs)[k] == Indented(data)[k - 1];
      }
    }
  }

  /** With single-line messages, every line written is a single line. */
  lemma MultiLineLinesHaveNoLineBreak(ex: Fault, includeInnerExceptionMessages: bool)
    requires includeInnerExceptionMessages ==>
               forall k :: 0 <= k < |InnerMessages(ex.inner)| ==> HasNoLineBreak(InnerMessages(ex.inner)[k])
    ensures forall k :: 0 <= k < |MultiLineLines(ex, includeInnerExceptionMessages)| ==>
              HasNoLineBreak(MultiLineLines(ex, includeInnerExceptionMessages)[k])
  {
    TraceItemsHaveNoLineBreak(ex.stackTrace);
    if includeInnerExceptionMessages {
      ParagraphLinesHaveNoLineBreak(InnerMessages(ex.inner));
    }
    var data := StackTraceData(ex.stackTrace);
    var paragraphs := if includeInnerExceptionMessages then Paragraphs(InnerMessages(ex.inner)) else [];
    WrittenLinesHaveNoLineBreak(data, paragraphs);
    assert MultiLineLines(ex, includeInnerExceptionMessages) == [STACK_TRACE_TITLE] + Indented(data) + paragraphs;
  }

  /** Reading the multi-line text back line by line, as a StringReader
      does, gives exactly the lines written: the title, each trace item
      indented, and for each inner exception a blank line and its message,
      provided those messages are single lines. */
  lemma MultiLineReadsBack(ex: Fault, includeInnerExceptionMessages: bool, newLine: string)
    requires newLine == "\n" || newLine == "\r\n"
    requires includeInnerExceptionMessages ==>
               forall k :: 0 <= k < |InnerMessages(ex.inner)| ==> HasNoLineBreak(InnerMessages(ex.inner)[k])
    ensures LinesFrom(StackTraceText(ex, includeInnerExceptionMessages, newLine), 0)
            == MultiLineLines(ex, includeInnerExceptionMessages)
  {
    MultiLineLinesHaveNoLineBreak(ex, includeInnerExceptionMessages);
    ReadBackTextLines(MultiLineLines(ex, includeInnerExceptionMessages), newLine);
  }

  // ---------------------------------------------------------------------
  // GetExceptionStackTraceMultiLine, imperative form

  /** The title line, then each trace item on a line of its own. */
  method AppendTraceLines(stackTraceData: seq<string>, newLine: string) returns (sbStackTrace: string)
    ensures sbStackTrace == TextLines([STACK_TRACE_TITLE] + Indented(stackTraceData), newLine)
  {
    sbStackTrace := STACK_TRACE_TITLE + newLine;
    assert sbStackTrace == TextLines([STACK_TRACE_TITLE], newLine) by {
      assert [STACK_TRACE_TITLE][..0] == [];
    }
    for index := 0 to |stackTraceData|
      invariant sbStackTrace == TextLines([STACK_TRACE_TITLE] + Indented(stackTraceData[..index]), newLine)
    {
      var traceItem := stackTraceData[index];
      ghost var written := [STACK_TRACE_TITLE] + Indented(stackTraceData[..index]);
      assert stackTraceData[..index + 1][..index] == stackTraceData[..index];
      assert written + ["  " + traceItem] == [STACK_TRACE_TITLE] + Indented(stackTraceData[..index + 1]);
      TextLinesSnoc(written, "  " + traceItem, newLine);
      sbStackTrace := sbStackTrace + ("  " + traceItem + newLine);
    }
    assert stackTraceData[..|stackTraceData|] == stackTraceData;
  }

  lemma ParagraphsSnoc(messages: seq<string>, message: string, newLine: string)
    ensures TextLines(Paragraphs(messages + [message]), newLine)
            == TextLines(Paragraphs(messages), newLine) + (newLine + (message + newLine))
  {
    assert (messages + [message])[..|messages|] == messages;
    var p := Paragraphs(messages);
    assert Paragraphs(messages + [message]) == (p + [""]) + [message];
    TextLinesSnoc(p + [""], message, newLine);
    TextLinesSnoc(p, "", newLine);
    assert "" + newLine == newLine;
    Associative(TextLines(p, newLine), newLine, message + newLine);
  }

  /** One more paragraph appended to text that already ends with the
      paragraphs of `read`. */
  lemma AppendParagraphStep(sbStackTrace: string, read: seq<string>, message: string, newLine: string)
    ensures sbStackTrace + TextLines(Paragraphs(read), newLine) + (newLine + (message + newLine))
            == sbStackTrace + TextLines(Paragraphs(read + [message]), newLine)
  {
    ParagraphsSnoc(read, message, newLine);
    Associative(sbStackTrace, TextLines(Paragraphs(read), newLine), newLine + (message + newLine));
  }

  lemma InnerMessagesStep(read: seq<string>, f: Fault, inner: Option<Fault>)
    requires read + InnerMessages(Some(f)) == InnerMessages(inner)
    ensures (read + [f.message]) + InnerMessages(f.inner) == InnerMessages(inner)
  {
    assert InnerMessages(Some(f)) == [f.message] + InnerMessages(f.inner);
    assert (read + [f.message]) + InnerMessages(f.inner) == read + ([f.message] + InnerMessages(f.inner));
  }

  /** For each inner exception, an empty line and then its message. */
  method AppendInnerParagraphs(sbStackTrace: string, inner: Option<Fault>, newLine: string) returns (text: string)
    ensures text == sbStackTrace + TextLines(Paragraphs(InnerMessages(inner)), newLine)
  {
    text := sbStackTrace;
    ghost var read: seq<string> := [];
    var innerException := inner;
    while innerException.Some?
      invariant read + InnerMessages(innerException) == InnerMessages(inner)
      invariant text == sbStackTrace + TextLines(Paragraphs(read), newLine)
      decreases innerException
    {
      var message := innerException.value.message;
      AppendParagraphStep(sbStackTrace, read, message, newLine);
      InnerMessagesStep(read, innerException.value, inner);
      text := text + (newLine + (message + newLine));
      read := read + [message];
      innerException := innerException.value.inner;
    }
    assert read == read + InnerMessages(innerException);
  }

  /** GetExceptionStackTraceMultiLine(ex, includeInnerExceptionMessages),
      with Environment.NewLine as a parameter. */
  method GetExceptionStackTraceMultiLine(ex: Fault, includeInnerExceptionMessages: bool, newLine: string)
    returns (stackTrace: string)
    ensures stackTrace == StackTraceText(ex, includeInnerExceptionMessages, newLine)
  {
    var stackTraceData := GetExceptionStackTraceData(ex.stackTrace);
    stackTrace := AppendTraceLines(stackTraceData, newLine);
    var head := [STACK_TRACE_TITLE] + Indented(stackTraceData);
    if !includeInnerExceptionMessages {
      assert MultiLineLines(ex, includeInnerExceptionMessages) == head + [];
      assert head + [] == head;
      return stackTrace;
    }
    stackTrace := AppendInnerParagraphs(stackTrace, ex.inner, newLine);
    TextLinesAppend(head, Paragraphs(InnerMessages(ex.inner)), newLine);
  }
}
