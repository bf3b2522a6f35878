/** The frames .NET writes into Exception.StackTrace for code built with
    debug information, "   at <method>() in <directory>\<file>:line <n>",
    and what GetExceptionStackTraceData makes of a trace of such frames:
    each frame becomes its method followed by its ":line <n>" text, and
    the file is reported once, at the end, without a line number. */
module StackTraceFrames {
  import opened Text
  import opened StackTraceFormatter

  /** A frame: its method (namespace, class and name) and its line number. */
  datatype Frame = Frame(name: string, lineNumber: string)

  const FRAME_AT := "   at "
  const FRAME_IN := "() in "

  function FrameLine(frame: Frame, directory: string, file: string): string {
    FRAME_AT + frame.name + FRAME_IN + directory + "\\" + file + CODE_LINE_PREFIX + frame.lineNumber
  }

  function FrameLines(frames: seq<Frame>, directory: string, file: string): (lines: seq<string>)
    ensures |lines| == |frames|
    ensures forall j :: 0 <= j < |frames| ==> lines[j] == FrameLine(frames[j], directory, file)
  {
    if |frames| == 0 then [] else [FrameLine(frames[0], directory, file)] + FrameLines(frames[1..], directory, file)
  }

  /** What GetExceptionStackTraceData gives for each frame of one file:
      the method and its ":line <n>" text. */
  function FrameDescriptions(frames: seq<Frame>): (descriptions: seq<string>)
    ensures |descriptions| == |frames|
    ensures forall j :: 0 <= j < |frames| ==>
              descriptions[j] == frames[j].name + CODE_LINE_PREFIX + frames[j].lineNumber
  {
    if |frames| == 0 then [] else [frames[0].name + CODE_LINE_PREFIX + frames[0].lineNumber]
                                  + FrameDescriptions(frames[1..])
  }

  /** No ":line " can start in `s`: every ':' is followed, within `s`, by
      something other than 'l' or 'L'. */
  predicate NoLineTag(s: string) {
    forall t :: 0 <= t < |s| && s[t] == ':' ==> t + 1 < |s| && Lower(s[t + 1]) != 'l'
  }

  predicate HasNoColon(s: string) {
    forall t :: 0 <= t < |s| ==> s[t] != ':'
  }

  /** A method as .NET writes it: no space, '(' or ':', and no line break. */
  predicate IsMethodName(s: string) {
    && |s| > 0
    && HasNoColon(s)
    && forall t :: 0 <= t < |s| ==> s[t] != ' ' && s[t] != '(' && !IsLineBreak(s[t])
  }

  /** A file name: not blank, with no ':' and no backslash or line break. */
  predicate IsFileName(s: string) {
    && !IsBlank(s)
    && HasNoColon(s)
    && forall t :: 0 <= t < |s| ==> s[t] != '\\' && !IsLineBreak(s[t])
  }

  /** A directory: not empty, no ":line " in it, and no line break. */
  predicate IsDirectory(s: string) {
    && |s| > 0
    && NoLineTag(s)
    && HasNoLineBreak(s)
  }

  predicate IsLineNumber(s: string) {
    |s| > 0 && forall t :: 0 <= t < |s| ==> IsDigit(s[t])
  }

  predicate IsFrame(frame: Frame) {
    IsMethodName(frame.name) && IsLineNumber(frame.lineNumber)
  }

  // ---------------------------------------------------------------------
  // Searching in known text

  lemma IndexOfFromAt(s: string, pattern: string, from: nat, j: nat)
    requires from <= j && OccursAt(s, pattern, j)
    requires forall t :: from <= t < j ==> !OccursAt(s, pattern, t)
    ensures IndexOfFrom(s, pattern, from) == j
  {
  }

  lemma NoLineTagAppend(a: string, b: string)
    requires NoLineTag(a) && NoLineTag(b)
    ensures NoLineTag(a + b)
  {
    var s := a + b;
    forall t | 0 <= t < |s| && s[t] == ':' ensures t + 1 < |s| && Lower(s[t + 1]) != 'l' {
      if t < |a| {
        assert a[t] == ':';
      } else {
        assert b[t - |a|] == ':';
      }
    }
  }

  /** Where the text has no ':' followed by 'l' or 'L', `:line \d+`
      cannot match. */
  lemma NoLineMatchBefore(s: string, q: nat)
    requires q <= |s|
    requires forall t :: 0 <= t < q && s[t] == ':' ==> t + 1 < |s| && Lower(s[t + 1]) != 'l'
    ensures forall t :: 0 <= t < q ==> !IsLineMatchAt(s, t)
  {
    forall t | 0 <= t < q ensures !IsLineMatchAt(s, t) {
      if t + 6 <= |s| {
        var folded := FoldCase(s[t..t + 6]);
        assert folded[0] == Lower(s[t]) && folded[1] == Lower(s[t + 1]);
      }
    }
  }

  /** The leftmost match is where the expression first matches. */
  lemma LineMatchAt(s: string, q: nat)
    requires IsLineMatchAt(s, q)
    requires forall t :: 0 <= t < q ==> !IsLineMatchAt(s, t)
    ensures LineMatch(s) == Some(LineNumber(q, s[q..DigitsEnd(s, q + 6)]))
  {
  }

  lemma DigitsToEnd(s: string, p: nat)
    requires p <= |s|
    requires forall t :: p <= t < |s| ==> IsDigit(s[t])
    ensures DigitsEnd(s, p) == |s|
  {
  }

  lemma LineTagAt(pre: string, number: string)
    requires IsLineNumber(number)
    ensures IsLineMatchAt(pre + CODE_LINE_PREFIX + number, |pre|)
  {
    var s := pre + CODE_LINE_PREFIX + number;
    var q := |pre|;
    assert s[q..q + 6] == CODE_LINE_PREFIX;
    assert FoldCase(CODE_LINE_PREFIX) == CODE_LINE_PREFIX;
    assert s[q + 6] == number[0];
  }

  lemma NoLineMatchInPrefix(pre: string, rest: string)
    requires NoLineTag(pre)
    ensures forall t :: 0 <= t < |pre| ==> !IsLineMatchAt(pre + rest, t)
  {
    var s := pre + rest;
    forall t | 0 <= t < |pre| && s[t] == ':' ensures t + 1 < |s| && Lower(s[t + 1]) != 'l' {
      assert s[t] == pre[t];
      assert s[t + 1] == pre[t + 1];
    }
    NoLineMatchBefore(s, |pre|);
  }

  lemma NumberToEnd(pre: string, number: string)
    requires IsLineNumber(number)
    ensures DigitsEnd(pre + CODE_LINE_PREFIX + number, |pre| + 6) == |pre + CODE_LINE_PREFIX + number|
  {
    var s := pre + CODE_LINE_PREFIX + number;
    var q := |pre|;
    forall t | q + 6 <= t < |s| ensures IsDigit(s[t]) {
      assert s[t] == number[t - q - 6];
    }
    DigitsToEnd(s, q + 6);
  }

  /** Text without ":line " followed by ":line <n>": the expression
      `:line \d+` matches exactly the appended part. */
  lemma LineMatchAfter(pre: string, number: string)
    requires NoLineTag(pre) && IsLineNumber(number)
    ensures LineMatch(pre + CODE_LINE_PREFIX + number)
            == Some(LineNumber(|pre|, CODE_LINE_PREFIX + number))
  {
    var s := pre + CODE_LINE_PREFIX + number;
    LineTagAt(pre, number);
    NoLineMatchInPrefix(pre, CODE_LINE_PREFIX + number);
    assert pre + (CODE_LINE_PREFIX + number) == s;
    NumberToEnd(pre, number);
    LineMatchAt(s, |pre|);
    assert s[|pre|..|s|] == CODE_LINE_PREFIX + number;
  }

  // ---------------------------------------------------------------------
  // The three expressions on a frame line

  /** "   at <method>() in ", the part of a frame line before the directory. */
  function FrameHead(frame: Frame): string {
    FRAME_AT + frame.name + FRAME_IN
  }

  /** The part of a frame line after the directory's final backslash. */
  function FrameTail(frame: Frame, file: string): string {
    file + CODE_LINE_PREFIX + frame.lineNumber
  }

  lemma FrameLineParts(frame: Frame, directory: string, file: string)
    ensures FrameLine(frame, directory, file) == FrameHead(frame) + directory + "\\" + FrameTail(frame, file)
    ensures FrameLine(frame, directory, file) == FrameHead(frame) + directory + "\\" + file + CODE_LINE_PREFIX + frame.lineNumber
  {
  }

  /** The characters of the head: three spaces, "at ", the method, "() in ". */
  lemma FrameHeadChars(frame: Frame, t: int)
    requires 0 <= t < |FrameHead(frame)|
    ensures |FrameHead(frame)| == 12 + |frame.name|
    ensures t < 6 ==> FrameHead(frame)[t] == FRAME_AT[t]
    ensures 6 <= t < 6 + |frame.name| ==> FrameHead(frame)[t] == frame.name[t - 6]
    ensures 6 + |frame.name| <= t ==> FrameHead(frame)[t] == FRAME_IN[t - 6 - |frame.name|]
  {
  }

  lemma IndexOfAt(s: string, pattern: string, j: nat)
    requires OccursAt(s, pattern, j)
    requires forall t :: 0 <= t < j ==> !OccursAt(s, pattern, t)
    ensures IndexOf(s, pattern) == j
  {
  }

  /** No "at " starts in the three spaces a frame line begins with. */
  lemma FrameNoAtBefore(frame: Frame, directory: string, file: string)
    ensures forall t :: 0 <= t < 3 ==> FunctionMatchAt(FrameLine(frame, directory, file), t).None?
  {
    var line := FrameLine(frame, directory, file);
    FrameLineParts(frame, directory, file);
    forall t | 0 <= t < 3 ensures FunctionMatchAt(line, t).None? {
      FrameHeadChars(frame, t);
      assert line[t] == FrameHead(frame)[t];
      assert FoldCase(line[t..t + 3])[0] == Lower(line[t]);
    }
  }

  /** After "at ", the method name runs up to the first '('. */
  lemma FrameAtMatches(frame: Frame, directory: string, file: string)
    requires IsMethodName(frame.name)
    ensures FunctionMatchAt(FrameLine(frame, directory, file), 3) == Some(frame.name)
  {
    var line := FrameLine(frame, directory, file);
    var head := FrameHead(frame);
    var m := frame.name;
    var p1 := 6 + |m|;
    FrameLineParts(frame, directory, file);
    assert line[..|head|] == head;
    assert line[3..6] == "at " by {
      forall t | 3 <= t < 6 ensures line[t] == "at "[t - 3] {
        FrameHeadChars(frame, t);
      }
    }
    assert FoldCase("at ") == "at ";
    FrameHeadChars(frame, p1);
    assert OccursAt(line, "(", p1) by { assert line[p1..p1 + 1] == "("; }
    forall t | 6 <= t < p1 ensures !OccursAt(line, "(", t) {
      FrameHeadChars(frame, t);
      assert line[t..t + 1][0] == line[t];
    }
    IndexOfFromAt(line, "(", 6, p1);
    assert line[6..p1] == m by {
      forall t | 6 <= t < p1 ensures line[t] == m[t - 6] {
        FrameHeadChars(frame, t);
      }
    }
  }

  lemma FrameFunctionMatch(frame: Frame, directory: string, file: string)
    requires IsMethodName(frame.name)
    ensures FunctionMatch(FrameLine(frame, directory, file)) == Some(frame.name)
  {
    var line := FrameLine(frame, directory, file);
    FrameLineParts(frame, directory, file);
    FrameHeadChars(frame, 0);
    FrameNoAtBefore(frame, directory, file);
    FrameAtMatches(frame, directory, file);
    assert FunctionMatchFrom(line, 2) == FunctionMatchFrom(line, 3);
    assert FunctionMatchFrom(line, 1) == FunctionMatchFrom(line, 2);
    assert FunctionMatchFrom(line, 0) == FunctionMatchFrom(line, 1);
  }

  lemma FrameInOccurs(frame: Frame, directory: string, file: string)
    ensures OccursAt(FoldCase(FrameLine(frame, directory, file)), "in ", 9 + |frame.name|)
  {
    var line := FrameLine(frame, directory, file);
    var folded := FoldCase(line);
    var p := 9 + |frame.name|;
    FrameLineParts(frame, directory, file);
    forall t | p <= t < p + 3 ensures folded[t] == "in "[t - p] {
      FrameHeadChars(frame, t);
      assert line[t] == FrameHead(frame)[t];
    }
    assert folded[p..p + 3] == "in ";
  }

  lemma FrameNoInBefore(frame: Frame, directory: string, file: string)
    requires IsMethodName(frame.name)
    ensures forall t :: 0 <= t < 9 + |frame.name| ==>
              !OccursAt(FoldCase(FrameLine(frame, directory, file)), "in ", t)
  {
    var line := FrameLine(frame, directory, file);
    var folded := FoldCase(line);
    FrameLineParts(frame, directory, file);
    forall t | 0 <= t < 9 + |frame.name| ensures !OccursAt(folded, "in ", t) {
      assert folded[t..t + 3][0] == folded[t] == Lower(line[t]);
      assert folded[t..t + 3][2] == folded[t + 2] == Lower(line[t + 2]);
      FrameHeadChars(frame, t);
      FrameHeadChars(frame, t + 2);
      assert line[t] == FrameHead(frame)[t];
      assert line[t + 2] == FrameHead(frame)[t + 2];
    }
  }

  /** The first "in " of a frame line, ignoring case, is the one after the
      method's parentheses. */
  lemma FrameInAt(frame: Frame, directory: string, file: string)
    requires IsMethodName(frame.name)
    ensures IndexOf(FoldCase(FrameLine(frame, directory, file)), "in ") == 9 + |frame.name|
  {
    FrameInOccurs(frame, directory, file);
    FrameNoInBefore(frame, directory, file);
    IndexOfAt(FoldCase(FrameLine(frame, directory, file)), "in ", 9 + |frame.name|);
  }

  /** The last backslash before the final character is the one `pre` ends with
      when `tail` has none. */
  lemma LastBackslashAt(pre: string, tail: string)
    requires |pre| > 0 && pre[|pre| - 1] == '\\' && |tail| > 0
    requires forall t :: 0 <= t < |tail| ==> tail[t] != '\\'
    ensures LastBackslashBefore(pre + tail, |pre + tail| - 1) == |pre| - 1
  {
    var s := pre + tail;
    var k := LastBackslashBefore(s, |s| - 1);
    assert s[|pre| - 1] == '\\';
    if k >= |pre| {
      assert false;
    }
  }

  lemma FrameTailHasNoBackslash(frame: Frame, file: string)
    requires IsFrame(frame) && IsFileName(file)
    ensures forall t :: 0 <= t < |FrameTail(frame, file)| ==> FrameTail(frame, file)[t] != '\\'
  {
    var tail := FrameTail(frame, file);
    forall t | 0 <= t < |tail| ensures tail[t] != '\\' {
      if t < |file| {
        assert tail[t] == file[t];
      } else if t < |file| + 6 {
        assert tail[t] == CODE_LINE_PREFIX[t - |file|];
      } else {
        assert tail[t] == frame.lineNumber[t - |file| - 6];
      }
    }
  }

  lemma FrameFileMatch(frame: Frame, directory: string, file: string)
    requires IsFrame(frame) && IsDirectory(directory) && IsFileName(file)
    ensures FileMatch(FrameLine(frame, directory, file)) == Some(FrameTail(frame, file))
  {
    var line := FrameLine(frame, directory, file);
    var tail := FrameTail(frame, file);
    var pre := FrameHead(frame) + directory + "\\";
    FrameInAt(frame, directory, file);
    FrameLineParts(frame, directory, file);
    FrameHeadChars(frame, 0);
    FrameTailHasNoBackslash(frame, file);
    LastBackslashAt(pre, tail);
    assert line == pre + tail;
    assert line[|pre|..] == tail;
  }

  lemma FrameLineMatch(frame: Frame, directory: string, file: string)
    requires IsFrame(frame) && IsDirectory(directory) && IsFileName(file)
    ensures LineMatch(FrameLine(frame, directory, file))
            == Some(LineNumber(13 + |frame.name| + |directory| + |file|, CODE_LINE_PREFIX + frame.lineNumber))
  {
    var head := FrameHead(frame);
    assert NoLineTag(head) by {
      forall t | 0 <= t < |head| ensures head[t] != ':' {
        FrameHeadChars(frame, t);
      }
    }
    assert NoLineTag("\\");
    NoLineTagAppend(head, directory);
    NoLineTagAppend(head + directory, "\\");
    NoLineTagAppend(head + directory + "\\", file);
    FrameLineParts(frame, directory, file);
    FrameHeadChars(frame, 0);
    LineMatchAfter(head + directory + "\\" + file, frame.lineNumber);
  }

  /** The file of a frame line, cut before ":line", is the file name. */
  lemma FrameFileOf(frame: Frame, directory: string, file: string)
    requires IsFrame(frame) && IsDirectory(directory) && IsFileName(file)
    ensures FileOf(FrameLine(frame, directory, file)) == file
  {
    FrameFileMatch(frame, directory, file);
    LineMatchAfter(file, frame.lineNumber);
    assert FrameTail(frame, file)[..|file|] == file;
  }

  lemma NoColonNoLineText(s: string)
    requires HasNoColon(s)
    ensures IndexOf(s, CODE_LINE_PREFIX) == -1
  {
    forall t ensures !OccursAt(s, CODE_LINE_PREFIX, t) {
      if 0 <= t && t + 6 <= |s| {
        assert s[t..t + 6][0] == s[t];
      }
    }
  }

  /** Comparing without ":line …", a frame's file is the final file. */
  lemma FrameFileIsFinalFile(frame: Frame, file: string)
    requires IsFrame(frame) && IsFileName(file)
    ensures !ShowsFile(FrameTail(frame, file), file)
  {
    var tail := FrameTail(frame, file);
    NoColonNoLineText(file);
    assert TrimLinePrefix(tail, CODE_LINE_PREFIX) == file by {
      assert tail[|file|..|file| + 6] == CODE_LINE_PREFIX;
      forall t | 0 <= t < |file| ensures !OccursAt(tail, CODE_LINE_PREFIX, t) {
        assert tail[t..t + 6][0] == tail[t] == file[t];
      }
      IndexOfAt(tail, CODE_LINE_PREFIX, |file|);
      assert tail[..|file|] == file;
    }
  }

  /** A frame of the final file is described by its method and its
      ":line <n>" text: the file itself is not repeated. */
  lemma FrameDescribe(frame: Frame, directory: string, file: string)
    requires IsFrame(frame) && IsDirectory(directory) && IsFileName(file)
    ensures Describe(FrameLine(frame, directory, file), file)
            == frame.name + CODE_LINE_PREFIX + frame.lineNumber
  {
    FrameFunctionMatch(frame, directory, file);
    FrameFileMatch(frame, directory, file);
    FrameLineMatch(frame, directory, file);
    FrameFileIsFinalFile(frame, file);
    NoColonNoLineText(frame.name);
  }

  // ---------------------------------------------------------------------
  // A trace whose frames all lie in one file

  lemma {:induction false} NonEmptyKeepsLines(lines: seq<string>)
    requires forall k :: 0 <= k < |lines| ==> lines[k] != ""
    ensures NonEmpty(lines) == lines
  {
    if |lines| > 0 {
      NonEmptyKeepsLines(lines[1..]);
      assert lines == [lines[0]] + lines[1..];
    }
  }

  /** A trace made of frame lines is not blank: its fourth character is
      the 'a' of "at". */
  lemma FrameTraceNotBlank(text: string, frames: seq<Frame>, directory: string, file: string)
    requires |frames| > 0
    requires LinesFrom(text, 0) == FrameLines(frames, directory, file)
    ensures !IsBlank(text)
  {
    var line := FrameLine(frames[0], directory, file);
    assert |text| > 0;
    assert line == text[0..LineEnd(text, 0)];
    FrameLineParts(frames[0], directory, file);
    FrameHeadChars(frames[0], 3);
    assert line[3] == 'a';
    assert text[3] == 'a';
    IsBlankMeansAllWhiteSpace(text);
  }

  /** The lines of a trace of frames are all kept, and the final file is
      the frames' file. */
  lemma FrameTraceLines(frames: seq<Frame>, directory: string, file: string)
    requires |frames| > 0 && forall j :: 0 <= j < |frames| ==> IsFrame(frames[j])
    requires IsDirectory(directory) && IsFileName(file)
    ensures var lines := FrameLines(frames, directory, file);
            && NonEmpty(lines) == lines
            && forall k :: 0 < k <= |lines| ==> FirstFinalFile(lines[..k]) == file
  {
    var lines := FrameLines(frames, directory, file);
    forall k | 0 <= k < |lines| ensures lines[k] != "" {
      FrameLineParts(frames[k], directory, file);
    }
    NonEmptyKeepsLines(lines);
    FrameFileOf(frames[0], directory, file);
    forall k | 0 < k <= |lines| ensures FirstFinalFile(lines[..k]) == file {
      assert lines[..k][0] == lines[0];
    }
  }

  /** Each frame of one file is described by its method and ":line <n>". */
  lemma FramesDescribed(frames: seq<Frame>, directory: string, file: string)
    requires |frames| > 0 && forall j :: 0 <= j < |frames| ==> IsFrame(frames[j])
    requires IsDirectory(directory) && IsFileName(file)
    ensures DescribesEach(FrameDescriptions(frames), FrameLines(frames, directory, file), Describe)
  {
    var lines := FrameLines(frames, directory, file);
    var descriptions := FrameDescriptions(frames);
    FrameTraceLines(frames, directory, file);
    forall j | 0 <= j < |descriptions|
      ensures descriptions[j] == Describe(lines[j], FirstFinalFile(lines[..j + 1]))
    {
      FrameDescribe(frames[j], directory, file);
    }
  }

  /** GetExceptionStackTraceData on frames of one file: each frame, from
      the outermost call to the innermost, as its method and ":line <n>"
      text, then " in <file>" once, without a line number. */
  lemma FramesTraceData(text: string, frames: seq<Frame>, directory: string, file: string)
    requires |frames| > 0 && forall j :: 0 <= j < |frames| ==> IsFrame(frames[j])
    requires IsDirectory(directory) && IsFileName(file)
    requires LinesFrom(text, 0) == FrameLines(frames, directory, file)
    ensures StackTraceData(text) == Reversed(FrameDescriptions(frames)) + [FINAL_FILE_PREFIX + file]
  {
    var lines := FrameLines(frames, directory, file);
    FrameTraceNotBlank(text, frames, directory, file);
    FrameTraceLines(frames, directory, file);
    assert lines[..|lines|] == lines;
    FramesDescribed(frames, directory, file);
    StackTraceDataOf(text, FrameDescriptions(frames));
  }

  lemma FrameLineHasNoLineBreak(frame: Frame, directory: string, file: string)
    requires IsFrame(frame) && IsDirectory(directory) && IsFileName(file)
    ensures HasNoLineBreak(FrameLine(frame, directory, file))
  {
    var line := FrameLine(frame, directory, file);
    var head := FrameHead(frame);
    var tail := FrameTail(frame, file);
    FrameLineParts(frame, directory, file);
    forall t | 0 <= t < |line| ensures !IsLineBreak(line[t]) {
      if t < |head| {
        FrameHeadChars(frame, t);
      } else if t < |head| + |directory| {
        assert line[t] == directory[t - |head|];
      } else if t > |head| + |directory| {
        var u := t - |head| - |directory| - 1;
        assert line[t] == tail[u];
        if u >= |file| + 6 {
          assert tail[u] == frame.lineNumber[u - |file| - 6];
        }
      }
    }
  }

  /** The frames of the example in the source's documentation, innermost
      call first as .NET lists them. */
  const DOCUMENTED_FRAMES := [Frame("clsCodeTest.InnerTestException", "86"),
                              Frame("clsCodeTest.TestException", "75"),
                              Frame("clsCodeTest.Test", "50")]
  const DOCUMENTED_DIRECTORY := "C:\\Code"
  const DOCUMENTED_FILE := "clsCodeTest.vb"

  lemma MethodNameAppend(a: string, b: string)
    requires IsMethodName(a) && IsMethodName(b)
    ensures IsMethodName(a + b)
  {
    forall t | 0 <= t < |a + b|
      ensures (a + b)[t] != ':' && (a + b)[t] != ' ' && (a + b)[t] != '(' && !IsLineBreak((a + b)[t])
    {
      if t < |a| {
        assert (a + b)[t] == a[t];
      } else {
        assert (a + b)[t] == b[t - |a|];
      }
    }
  }

  lemma DocumentedClassIsName()
    ensures IsMethodName("clsCodeTest.")
  {
  }

  lemma InnerTestExceptionIsFrame()
    ensures IsFrame(DOCUMENTED_FRAMES[0])
  {
    TestExceptionIsName();
    assert IsMethodName("clsCodeTest.Inner") by {
      DocumentedClassIsName();
      assert IsMethodName("Inner");
      MethodNameAppend("clsCodeTest.", "Inner");
      assert "clsCodeTest." + "Inner" == "clsCodeTest.Inner";
    }
    MethodNameAppend("clsCodeTest.Inner", "TestException");
    assert "clsCodeTest.Inner" + "TestException" == DOCUMENTED_FRAMES[0].name;
    assert IsLineNumber("86");
  }

  lemma TestExceptionIsName()
    ensures IsMethodName("TestException")
  {
  }

  lemma TestExceptionIsFrame()
    ensures IsFrame(DOCUMENTED_FRAMES[1])
  {
    DocumentedClassIsName();
    TestExceptionIsName();
    MethodNameAppend("clsCodeTest.", "TestException");
    assert "clsCodeTest." + "TestException" == DOCUMENTED_FRAMES[1].name;
    assert IsLineNumber("75");
  }

  lemma TestIsFrame()
    ensures IsFrame(DOCUMENTED_FRAMES[2])
  {
    DocumentedClassIsName();
    assert IsMethodName("Test");
    MethodNameAppend("clsCodeTest.", "Test");
    assert "clsCodeTest." + "Test" == DOCUMENTED_FRAMES[2].name;
    assert IsLineNumber("50");
  }

  lemma DocumentedDirectory()
    ensures IsDirectory(DOCUMENTED_DIRECTORY)
  {
  }

  lemma DocumentedFile()
    ensures IsFileName(DOCUMENTED_FILE)
  {
  }

  lemma DocumentedFramesAreFrames()
    ensures forall j :: 0 <= j < |DOCUMENTED_FRAMES| ==> IsFrame(DOCUMENTED_FRAMES[j])
  {
    InnerTestExceptionIsFrame();
    TestExceptionIsFrame();
    TestIsFrame();
  }

  /** The documented frames, each on a line of its own, read back. */
  lemma DocumentedTraceLines()
    ensures var lines := FrameLines(DOCUMENTED_FRAMES, DOCUMENTED_DIRECTORY, DOCUMENTED_FILE);
            LinesFrom(TextLines(lines, "\r\n"), 0) == lines
  {
    var lines := FrameLines(DOCUMENTED_FRAMES, DOCUMENTED_DIRECTORY, DOCUMENTED_FILE);
    DocumentedFramesAreFrames();
    DocumentedDirectory();
    DocumentedFile();
    forall k | 0 <= k < |lines| ensures HasNoLineBreak(lines[k]) {
      FrameLineHasNoLineBreak(DOCUMENTED_FRAMES[k], DOCUMENTED_DIRECTORY, DOCUMENTED_FILE);
    }
    ReadBackTextLines(lines, "\r\n");
  }

  lemma DocumentedDescriptions()
    ensures Reversed(FrameDescriptions(DOCUMENTED_FRAMES)) + [FINAL_FILE_PREFIX + DOCUMENTED_FILE]
            == ["clsCodeTest.Test:line 50",
                "clsCodeTest.TestException:line 75",
                "clsCodeTest.InnerTestException:line 86",
                " in clsCodeTest.vb"]
  {
    var descriptions := FrameDescriptions(DOCUMENTED_FRAMES);
    assert descriptions[0] == "clsCodeTest.InnerTestException:line 86";
    assert descriptions[1] == "clsCodeTest.TestException:line 75";
    assert descriptions[2] == "clsCodeTest.Test:line 50";
    assert Reversed(descriptions) == [descriptions[2], descriptions[1], descriptions[0]];
    assert FINAL_FILE_PREFIX + DOCUMENTED_FILE == " in clsCodeTest.vb";
  }

  /** The documented trace, each frame on a line of its own. The code gives
      each frame with its own line number and the file alone at the end,
      where the documentation shows the method names alone and the
      innermost line number with the file. */
  lemma DocumentedTrace()
    ensures StackTraceData(TextLines(FrameLines(DOCUMENTED_FRAMES, DOCUMENTED_DIRECTORY, DOCUMENTED_FILE), "\r\n"))
            == ["clsCodeTest.Test:line 50",
                "clsCodeTest.TestException:line 75",
                "clsCodeTest.InnerTestException:line 86",
                " in clsCodeTest.vb"]
  {
    var lines := FrameLines(DOCUMENTED_FRAMES, DOCUMENTED_DIRECTORY, DOCUMENTED_FILE);
    DocumentedFramesAreFrames();
    DocumentedDirectory();
    DocumentedFile();
    DocumentedTraceLines();
    FramesTraceData(TextLines(lines, "\r\n"), DOCUMENTED_FRAMES, DOCUMENTED_DIRECTORY, DOCUMENTED_FILE);
    DocumentedDescriptions();
  }
}
