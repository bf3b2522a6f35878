# PRISM file synchronisation, stack trace formatting and database helpers, in Dafny

This project models three parts of the PRISM class library and proves
properties of the model.

- **FileSyncUtils** (`file_sync.dfy`, on top of `storage.dfy`). It keeps
  local copies of remote data files. Each data file has a `.hashcheck`
  sidecar that records its hash, size and date, and a `.LastUsed` sidecar
  that records when it was last validated. `ValidateFileVsHashcheck`
  checks a file against its sidecar, or creates the sidecar on first use.
  `CopyFileToLocal` keeps a valid local copy and re-copies an invalid one.
  It re-copies at once when the local sidecar is stale. Otherwise it waits
  a random back-off first, so that another process has time to finish its
  copy.
- **clsStackTraceFormatter** (`stack_trace.dfy`). It turns an exception's
  StackTrace text into a compact list of frames, plus the file where the
  exception occurred. It prints that list on one line or on several. The
  three regular expressions of the source are written out as matchers.
  Each matcher is proved to return the leftmost (and, where it applies,
  greedy) match of its expression, with `\d` read as the ASCII digits
  '0' to '9'. `stack_trace_frames.dfy` applies the formatter to frames as
  .NET writes them, "   at <method>() in <directory>\<file>:line <n>".
- **clsDBTools** (`db_tools.dfy`). This covers:
  - the clamping of the query timeout;
  - the mapping from column name to column index, and the string and
    integer lookups built on it;
  - the retry policy and the row limit of `GetQueryResults`.

Each operation that works step by step in the source is a method. A
method that changes state is written against the `FileSystem` class or
the `DBTools` class. Most methods are proved equal to a specification
function, and the lemmas state what the source promises about those
functions:
- FileSyncUtils: `UpdateLastUsedFile` to `UpdateLastUsed`,
  `DeleteHashCheckFileForDataFile` to `DeleteHashcheck`, the three
  overloads built on the main `ValidateFileVsHashcheck` to `Validation`,
  `ValidateAgainstHashcheck` to `HashcheckOnly`, `ReadSourceHashInfo` to
  `SourceHashInfo`, the three stages of the copy to `Sync`, and
  `CopyFileToLocal` to `LocalCopy`;
- clsStackTraceFormatter: `DescribeFrame` to `ScanLine`,
  `GetExceptionStackTraceData` to `StackTraceData`, `AppendTraceItems` to
  `SingleLine`, `AppendInnerMessages` to `Chain`, `GetExceptionStackTrace`
  to `StackTraceLine`, `AppendTraceLines` and `AppendInnerParagraphs` to
  `TextLines`, and `GetExceptionStackTraceMultiLine` to `StackTraceText`;
- clsDBTools: `SetTimeoutSeconds` to `ClampTimeout`, `ReadRow` to
  `RowText`, `ReadRows` to `ReadFrom`, and `GetQueryResults` to
  `QueryResults`.

The other methods state their results directly. `GetColumnMapping`
succeeds exactly when the column names are distinct, and then maps each
name to its index. `Reverse` reverses an array in place. The
`FileSystem` methods (`CreateDirectory`, `SleepSeconds`,
`CopyFileUsingLocks`, `ConcurrentWrites`) state the new state of the
file system. `text.dfy` holds the .NET string operations the source
relies on: IsNullOrWhiteSpace, ordinal IndexOf, StartsWith, and ordinal
case-insensitive comparison.

Files and times are modelled like this:
- the file system is a map from path to size, last write time (UTC
  seconds) and contents;
- paths held open by another process are a set, `locked`;
- hashing is an uninterpreted function of a file's contents and a hash
  type.

Where the source's documentation and its code disagree, the model follows
the code. The summary of CopyFileToLocal (FileSyncUtils.cs:34) says a copy
creates a `.hashcheck` file and a `.lastused` file. The remarks of
ValidateFileVsHashcheck (FileSyncUtils.cs:295) say it also updates the
`.lastused` file. The code writes `.LastUsed` only on a successful
validation against an existing sidecar (FileSyncUtils.cs:416-420). A fresh
copy goes through the first-use path (321-354), which creates the sidecar
and leaves `.LastUsed` alone. The exception is when another process holds
the copy's `.hashcheck`. Its deletion then fails silently
(FileSyncUtils.cs:207-210), the old sidecar stays, and the validation
takes the existing-sidecar path, which can write `.LastUsed`.
`FirstUseTrust` and `FreshCopyTrustedOnFirstUse` state this.
`FreshCopyTrustedOnFirstUse` requires that no other process hold the
copy's `.hashcheck`.

The stack trace documentation and the code disagree too. The documentation
(clsStackTraceFormatter.cs:38-41, 87-93 and 128-133) shows a three-frame
trace as the bare method names followed by " in clsCodeTest.vb:line 86".
The code (clsStackTraceFormatter.cs:199-209 and 246-259) gives every frame
of the final file with its own ":line N" text, and ends with the file
alone, without a line number. For that trace it gives
"clsCodeTest.Test:line 50", "clsCodeTest.TestException:line 75",
"clsCodeTest.InnerTestException:line 86" and " in clsCodeTest.vb".
`StackTraceFrames.FramesTraceData` and `StackTraceFrames.DocumentedTrace`
state this.

## Model

| member | source | states |
|---|---|---|
| Text.IsBlankMeansAllWhiteSpace | FileSyncUtils.cs:316 | string.IsNullOrWhiteSpace holds exactly when every character is white space |
| Text.IndexOf | clsStackTraceFormatter.cs:282 | ordinal IndexOf returns the first occurrence, and -1 exactly when the pattern occurs nowhere |
| Text.NoOccurrenceBeforeFirst | clsStackTraceFormatter.cs:282-285 | the text before the first occurrence of a pattern does not contain it |
| Text.FoldCase | clsStackTraceFormatter.cs:224 | case folding keeps the length and folds each character on its own |
| Storage.SidecarPathsDistinct | FileSyncUtils.cs:221 | a data file, its `.hashcheck` and its `.LastUsed` are three different paths |
| Storage.FileName | FileSyncUtils.cs:122 | FileInfo.Name holds no directory separator and is no longer than the path |
| Storage.FileNameIsTail | FileSyncUtils.cs:122 | the file name is the path's tail after its last separator |
| Storage.FileNameAppend | FileSyncUtils.cs:64 | appending a suffix without separators appends it to the file name |
| Storage.CombineSuffix | FileSyncUtils.cs:73 | the local `.hashcheck` path that CopyFileToLocal inspects is the sidecar of the local copy |
| Storage.CombineFileName | FileSyncUtils.cs:122 | the target file keeps the source file's name |
| Storage.ReadHashcheckFile | FileSyncUtils.cs:357 | a sidecar reads back as the record it holds |
| Storage.FileSystem.constructor | FileSyncUtils.cs:46-188 | the file system starts with the given files, directories, locks and time, and an empty log |
| Storage.FileSystem.CreateDirectory | FileSyncUtils.cs:116-119 | the target directory exists afterwards |
| Storage.FileSystem.SleepSeconds | FileSyncUtils.cs:157 | the wait advances the clock by the given seconds and is logged |
| Storage.FileSystem.CopyFileUsingLocks | FileSyncUtils.cs:129 | the copy succeeds exactly when the source exists and the target is not held by another process; then the target holds the source's data, otherwise nothing changes |
| Storage.FileSystem.ConcurrentWrites | FileSyncUtils.cs:152-157 | other processes' writes during the back-off are merged into the files |
| FileSync.UpdateLastUsed | FileSyncUtils.cs:218-239 | `.LastUsed` holds the current time afterwards, unless another process holds it (then nothing changes); no other file changes |
| FileSync.UpdateLastUsedFile | FileSyncUtils.cs:218-239 | the method leaves the files as UpdateLastUsed says |
| FileSync.DeleteHashcheck | FileSyncUtils.cs:195-212 | the `.hashcheck` sidecar is gone afterwards unless another process holds it; no other file changes |
| FileSync.DeleteHashcheckIdempotent | FileSyncUtils.cs:195-212 | deleting the sidecar twice is deleting it once |
| FileSync.DeleteHashCheckFileForDataFile | FileSyncUtils.cs:195-212 | the method leaves the files as DeleteHashcheck says |
| FileSync.Validation | FileSyncUtils.cs:297-428 | a valid file exists; only the file's two sidecars change; `.LastUsed` changes only on a success against an existing sidecar; `.hashcheck` changes only when there was no sidecar |
| FileSync.ValidateFileVsHashcheck | FileSyncUtils.cs:297-428 | the method returns the verdict and leaves the files as Validation says |
| FileSync.ValidateAgainstSource | FileSyncUtils.cs:249-256 | the private overload is the main one with every check and the default sidecar |
| FileSync.ValidateAgainstExpectedHash | FileSyncUtils.cs:266-276 | the expected-hash overload is the main one with every check, recomputing the hash on every call |
| FileSync.MissingFileNotFound | FileSyncUtils.cs:307-313 | a missing file fails with "file not found" and nothing changes |
| FileSync.FirstUseTrust | FileSyncUtils.cs:321-354 | with no sidecar, the file is valid exactly when its hash (SHA1 for an Undefined type) is not blank and the expected value is blank or equal; the sidecar then records that hash, size and date; `.LastUsed` is untouched |
| FileSync.CrossCheckComesFirst | FileSyncUtils.cs:359-366 | a sidecar value differing from a defined expected hash fails before any other check, changing nothing |
| FileSync.SizeAndDateChecks | FileSyncUtils.cs:368-388 | a size difference fails; the date fails exactly when it is checked, no hash is computed and it is more than 2 seconds off; with no hash computed, passing both checks means valid |
| FileSync.DateIgnoredWhenHashComputed | FileSyncUtils.cs:376-388 | when the hash is computed, the file's date does not affect the verdict |
| FileSync.RecheckIntervalRule | FileSyncUtils.cs:390-414 | the hash is consulted exactly when the interval is not positive or the sidecar is older than it; then the file is valid exactly when the stored type is defined and the recomputed hash equals the stored one |
| FileSync.IntervalZeroCatchesCorruption | FileSyncUtils.cs:390-414 | with interval 0, a file whose contents no longer hash to the recorded value is rejected |
| FileSync.SuccessOverwritesLastUsed | FileSyncUtils.cs:416-420 | a success against an existing sidecar leaves `.LastUsed` holding the current time |
| FileSync.ValidationStable | FileSyncUtils.cs:297-428 | a file that just validated validates again at once |
| FileSync.BlankExpectedHashValidatesOnce | FileSyncUtils.cs:321-366 | a blank expected hash with a defined type validates the file on first use, and every later call fails on the cross-check against the blank value |
| FileSync.SidecarForIdempotent | FileSyncUtils.cs:315-319 | the chosen sidecar path is never blank, so it is its own default |
| FileSync.HashcheckOnlyRejectsRecordedHashes | FileSyncUtils.cs:467-472 | as written, the hashcheck-only overload rejects every sidecar that records a hash, unless the assumed type is Undefined |
| FileSync.HashcheckOnlyRejectsEmptyPath | FileSyncUtils.cs:460 | as written, an empty sidecar path fails even when the file's own sidecar exists |
| FileSync.HashcheckOnly | FileSyncUtils.cs:443-482 | corrected: a missing sidecar fails; otherwise the file is valid exactly when its size, date and hash agree with the stored values, as far as they are checked |
| FileSync.MatchingFileRejectedAsWritten | FileSyncUtils.cs:443-482 | a concrete file that matches its sidecar: rejected as written, accepted by the corrected overload |
| FileSync.ValidateAgainstHashcheck | FileSyncUtils.cs:443-482 | the method returns the verdict and leaves the files as HashcheckOnly says |
| FileSync.SourceHashInfo | FileSyncUtils.cs:64-113 | the expected hash info is the source's sidecar record when there is one; otherwise the newly computed hash, or nothing when it is blank or its sidecar cannot be written; only the source's sidecar can change |
| FileSync.Sync | FileSyncUtils.cs:124-178 | copying, revalidating and backing off keep the directories and the locks |
| FileSync.AfterWaitKeeps | FileSyncUtils.cs:157-164 | after the wait, a copy that validates with a forced recompute is kept |
| FileSync.AfterWaitRecopies | FileSyncUtils.cs:162-178 | after the wait, a copy that still fails is copied again |
| FileSync.RevalidateRecopies | FileSyncUtils.cs:144-148 | a failing copy whose sidecar is over 10 minutes old is copied again at once |
| FileSync.RevalidateBacksOff | FileSyncUtils.cs:144-166 | a failing copy with a recent or missing sidecar leads to the back-off |
| FileSync.CopyEvents | FileSyncUtils.cs:124-134 | a copy logs exactly one transfer and takes no time |
| FileSync.AfterWaitEvents | FileSyncUtils.cs:150-178 | the back-off takes the wait, logs it, and then logs at most one transfer |
| FileSync.RevalidationEvents | FileSyncUtils.cs:136-178 | revalidation logs nothing, a transfer, the wait, or the wait and a transfer |
| FileSync.ValidationUntouched | FileSyncUtils.cs:297-428 | validation writes nothing but the two sidecars of the validated file |
| FileSync.SyncFrame | FileSyncUtils.cs:124-178 | each stage writes only the local copy, its sidecars and what other processes write during the wait |
| FileSync.CopyPathsDistinct | FileSyncUtils.cs:64-73 | the local copy and its sidecars are different files from the source and the source's sidecar |
| FileSync.CopyWritesOnlyItsFiles | FileSyncUtils.cs:46-188 | CopyFileToLocal changes no other file, creates the target directory and locks nothing |
| FileSync.AtMostOneTransfer | FileSyncUtils.cs:124-178 | the possible event sequences of one call grow the log by at most two events, at most one of them a transfer |
| FileSync.WaitBounds | FileSyncUtils.cs:152-157 | the back-off is 5 to 14 seconds plus one second per 50 MB of source |
| FileSync.CopyTransfersAndWaitsAtMostOnce | FileSyncUtils.cs:46-188 | one call transfers at most once and waits at most once, for the bounded back-off |
| FileSync.ValidCacheHitNeitherCopiesNorWaits | FileSyncUtils.cs:136-140 | a local copy that validates is kept without a transfer or a wait |
| FileSync.FreshCopyTrustedOnFirstUse | FileSyncUtils.cs:124-134 | a missing target is copied once, without a wait, and is valid exactly when its hash is not blank and agrees with the expected source hash when one is known; `.LastUsed` is not written |
| FileSync.StaleSidecarSkipsBackOff | FileSyncUtils.cs:142-166 | a failing copy is re-copied at once when its sidecar is stale; otherwise the first thing that happens is the wait |
| FileSync.HashcheckPathInjective | FileSyncUtils.cs:64 | different files have different `.hashcheck` sidecars |
| FileSync.LastValidationOfCopy | FileSyncUtils.cs:171-178 | a re-copy that ends valid ends with a successful validation that leaves the source and its sidecar alone |
| FileSync.LastValidationAfterWait | FileSyncUtils.cs:157-178 | a back-off that ends valid ends with a successful validation that leaves the source and its sidecar alone |
| FileSync.LastValidation | FileSyncUtils.cs:124-178 | every stage that ends valid ends with a successful validation of the copy |
| FileSync.SecondCallIsCacheHit | FileSyncUtils.cs:46-188 | a second call right after a successful one neither copies nor waits, and succeeds |
| FileSync.SecondSourceHashInfo | FileSyncUtils.cs:75-79 | the second call reads back the hash info the first call prepared |
| FileSync.ReadSourceHashInfo | FileSyncUtils.cs:64-113 | the method prepares the expected hash info as SourceHashInfo says |
| FileSync.RecopyFile | FileSyncUtils.cs:168-178 | delete the sidecar, copy, validate: the Copy stage |
| FileSync.RevalidateOrRecopyFile | FileSyncUtils.cs:136-178 | the Revalidate stage |
| FileSync.BackOffAndRevalidate | FileSyncUtils.cs:150-166 | the AfterWait stage |
| FileSync.CopyFileToLocal | FileSyncUtils.cs:46-188 | the method returns the verdict and leaves the file system as LocalCopy says |
| StackTraceFormatter.LineEnd | clsStackTraceFormatter.cs:182 | a line ends at or after its start and within the text |
| StackTraceFormatter.LineEndStopsAtBreak | clsStackTraceFormatter.cs:182 | a line holds no line break and ends at one, or at the end of the text |
| StackTraceFormatter.LineEndAt | clsStackTraceFormatter.cs:182 | the first break after a run without breaks ends the line |
| StackTraceFormatter.NextLineStart | clsStackTraceFormatter.cs:180-182 | reading moves past "\r\n", "\r" or "\n", and stops at the end |
| StackTraceFormatter.LinesHoldNoBreaks | clsStackTraceFormatter.cs:177-182 | no line read holds a line break, and the lines are no longer than the text |
| StackTraceFormatter.FunctionMatchAtIsMatch | clsStackTraceFormatter.cs:154 | the group found at a position is the one `at ([^(]+)\(` matches there |
| StackTraceFormatter.FunctionMatchIsLeftmost | clsStackTraceFormatter.cs:154-189 | the function matcher finds the leftmost match, and none exactly when the expression matches nowhere |
| StackTraceFormatter.LastBackslashBefore | clsStackTraceFormatter.cs:155 | the last backslash before a position, or -1 |
| StackTraceFormatter.FoldedOccurrence | clsStackTraceFormatter.cs:164 | matching "in " ignoring case is an ordinal match in the folded line |
| StackTraceFormatter.FileMatchIsLeftmostGreedy | clsStackTraceFormatter.cs:155-198 | the file matcher returns the group of the leftmost match of `in .+\\(.+)` with the greedy first `.+`, and none exactly when there is no match |
| StackTraceFormatter.DigitsEnd | clsStackTraceFormatter.cs:158 | the end of a run of digits |
| StackTraceFormatter.LineMatchFrom | clsStackTraceFormatter.cs:157-190 | the leftmost match of `:line \d+`, ignoring case, with all its ASCII digits, and none exactly when there is no match |
| StackTraceFormatter.TrimLinePrefix | clsStackTraceFormatter.cs:279-289 | the result is a prefix of the input: the input itself when the prefix is absent or at the start, else the non-empty text before its first occurrence |
| StackTraceFormatter.TrimLinePrefixIdempotent | clsStackTraceFormatter.cs:279-289 | a trimmed description no longer holds the prefix, so trimming twice is trimming once |
| StackTraceFormatter.FallbackFunctionName | clsStackTraceFormatter.cs:221-242 | the fallback function name is a prefix of the line |
| StackTraceFormatter.FallbackFunctionNameCases | clsStackTraceFormatter.cs:223-240 | the fallback by cases: the text before " in ", else before the first space from index 4, else nothing; the "use the whole line" branch can never be taken |
| StackTraceFormatter.DescribeAppendsLineNumber | clsStackTraceFormatter.cs:256-259 | a description is the function name and the shown file, followed by the ":line N" text exactly when the line has one and the name and file do not already contain ":line " |
| StackTraceFormatter.DescribeShape | clsStackTraceFormatter.cs:244-259 | a frame description starts with the function name; for a line with a file, it goes on with " in <file>" exactly when that file is shown; for a line without one, the ":line N" text is all that can follow the name |
| StackTraceFormatter.Reversed | clsStackTraceFormatter.cs:266-268 | reversal maps index i to index n-1-i |
| StackTraceFormatter.NonEmptySnoc | clsStackTraceFormatter.cs:184-185 | empty lines are skipped, one line at a time |
| StackTraceFormatter.FirstFinalFileSnoc | clsStackTraceFormatter.cs:199-210 | once set, the final file is never overwritten |
| StackTraceFormatter.ScanAllDescribesEachLine | clsStackTraceFormatter.cs:177-264 | one description per non-empty line, in order, each starting with its function name; the final file is that of the first line with a file |
| StackTraceFormatter.EmptyTraceData | clsStackTraceFormatter.cs:167-173 | a blank trace gives exactly "Empty stack trace" |
| StackTraceFormatter.StackTraceDataEntries | clsStackTraceFormatter.cs:152-277 | one entry per non-empty line, innermost line last: entry k is the description of the k-th line from the end, given the final file found up to that line; then " in <final file>" exactly when that is not blank |
| StackTraceFormatter.StackTraceDataOf | clsStackTraceFormatter.cs:152-277 | any list that describes the non-empty lines in order gives the result: reversed, then " in <final file>" when that is not blank |
| StackTraceFormatter.ReversedDescriptions | clsStackTraceFormatter.cs:266-268 | reversing the descriptions puts the description of the last line first, each with the final file known when its line was read |
| StackTraceFormatter.Reverse | clsStackTraceFormatter.cs:268 | List.Reverse reverses the array in place |
| StackTraceFormatter.DescribeFrame | clsStackTraceFormatter.cs:184-261 | one pass of the loop gives the line's description and the new final file |
| StackTraceFormatter.ScanAllSnoc | clsStackTraceFormatter.cs:180-262 | the loop processes the lines in order |
| StackTraceFormatter.ScanLineAppends | clsStackTraceFormatter.cs:261 | a line's effect does not depend on the descriptions already collected |
| StackTraceFormatter.GetExceptionStackTraceData | clsStackTraceFormatter.cs:152-277 | the method returns StackTraceData of the text |
| StackTraceFormatter.JoinSnoc | clsStackTraceFormatter.cs:63 | joining one more item appends the separator and the item |
| StackTraceFormatter.PiecesIsJoin | clsStackTraceFormatter.cs:49-65 | the appended pieces are "Stack trace: " and the items joined by "-:-" |
| StackTraceFormatter.SingleLineIsJoin | clsStackTraceFormatter.cs:49-65 | the one-line form joins the items by "-:-" after the title, except that a final " in " item follows directly and stands alone when it is the only item |
| StackTraceFormatter.BlankStackTraceLine | clsStackTraceFormatter.cs:43-79 | a blank trace prints "Stack trace: Empty stack trace", then the inner messages when asked for |
| StackTraceFormatter.StackTraceLineShape | clsStackTraceFormatter.cs:43-79 | with a known final file: the frames outermost first joined by "-:-", then " in <file>", then "-:-" and each inner message when asked for |
| StackTraceFormatter.ChainSnoc | clsStackTraceFormatter.cs:73 | each inner message adds "-:-" and the message |
| StackTraceFormatter.AppendTraceItems | clsStackTraceFormatter.cs:48-65 | the loop over the items builds the one-line form |
| StackTraceFormatter.AppendInnerMessages | clsStackTraceFormatter.cs:70-75 | the loop over the inner exceptions appends "-:-" and each message, outermost first |
| StackTraceFormatter.GetExceptionStackTrace | clsStackTraceFormatter.cs:43-79 | the method returns StackTraceLine |
| StackTraceFormatter.TextLinesSnoc | clsStackTraceFormatter.cs:105 | AppendLine adds the line and the newline |
| StackTraceFormatter.TextLinesAppend | clsStackTraceFormatter.cs:100-117 | writing two runs of lines one after the other |
| StackTraceFormatter.TextLinesCons | clsStackTraceFormatter.cs:101 | the written text starts with the first line and the newline |
| StackTraceFormatter.ReadBackTextLines | clsStackTraceFormatter.cs:100-117 | lines written with AppendLine read back line by line as those lines, when none holds a line break |
| StackTraceFormatter.TraceItemsHaveNoLineBreak | clsStackTraceFormatter.cs:152-277 | every trace item is a single line, whatever the text |
| StackTraceFormatter.MultiLineLinesHaveNoLineBreak | clsStackTraceFormatter.cs:95-121 | every written line is a single line when the inner messages are |
| StackTraceFormatter.MultiLineReadsBack | clsStackTraceFormatter.cs:95-121 | the multi-line text reads back as the title, each item indented by two spaces, and a blank line and the message for each inner exception |
| StackTraceFormatter.AppendTraceLines | clsStackTraceFormatter.cs:100-106 | the title line, then each item indented on a line of its own |
| StackTraceFormatter.ParagraphsSnoc | clsStackTraceFormatter.cs:114-115 | each inner exception adds an empty line and its message |
| StackTraceFormatter.AppendInnerParagraphs | clsStackTraceFormatter.cs:111-117 | the loop over the inner exceptions writes an empty line and each message, outermost first |
| StackTraceFrames.LineMatchAfter | clsStackTraceFormatter.cs:157-158 | in text without ":line " followed by ":line <digits>", `:line \d+` matches exactly the appended part |
| StackTraceFrames.FrameFunctionMatch | clsStackTraceFormatter.cs:154 | on a frame line, `at ([^(]+)\(` captures the method |
| StackTraceFrames.FrameFileMatch | clsStackTraceFormatter.cs:155 | on a frame line, `in .+\\(.+)` captures the file name and its ":line <n>" text |
| StackTraceFrames.FrameLineMatch | clsStackTraceFormatter.cs:157-158 | on a frame line, `:line \d+` matches the frame's ":line <n>" at the end |
| StackTraceFrames.FrameDescribe | clsStackTraceFormatter.cs:244-259 | a frame of the final file is described as its method and its ":line <n>" text, without the file |
| StackTraceFrames.FramesTraceData | clsStackTraceFormatter.cs:152-277 | a trace of frames in one file gives each frame, outermost first, as its method and ":line <n>" text, then " in <file>" once, without a line number |
| StackTraceFrames.DocumentedTrace | clsStackTraceFormatter.cs:128-133 | the documented three-frame trace gives "clsCodeTest.Test:line 50", "clsCodeTest.TestException:line 75", "clsCodeTest.InnerTestException:line 86", " in clsCodeTest.vb", not the documented bare names and " in clsCodeTest.vb:line 86" |
| StackTraceFormatter.GetExceptionStackTraceMultiLine | clsStackTraceFormatter.cs:95-121 | the method returns StackTraceText |
| Database.ClampTimeoutCases | clsDBTools.cs:43-56 | a stored timeout is at least 10; 0 becomes 30, other values below 10 become 10, and 10 or more is kept |
| Database.ClampTimeoutIdempotent | clsDBTools.cs:43-56 | setting the value read back changes nothing |
| Database.ColumnValueRoundTrip | clsDBTools.cs:75-107 | looking a column up through the mapping of the columns gives the row's value in that column; an unknown name is an invalid column name |
| Database.ColumnMappingUnique | clsDBTools.cs:75-86 | distinct columns have exactly one mapping |
| Database.NoMappingWithDuplicates | clsDBTools.cs:75-86 | repeated column names have no mapping |
| Database.TrimNumberWhite | clsDBTools.cs:142 | the trimmed text neither starts nor ends with white space |
| Database.TrimNumberWhiteSlice | clsDBTools.cs:142 | the trimmed text is a slice of the input with only white space before and after it |
| Database.TrimNumberWhiteEmpty | clsDBTools.cs:142 | the trimmed text is empty exactly when the input is all white space |
| Database.DropTrailingNulls | clsDBTools.cs:142 | trailing '\0' characters are dropped: the rest is a prefix of the input that does not end in '\0', and all that follows it is '\0' |
| Database.ParseInt32 | clsDBTools.cs:142 | a parsed value lies in the 32-bit range |
| Database.DecimalDigits | clsDBTools.cs:142 | the decimal text of a number is digits whose value is that number |
| Database.ParseFormatRoundTrip | clsDBTools.cs:142 | int.TryParse reads back every 32-bit integer from its text |
| Database.ParseIgnoresWhite | clsDBTools.cs:142 | leading white space does not change what is parsed |
| Database.ParseIgnoresTrailingWhite | clsDBTools.cs:142 | trailing white space does not change what is parsed, when the text before it does not end in '\0' |
| Database.ParseIgnoresTrailingNull | clsDBTools.cs:142 | a trailing '\0' does not change what is parsed |
| Database.TrailingNullThenWhite | clsDBTools.cs:142 | "12\0" parses as 12, while "12\0 " does not parse |
| Database.ColumnIntValueCases | clsDBTools.cs:112-150 | the integer lookup fails exactly where the text lookup does; validNumber holds exactly when the text parses; otherwise the default is returned |
| Database.ColumnIntValueRoundTrip | clsDBTools.cs:112-150 | a column holding an integer's text reads back as that integer |
| Database.RowText | clsDBTools.cs:364-379 | each DBNull becomes "" and every other value its text, column by column |
| Database.RowTexts | clsDBTools.cs:362-381 | each row read becomes its texts |
| Database.ReadFromAll | clsDBTools.cs:362-387 | a reader that does not reach the limit adds all its rows, in order |
| Database.ReadFromCapped | clsDBTools.cs:383-386 | a reader that reaches a positive limit adds exactly as many rows as reach it |
| Database.ReadFromRows | clsDBTools.cs:362-387 | the rows read are added in order: all of them, or exactly as many as reach the limit |
| Database.MentionsFromIndexOf | clsDBTools.cs:406-409 | the phrase scan finds a phrase exactly when IndexOf with OrdinalIgnoreCase does |
| Database.IsFatalMeans | clsDBTools.cs:406-412 | a failure is fatal exactly when its message contains one of the four phrases, ignoring case |
| Database.RetryAttempts | clsDBTools.cs:345-419 | each round of retries opens at least one connection and at most as many as the tries left |
| Database.QueryAttempts | clsDBTools.cs:337-423 | a query opens at least one connection and at most the retry count (raised to 1) |
| Database.RetryExhausted | clsDBTools.cs:345-421 | attempts that all fail without a fatal message, and whose rows stay below the limit, use up every try and fail, keeping the rows of every attempt in order |
| Database.QueryExhausted | clsDBTools.cs:328-423 | when every attempt fails without a fatal message and the rows stay below the limit, the query fails after exactly the retry count (raised to 1) connections, with the rows of every attempt |
| Database.RetrySucceedsAfter | clsDBTools.cs:345-419 | k non-fatal failures followed, within the tries, by an attempt that raises nothing or reaches the limit succeed after k+1 connections, with the rows of every attempt read up to the limit |
| Database.QuerySucceedsAfter | clsDBTools.cs:337-419 | k non-fatal failures below the limit followed by a clean or capped attempt succeed after k+1 connections, with all the rows of those attempts, cut to the first maxRowsToReturn when the limit is reached |
| Database.NoFatalSnoc | clsDBTools.cs:404 | appending an event that is not a fatal report keeps a log free of them |
| Database.NoFatalEndsAtFatal | clsDBTools.cs:404-413 | a log without a fatal report meets the stop rule |
| Database.EndsAtFatalReport | clsDBTools.cs:404-413 | a fatal report as the last event of a failed query meets the stop rule |
| Database.RetryStopsAtFatal | clsDBTools.cs:395-413 | nothing follows a fatal failure: it is the last event and the query fails |
| Database.QueryStopsAtFatal | clsDBTools.cs:406-413 | GetQueryResults never retries after a fatal failure |
| Database.RetryRows | clsDBTools.cs:343-419 | rows gathered in failed attempts are kept at the front, and a positive limit is never exceeded |
| Database.QueryRows | clsDBTools.cs:343-423 | a positive row limit caps the rows returned; the rows of a failed first attempt stay at the front |
| Database.QueryCleanFirstAttempt | clsDBTools.cs:345-392 | a first attempt that raises nothing succeeds at once, with its rows up to the limit, after one connection |
| Database.DBTools.constructor | clsDBTools.cs:64-67 | the connection string is stored and the timeout is 0 |
| Database.DBTools.SetTimeoutSeconds | clsDBTools.cs:46-55 | the stored timeout is the clamped value; the connection string is kept |
| Database.DBTools.GetColumnMapping | clsDBTools.cs:75-86 | distinct columns map each name to its index and nothing else; a repeated name fails, at the first repeat |
| Database.DBTools.ReadRow | clsDBTools.cs:364-379 | the loop over the columns gives RowText |
| Database.DBTools.ReadRows | clsDBTools.cs:362-387 | the loop over the reader gives ReadFrom |
| Database.DBTools.GetQueryResults | clsDBTools.cs:328-423 | the method's success flag, rows and events are those of QueryResults |

## Left out

- Hash algorithms (CRC32, MD5, SHA1) and the `.hashcheck` text format are not modelled. A hash is an uninterpreted function of a file's contents and a type, and a sidecar holds the record itself.
- HashUtilities.CreateHashcheckFile is not part of this model. It is assumed to write the sidecar when the hash is not blank, and to fail when another process holds the sidecar.
- clsFileTools.CopyFileUsingLocks is not part of this model. It is modelled as a copy that fails when the target is held by another process.
- Error message texts and warning events are not modelled; a failure keeps only its kind (`Failure`).
- Time is whole UTC seconds. The `.LastUsed` text is a time stamp value, not the formatted date.
- FileSync.WaitSeconds: the source's floating-point wait (`rand.Next(5, 15) + MB / 50`) is rounded down to whole seconds. The random value is a parameter (`jitter`).
- Other processes writing to the cache are modelled only during the back-off wait, as the `otherWriters` map.
- A null string is modelled as "". Case folding is ASCII only. White space is the ASCII and Latin-1 set.
- The exception message of a FileInfo constructor (invalid path characters and the like) is not modelled, except for the empty sidecar path of the hashcheck-only overload.
- `Environment.NewLine` is a parameter of the multi-line form. The read-back lemma covers "\n" and "\r\n".
- The `StartsWith(FINAL_FILE_PREFIX)` test at clsStackTraceFormatter.cs:51 has no StringComparison argument, so .NET compares with the current culture. The model compares ordinally. The prefix " in " is plain ASCII, but culture-sensitive comparison can ignore some zero-width characters, and the model does not capture that.
- The regular expressions are modelled by hand-written matchers. The .NET regex engine and culture-specific case folding are not modelled.
- StackTraceFormatter.LineMatchFrom: `\d` is read as the ASCII digits '0' to '9'. .NET's `\d` also matches the other Unicode decimal digits, so a ":line" followed by, say, Arabic-Indic digits matches in the source but not in the model.
- FileSync.ValidationStable: a blank expected hash with a defined type is excluded, because the source then fails every call after the first; FileSync.BlankExpectedHashValidatesOnce states that case.
- FileSync.SecondCallIsCacheHit: the source's `.hashcheck`, when there is one, must not record a blank hash with a defined type. With such a record the copy validates once and fails every later call, as in ValidationStable.
- Database.ParseIgnoresTrailingWhite: holds only when the text before the white space does not end in '\0'; int.TryParse drops trailing '\0' characters only at the very end, so "12\0 " fails (Database.TrailingNullThenWhite).
- GetExceptionStackTraceData(Exception) is modelled through the `stackTrace` field of `Fault`; a null StackTrace is "".
- GetQueryResults does not model SqlConnection, SqlCommand or the reader. Each attempt's outcome is a parameter: the rows delivered and the exception message, if any.
- GetQueryResults does not use sqlQuery or callingFunction beyond the error message, so the model only logs the failure message and the retry count left.
- Database.DBTools.GetQueryResults: the sleep is logged in seconds. The overflow of `retryDelaySeconds * 1000` and the 16-bit range of `retryCount` are not modelled.
- int.TryParse is modelled for the invariant culture with NumberStyles.Integer. Thousands separators, other cultures and full-width digits are not modelled.
- The double and DateTime GetColumnValue overloads are left out; they parse floating-point and date text. GetDiscDataSet and UpdateDatabase are left out too; they are not part of the modelled core.
- FileSync.HashcheckOnly: the corrected overload takes no assumedHashType. The documented use of that type, for a sidecar that names no hash type, is ambiguous in the source, so such a sidecar fails on a recompute, as in the main overload.
- The int GetColumnValue overload without validNumber (clsDBTools.cs:112-119) is GetColumnIntValue with validNumber ignored.

## Findings

| source | as written | input that shows it | evidently intended | confidence | as-written member | corrected member |
|---|---|---|---|---|---|---|
| FileSyncUtils.cs:460 | `new FileInfo(hashCheckFilePath)` is built from the argument as given, so an empty path throws, and the call fails | a data file with its own `.hashcheck` present, and hashCheckFilePath = "" | a blank path means `<localFilePath>.hashcheck`, as the parameter's documentation says (auto-defined if blank) | not executed | FileSync.HashcheckOnlyRejectsEmptyPath | FileSync.HashcheckOnly |
| FileSyncUtils.cs:467-472 | the expected hash info is given the assumed type (MD5 by default) and no value. The main overload then compares the stored value with that empty value (FileSyncUtils.cs:359-366), so every sidecar that records a hash fails | a 3-byte file whose sidecar records its exact size, date and hash "h" of type MD5 | the file is compared only with the values stored in its sidecar, with no cross-check against an expected value | not executed | FileSync.MatchingFileRejectedAsWritten | FileSync.HashcheckOnly |
