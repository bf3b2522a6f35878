/** FileSyncUtils: validating a locally cached data file against its
    .hashcheck sidecar, and copying a remote file into the local cache with
    a randomised back-off when an existing copy does not validate.

    Each operation is given twice: a function over values (`Validation`,
    `LocalCopy`) that states the behaviour, and a method over a
    `FileSystem` that performs it step by step and is proved to agree with
    the function. The lemmas state what the source promises about them. */
module FileSync {
  import opened Text
  import opened Storage

  /** Why a call returned false; the model keeps the kind of the source's
      errorMessage, not its wording. */
  datatype Failure =
    | FileNotFound
    | HashNotComputed          // CreateHashcheckFile gave a blank hash
    | ExpectedHashMismatch     // no sidecar: the new hash differs from the expected value
    | StoredHashMismatch       // sidecar present: its value differs from the expected value
    | SizeMismatch
    | DateMismatch
    | UndefinedHashType        // a recompute was due but the sidecar names no hash type
    | ComputedHashMismatch     // the recomputed hash differs from the sidecar's
    | MissingHashcheckFile
    | Unhandled                // an exception caught at the method's outer boundary

  /** `Valid` is a true return with an empty errorMessage. */
  datatype Verdict = Valid | Invalid(failure: Failure)

  /** The checkDate, computeHash, checkSize and recheckIntervalDays arguments. */
  datatype Checks = Checks(checkDate: bool, computeHash: bool, checkSize: bool, recheckIntervalDays: int)

  /** The checks every caller inside FileSyncUtils asks for. */
  function AllChecks(recheckIntervalDays: int): Checks {
    Checks(true, true, true, recheckIntervalDays)
  }

  datatype Checked = Checked(verdict: Verdict, files: FileMap)

  const DATE_TOLERANCE_SECONDS: int := 2
  /** A local sidecar older than this (10 minutes) lets a re-copy start at once. */
  const STALE_SIDECAR_SECONDS: int := 600
  /** rand.Next(5, 15) */
  const MIN_JITTER_SECONDS: int := 5
  const MAX_JITTER_SECONDS: int := 15
  /** One extra second of waiting per 50 MB of source file. */
  const WAIT_BYTES_PER_SECOND: int := 50 * BYTES_PER_MB

  function Abs(x: int): nat {
    if x < 0 then -x else x
  }

  /** Two file maps agree at path p. */
  predicate SameAt(a: FileMap, b: FileMap, p: Path) {
    (p in a <==> p in b) && (p in a ==> a[p] == b[p])
  }

  /** b differs from a at most at the paths in `touched`. */
  ghost predicate ChangedOnlyAt(a: FileMap, b: FileMap, touched: set<Path>) {
    forall p :: p !in touched ==> SameAt(a, b, p)
  }

  /** A merge of what other processes write leaves every other path alone. */
  lemma MergeUntouched(a: FileMap, written: FileMap, p: Path)
    requires p !in written
    ensures SameAt(a, a + written, p)
  {
  }

  /** The hash is recomputed when the interval is not positive or the
      sidecar was last written more than the interval ago. With times in
      whole seconds, TotalDays > d is exactly seconds > d * 86400. */
  predicate RecomputeDue(sidecarAgeSeconds: int, recheckIntervalDays: int) {
    recheckIntervalDays <= 0 || sidecarAgeSeconds > recheckIntervalDays * SECONDS_PER_DAY
  }

  // ---------------------------------------------------------------------
  // UpdateLastUsedFile and DeleteHashCheckFileForDataFile

  /** UpdateLastUsedFile: `<dataPath>.LastUsed` is created or truncated and
      holds the current time; an IOException (the file is held by another
      process) is swallowed. */
  function UpdateLastUsed(files: FileMap, locked: set<Path>, dataPath: Path, now: int): (r: FileMap)
    ensures ChangedOnlyAt(files, r, {LastUsedPath(dataPath)})
    ensures LastUsedPath(dataPath) !in locked ==>
      LastUsedPath(dataPath) in r && r[LastUsedPath(dataPath)].contents == LastUsedStamp(now)
    ensures LastUsedPath(dataPath) in locked ==> r == files
  {
    if LastUsedPath(dataPath) in locked then files
    else files[LastUsedPath(dataPath) := FileData(0, now, LastUsedStamp(now))]
  }

  /** DeleteHashCheckFileForDataFile: removes `<dataPath>.hashcheck` if it
      exists; any error is ignored. */
  function DeleteHashcheck(files: FileMap, locked: set<Path>, dataPath: Path): (r: FileMap)
    ensures ChangedOnlyAt(files, r, {HashcheckPath(dataPath)})
    ensures HashcheckPath(dataPath) in r <==> HashcheckPath(dataPath) in files && HashcheckPath(dataPath) in locked
  {
    if HashcheckPath(dataPath) in files && HashcheckPath(dataPath) !in locked
    then files - {HashcheckPath(dataPath)}
    else files
  }

  /** Deleting the sidecar a second time changes nothing. */
  lemma DeleteHashcheckIdempotent(files: FileMap, locked: set<Path>, dataPath: Path)
    ensures var once := DeleteHashcheck(files, locked, dataPath);
            DeleteHashcheck(once, locked, dataPath) == once
  {
  }

  method UpdateLastUsedFile(fs: FileSystem, dataPath: Path)
    modifies fs`files
    ensures fs.files == UpdateLastUsed(old(fs.files), fs.locked, dataPath, fs.clock)
  {
    var lastUsedFilePath := dataPath + LASTUSED_FILE_EXTENSION;
    if lastUsedFilePath !in fs.locked {
      fs.files := fs.files[lastUsedFilePath := FileData(0, fs.clock, LastUsedStamp(fs.clock))];
    }
  }

  method DeleteHashCheckFileForDataFile(fs: FileSystem, dataPath: Path)
    modifies fs`files
    ensures fs.files == DeleteHashcheck(old(fs.files), fs.locked, dataPath)
  {
    var localHashCheckFile := dataPath + HASHCHECK_FILE_SUFFIX;
    if localHashCheckFile in fs.files && localHashCheckFile !in fs.locked {
      fs.files := fs.files - {localHashCheckFile};
    }
  }

  // ---------------------------------------------------------------------
  // ValidateFileVsHashcheck

  /** No sidecar yet (trust on first use): the sidecar is created with the
      expected hash type, SHA1 when that is Undefined, and the file is valid
      when the new hash is not blank and the expected value is blank or equal. */
  function FirstUse(files: FileMap, locked: set<Path>, hasher: HashProvider, now: int,
                    localPath: Path, expected: HashInfo): Checked
    requires localPath in files
  {
    var hashType := if expected.hashType == Undefined then SHA1 else expected.hashType;
    match CreateHashcheckFile(files, locked, hasher, now, localPath, hashType)
    case CreationFailed => Checked(Invalid(Unhandled), files)
    case Created(localFileHash, created) =>
      if IsBlank(localFileHash) then Checked(Invalid(HashNotComputed), created)
      else if !IsBlank(expected.hashValue) && localFileHash != expected.hashValue
      then Checked(Invalid(ExpectedHashMismatch), created)
      else Checked(Valid, created)
  }

  /** The sidecar exists: the checks in their fixed order. */
  function CompareWithHashcheck(local: FileData, sidecar: FileData, hasher: HashProvider, now: int,
                                expected: HashInfo, checks: Checks): Verdict
  {
    var stored := ReadHashcheckFile(sidecar);
    if expected.hashType != Undefined && stored.hashValue != expected.hashValue then Invalid(StoredHashMismatch)
    else if checks.checkSize && local.size != stored.fileSize then Invalid(SizeMismatch)
    else if !checks.computeHash && checks.checkDate && Abs(local.lastWriteUtc - stored.fileDateUtc) > DATE_TOLERANCE_SECONDS
    then Invalid(DateMismatch)
    else if checks.computeHash && RecomputeDue(now - sidecar.lastWriteUtc, checks.recheckIntervalDays) then
      if stored.hashType == Undefined then Invalid(UndefinedHashType)
      else if hasher.compute(local.contents, stored.hashType) != stored.hashValue then Invalid(ComputedHashMismatch)
      else Valid
    else Valid
  }

  /** The sidecar a validation reads: the given path, or `<localPath>.hashcheck` when that is blank. */
  function SidecarFor(localPath: Path, hashCheckFilePath: Path): Path {
    if IsBlank(hashCheckFilePath) then HashcheckPath(localPath) else hashCheckFilePath
  }

  /** ValidateFileVsHashcheck(localFilePath, hashCheckFilePath, out errorMessage,
      expectedHashInfo, checkDate, computeHash, checkSize, recheckIntervalDays). */
  function Validation(files: FileMap, locked: set<Path>, hasher: HashProvider, now: int,
                      localPath: Path, hashCheckFilePath: Path, expected: HashInfo, checks: Checks): (c: Checked)
    ensures c.verdict == Valid ==> localPath in files
    ensures ChangedOnlyAt(files, c.files, {HashcheckPath(localPath), LastUsedPath(localPath)})
    ensures !SameAt(files, c.files, LastUsedPath(localPath)) ==>
      c.verdict == Valid && SidecarFor(localPath, hashCheckFilePath) in files
    ensures !SameAt(files, c.files, HashcheckPath(localPath)) ==> SidecarFor(localPath, hashCheckFilePath) !in files
  {
    if localPath !in files then Checked(Invalid(FileNotFound), files)
    else
      var sidecarPath := SidecarFor(localPath, hashCheckFilePath);
      if sidecarPath !in files then
        SidecarPathsDistinct(localPath);
        FirstUse(files, locked, hasher, now, localPath, expected)
      else
        var verdict := CompareWithHashcheck(files[localPath], files[sidecarPath], hasher, now, expected, checks);
        Checked(verdict, if verdict == Valid then UpdateLastUsed(files, locked, localPath, now) else files)
  }

  method ValidateFileVsHashcheck(fs: FileSystem, hasher: HashProvider, localFilePath: Path, hashCheckFilePath: Path,
                                 expectedHashInfo: HashInfo, checkDate: bool, computeHash: bool, checkSize: bool,
                                 recheckIntervalDays: int) returns (verdict: Verdict)
    modifies fs`files
    ensures Checked(verdict, fs.files) == Validation(old(fs.files), fs.locked, hasher, fs.clock, localFilePath,
                                                     hashCheckFilePath, expectedHashInfo,
                                                     Checks(checkDate, computeHash, checkSize, recheckIntervalDays))
  {
    if localFilePath !in fs.files {
      return Invalid(FileNotFound);
    }
    var localFile := fs.files[localFilePath];
    var localHashcheckFile := if IsBlank(hashCheckFilePath) then localFilePath + HASHCHECK_FILE_SUFFIX else hashCheckFilePath;

    if localHashcheckFile !in fs.files {
      // Local .hashcheck file not found; create it
      var expected := expectedHashInfo;
      if expected.hashType == Undefined {
        expected := expected.(hashType := SHA1);
      }
      var creation := CreateHashcheckFile(fs.files, fs.locked, hasher, fs.clock, localFilePath, expected.hashType);
      if creation.CreationFailed? {
        return Invalid(Unhandled);
      }
      fs.files := creation.files;
      if IsBlank(creation.hashValue) {
        return Invalid(HashNotComputed);
      }
      if !IsBlank(expected.hashValue) && creation.hashValue != expected.hashValue {
        return Invalid(ExpectedHashMismatch);
      }
      return Valid;
    }

    var localHashInfo := ReadHashcheckFile(fs.files[localHashcheckFile]);
    if expectedHashInfo.hashType != Undefined && localHashInfo.hashValue != expectedHashInfo.hashValue {
      return Invalid(StoredHashMismatch);
    }
    if checkSize && localFile.size != localHashInfo.fileSize {
      return Invalid(SizeMismatch);
    }
    // Only compare dates if the hash is not being compared
    if !computeHash && checkDate {
      if Abs(localFile.lastWriteUtc - localHashInfo.fileDateUtc) > DATE_TOLERANCE_SECONDS {
        return Invalid(DateMismatch);
      }
    }
    if computeHash {
      var lastCheckSeconds := fs.clock - fs.files[localHashcheckFile].lastWriteUtc;
      if recheckIntervalDays <= 0 || lastCheckSeconds > recheckIntervalDays * SECONDS_PER_DAY {
        if localHashInfo.hashType == Undefined {
          return Invalid(UndefinedHashType);
        }
        var actualHash := hasher.compute(localFile.contents, localHashInfo.hashType);
        if actualHash != localHashInfo.hashValue {
          return Invalid(ComputedHashMismatch);
        }
      }
    }
    UpdateLastUsedFile(fs, localFilePath);
    return Valid;
  }

  /** The private overload: every check, the sidecar next to the file. */
  method ValidateAgainstSource(fs: FileSystem, hasher: HashProvider, localFilePath: Path,
                               expectedHashInfo: HashInfo, recheckIntervalDays: int) returns (verdict: Verdict)
    modifies fs`files
    ensures Checked(verdict, fs.files) == Validation(old(fs.files), fs.locked, hasher, fs.clock, localFilePath, "",
                                                     expectedHashInfo, AllChecks(recheckIntervalDays))
  {
    verdict := ValidateFileVsHashcheck(fs, hasher, localFilePath, "", expectedHashInfo, true, true, true, recheckIntervalDays);
  }

  /** The public overload taking an expected hash value and type: every
      check, hash recomputed on every call. */
  method ValidateAgainstExpectedHash(fs: FileSystem, hasher: HashProvider, localFilePath: Path,
                                     expectedHash: string, expectedHashType: HashType) returns (verdict: Verdict)
    modifies fs`files
    ensures Checked(verdict, fs.files) == Validation(old(fs.files), fs.locked, hasher, fs.clock, localFilePath, "",
                                                     HashInfo(expectedHash, expectedHashType, 0, 0), AllChecks(0))
  {
    verdict := ValidateFileVsHashcheck(fs, hasher, localFilePath, "", HashInfo(expectedHash, expectedHashType, 0, 0),
                                       true, true, true, 0);
  }

  // ---------------------------------------------------------------------
  // Properties of the validation

  /** A missing local file fails with "File not found" and nothing is created. */
  lemma MissingFileNotFound(files: FileMap, locked: set<Path>, hasher: HashProvider, now: int,
                            localPath: Path, hashCheckFilePath: Path, expected: HashInfo, checks: Checks)
    requires localPath !in files
    ensures Validation(files, locked, hasher, now, localPath, hashCheckFilePath, expected, checks)
            == Checked(Invalid(FileNotFound), files)
  {
  }

  /** Trust on first use: with no sidecar, the file is valid exactly when the
      hash computed with the expected type (SHA1 for Undefined) is not blank
      and the expected value is blank or equal to it; the sidecar then holds
      that hash, and .LastUsed is left as it was. */
  lemma FirstUseTrust(files: FileMap, locked: set<Path>, hasher: HashProvider, now: int,
                      localPath: Path, expected: HashInfo, checks: Checks)
    requires localPath in files && HashcheckPath(localPath) !in files && HashcheckPath(localPath) !in locked
    ensures var hashType := if expected.hashType == Undefined then SHA1 else expected.hashType;
            var h := hasher.compute(files[localPath].contents, hashType);
            var c := Validation(files, locked, hasher, now, localPath, "", expected, checks);
            && (c.verdict == Valid <==> !IsBlank(h) && (IsBlank(expected.hashValue) || h == expected.hashValue))
            && (!IsBlank(h) ==>
                  && HashcheckPath(localPath) in c.files
                  && c.files[HashcheckPath(localPath)].contents
                     == HashRecord(HashInfo(h, hashType, files[localPath].size, files[localPath].lastWriteUtc)))
            && SameAt(files, c.files, LastUsedPath(localPath))
  {
    SidecarPathsDistinct(localPath);
  }

  /** A sidecar whose value differs from a defined expected hash fails the
      call before any size, date or hash check, and changes nothing. */
  lemma CrossCheckComesFirst(files: FileMap, locked: set<Path>, hasher: HashProvider, now: int,
                             localPath: Path, hashCheckFilePath: Path, expected: HashInfo, checks: Checks)
    requires localPath in files && SidecarFor(localPath, hashCheckFilePath) in files
    requires expected.hashType != Undefined
    requires ReadHashcheckFile(files[SidecarFor(localPath, hashCheckFilePath)]).hashValue != expected.hashValue
    ensures Validation(files, locked, hasher, now, localPath, hashCheckFilePath, expected, checks)
            == Checked(Invalid(StoredHashMismatch), files)
  {
  }

  /** The cross-check passes: the comparison with the expected hash is done. */
  predicate CrossCheckPasses(stored: HashInfo, expected: HashInfo) {
    expected.hashType == Undefined || stored.hashValue == expected.hashValue
  }

  /** Size and date: a size check fails on any difference; the date is
      compared only when no hash is computed, and a difference of at most 2
      seconds passes. */
  lemma SizeAndDateChecks(local: FileData, sidecar: FileData, hasher: HashProvider, now: int,
                          expected: HashInfo, checks: Checks)
    requires CrossCheckPasses(ReadHashcheckFile(sidecar), expected)
    ensures var stored := ReadHashcheckFile(sidecar);
            var v := CompareWithHashcheck(local, sidecar, hasher, now, expected, checks);
            && (checks.checkSize && local.size != stored.fileSize ==> v == Invalid(SizeMismatch))
            && (v == Invalid(DateMismatch) <==>
                  (!checks.checkSize || local.size == stored.fileSize) && !checks.computeHash && checks.checkDate
                  && Abs(local.lastWriteUtc - stored.fileDateUtc) > DATE_TOLERANCE_SECONDS)
            && ((&& !checks.computeHash
                 && (!checks.checkDate || Abs(local.lastWriteUtc - stored.fileDateUtc) <= DATE_TOLERANCE_SECONDS)
                 && (!checks.checkSize || local.size == stored.fileSize))
                ==> v == Valid)
  {
  }

  /** When the hash is computed, the file's date does not matter. */
  lemma {:induction false} DateIgnoredWhenHashComputed(local: FileData, sidecar: FileData, hasher: HashProvider, now: int,
                                                       expected: HashInfo, checks: Checks, otherDate: int)
    requires checks.computeHash
    ensures CompareWithHashcheck(local.(lastWriteUtc := otherDate), sidecar, hasher, now, expected, checks)
            == CompareWithHashcheck(local, sidecar, hasher, now, expected, checks)
  {
  }

  /** The recheck interval rule: once the cross-check and size check pass
      with computeHash set, the hash is consulted exactly when the interval
      is not positive or the sidecar is older than the interval; otherwise
      the recorded hash is trusted. On a recompute an Undefined stored type
      fails and so does a differing hash. */
  lemma RecheckIntervalRule(local: FileData, sidecar: FileData, hasher: HashProvider, now: int,
                            expected: HashInfo, checks: Checks)
    requires checks.computeHash
    requires CrossCheckPasses(ReadHashcheckFile(sidecar), expected)
    requires !checks.checkSize || local.size == ReadHashcheckFile(sidecar).fileSize
    ensures var stored := ReadHashcheckFile(sidecar);
            var v := CompareWithHashcheck(local, sidecar, hasher, now, expected, checks);
            var due := checks.recheckIntervalDays <= 0 || now - sidecar.lastWriteUtc > checks.recheckIntervalDays * SECONDS_PER_DAY;
            && (!due ==> v == Valid)
            && (due ==> (v == Valid <==> stored.hashType != Undefined
                                         && hasher.compute(local.contents, stored.hashType) == stored.hashValue))
            && (due && stored.hashType == Undefined ==> v == Invalid(UndefinedHashType))
  {
  }

  /** A recheck interval of zero always recomputes: a file whose contents no
      longer hash to the recorded value fails even with a sidecar written
      this very second. */
  lemma IntervalZeroCatchesCorruption(files: FileMap, locked: set<Path>, hasher: HashProvider, now: int,
                                      localPath: Path, expected: HashInfo)
    requires localPath in files && HashcheckPath(localPath) in files
    requires var stored := ReadHashcheckFile(files[HashcheckPath(localPath)]);
             hasher.compute(files[localPath].contents, stored.hashType) != stored.hashValue
    ensures Validation(files, locked, hasher, now, localPath, "", expected, AllChecks(0)).verdict != Valid
  {
  }

  /** Success with a sidecar present overwrites .LastUsed with the current
      time whatever it held before, unless another process holds it. */
  lemma SuccessOverwritesLastUsed(files: FileMap, locked: set<Path>, hasher: HashProvider, now: int,
                                  localPath: Path, hashCheckFilePath: Path, expected: HashInfo, checks: Checks)
    requires SidecarFor(localPath, hashCheckFilePath) in files
    requires LastUsedPath(localPath) !in locked
    ensures var c := Validation(files, locked, hasher, now, localPath, hashCheckFilePath, expected, checks);
            c.verdict == Valid ==>
              LastUsedPath(localPath) in c.files && c.files[LastUsedPath(localPath)] == FileData(0, now, LastUsedStamp(now))
  {
  }

  /** Validation is stable: validating again, at the same time and with the
      same expectation, a file that just validated succeeds again, provided
      the second interval is the first one or the first one forced a
      recompute, and the expectation is not a defined type with a blank value. */
  lemma ValidationStable(files: FileMap, locked: set<Path>, hasher: HashProvider, now: int,
                         localPath: Path, expected: HashInfo, interval1: int, interval2: int)
    requires Validation(files, locked, hasher, now, localPath, "", expected, AllChecks(interval1)).verdict == Valid
    requires interval1 <= 0 || interval2 == interval1
    requires !(expected.hashType != Undefined && IsBlank(expected.hashValue))
    ensures var c := Validation(files, locked, hasher, now, localPath, "", expected, AllChecks(interval1));
            Validation(c.files, locked, hasher, now, localPath, "", expected, AllChecks(interval2)).verdict == Valid
  {
    var c := Validation(files, locked, hasher, now, localPath, "", expected, AllChecks(interval1));
    SidecarPathsDistinct(localPath);
    var hc := HashcheckPath(localPath);
    assert SameAt(files, c.files, localPath);
    if hc in files {
      assert SameAt(files, c.files, hc);
    } else {
      assert hc in c.files;
      var stored := ReadHashcheckFile(c.files[hc]);
      assert stored.hashValue == expected.hashValue || expected.hashType == Undefined;
      assert c.files[hc].lastWriteUtc == now;
    }
  }

  /** The case ValidationStable leaves out: a defined hash type with a blank
      expected value. The first call skips the blank value and creates the
      sidecar; every later call, whatever its checks and time, compares the
      stored hash with the blank value and fails. */
  lemma BlankExpectedHashValidatesOnce(files: FileMap, locked: set<Path>, hasher: HashProvider, now: int, later: int,
                                       localPath: Path, expected: HashInfo, checks: Checks, laterChecks: Checks)
    requires localPath in files && HashcheckPath(localPath) !in files && HashcheckPath(localPath) !in locked
    requires expected.hashType != Undefined && IsBlank(expected.hashValue)
    requires !IsBlank(hasher.compute(files[localPath].contents, expected.hashType))
    ensures var c := Validation(files, locked, hasher, now, localPath, "", expected, checks);
            && c.verdict == Valid
            && Validation(c.files, locked, hasher, later, localPath, "", expected, laterChecks)
               == Checked(Invalid(StoredHashMismatch), c.files)
  {
    var c := Validation(files, locked, hasher, now, localPath, "", expected, checks);
    FirstUseTrust(files, locked, hasher, now, localPath, expected, checks);
    SidecarPathsDistinct(localPath);
    assert SameAt(files, c.files, localPath);
    CrossCheckComesFirst(c.files, locked, hasher, later, localPath, "", expected, laterChecks);
  }

  // ---------------------------------------------------------------------
  // The overload that requires an existing sidecar

  /** A sidecar path is never blank, so it is its own default. */
  lemma SidecarForIdempotent(localPath: Path, hashCheckFilePath: Path)
    ensures !IsBlank(SidecarFor(localPath, hashCheckFilePath))
    ensures SidecarFor(localPath, SidecarFor(localPath, hashCheckFilePath)) == SidecarFor(localPath, hashCheckFilePath)
  {
    assert HashcheckPath(localPath)[|localPath|] == '.';
    IsBlankMeansAllWhiteSpace(HashcheckPath(localPath));
  }

  /** ValidateFileVsHashcheck(checkDate, computeHash, checkSize, localFilePath,
      hashCheckFilePath, out errorMessage, assumedHashType), as written: an
      empty hashCheckFilePath makes the FileInfo constructor throw, and the
      expected hash info passed on has the assumed type and no value. */
  function HashcheckOnlyAsWritten(files: FileMap, locked: set<Path>, hasher: HashProvider, now: int,
                                  checkDate: bool, computeHash: bool, checkSize: bool,
                                  localPath: Path, hashCheckFilePath: Path, assumedHashType: HashType): Checked
  {
    if localPath !in files then Checked(Invalid(FileNotFound), files)
    else if hashCheckFilePath == "" then Checked(Invalid(Unhandled), files)
    else if hashCheckFilePath !in files then Checked(Invalid(MissingHashcheckFile), files)
    else Validation(files, locked, hasher, now, localPath, hashCheckFilePath,
                    HashInfo("", assumedHashType, 0, 0), Checks(checkDate, computeHash, checkSize, 0))
  }

  /** As written, the overload rejects every file whose sidecar records a
      hash, unless the caller passes Undefined as the assumed type: the
      cross-check compares the stored value with the empty expected one. */
  lemma HashcheckOnlyRejectsRecordedHashes(files: FileMap, locked: set<Path>, hasher: HashProvider, now: int,
                                           checkDate: bool, computeHash: bool, checkSize: bool,
                                           localPath: Path, hashCheckFilePath: Path, assumedHashType: HashType)
    requires localPath in files && !IsBlank(hashCheckFilePath) && hashCheckFilePath in files
    requires assumedHashType != Undefined
    requires ReadHashcheckFile(files[hashCheckFilePath]).hashValue != ""
    ensures HashcheckOnlyAsWritten(files, locked, hasher, now, checkDate, computeHash, checkSize,
                                   localPath, hashCheckFilePath, assumedHashType)
            == Checked(Invalid(StoredHashMismatch), files)
  {
    assert hashCheckFilePath != "";
  }

  /** As written, a blank path is not replaced by the data file's own
      sidecar: the call fails even when that sidecar exists. */
  lemma HashcheckOnlyRejectsEmptyPath(files: FileMap, locked: set<Path>, hasher: HashProvider, now: int,
                                      checkDate: bool, computeHash: bool, checkSize: bool,
                                      localPath: Path, assumedHashType: HashType)
    requires localPath in files
    ensures HashcheckOnlyAsWritten(files, locked, hasher, now, checkDate, computeHash, checkSize,
                                   localPath, "", assumedHashType).verdict == Invalid(Unhandled)
  {
  }

  /** The overload as its documentation describes it: the sidecar path
      defaults to `<localPath>.hashcheck` when blank, the sidecar must exist,
      and the file is compared with the values stored there (size, date,
      hash). There is no expected value, so the cross-check is skipped by
      passing an Undefined type. */
  function HashcheckOnly(files: FileMap, locked: set<Path>, hasher: HashProvider, now: int,
                         checkDate: bool, computeHash: bool, checkSize: bool,
                         localPath: Path, hashCheckFilePath: Path): (c: Checked)
    ensures c.verdict == Valid ==> localPath in files && SidecarFor(localPath, hashCheckFilePath) in files
    ensures localPath in files && SidecarFor(localPath, hashCheckFilePath) !in files ==>
      c == Checked(Invalid(MissingHashcheckFile), files)
    ensures localPath in files && SidecarFor(localPath, hashCheckFilePath) in files ==>
      var local := files[localPath];
      var stored := ReadHashcheckFile(files[SidecarFor(localPath, hashCheckFilePath)]);
      (c.verdict == Valid <==>
         && (!checkSize || local.size == stored.fileSize)
         && (!computeHash && checkDate ==> Abs(local.lastWriteUtc - stored.fileDateUtc) <= DATE_TOLERANCE_SECONDS)
         && (computeHash ==> stored.hashType != Undefined && hasher.compute(local.contents, stored.hashType) == stored.hashValue))
  {
    var sidecarPath := SidecarFor(localPath, hashCheckFilePath);
    SidecarForIdempotent(localPath, hashCheckFilePath);
    if localPath !in files then Checked(Invalid(FileNotFound), files)
    else if sidecarPath !in files then Checked(Invalid(MissingHashcheckFile), files)
    else Validation(files, locked, hasher, now, localPath, sidecarPath,
                    ClearedHashInfo, Checks(checkDate, computeHash, checkSize, 0))
  }

  /** A concrete input on which the two differ: a 3-byte file whose sidecar
      matches it in size, date and hash, named explicitly or left blank. */
  lemma MatchingFileRejectedAsWritten()
    ensures var files := map["a" := FileData(3, 100, Data([1, 2, 3])),
                             "a.hashcheck" := FileData(0, 100, HashRecord(HashInfo("h", MD5, 3, 100)))];
            var hasher := HashProvider((c: Contents, t: HashType) => "h");
            && HashcheckOnlyAsWritten(files, {}, hasher, 100, true, true, true, "a", "a.hashcheck", MD5).verdict
               == Invalid(StoredHashMismatch)
            && HashcheckOnlyAsWritten(files, {}, hasher, 100, true, true, true, "a", "", MD5).verdict
               == Invalid(Unhandled)
            && HashcheckOnly(files, {}, hasher, 100, true, true, true, "a", "a.hashcheck").verdict == Valid
            && HashcheckOnly(files, {}, hasher, 100, true, true, true, "a", "").verdict == Valid
  {
    var files := map["a" := FileData(3, 100, Data([1, 2, 3])),
                     "a.hashcheck" := FileData(0, 100, HashRecord(HashInfo("h", MD5, 3, 100)))];
    var hasher := HashProvider((c: Contents, t: HashType) => "h");
    assert !IsBlank("a.hashcheck");
    assert HashcheckPath("a") == "a.hashcheck";
    HashcheckOnlyRejectsRecordedHashes(files, {}, hasher, 100, true, true, true, "a", "a.hashcheck", MD5);
  }

  method ValidateAgainstHashcheck(fs: FileSystem, hasher: HashProvider, checkDate: bool, computeHash: bool, checkSize: bool,
                                  localFilePath: Path, hashCheckFilePath: Path) returns (verdict: Verdict)
    modifies fs`files
    ensures Checked(verdict, fs.files) == HashcheckOnly(old(fs.files), fs.locked, hasher, fs.clock, checkDate, computeHash,
                                                        checkSize, localFilePath, hashCheckFilePath)
  {
    if localFilePath !in fs.files {
      return Invalid(FileNotFound);
    }
    var localHashcheckFile := if IsBlank(hashCheckFilePath) then localFilePath + HASHCHECK_FILE_SUFFIX else hashCheckFilePath;
    if localHashcheckFile !in fs.files {
      return Invalid(MissingHashcheckFile);
    }
    verdict := ValidateFileVsHashcheck(fs, hasher, localFilePath, localHashcheckFile, ClearedHashInfo,
                                       checkDate, computeHash, checkSize, 0);
  }

  // ---------------------------------------------------------------------
  // CopyFileToLocal

  /** The hash info the copy is validated against, and the files after the
      source sidecar was read or created. */
  datatype Prepared = Prepared(expected: HashInfo, files: FileMap)

  /** The source's .hashcheck record when it has one; otherwise a sidecar is
      created for the source with `hashType` and its hash is expected. A
      blank hash or a failed creation is only a warning: nothing is expected
      then (the cleared record). */
  function SourceHashInfo(files: FileMap, locked: set<Path>, hasher: HashProvider, now: int,
                          source: Path, hashType: HashType): (p: Prepared)
    requires source in files
    ensures ChangedOnlyAt(files, p.files, {HashcheckPath(source)})
    ensures HashcheckPath(source) in files ==> p == Prepared(ReadHashcheckFile(files[HashcheckPath(source)]), files)
    ensures HashcheckPath(source) !in files ==>
      var h := hasher.compute(files[source].contents, hashType);
      p.expected == if IsBlank(h) || HashcheckPath(source) in locked then ClearedHashInfo
                    else HashInfo(h, hashType, files[source].size, files[source].lastWriteUtc)
  {
    if HashcheckPath(source) in files then Prepared(ReadHashcheckFile(files[HashcheckPath(source)]), files)
    else
      match CreateHashcheckFile(files, locked, hasher, now, source, hashType)
      case CreationFailed => Prepared(ClearedHashInfo, files)
      case Created(hashValueSource, created) =>
        if IsBlank(hashValueSource) then Prepared(ClearedHashInfo, created)
        else Prepared(HashInfo(hashValueSource, hashType, files[source].size, files[source].lastWriteUtc), created)
  }

  /** The outcome of CopyFileToLocal and the state it leaves. */
  datatype Synced = Synced(verdict: Verdict, disk: Disk)

  /** The local sidecar exists and was last written more than 10 minutes ago. */
  predicate SidecarIsStale(files: FileMap, target: Path, now: int) {
    HashcheckPath(target) in files && now - files[HashcheckPath(target)].lastWriteUtc > STALE_SIDECAR_SECONDS
  }

  /** The back-off: the random part plus one second per 50 MB of source. */
  function WaitSeconds(jitter: int, sourceSize: int): int {
    jitter + sourceSize / WAIT_BYTES_PER_SECOND
  }

  /** The local path a source file is copied to. */
  function TargetPath(source: Path, targetDirectory: Path): Path {
    Combine(targetDirectory, FileName(source))
  }

  /** The local copy and its two sidecars. */
  function CopyFiles(target: Path): set<Path> {
    {target, HashcheckPath(target), LastUsedPath(target)}
  }

  /** What CopyFileToLocal does once the target path is known, in stages
      that only ever move on to a later one:
      - Revalidate: the target exists; keep it when it validates, re-copy at
        once when its sidecar is stale, otherwise back off;
      - AfterWait: wait `wait` seconds, while other processes write
        `otherWriters`, then keep the copy if it validates with a forced
        recompute, else re-copy;
      - Copy: delete the target's sidecar, copy the source over the target
        and validate the new copy. A copy that throws (the target is held by
        another process) ends the call through its outer catch. */
  datatype Stage =
    | Revalidate(recheckIntervalDays: int, wait: int, otherWriters: FileMap)
    | AfterWait(wait: int, otherWriters: FileMap)
    | Copy(recheckIntervalDays: int)

  function StagesLeft(stage: Stage): nat {
    match stage
    case Revalidate(_, _, _) => 2
    case AfterWait(_, _) => 1
    case Copy(_) => 0
  }

  /** The paths a stage may write: the local copy, its sidecars and, when
      it can wait, what other processes write meanwhile. */
  function Writable(stage: Stage, target: Path): set<Path> {
    match stage
    case Revalidate(_, _, otherWriters) => CopyFiles(target) + otherWriters.Keys
    case AfterWait(_, otherWriters) => CopyFiles(target) + otherWriters.Keys
    case Copy(_) => CopyFiles(target)
  }

  /** A stage keeps the directories and the locks. What it logs and how
      long it takes is stated by the lemmas after it. */
  function Sync(stage: Stage, d: Disk, hasher: HashProvider, source: Path, target: Path, expected: HashInfo): (r: Synced)
    ensures r.disk.directories == d.directories && r.disk.locked == d.locked
    decreases StagesLeft(stage)
  {
    match stage
    case Copy(recheckIntervalDays) =>
      var cleared := DeleteHashcheck(d.files, d.locked, target);
      var log := d.log + [Transfer(source, target)];
      if source !in cleared || target in d.locked then Synced(Invalid(Unhandled), d.(files := cleared, log := log))
      else
        var c := Validation(cleared[target := cleared[source]], d.locked, hasher, d.clock, target, "", expected,
                            AllChecks(recheckIntervalDays));
        Synced(c.verdict, d.(files := c.files, log := log))
    case AfterWait(wait, otherWriters) =>
      var d2 := Waited(d, wait, otherWriters);
      var c2 := Validation(d2.files, d2.locked, hasher, d2.clock, target, "", expected, AllChecks(0));
      if c2.verdict == Valid then Synced(Valid, d2.(files := c2.files))
      else Sync(Copy(0), d2.(files := c2.files), hasher, source, target, expected)
    case Revalidate(recheckIntervalDays, wait, otherWriters) =>
      var c1 := Validation(d.files, d.locked, hasher, d.clock, target, "", expected, AllChecks(recheckIntervalDays));
      var d1 := d.(files := c1.files);
      if c1.verdict == Valid then Synced(Valid, d1)
      else if SidecarIsStale(d1.files, target, d1.clock) then Sync(Copy(0), d1, hasher, source, target, expected)
      else Sync(AfterWait(wait, otherWriters), d1, hasher, source, target, expected)
  }

  /** The state after the wait: the clock has advanced, the wait is logged
      and other processes have written what they write. */
  function Waited(d: Disk, wait: int, otherWriters: FileMap): Disk {
    d.(files := d.files + otherWriters, clock := d.clock + wait, log := d.log + [Slept(wait)])
  }

  /** After the wait, a copy that validates is kept as validated. */
  lemma AfterWaitKeeps(d: Disk, hasher: HashProvider, source: Path, target: Path, expected: HashInfo,
                       wait: int, otherWriters: FileMap, c2: Checked)
    requires var d2 := Waited(d, wait, otherWriters);
             c2 == Validation(d2.files, d2.locked, hasher, d2.clock, target, "", expected, AllChecks(0))
    requires c2.verdict == Valid
    ensures Sync(AfterWait(wait, otherWriters), d, hasher, source, target, expected)
         == Synced(Valid, Waited(d, wait, otherWriters).(files := c2.files))
  {
  }

  /** After the wait, a copy that still fails validation is copied again. */
  lemma AfterWaitRecopies(d: Disk, hasher: HashProvider, source: Path, target: Path, expected: HashInfo,
                          wait: int, otherWriters: FileMap, c2: Checked)
    requires var d2 := Waited(d, wait, otherWriters);
             c2 == Validation(d2.files, d2.locked, hasher, d2.clock, target, "", expected, AllChecks(0))
    requires c2.verdict != Valid
    ensures Sync(AfterWait(wait, otherWriters), d, hasher, source, target, expected)
         == Sync(Copy(0), Waited(d, wait, otherWriters).(files := c2.files), hasher, source, target, expected)
  {
  }

  /** A revalidated copy that fails with a stale sidecar is copied again at once. */
  lemma RevalidateRecopies(d: Disk, hasher: HashProvider, source: Path, target: Path, expected: HashInfo,
                           recheckIntervalDays: int, wait: int, otherWriters: FileMap, c1: Checked)
    requires c1 == Validation(d.files, d.locked, hasher, d.clock, target, "", expected, AllChecks(recheckIntervalDays))
    requires c1.verdict != Valid && SidecarIsStale(c1.files, target, d.clock)
    ensures Sync(Revalidate(recheckIntervalDays, wait, otherWriters), d, hasher, source, target, expected)
         == Sync(Copy(0), d.(files := c1.files), hasher, source, target, expected)
  {
  }

  /** A revalidated copy that fails with a recent sidecar leads to the back-off. */
  lemma RevalidateBacksOff(d: Disk, hasher: HashProvider, source: Path, target: Path, expected: HashInfo,
                           recheckIntervalDays: int, wait: int, otherWriters: FileMap, c1: Checked)
    requires c1 == Validation(d.files, d.locked, hasher, d.clock, target, "", expected, AllChecks(recheckIntervalDays))
    requires c1.verdict != Valid && !SidecarIsStale(c1.files, target, d.clock)
    ensures Sync(Revalidate(recheckIntervalDays, wait, otherWriters), d, hasher, source, target, expected)
         == Sync(AfterWait(wait, otherWriters), d.(files := c1.files), hasher, source, target, expected)
  {
  }

  /** A copy logs exactly one transfer and takes no time. */
  lemma CopyEvents(d: Disk, hasher: HashProvider, source: Path, target: Path, expected: HashInfo,
                   recheckIntervalDays: int, r: Synced)
    requires r == Sync(Copy(recheckIntervalDays), d, hasher, source, target, expected)
    ensures r.disk.clock == d.clock && r.disk.log == d.log + [Transfer(source, target)]
  {
  }

  /** The back-off takes the wait and logs it, followed by a transfer when
      the copy is still invalid after it. */
  lemma AfterWaitEvents(d: Disk, hasher: HashProvider, source: Path, target: Path, expected: HashInfo,
                        wait: int, otherWriters: FileMap, r: Synced)
    requires r == Sync(AfterWait(wait, otherWriters), d, hasher, source, target, expected)
    ensures r.disk.clock == d.clock + wait
    ensures r.disk.log in {d.log + [Slept(wait)], d.log + [Slept(wait), Transfer(source, target)]}
  {
    var d2 := Waited(d, wait, otherWriters);
    var c2 := Validation(d2.files, d2.locked, hasher, d2.clock, target, "", expected, AllChecks(0));
    if c2.verdict == Valid {
      AfterWaitKeeps(d, hasher, source, target, expected, wait, otherWriters, c2);
    } else {
      AfterWaitRecopies(d, hasher, source, target, expected, wait, otherWriters, c2);
      CopyEvents(d2.(files := c2.files), hasher, source, target, expected, 0, r);
      assert d2.log + [Transfer(source, target)] == d.log + [Slept(wait), Transfer(source, target)];
    }
  }

  /** A revalidation keeps the copy, re-copies at once, or backs off first:
      it logs nothing, a transfer, the wait, or the wait and a transfer, and
      takes no time or the wait. */
  lemma RevalidationEvents(d: Disk, hasher: HashProvider, source: Path, target: Path, expected: HashInfo,
                           recheckIntervalDays: int, wait: int, otherWriters: FileMap, r: Synced)
    requires r == Sync(Revalidate(recheckIntervalDays, wait, otherWriters), d, hasher, source, target, expected)
    ensures r.disk.log in {d.log, d.log + [Transfer(source, target)], d.log + [Slept(wait)],
                           d.log + [Slept(wait), Transfer(source, target)]}
    ensures r.disk.clock in {d.clock, d.clock + wait}
  {
    var c1 := Validation(d.files, d.locked, hasher, d.clock, target, "", expected, AllChecks(recheckIntervalDays));
    var d1 := d.(files := c1.files);
    if c1.verdict == Valid {
    } else if SidecarIsStale(d1.files, target, d1.clock) {
      assert r == Sync(Copy(0), d1, hasher, source, target, expected);
      CopyEvents(d1, hasher, source, target, expected, 0, r);
    } else {
      assert r == Sync(AfterWait(wait, otherWriters), d1, hasher, source, target, expected);
      AfterWaitEvents(d1, hasher, source, target, expected, wait, otherWriters, r);
    }
  }

  /** Validation writes only the two sidecars of the file it validates. */
  lemma ValidationUntouched(files: FileMap, locked: set<Path>, hasher: HashProvider, now: int,
                            localPath: Path, hashCheckFilePath: Path, expected: HashInfo, checks: Checks, p: Path)
    requires p != HashcheckPath(localPath) && p != LastUsedPath(localPath)
    ensures SameAt(files, Validation(files, locked, hasher, now, localPath, hashCheckFilePath, expected, checks).files, p)
  {
  }

  /** A stage writes only the paths it may write. */
  lemma {:induction false} SyncFrame(stage: Stage, d: Disk, hasher: HashProvider, source: Path, target: Path,
                                     expected: HashInfo, p: Path)
    requires p !in Writable(stage, target)
    ensures SameAt(d.files, Sync(stage, d, hasher, source, target, expected).disk.files, p)
    decreases StagesLeft(stage)
  {
    match stage
    case Copy(recheckIntervalDays) =>
      var cleared := DeleteHashcheck(d.files, d.locked, target);
      if source in cleared && target !in d.locked {
        var copied := cleared[target := cleared[source]];
        ValidationUntouched(copied, d.locked, hasher, d.clock, target, "", expected, AllChecks(recheckIntervalDays), p);
      }
    case AfterWait(wait, otherWriters) =>
      var d2 := Waited(d, wait, otherWriters);
      MergeUntouched(d.files, otherWriters, p);
      ValidationUntouched(d2.files, d2.locked, hasher, d2.clock, target, "", expected, AllChecks(0), p);
      var c2 := Validation(d2.files, d2.locked, hasher, d2.clock, target, "", expected, AllChecks(0));
      if c2.verdict == Valid {
        AfterWaitKeeps(d, hasher, source, target, expected, wait, otherWriters, c2);
      } else {
        AfterWaitRecopies(d, hasher, source, target, expected, wait, otherWriters, c2);
        SyncFrame(Copy(0), d2.(files := c2.files), hasher, source, target, expected, p);
      }
    case Revalidate(recheckIntervalDays, wait, otherWriters) =>
      ValidationUntouched(d.files, d.locked, hasher, d.clock, target, "", expected, AllChecks(recheckIntervalDays), p);
      var c1 := Validation(d.files, d.locked, hasher, d.clock, target, "", expected, AllChecks(recheckIntervalDays));
      var d1 := d.(files := c1.files);
      if c1.verdict == Valid {
      } else if SidecarIsStale(d1.files, target, d1.clock) {
        assert Sync(stage, d, hasher, source, target, expected) == Sync(Copy(0), d1, hasher, source, target, expected);
        SyncFrame(Copy(0), d1, hasher, source, target, expected, p);
      } else {
        assert Sync(stage, d, hasher, source, target, expected)
            == Sync(AfterWait(wait, otherWriters), d1, hasher, source, target, expected);
        SyncFrame(AfterWait(wait, otherWriters), d1, hasher, source, target, expected, p);
      }
  }

  /** CopyFileToLocal(sourceFilePath, targetDirectoryPath, out errorMessage,
      recheckIntervalDays, hashType). `jitter` is the value rand.Next(5, 15)
      returns and `otherWriters` what other processes write to the cache
      during the back-off. */
  function LocalCopy(d: Disk, hasher: HashProvider, source: Path, targetDirectory: Path,
                     recheckIntervalDays: int, hashType: HashType, jitter: int, otherWriters: FileMap): Synced
  {
    if source !in d.files then Synced(Invalid(FileNotFound), d)
    else
      var target := TargetPath(source, targetDirectory);
      var p := SourceHashInfo(d.files, d.locked, hasher, d.clock, source, hashType);
      var d1 := d.(files := p.files, directories := d.directories + {targetDirectory});
      if target in d1.files then
        var wait := WaitSeconds(jitter, d.files[source].size);
        Sync(Revalidate(recheckIntervalDays, wait, otherWriters), d1, hasher, source, target, p.expected)
      else Sync(Copy(recheckIntervalDays), d1, hasher, source, target, p.expected)
  }

  // ---------------------------------------------------------------------
  // Properties of CopyFileToLocal

  /** The target, its sidecars and the source's sidecar are different files. */
  lemma CopyPathsDistinct(source: Path, targetDirectory: Path)
    ensures var target := TargetPath(source, targetDirectory);
            && target != HashcheckPath(source)
            && HashcheckPath(target) != source
            && LastUsedPath(target) != source
            && LastUsedPath(target) != HashcheckPath(source)
  {
    var target := TargetPath(source, targetDirectory);
    CombineFileName(targetDirectory, FileName(source));
    SuffixesHoldNoSeparator();
    FileNameAppend(source, HASHCHECK_FILE_SUFFIX);
    FileNameAppend(target, HASHCHECK_FILE_SUFFIX);
    FileNameAppend(target, LASTUSED_FILE_EXTENSION);
    assert LastUsedPath(target)[|LastUsedPath(target)| - 1] == 'd';
    assert HashcheckPath(source)[|HashcheckPath(source)| - 1] == 'k';
  }

  /** CopyFileToLocal writes nothing but the source's sidecar, the local
      copy, the copy's two sidecars and what other processes write meanwhile;
      it creates the target directory and locks nothing. */
  lemma CopyWritesOnlyItsFiles(d: Disk, hasher: HashProvider, source: Path, targetDirectory: Path,
                               recheckIntervalDays: int, hashType: HashType, jitter: int, otherWriters: FileMap,
                               r: Synced, q: Path)
    requires r == LocalCopy(d, hasher, source, targetDirectory, recheckIntervalDays, hashType, jitter, otherWriters)
    requires q != HashcheckPath(source) && q !in CopyFiles(TargetPath(source, targetDirectory)) && q !in otherWriters
    ensures r.disk.locked == d.locked
    ensures source in d.files ==> r.disk.directories == d.directories + {targetDirectory}
    ensures SameAt(d.files, r.disk.files, q)
  {
    if source in d.files {
      var target := TargetPath(source, targetDirectory);
      var p := SourceHashInfo(d.files, d.locked, hasher, d.clock, source, hashType);
      var d1 := d.(files := p.files, directories := d.directories + {targetDirectory});
      var wait := WaitSeconds(jitter, d.files[source].size);
      assert SameAt(d.files, p.files, q);
      if target in d1.files {
        SyncFrame(Revalidate(recheckIntervalDays, wait, otherWriters), d1, hasher, source, target, p.expected, q);
      } else {
        SyncFrame(Copy(recheckIntervalDays), d1, hasher, source, target, p.expected, q);
      }
    }
  }

  /** A log that grew by nothing, a transfer, a wait, or a wait and then a
      transfer grew by at most two events holding at most one transfer. */
  lemma AtMostOneTransfer(before: seq<Event>, after: seq<Event>, source: Path, target: Path, wait: int)
    requires after in {before, before + [Transfer(source, target)], before + [Slept(wait)],
                       before + [Slept(wait), Transfer(source, target)]}
    ensures |before| <= |after| <= |before| + 2 && after[..|before|] == before
    ensures TransferCount(after[|before|..]) <= 1
  {
    var tail := after[|before|..];
    assert after == before + tail;
    assert tail in {[], [Transfer(source, target)], [Slept(wait)], [Slept(wait), Transfer(source, target)]};
    assert TransferCount([Slept(wait)]) == 0;
    assert [Slept(wait), Transfer(source, target)][..1] == [Slept(wait)];
  }

  /** The back-off lies between 5 and 14 seconds beyond the size-based part. */
  lemma WaitBounds(jitter: int, sourceSize: int)
    requires MIN_JITTER_SECONDS <= jitter < MAX_JITTER_SECONDS
    ensures var extra := sourceSize / WAIT_BYTES_PER_SECOND;
            MIN_JITTER_SECONDS + extra <= WaitSeconds(jitter, sourceSize) < MAX_JITTER_SECONDS + extra
  {
  }

  /** One call transfers the file at most once and waits at most once: the
      log only grows, by at most two events of which at most one is a
      transfer, and the clock advances by nothing or by the back-off, which
      is 5 to 14 seconds plus one second per 50 MB. */
  lemma CopyTransfersAndWaitsAtMostOnce(d: Disk, hasher: HashProvider, source: Path, targetDirectory: Path,
                                        recheckIntervalDays: int, hashType: HashType, jitter: int, otherWriters: FileMap,
                                        r: Synced)
    requires MIN_JITTER_SECONDS <= jitter < MAX_JITTER_SECONDS
    requires r == LocalCopy(d, hasher, source, targetDirectory, recheckIntervalDays, hashType, jitter, otherWriters)
    ensures |d.log| <= |r.disk.log| <= |d.log| + 2 && r.disk.log[..|d.log|] == d.log
    ensures TransferCount(r.disk.log[|d.log|..]) <= 1
    ensures || r.disk.clock == d.clock
            || (&& source in d.files
                && var extra := d.files[source].size / WAIT_BYTES_PER_SECOND;
                   MIN_JITTER_SECONDS + extra <= r.disk.clock - d.clock < MAX_JITTER_SECONDS + extra)
  {
    if source in d.files {
      var target := TargetPath(source, targetDirectory);
      var wait := WaitSeconds(jitter, d.files[source].size);
      var p := SourceHashInfo(d.files, d.locked, hasher, d.clock, source, hashType);
      var d1 := d.(files := p.files, directories := d.directories + {targetDirectory});
      if target in p.files {
        assert r == Sync(Revalidate(recheckIntervalDays, wait, otherWriters), d1, hasher, source, target, p.expected);
        RevalidationEvents(d1, hasher, source, target, p.expected, recheckIntervalDays, wait, otherWriters, r);
      } else {
        assert r == Sync(Copy(recheckIntervalDays), d1, hasher, source, target, p.expected);
        CopyEvents(d1, hasher, source, target, p.expected, recheckIntervalDays, r);
      }
      AtMostOneTransfer(d.log, r.disk.log, source, target, wait);
      WaitBounds(jitter, d.files[source].size);
    } else {
      AtMostOneTransfer(d.log, r.disk.log, source, source, 0);
    }
  }

  /** A local copy that validates is kept: no transfer and no wait. */
  lemma ValidCacheHitNeitherCopiesNorWaits(d: Disk, hasher: HashProvider, source: Path, targetDirectory: Path,
                                           recheckIntervalDays: int, hashType: HashType, jitter: int, otherWriters: FileMap)
    requires source in d.files && TargetPath(source, targetDirectory) in d.files
    requires var p := SourceHashInfo(d.files, d.locked, hasher, d.clock, source, hashType);
             Validation(p.files, d.locked, hasher, d.clock, TargetPath(source, targetDirectory), "", p.expected,
                        AllChecks(recheckIntervalDays)).verdict == Valid
    ensures var r := LocalCopy(d, hasher, source, targetDirectory, recheckIntervalDays, hashType, jitter, otherWriters);
            r.verdict == Valid && r.disk.log == d.log && r.disk.clock == d.clock
  {
    CopyPathsDistinct(source, targetDirectory);
    var p := SourceHashInfo(d.files, d.locked, hasher, d.clock, source, hashType);
    assert SameAt(d.files, p.files, TargetPath(source, targetDirectory));
  }

  /** A target that is not there yet is copied once, at once, and trusted on
      first use: it is valid exactly when its hash is not blank and agrees
      with the source's hash when one is known. No .LastUsed file is
      written for it. */
  lemma FreshCopyTrustedOnFirstUse(d: Disk, hasher: HashProvider, source: Path, targetDirectory: Path,
                                   recheckIntervalDays: int, hashType: HashType, jitter: int, otherWriters: FileMap)
    requires source in d.files
    requires var target := TargetPath(source, targetDirectory);
             target !in d.files && target !in d.locked && HashcheckPath(target) !in d.locked
    ensures var r := LocalCopy(d, hasher, source, targetDirectory, recheckIntervalDays, hashType, jitter, otherWriters);
            var target := TargetPath(source, targetDirectory);
            var expected := SourceHashInfo(d.files, d.locked, hasher, d.clock, source, hashType).expected;
            var h := hasher.compute(d.files[source].contents, if expected.hashType == Undefined then SHA1 else expected.hashType);
            && r.disk.log == d.log + [Transfer(source, target)] && r.disk.clock == d.clock
            && target in r.disk.files && r.disk.files[target] == d.files[source]
            && (r.verdict == Valid <==> !IsBlank(h) && (IsBlank(expected.hashValue) || h == expected.hashValue))
            && SameAt(d.files, r.disk.files, LastUsedPath(target))
  {
    var target := TargetPath(source, targetDirectory);
    CopyPathsDistinct(source, targetDirectory);
    SidecarPathsDistinct(target);
    var p := SourceHashInfo(d.files, d.locked, hasher, d.clock, source, hashType);
    assert SameAt(d.files, p.files, target) && SameAt(d.files, p.files, source);
    assert SameAt(d.files, p.files, LastUsedPath(target));
    var d1 := d.(files := p.files, directories := d.directories + {targetDirectory});
    var cleared := DeleteHashcheck(p.files, d.locked, target);
    assert SameAt(p.files, cleared, source) && SameAt(p.files, cleared, LastUsedPath(target));
    var copied := cleared[target := cleared[source]];
    FirstUseTrust(copied, d.locked, hasher, d.clock, target, p.expected, AllChecks(recheckIntervalDays));
    var c := Validation(copied, d.locked, hasher, d.clock, target, "", p.expected, AllChecks(recheckIntervalDays));
    ValidationUntouched(copied, d.locked, hasher, d.clock, target, "", p.expected, AllChecks(recheckIntervalDays), target);
    assert LocalCopy(d, hasher, source, targetDirectory, recheckIntervalDays, hashType, jitter, otherWriters)
        == Sync(Copy(recheckIntervalDays), d1, hasher, source, target, p.expected)
        == Synced(c.verdict, d1.(files := c.files, log := d.log + [Transfer(source, target)]));
  }

  /** When an existing copy fails validation, the call backs off before
      re-copying unless the local sidecar is more than 10 minutes old: the
      first new event is the wait or, for a stale sidecar, the transfer. */
  lemma StaleSidecarSkipsBackOff(d: Disk, hasher: HashProvider, source: Path, targetDirectory: Path,
                                 recheckIntervalDays: int, hashType: HashType, jitter: int, otherWriters: FileMap,
                                 r: Synced)
    requires source in d.files && TargetPath(source, targetDirectory) in d.files
    requires var p := SourceHashInfo(d.files, d.locked, hasher, d.clock, source, hashType);
             Validation(p.files, d.locked, hasher, d.clock, TargetPath(source, targetDirectory), "", p.expected,
                        AllChecks(recheckIntervalDays)).verdict != Valid
    requires r == LocalCopy(d, hasher, source, targetDirectory, recheckIntervalDays, hashType, jitter, otherWriters)
    ensures var target := TargetPath(source, targetDirectory);
            var p := SourceHashInfo(d.files, d.locked, hasher, d.clock, source, hashType);
            var c := Validation(p.files, d.locked, hasher, d.clock, target, "", p.expected, AllChecks(recheckIntervalDays));
            var wait := WaitSeconds(jitter, d.files[source].size);
            && |r.disk.log| > |d.log|
            && (SidecarIsStale(c.files, target, d.clock) ==>
                  r.disk.clock == d.clock && r.disk.log == d.log + [Transfer(source, target)])
            && (!SidecarIsStale(c.files, target, d.clock) ==>
                  r.disk.clock == d.clock + wait && r.disk.log[|d.log|] == Slept(wait))
  {
    var target := TargetPath(source, targetDirectory);
    CopyPathsDistinct(source, targetDirectory);
    var p := SourceHashInfo(d.files, d.locked, hasher, d.clock, source, hashType);
    assert SameAt(d.files, p.files, target);
    var d1 := d.(files := p.files, directories := d.directories + {targetDirectory});
    var wait := WaitSeconds(jitter, d.files[source].size);
    var c := Validation(p.files, d.locked, hasher, d.clock, target, "", p.expected, AllChecks(recheckIntervalDays));
    assert r == Sync(Revalidate(recheckIntervalDays, wait, otherWriters), d1, hasher, source, target, p.expected);
    if SidecarIsStale(c.files, target, d.clock) {
      RevalidateRecopies(d1, hasher, source, target, p.expected, recheckIntervalDays, wait, otherWriters, c);
      CopyEvents(d1.(files := c.files), hasher, source, target, p.expected, 0, r);
    } else {
      RevalidateBacksOff(d1, hasher, source, target, p.expected, recheckIntervalDays, wait, otherWriters, c);
      AfterWaitEvents(d1.(files := c.files), hasher, source, target, p.expected, wait, otherWriters, r);
    }
  }

  /** A hash record a copy can be validated against more than once: it does
      not name a hash type while leaving the value blank. */
  predicate UsableRecord(info: HashInfo) {
    info.hashType == Undefined || !IsBlank(info.hashValue)
  }

  /** Sidecars of different files are different files. */
  lemma HashcheckPathInjective(a: Path, b: Path)
    requires a != b
    ensures HashcheckPath(a) != HashcheckPath(b)
  {
    if |a| == |b| {
      assert HashcheckPath(a)[..|a|] == a && HashcheckPath(b)[..|b|] == b;
    } else {
      assert |HashcheckPath(a)| != |HashcheckPath(b)|;
    }
  }

  /** The last validation of a re-copy that ends valid. */
  lemma LastValidationOfCopy(e: Disk, hasher: HashProvider, source: Path, target: Path, expected: HashInfo,
                             recheckIntervalDays: int)
    returns (last: FileMap)
    requires Sync(Copy(recheckIntervalDays), e, hasher, source, target, expected).verdict == Valid
    requires source !in CopyFiles(target) && HashcheckPath(source) !in CopyFiles(target)
    ensures var r := Sync(Copy(recheckIntervalDays), e, hasher, source, target, expected);
            Validation(last, e.locked, hasher, r.disk.clock, target, "", expected, AllChecks(recheckIntervalDays))
            == Checked(Valid, r.disk.files)
    ensures SameAt(e.files, last, source) && SameAt(e.files, last, HashcheckPath(source))
  {
    var cleared := DeleteHashcheck(e.files, e.locked, target);
    last := cleared[target := cleared[source]];
  }

  /** The last validation of a back-off that ends valid: the one after the
      wait, or the one of the re-copy. */
  lemma LastValidationAfterWait(e: Disk, hasher: HashProvider, source: Path, target: Path, expected: HashInfo,
                                wait: int, otherWriters: FileMap, r: Synced)
    returns (last: FileMap)
    requires r == Sync(AfterWait(wait, otherWriters), e, hasher, source, target, expected) && r.verdict == Valid
    requires source !in Writable(AfterWait(wait, otherWriters), target)
    requires HashcheckPath(source) !in Writable(AfterWait(wait, otherWriters), target)
    ensures Validation(last, e.locked, hasher, r.disk.clock, target, "", expected, AllChecks(0)) == Checked(Valid, r.disk.files)
    ensures SameAt(e.files, last, source) && SameAt(e.files, last, HashcheckPath(source))
  {
    var e2 := Waited(e, wait, otherWriters);
    var c2 := Validation(e2.files, e2.locked, hasher, e2.clock, target, "", expected, AllChecks(0));
    MergeUntouched(e.files, otherWriters, source);
    MergeUntouched(e.files, otherWriters, HashcheckPath(source));
    if c2.verdict == Valid {
      AfterWaitKeeps(e, hasher, source, target, expected, wait, otherWriters, c2);
      last := e2.files;
    } else {
      AfterWaitRecopies(e, hasher, source, target, expected, wait, otherWriters, c2);
      ValidationUntouched(e2.files, e2.locked, hasher, e2.clock, target, "", expected, AllChecks(0), source);
      ValidationUntouched(e2.files, e2.locked, hasher, e2.clock, target, "", expected, AllChecks(0), HashcheckPath(source));
      last := LastValidationOfCopy(e2.(files := c2.files), hasher, source, target, expected, 0);
    }
  }

  /** The last validation of a stage that ends valid: the files it saw and
      the interval it used, at the time the stage ends. The source and its
      sidecar, which no stage writes, are as before. */
  lemma LastValidation(stage: Stage, e: Disk, hasher: HashProvider, source: Path, target: Path, expected: HashInfo)
    returns (last: FileMap, interval: int)
    requires Sync(stage, e, hasher, source, target, expected).verdict == Valid
    requires source !in Writable(stage, target) && HashcheckPath(source) !in Writable(stage, target)
    ensures var r := Sync(stage, e, hasher, source, target, expected);
            Validation(last, e.locked, hasher, r.disk.clock, target, "", expected, AllChecks(interval))
            == Checked(Valid, r.disk.files)
    ensures interval <= 0 || (!stage.AfterWait? && interval == stage.recheckIntervalDays)
    ensures SameAt(e.files, last, source) && SameAt(e.files, last, HashcheckPath(source))
  {
    match stage
    case Copy(recheckIntervalDays) =>
      last := LastValidationOfCopy(e, hasher, source, target, expected, recheckIntervalDays);
      interval := recheckIntervalDays;
    case AfterWait(wait, otherWriters) =>
      last := LastValidationAfterWait(e, hasher, source, target, expected, wait, otherWriters,
                                      Sync(stage, e, hasher, source, target, expected));
      interval := 0;
    case Revalidate(recheckIntervalDays, wait, otherWriters) =>
      var c1 := Validation(e.files, e.locked, hasher, e.clock, target, "", expected, AllChecks(recheckIntervalDays));
      var e1 := e.(files := c1.files);
      ValidationUntouched(e.files, e.locked, hasher, e.clock, target, "", expected, AllChecks(recheckIntervalDays), source);
      ValidationUntouched(e.files, e.locked, hasher, e.clock, target, "", expected, AllChecks(recheckIntervalDays),
                          HashcheckPath(source));
      if c1.verdict == Valid {
        last, interval := e.files, recheckIntervalDays;
      } else if SidecarIsStale(e1.files, target, e.clock) {
        assert Sync(stage, e, hasher, source, target, expected) == Sync(Copy(0), e1, hasher, source, target, expected);
        last := LastValidationOfCopy(e1, hasher, source, target, expected, 0);
        interval := 0;
      } else {
        assert Sync(stage, e, hasher, source, target, expected)
            == Sync(AfterWait(wait, otherWriters), e1, hasher, source, target, expected);
        last := LastValidationAfterWait(e1, hasher, source, target, expected, wait, otherWriters,
                                        Sync(stage, e, hasher, source, target, expected));
        interval := 0;
      }
  }

  /** A second call right after a successful one is a cache hit: it neither
      copies nor waits, and the file is still valid. This holds when the
      target directory is not the source's own directory, other processes do
      not rewrite the source or its sidecar, and any source sidecar is a
      usable record. */
  lemma SecondCallIsCacheHit(d: Disk, hasher: HashProvider, source: Path, targetDirectory: Path,
                             recheckIntervalDays: int, hashType: HashType, jitter: int, otherWriters: FileMap)
    requires source in d.files && source != TargetPath(source, targetDirectory)
    requires source !in otherWriters && HashcheckPath(source) !in otherWriters
    requires HashcheckPath(source) in d.files ==> UsableRecord(ReadHashcheckFile(d.files[HashcheckPath(source)]))
    requires LocalCopy(d, hasher, source, targetDirectory, recheckIntervalDays, hashType, jitter, otherWriters).verdict == Valid
    ensures var r1 := LocalCopy(d, hasher, source, targetDirectory, recheckIntervalDays, hashType, jitter, otherWriters);
            var r2 := LocalCopy(r1.disk, hasher, source, targetDirectory, recheckIntervalDays, hashType, jitter, otherWriters);
            r2.verdict == Valid && r2.disk.log == r1.disk.log && r2.disk.clock == r1.disk.clock
  {
    var target := TargetPath(source, targetDirectory);
    CopyPathsDistinct(source, targetDirectory);
    HashcheckPathInjective(source, target);
    SidecarPathsDistinct(target);
    var locked := d.locked;
    var wait := WaitSeconds(jitter, d.files[source].size);
    var p := SourceHashInfo(d.files, locked, hasher, d.clock, source, hashType);
    var d1 := d.(files := p.files, directories := d.directories + {targetDirectory});
    var stage := if target in d1.files then Revalidate(recheckIntervalDays, wait, otherWriters)
                 else Copy(recheckIntervalDays);
    var r1 := Sync(stage, d1, hasher, source, target, p.expected);
    assert r1 == LocalCopy(d, hasher, source, targetDirectory, recheckIntervalDays, hashType, jitter, otherWriters);
    assert UsableRecord(p.expected);

    // The first call ended with a successful validation of what it saw last.
    var last, interval := LastValidation(stage, d1, hasher, source, target, p.expected);
    ValidationStable(last, locked, hasher, r1.disk.clock, target, p.expected, interval, recheckIntervalDays);
    ValidationUntouched(last, locked, hasher, r1.disk.clock, target, "", p.expected, AllChecks(interval), source);
    ValidationUntouched(last, locked, hasher, r1.disk.clock, target, "", p.expected, AllChecks(interval), HashcheckPath(source));
    ValidationUntouched(last, locked, hasher, r1.disk.clock, target, "", p.expected, AllChecks(interval), target);

    // The second call finds the same source hash info and the copy, which validates.
    SecondSourceHashInfo(d.files, p, last, r1.disk.files, locked, hasher, d.clock, r1.disk.clock, source, hashType);
    var e := r1.disk.(directories := r1.disk.directories + {targetDirectory});
    var again := Revalidate(recheckIntervalDays, wait, otherWriters);
    assert LocalCopy(r1.disk, hasher, source, targetDirectory, recheckIntervalDays, hashType, jitter, otherWriters)
        == Sync(again, e, hasher, source, target, p.expected);
    var c := Validation(r1.disk.files, locked, hasher, r1.disk.clock, target, "", p.expected, AllChecks(recheckIntervalDays));
    assert Sync(again, e, hasher, source, target, p.expected) == Synced(Valid, e.(files := c.files));
  }

  /** The second call reads back the hash info the first call prepared. */
  lemma SecondSourceHashInfo(files: FileMap, p: Prepared, last: FileMap, after: FileMap, locked: set<Path>,
                             hasher: HashProvider, now: int, later: int, source: Path, hashType: HashType)
    requires source in files && p == SourceHashInfo(files, locked, hasher, now, source, hashType)
    requires SameAt(p.files, last, source) && SameAt(p.files, last, HashcheckPath(source))
    requires SameAt(last, after, source) && SameAt(last, after, HashcheckPath(source))
    ensures SourceHashInfo(after, locked, hasher, later, source, hashType) == Prepared(p.expected, after)
  {
  }

  /** The source-side steps of CopyFileToLocal: read or create the source sidecar. */
  method ReadSourceHashInfo(fs: FileSystem, hasher: HashProvider, sourceFilePath: Path, hashType: HashType)
    returns (sourceHashInfo: HashInfo)
    requires sourceFilePath in fs.files
    modifies fs`files
    ensures Prepared(sourceHashInfo, fs.files) == SourceHashInfo(old(fs.files), fs.locked, hasher, fs.clock,
                                                                 sourceFilePath, hashType)
  {
    var sourceFile := fs.files[sourceFilePath];
    var sourceHashcheckFile := sourceFilePath + HASHCHECK_FILE_SUFFIX;
    sourceHashInfo := ClearedHashInfo;
    if sourceHashcheckFile in fs.files {
      sourceHashInfo := ReadHashcheckFile(fs.files[sourceHashcheckFile]);
    } else {
      // Create a sidecar for the source; failing to is only a warning
      var creation := CreateHashcheckFile(fs.files, fs.locked, hasher, fs.clock, sourceFilePath, hashType);
      if creation.Created? {
        fs.files := creation.files;
        if !IsBlank(creation.hashValue) {
          sourceHashInfo := HashInfo(creation.hashValue, hashType, sourceFile.size, sourceFile.lastWriteUtc);
        }
      }
    }
  }

  /** Delete the local sidecar, copy again and validate the new copy. */
  method RecopyFile(fs: FileSystem, hasher: HashProvider, sourceFilePath: Path, targetFile: Path,
                    sourceHashInfo: HashInfo, recheckIntervalDays: int) returns (verdict: Verdict)
    modifies fs`files, fs`log
    ensures Synced(verdict, fs.State()) == Sync(Copy(recheckIntervalDays), old(fs.State()), hasher, sourceFilePath,
                                                targetFile, sourceHashInfo)
  {
    DeleteHashCheckFileForDataFile(fs, targetFile);
    var copied := fs.CopyFileUsingLocks(sourceFilePath, targetFile);
    if !copied {
      return Invalid(Unhandled);
    }
    verdict := ValidateAgainstSource(fs, hasher, targetFile, sourceHashInfo, recheckIntervalDays);
  }

  /** Validate an existing copy; re-copy at once when its sidecar is stale,
      otherwise back off first. */
  method RevalidateOrRecopyFile(fs: FileSystem, hasher: HashProvider, sourceFilePath: Path, targetFile: Path,
                                sourceHashInfo: HashInfo, recheckIntervalDays: int, waitTimeSeconds: int,
                                otherWriters: FileMap) returns (verdict: Verdict)
    modifies fs`files, fs`clock, fs`log
    ensures Synced(verdict, fs.State()) == Sync(Revalidate(recheckIntervalDays, waitTimeSeconds, otherWriters),
                                                old(fs.State()), hasher, sourceFilePath, targetFile, sourceHashInfo)
  {
    var validFile := ValidateAgainstSource(fs, hasher, targetFile, sourceHashInfo, recheckIntervalDays);
    if validFile == Valid {
      return Valid;
    }
    var localHashCheckFile := targetFile + HASHCHECK_FILE_SUFFIX;
    if localHashCheckFile in fs.files && fs.clock - fs.files[localHashCheckFile].lastWriteUtc > STALE_SIDECAR_SECONDS {
      // The local sidecar is over 10 minutes old: re-copy at once
      verdict := RecopyFile(fs, hasher, sourceFilePath, targetFile, sourceHashInfo, 0);
    } else {
      verdict := BackOffAndRevalidate(fs, hasher, sourceFilePath, targetFile, sourceHashInfo, waitTimeSeconds, otherWriters);
    }
  }

  /** Give other processes a chance to finish copying the file, then
      validate again with a forced recompute; re-copy if that still fails. */
  method BackOffAndRevalidate(fs: FileSystem, hasher: HashProvider, sourceFilePath: Path, targetFile: Path,
                              sourceHashInfo: HashInfo, waitTimeSeconds: int, otherWriters: FileMap)
    returns (verdict: Verdict)
    modifies fs`files, fs`clock, fs`log
    ensures Synced(verdict, fs.State()) == Sync(AfterWait(waitTimeSeconds, otherWriters), old(fs.State()), hasher,
                                                sourceFilePath, targetFile, sourceHashInfo)
  {
    fs.SleepSeconds(waitTimeSeconds);
    fs.ConcurrentWrites(otherWriters);
    var validFileB := ValidateAgainstSource(fs, hasher, targetFile, sourceHashInfo, 0);
    if validFileB == Valid {
      return Valid;
    }
    verdict := RecopyFile(fs, hasher, sourceFilePath, targetFile, sourceHashInfo, 0);
  }

  method CopyFileToLocal(fs: FileSystem, hasher: HashProvider, sourceFilePath: Path, targetDirectoryPath: Path,
                         recheckIntervalDays: int, hashType: HashType, jitter: int, otherWriters: FileMap)
    returns (verdict: Verdict)
    requires MIN_JITTER_SECONDS <= jitter < MAX_JITTER_SECONDS
    modifies fs
    ensures Synced(verdict, fs.State()) == LocalCopy(old(fs.State()), hasher, sourceFilePath, targetDirectoryPath,
                                                     recheckIntervalDays, hashType, jitter, otherWriters)
  {
    if sourceFilePath !in fs.files {
      return Invalid(FileNotFound);
    }
    ghost var d := fs.State();
    ghost var p := SourceHashInfo(d.files, d.locked, hasher, d.clock, sourceFilePath, hashType);
    var sourceSize := fs.files[sourceFilePath].size;
    var sourceHashInfo := ReadSourceHashInfo(fs, hasher, sourceFilePath, hashType);

    if targetDirectoryPath !in fs.directories {
      fs.CreateDirectory(targetDirectoryPath);
    }
    assert fs.State() == d.(files := p.files, directories := d.directories + {targetDirectoryPath});
    assert sourceHashInfo == p.expected;

    var targetFile := Combine(targetDirectoryPath, FileName(sourceFilePath));
    assert targetFile == TargetPath(sourceFilePath, targetDirectoryPath);
    if targetFile !in fs.files {
      verdict := RecopyFile(fs, hasher, sourceFilePath, targetFile, sourceHashInfo, recheckIntervalDays);
      return;
    }

    var waitTimeSeconds := WaitSeconds(jitter, sourceSize);
    verdict := RevalidateOrRecopyFile(fs, hasher, sourceFilePath, targetFile, sourceHashInfo, recheckIntervalDays,
                                      waitTimeSeconds, otherWriters);
  }
}
